# Batch regex replacement — a Dafny model

This project models `scripts/batch_replace.py`, a command-line tool that reads
regular-expression replacement rules from rules files and applies them to target files.
Both sets of files are chosen by a regular expression searched in their paths relative to the
working directory. The model covers:

- the rules-file parser: lines are read in windows of three (pattern, replacement, ignored
  separator), and a rule with an empty pattern is dropped;
- the rule-application engine: rules run in order, each counted and substituted on the text
  the previous rules left;
- the processing of one target file over a file system held as a map from path to content:
  the no-change, dry-run, backup-then-write and overwrite branches, with the backup written
  to `path + ".backup"`;
- the file selector: walk entries are filtered by a pattern searched in the relative path,
  after the platform separator has been turned into `/`;
- `main`: exit code 1 for a selection pattern that does not compile, exit code 2 for an empty
  selection, the stable sort of rules files by basename, and the loop over every
  (rules file, target) pair that counts the pairs that changed a target.

The regular-expression engine is a parameter (`Common.Engine`): five functions say whether
a pattern compiles, whether a replacement parses as a template for a pattern, count a
pattern's matches, substitute it and search for it. What is proved is
the bookkeeping around those calls: which text each call sees, in which order files are
visited, what is written where, and what the run reports.

Modules: `Common` (errors, results, the engine), `FileStore` (the file system object),
`RuleFile`, `Transform`, `FileProcess`, `Selector`, `RuleOrder` (basename ordering and the
sort) and `Orchestrator` (`main`).

Each rule's match count is taken on the current text, after the earlier rules have
rewritten it (`scripts/batch_replace.py:47-48`); see `Transform.RuleSeesPriorOutput`.

## Model

| member | source | states |
|---|---|---|
| `FileStore.FileSystem.Write` | scripts/batch_replace.py:79-80 | opening a file for writing and writing the text replaces that path's content and changes no other path |
| `FileStore.FileSystem.Copy` | scripts/batch_replace.py:56 | the copy gives the destination the source's content and changes nothing else |
| `RuleFile.SplitLines` | scripts/batch_replace.py:31 | definition: the lines of a text file with each line feed stripped; a final line without a line feed still counts and a final line feed opens no new line (its properties are the next three rows) |
| `RuleFile.SplitLinesHaveNoLineFeed` | scripts/batch_replace.py:31 | no line of the split content keeps a line feed |
| `RuleFile.SplitJoin` | scripts/batch_replace.py:31 | splitting the content written from lines without line feeds gives those lines back |
| `RuleFile.JoinSplit` | scripts/batch_replace.py:31 | splitting loses only the final line feed: re-joining the lines gives the content, with a line feed added when it is non-empty and had none at the end |
| `RuleFile.ParseFrom` | scripts/batch_replace.py:32-37 | definition: the windows of three lines from index i on, each giving (first line, second line) when it has a second line and a non-empty first line; the third line is never read |
| `RuleFile.ParseRules` | scripts/batch_replace.py:32-37 | definition: the windows parse from the first line, i.e. the rules of a file with these lines, in file order |
| `RuleFile.RuleWindows` | scripts/batch_replace.py:32-36 | the listed windows (three lines each, from the start of the file) are strictly increasing, and each has a second line and a non-empty first line |
| `RuleFile.RuleWindowsComplete` | scripts/batch_replace.py:32-36 | every window that has a second line and a non-empty first line is listed |
| `RuleFile.ParseFromWindows` | scripts/batch_replace.py:32-37 | there is one rule per listed window, and rule k is exactly (line 3v, line 3v + 1) of the k-th listed window v, so rules keep file order |
| `RuleFile.WindowGivesRule` | scripts/batch_replace.py:32-37 | every window with a second line and a non-empty pattern line gives its rule, even when the replacement line is empty |
| `RuleFile.RuleFromWindow` | scripts/batch_replace.py:32-37 | every rule read comes from such a window, so no rule has an empty pattern |
| `RuleFile.RuleCountBound` | scripts/batch_replace.py:32-33 | there are at most (number of lines + 1) / 3 rules |
| `RuleFile.SeparatorIgnored` | scripts/batch_replace.py:32-35 | the third line of each window never affects the rules |
| `RuleFile.AppendLine` | scripts/batch_replace.py:32-33 | one more line at the end matters only when it completes a window that had just a pattern line; a trailing one-line fragment gives nothing, and a missing final separator changes nothing |
| `RuleFile.LoadRules` | scripts/batch_replace.py:29-38 | the loop stepping by three returns exactly the rules of the window parse |
| `RuleFile.RulesOf` | scripts/batch_replace.py:25-38 | definition: NotFound for a path that is not a file, otherwise the rules parsed from the split content |
| `RuleFile.LoadRulesFromFile` | scripts/batch_replace.py:25-38 | a path that is not a file gives NotFound; otherwise the result is the rules parsed from its lines |
| `RuleFile.OneRuleFile` | scripts/batch_replace.py:25-38 | a file holding "foo", "bar" and a blank line gives the single rule foo -> bar |
| `Transform.Accepted` | scripts/batch_replace.py:47-48 | the engine takes a rule when its pattern compiles (for the count and the substitution) and its replacement parses as a template for that pattern |
| `Transform.Rejection` | scripts/batch_replace.py:47-48 | the error a rejected rule raises is always a rule error: the pattern when it does not compile (the count at line 47 raises first), otherwise the replacement |
| `Transform.Apply` | scripts/batch_replace.py:41-50 | a success has exactly one count per rule; a failure is always a rejected pattern or a rejected replacement |
| `Transform.ApplyFailsAtFirstInvalid` | scripts/batch_replace.py:44-50 | the application succeeds if and only if the engine takes every rule; otherwise the error names the first rule it does not take and what it rejected in it |
| `Transform.ApplyNothing` | scripts/batch_replace.py:45-50 | no rules: the text comes back unchanged with an empty count list |
| `Transform.ApplyAppend` | scripts/batch_replace.py:46-50 | applying first + second is applying second to the text first produced, with the two count lists concatenated |
| `Transform.ApplyPrefix` | scripts/batch_replace.py:44-50 | a run that succeeds succeeded on every prefix of the rules, and the prefix's counts open the full list of counts |
| `Transform.RuleSeesPriorOutput` | scripts/batch_replace.py:46-49 | rule k's count is taken on the text rules 0..k-1 produced, and the text after rule k is the substitution applied to that text |
| `Transform.ApplyRulesToText` | scripts/batch_replace.py:41-50 | the loop that counts (failing on a bad pattern), substitutes (failing on a bad replacement) and appends returns exactly the sequential application |
| `FileProcess.BackupPath` | scripts/batch_replace.py:55 | definition: the backup of a path is that path followed by `.backup`, in the same directory |
| `FileProcess.BackupFile` | scripts/batch_replace.py:53-57 | the file map gains or overwrites `path + ".backup"` with the file's content; nothing else changes |
| `FileProcess.Process` | scripts/batch_replace.py:60-84 | errors: a missing target or a rejected pattern or replacement, and nothing is written; the result is true exactly when the text changed; no change or a dry run leaves the map as it was; a real change writes the new text and, unless overwriting, the original to the backup path; only the target and its backup can change and no file disappears |
| `FileProcess.RejectedReplacementWritesNothing` | scripts/batch_replace.py:60-80 | a replacement the engine rejects (after rules it took) stops the target with InvalidReplacement before the write, even when overwriting: the file map is unchanged |
| `FileProcess.ProcessFile` | scripts/batch_replace.py:60-84 | the file system and the result after the method are those `Process` gives for the old file map |
| `Selector.Normalize` | scripts/batch_replace.py:95 | every separator character becomes '/', every other character is kept, and no separator is left |
| `Selector.Matches` | scripts/batch_replace.py:94-96 | definition: a walk entry is chosen when the pattern is found (searched, not anchored) in its relative path with separators turned into '/' |
| `Selector.Selected` | scripts/batch_replace.py:92-98 | the selection has no more paths than the walk |
| `Selector.Select` | scripts/batch_replace.py:89-98 | definition: InvalidPattern when the pattern does not compile, before any walking; otherwise the full paths of the chosen entries in walk order |
| `Selector.SelectedMembers` | scripts/batch_replace.py:92-97 | a path is selected if and only if some walk entry with that full path has a normalised relative path the pattern is found in |
| `Selector.SelectedAppend` | scripts/batch_replace.py:92-98 | the selection keeps walk order: selecting from two walks one after another gives the two selections concatenated |
| `Selector.IterFilesWithRegex` | scripts/batch_replace.py:87-98 | a pattern that does not compile gives InvalidPattern; otherwise the loop returns the filtered walk in order |
| `RuleOrder.Basename` | scripts/batch_replace.py:137 | definition: POSIX `os.path.basename`, the characters after the last '/' |
| `RuleOrder.BasenameIsLastComponent` | scripts/batch_replace.py:137 | the basename is the longest suffix without a '/': a suffix, holding no '/', with a '/' just before it unless it is the whole path |
| `RuleOrder.Less` | scripts/batch_replace.py:137 | definition: Python's `<` on strings, lexicographic by code point with a proper prefix first; `LessIrreflexive`, `LessTransitive` and the next row make it a strict total order |
| `RuleOrder.LessTotal` | scripts/batch_replace.py:137 | any two different basenames are ordered one way or the other |
| `RuleOrder.InsertionPoint` | scripts/batch_replace.py:137 | the insertion point of x is after every path whose basename is not greater than x's and before the first greater one |
| `RuleOrder.Insert` | scripts/batch_replace.py:137 | definition: x placed at its insertion point |
| `RuleOrder.SortByBasename` | scripts/batch_replace.py:137 | definition: the stable sort by basename, inserting the paths one after the other (its properties are the next three rows) |
| `RuleOrder.SortByBasenameSorted` | scripts/batch_replace.py:137 | the sorted rules files are ordered by basename |
| `RuleOrder.SortByBasenamePermutes` | scripts/batch_replace.py:137 | the sorted list is a permutation of the selection |
| `RuleOrder.SortByBasenameStable` | scripts/batch_replace.py:137 | paths with the same basename keep their relative order |
| `RuleOrder.StableSortUnique` | scripts/batch_replace.py:137 | two lists that are both sorted by basename and agree on each basename's order are equal |
| `RuleOrder.AnyStableSortAgrees` | scripts/batch_replace.py:137 | any stable sort by basename gives exactly the model's order |
| `RuleOrder.FindInsertionPoint` | scripts/batch_replace.py:137 | the scan returns the stable insertion point: after every placed path whose basename is not greater, before the first greater one |
| `RuleOrder.SortRuleFiles` | scripts/batch_replace.py:137 | the insertion loop returns the stable sort: sorted, a permutation, each basename's order kept |
| `Orchestrator.CountTrue` | scripts/batch_replace.py:154-160 | the number of changed pairs (`total_changed`) is at most the number of reports |
| `Orchestrator.OverTargets` | scripts/batch_replace.py:158-160 | one rules file's pass over the targets: one report per target processed, one per target when no error, the earlier reports kept, no file removed, and no file changed in a dry run |
| `Orchestrator.OverRuleFiles` | scripts/batch_replace.py:155-160 | the whole pair loop: the earlier reports are kept, no file is removed, and no file changes in a dry run |
| `Orchestrator.OverRuleFilesCount` | scripts/batch_replace.py:155-160 | at most one report per (rules file, target) pair, and exactly one per pair when nothing fails |
| `Orchestrator.OverRuleFilesNext` | scripts/batch_replace.py:155-158 | rules file i is loaded from the file map the earlier files left, then run over all targets |
| `Orchestrator.OverTargetsNext` | scripts/batch_replace.py:158-160 | target j is processed on the file map the earlier targets left, and its report is appended |
| `Orchestrator.OverTargetsStopped` | scripts/batch_replace.py:158-159 | after an error the remaining targets are not processed |
| `Orchestrator.OverRuleFilesStopped` | scripts/batch_replace.py:155-156 | after an error the remaining rules files are not processed |
| `Orchestrator.Expected` | scripts/batch_replace.py:128-166 | exit 1 if and only if the rules pattern does not compile, or rules were found and the target pattern does not compile; exit 2 if and only if a selection, checked in that order, is empty; an exit changes no file; a finished run made one report per pair and its total is the number of pairs that changed a target, at most rules files times targets; a dry run changes no file |
| `Orchestrator.ProcessTarget` | scripts/batch_replace.py:158-160 | one target is processed on the current file map: the pass extends by its report, or stops on its error, and the total grows by one when it changed |
| `Orchestrator.RunRulesFile` | scripts/batch_replace.py:158-160 | the inner loop leaves the file map `OverTargets` gives and adds to the total one per target that changed |
| `Orchestrator.RunRulesFileAt` | scripts/batch_replace.py:155-160 | one step of the outer loop: loads rules file i, or stops on its error, then runs it over the targets as `OverRuleFiles` does |
| `Orchestrator.RunAllPairs` | scripts/batch_replace.py:154-160 | the nested loop leaves the file map `OverRuleFiles` gives and returns its error or the number of changed pairs |
| `Orchestrator.BatchReplace` | scripts/batch_replace.py:128-160 | the run leaves the file map and returns the outcome `Expected` gives |
| `Orchestrator.OverTargetsOnlyRuleErrors` | scripts/batch_replace.py:158-159 | a pass over existing targets can only stop on a rejected pattern or replacement |
| `Orchestrator.OverRuleFilesOnlyRuleErrors` | scripts/batch_replace.py:155-159 | a run over existing rules files and targets can only stop on a rejected pattern or replacement |
| `Orchestrator.SelectedExist` | scripts/batch_replace.py:87-98 | when every walked file exists, every selected path exists |
| `Orchestrator.OnlyRuleErrors` | scripts/batch_replace.py:130-160 | when every walked file exists, the only error that can end a run is a rule whose pattern or replacement the engine rejects |

## Left out

- Regular-expression semantics (`re.findall`, `re.sub`, `re.compile`, `search`, MULTILINE, back-references) are the abstract `Engine` parameter, so properties of concrete patterns (idempotence, `\.txt$` selecting `a.txt` but not `a.txt.bak`, `foo foo baz` becoming `bar bar baz` with count 2) are not stated.
- Directory walking (`os.walk`, `os.getcwd`, `os.path.join`, `os.path.relpath`) is the `walk` parameter: a sequence of (full path, relative path) entries in walk order; the platform separator is the `sep` parameter.
- Reading and writing are over decoded text: UTF-8 decoding and encoding, decode errors, `IOError`, and the newline translation of text mode (`\r\n` and `\r` read as `\n`) are not modelled; `SplitLines` splits on `\n` only.
- `shutil.copy2` metadata (timestamps, permissions) is not modelled; the copy is of content only.
- `os.path.isfile` is modelled as membership in the file map, which holds regular files only; directories and other kinds of file are not modelled.
- `RuleOrder.Basename` follows POSIX `os.path.basename` (split on `/` only); the Windows form, which also splits on `\` and drive letters, is not modelled.
- `RuleOrder.SortRuleFiles` returns a new sorted sequence instead of sorting the list in place; `RuleOrder.AnyStableSortAgrees` shows the order is the one any stable sort gives.
- An uncaught exception (`FileNotFoundError`, `re.error` for a rule's pattern or replacement) ends the run as the outcome `Aborted` with the file map as it stands; the interpreter's exit status and traceback are not modelled.
- argparse, every `print` (the per-rule report lines with pattern, replacement and count, "No changes.", the final summary) are console output: the counts are computed by `Transform.ApplyRulesToText` but not reported.
