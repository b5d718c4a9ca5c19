/** The whole run (`main`): select rules files and targets, sort the rules files, then apply
    every rules file to every target, counting the targets each pass changed. */
module Orchestrator {
  import opened Common
  import opened FileStore
  import opened RuleFile
  import opened FileProcess
  import opened Selector
  import opened RuleOrder

  /** The number of `true` entries of `bs`. */
  function CountTrue(bs: seq<bool>): (n: nat)
    ensures n <= |bs|
    decreases |bs|
  {
    if bs == [] then 0
    else CountTrue(bs[..|bs| - 1]) + (if bs[|bs| - 1] then 1 else 0)
  }

  /** Where a run stands: the file map, what each (rules file, target) pair processed so
      far reported (true when it changed the target), and the error that stopped it, if any. */
  datatype Progress = Progress(files: map<string, string>, changes: seq<bool>, error: Option<Error>)

  /** One rules file's pass over the targets, in selection order, each target processed on
      the file map the previous ones left; the first error stops the pass. */
  function OverTargets(e: Engine, rules: seq<Rule>, targets: seq<string>, overwrite: bool,
                       dryRun: bool, start: Progress): (p: Progress)
    requires start.error.None?
    ensures |start.changes| <= |p.changes| <= |start.changes| + |targets|
    ensures p.changes[..|start.changes|] == start.changes
    ensures p.error.None? ==> |p.changes| == |start.changes| + |targets|
    ensures start.files.Keys <= p.files.Keys
    ensures dryRun ==> p.files == start.files
    decreases |targets|
  {
    if targets == [] then start
    else
      var q := OverTargets(e, rules, targets[..|targets| - 1], overwrite, dryRun, start);
      if q.error.Some? then q
      else
        var s := Process(e, q.files, rules, targets[|targets| - 1], overwrite, dryRun);
        match s.result
        case Err(err) => Progress(s.files, q.changes, Some(err))
        case Ok(changed) =>
          assert (q.changes + [changed])[..|start.changes|] == q.changes[..|start.changes|];
          Progress(s.files, q.changes + [changed], None)
  }

  /** The rules files in order, each one loaded from the file map as it stands when its turn
      comes and then run over all targets; the first error stops the run. */
  function OverRuleFiles(e: Engine, ruleFiles: seq<string>, targets: seq<string>, overwrite: bool,
                         dryRun: bool, start: Progress): (p: Progress)
    requires start.error.None?
    ensures |start.changes| <= |p.changes|
    ensures p.changes[..|start.changes|] == start.changes
    ensures start.files.Keys <= p.files.Keys
    ensures dryRun ==> p.files == start.files
    decreases |ruleFiles|
  {
    if ruleFiles == [] then start
    else
      var n := |ruleFiles|;
      var q := OverRuleFiles(e, ruleFiles[..n - 1], targets, overwrite, dryRun, start);
      if q.error.Some? then q
      else
        match RulesOf(q.files, ruleFiles[n - 1])
        case Err(err) => Progress(q.files, q.changes, Some(err))
        case Ok(rules) =>
          var r := OverTargets(e, rules, targets, overwrite, dryRun, q);
          assert r.changes[..|start.changes|] == q.changes[..|q.changes|][..|start.changes|];
          r
  }

  lemma MulStep(n: nat, t: nat)
    requires n > 0
    ensures (n - 1) * t + t == n * t
  {
  }

  /** Each rules file adds at most one report per target, and exactly one when the run
      does not stop: a finished run has |ruleFiles| * |targets| reports. */
  lemma {:induction false} OverRuleFilesCount(e: Engine, ruleFiles: seq<string>, targets: seq<string>,
                                              overwrite: bool, dryRun: bool, start: Progress)
    requires start.error.None?
    ensures var p := OverRuleFiles(e, ruleFiles, targets, overwrite, dryRun, start);
      && |p.changes| <= |start.changes| + |ruleFiles| * |targets|
      && (p.error.None? ==> |p.changes| == |start.changes| + |ruleFiles| * |targets|)
    decreases |ruleFiles|
  {
    if ruleFiles != [] {
      var n, t := |ruleFiles|, |targets|;
      var init := ruleFiles[..n - 1];
      OverRuleFilesCount(e, init, targets, overwrite, dryRun, start);
      var q := OverRuleFiles(e, init, targets, overwrite, dryRun, start);
      var p := OverRuleFiles(e, ruleFiles, targets, overwrite, dryRun, start);
      var before, after := |start.changes| + (n - 1) * t, |start.changes| + n * t;
      assert before + t == after by { MulStep(n, t); }
      assert |q.changes| <= before;
      if q.error.None? {
        assert |q.changes| == before;
        assert |q.changes| <= |p.changes| <= |q.changes| + t;
      }
    }
  }

  /** How a run ends: an exit code before any file is processed (1: a selection pattern does
      not compile, 2: a selection is empty), an uncaught error part-way, or the total
      number of changed (rules file, target) pairs. */
  datatype RunOutcome = Exit(code: nat) | Aborted(error: Error) | Finished(totalChanged: nat)

  /** The file map after a run, the change report of every pair processed, and the outcome. */
  datatype Run = Run(files: map<string, string>, changes: seq<bool>, outcome: RunOutcome)

  /** What `main` does, given the files the directory walk meets (`walk`, the same walk for
      both selections since nothing changes between them) and the platform separator. */
  function Expected(e: Engine, files: map<string, string>, walk: seq<WalkEntry>, sep: char,
                    rulesRegex: string, targetRegex: string, overwrite: bool, dryRun: bool): (r: Run)
    // Exit codes: decided in the order rules pattern, rules selection, target pattern,
    // target selection; nothing is processed, so no file changes.
    ensures r.outcome.Exit? ==> r.files == files && r.changes == []
    ensures r.outcome == Exit(1) <==>
      !e.compiles(rulesRegex) || (Selected(e, rulesRegex, walk, sep) != [] && !e.compiles(targetRegex))
    ensures r.outcome == Exit(2) <==>
      e.compiles(rulesRegex) &&
      (Selected(e, rulesRegex, walk, sep) == [] || (e.compiles(targetRegex) && Selected(e, targetRegex, walk, sep) == []))
    // A finished run processed every pair once and counts the pairs that changed a target.
    ensures r.outcome.Finished? ==>
      && |r.changes| == |Selected(e, rulesRegex, walk, sep)| * |Selected(e, targetRegex, walk, sep)|
      && r.outcome.totalChanged == CountTrue(r.changes)
      && r.outcome.totalChanged <= |Selected(e, rulesRegex, walk, sep)| * |Selected(e, targetRegex, walk, sep)|
    // A dry run never changes a file; no run ever removes one.
    ensures dryRun ==> r.files == files
    ensures files.Keys <= r.files.Keys
  {
    match Select(e, rulesRegex, walk, sep)
    case Err(_) => Run(files, [], Exit(1))
    case Ok(ruleFiles) =>
      if ruleFiles == [] then Run(files, [], Exit(2))
      else
        var sorted := SortByBasename(ruleFiles);
        SortByBasenamePermutes(ruleFiles);
        assert |sorted| == |multiset(sorted)| == |ruleFiles|;
        match Select(e, targetRegex, walk, sep)
        case Err(_) => Run(files, [], Exit(1))
        case Ok(targets) =>
          if targets == [] then Run(files, [], Exit(2))
          else
            var p := OverRuleFiles(e, sorted, targets, overwrite, dryRun, Progress(files, [], None));
            OverRuleFilesCount(e, sorted, targets, overwrite, dryRun, Progress(files, [], None));
            Run(p.files, p.changes, if p.error.Some? then Aborted(p.error.value) else Finished(CountTrue(p.changes)))
  }

  /** Once a pass over the targets has stopped on an error, the remaining targets are skipped. */
  lemma {:induction false} OverTargetsStopped(e: Engine, rules: seq<Rule>, targets: seq<string>, overwrite: bool,
                                              dryRun: bool, start: Progress, k: nat)
    requires start.error.None? && k <= |targets|
    requires OverTargets(e, rules, targets[..k], overwrite, dryRun, start).error.Some?
    ensures OverTargets(e, rules, targets, overwrite, dryRun, start)
         == OverTargets(e, rules, targets[..k], overwrite, dryRun, start)
    decreases |targets| - k
  {
    if k < |targets| {
      var init := targets[..|targets| - 1];
      assert init[..k] == targets[..k];
      OverTargetsStopped(e, rules, init, overwrite, dryRun, start, k);
    } else {
      assert targets[..k] == targets;
    }
  }

  /** Once the run has stopped on an error, the remaining rules files are skipped. */
  lemma {:induction false} OverRuleFilesStopped(e: Engine, ruleFiles: seq<string>, targets: seq<string>, overwrite: bool,
                                                dryRun: bool, start: Progress, k: nat)
    requires start.error.None? && k <= |ruleFiles|
    requires OverRuleFiles(e, ruleFiles[..k], targets, overwrite, dryRun, start).error.Some?
    ensures OverRuleFiles(e, ruleFiles, targets, overwrite, dryRun, start)
         == OverRuleFiles(e, ruleFiles[..k], targets, overwrite, dryRun, start)
    decreases |ruleFiles| - k
  {
    if k < |ruleFiles| {
      var init := ruleFiles[..|ruleFiles| - 1];
      assert init[..k] == ruleFiles[..k];
      OverRuleFilesStopped(e, init, targets, overwrite, dryRun, start, k);
    } else {
      assert ruleFiles[..k] == ruleFiles;
    }
  }

  /** One more target: the pass so far, then that target processed on the file map it left. */
  lemma OverTargetsNext(e: Engine, rules: seq<Rule>, targets: seq<string>, overwrite: bool,
                        dryRun: bool, start: Progress, j: nat, sofar: Progress)
    requires start.error.None? && j < |targets|
    requires OverTargets(e, rules, targets[..j], overwrite, dryRun, start) == sofar && sofar.error.None?
    ensures var s := Process(e, sofar.files, rules, targets[j], overwrite, dryRun);
      OverTargets(e, rules, targets[..j + 1], overwrite, dryRun, start)
      == match s.result
         case Err(err) => Progress(s.files, sofar.changes, Some(err))
         case Ok(changed) => Progress(s.files, sofar.changes + [changed], None)
  {
    assert targets[..j + 1][..j] == targets[..j];
  }

  /** Target j of a pass goes through `process_file` on the file map the earlier targets
      left; the pass so far then extends by that target's report, or stops on its error,
      and the total grows by one when the target changed. */
  method ProcessTarget(fs: FileSystem, e: Engine, rules: seq<Rule>, targets: seq<string>, overwrite: bool,
                       dryRun: bool, ghost before: Progress, j: nat, ghost changes: seq<bool>, total: nat)
    returns (newTotal: nat, error: Option<Error>, ghost newChanges: seq<bool>)
    requires before.error.None? && j < |targets| && total == CountTrue(changes)
    requires OverTargets(e, rules, targets[..j], overwrite, dryRun, before) == Progress(fs.files, changes, None)
    modifies fs
    ensures OverTargets(e, rules, targets[..j + 1], overwrite, dryRun, before) == Progress(fs.files, newChanges, error)
    ensures error.None? ==> newTotal == CountTrue(newChanges)
  {
    OverTargetsNext(e, rules, targets, overwrite, dryRun, before, j, Progress(fs.files, changes, None));
    var changed := ProcessFile(fs, e, rules, targets[j], overwrite, dryRun);
    if changed.Err? {
      return total, Some(changed.error), changes;
    }
    newChanges := changes + [changed.value];
    assert newChanges[..|changes|] == changes;
    newTotal := if changed.value then total + 1 else total;
    error := None;
  }

  /** One rules file's pass in `main`: every target in selection order goes through
      `process_file`, and `total` grows by one for each target that changed. */
  method RunRulesFile(fs: FileSystem, e: Engine, rules: seq<Rule>, targets: seq<string>,
                      overwrite: bool, dryRun: bool, total: nat, ghost before: Progress)
    returns (newTotal: nat, error: Option<Error>)
    requires before.error.None? && before.files == fs.files && total == CountTrue(before.changes)
    modifies fs
    ensures var p := OverTargets(e, rules, targets, overwrite, dryRun, before);
      fs.files == p.files && error == p.error && (error.None? ==> newTotal == CountTrue(p.changes))
  {
    ghost var changes := before.changes;
    newTotal := total;
    var j := 0;
    while j < |targets|
      invariant j <= |targets|
      invariant OverTargets(e, rules, targets[..j], overwrite, dryRun, before) == Progress(fs.files, changes, None)
      invariant newTotal == CountTrue(changes)
    {
      newTotal, error, changes := ProcessTarget(fs, e, rules, targets, overwrite, dryRun, before, j, changes, newTotal);
      if error.Some? {
        OverTargetsStopped(e, rules, targets, overwrite, dryRun, before, j + 1);
        return;
      }
      j := j + 1;
    }
    assert targets[..j] == targets;
    error := None;
  }

  /** One more rules file: the run so far, then that file loaded from the file map it left
      and run over all targets. */
  lemma OverRuleFilesNext(e: Engine, ruleFiles: seq<string>, targets: seq<string>, overwrite: bool,
                          dryRun: bool, start: Progress, i: nat, sofar: Progress)
    requires start.error.None? && i < |ruleFiles|
    requires OverRuleFiles(e, ruleFiles[..i], targets, overwrite, dryRun, start) == sofar && sofar.error.None?
    ensures OverRuleFiles(e, ruleFiles[..i + 1], targets, overwrite, dryRun, start)
      == var loaded := RulesOf(sofar.files, ruleFiles[i]);
         if loaded.Err? then Progress(sofar.files, sofar.changes, Some(loaded.error))
         else OverTargets(e, loaded.value, targets, overwrite, dryRun, sofar)
  {
    assert ruleFiles[..i + 1][..i] == ruleFiles[..i];
  }

  /** Rules file i of the run: loaded when its turn comes, then run over every target; the
      run so far extends by that file's pass, which may stop on an error. */
  method RunRulesFileAt(fs: FileSystem, e: Engine, ruleFiles: seq<string>, targets: seq<string>,
                        overwrite: bool, dryRun: bool, ghost start: Progress, i: nat,
                        ghost changes: seq<bool>, total: nat)
    returns (newTotal: nat, error: Option<Error>, ghost newChanges: seq<bool>)
    requires start.error.None? && i < |ruleFiles| && total == CountTrue(changes)
    requires OverRuleFiles(e, ruleFiles[..i], targets, overwrite, dryRun, start) == Progress(fs.files, changes, None)
    modifies fs
    ensures OverRuleFiles(e, ruleFiles[..i + 1], targets, overwrite, dryRun, start) == Progress(fs.files, newChanges, error)
    ensures error.None? ==> newTotal == CountTrue(newChanges)
  {
    ghost var before := Progress(fs.files, changes, None);
    OverRuleFilesNext(e, ruleFiles, targets, overwrite, dryRun, start, i, before);
    var loaded := LoadRulesFromFile(fs, ruleFiles[i]);
    if loaded.Err? {
      return total, Some(loaded.error), changes;
    }
    newTotal, error := RunRulesFile(fs, e, loaded.value, targets, overwrite, dryRun, total, before);
    newChanges := OverTargets(e, loaded.value, targets, overwrite, dryRun, before).changes;
  }

  /** The loop of `main` over the sorted rules files: each file is loaded when its turn
      comes and run over all targets; the total counts every (rules file, target) pair whose
      processing changed the target. */
  method RunAllPairs(fs: FileSystem, e: Engine, ruleFiles: seq<string>, targets: seq<string>,
                     overwrite: bool, dryRun: bool) returns (outcome: RunOutcome)
    modifies fs
    ensures var p := OverRuleFiles(e, ruleFiles, targets, overwrite, dryRun, Progress(old(fs.files), [], None));
      fs.files == p.files
      && outcome == if p.error.Some? then Aborted(p.error.value) else Finished(CountTrue(p.changes))
  {
    ghost var start := Progress(fs.files, [], None);
    ghost var changes: seq<bool> := [];
    var totalChanged := 0;
    var i := 0;
    while i < |ruleFiles|
      invariant i <= |ruleFiles|
      invariant OverRuleFiles(e, ruleFiles[..i], targets, overwrite, dryRun, start) == Progress(fs.files, changes, None)
      invariant totalChanged == CountTrue(changes)
    {
      var error;
      totalChanged, error, changes := RunRulesFileAt(fs, e, ruleFiles, targets, overwrite, dryRun, start, i, changes, totalChanged);
      if error.Some? {
        OverRuleFilesStopped(e, ruleFiles, targets, overwrite, dryRun, start, i + 1);
        return Aborted(error.value);
      }
      i := i + 1;
    }
    assert ruleFiles[..i] == ruleFiles;
    outcome := Finished(totalChanged);
  }

  /** `main` after argument parsing: select the rules files (exit 1 on a bad pattern, 2 when
      none), sort them by basename, select the targets likewise, then run every pair. */
  method BatchReplace(fs: FileSystem, e: Engine, walk: seq<WalkEntry>, sep: char,
                      rulesRegex: string, targetRegex: string, overwrite: bool, dryRun: bool)
    returns (outcome: RunOutcome)
    modifies fs
    ensures var r := Expected(e, old(fs.files), walk, sep, rulesRegex, targetRegex, overwrite, dryRun);
      fs.files == r.files && outcome == r.outcome
  {
    var selectedRules := IterFilesWithRegex(e, rulesRegex, walk, sep);
    if selectedRules.Err? {
      return Exit(1);
    }
    var ruleFiles := selectedRules.value;
    if ruleFiles == [] {
      return Exit(2);
    }
    ruleFiles := SortRuleFiles(ruleFiles);
    var selectedTargets := IterFilesWithRegex(e, targetRegex, walk, sep);
    if selectedTargets.Err? {
      return Exit(1);
    }
    var targets := selectedTargets.value;
    if targets == [] {
      return Exit(2);
    }
    outcome := RunAllPairs(fs, e, ruleFiles, targets, overwrite, dryRun);
  }

  /** A pass over targets that all exist can only stop on a rule the engine rejects. */
  lemma {:induction false} OverTargetsOnlyRuleErrors(e: Engine, rules: seq<Rule>, targets: seq<string>,
                                                        overwrite: bool, dryRun: bool, start: Progress)
    requires start.error.None?
    requires forall t :: t in targets ==> t in start.files
    ensures var p := OverTargets(e, rules, targets, overwrite, dryRun, start);
      p.error.Some? ==> RuleError(p.error.value)
    decreases |targets|
  {
    if targets != [] {
      var init := targets[..|targets| - 1];
      assert forall t :: t in init ==> t in targets;
      OverTargetsOnlyRuleErrors(e, rules, init, overwrite, dryRun, start);
    }
  }

  /** A run whose rules files and targets all exist can only stop on a rejected rule:
      processing never removes a file, so a file selected at the start is still there. */
  lemma {:induction false} OverRuleFilesOnlyRuleErrors(e: Engine, ruleFiles: seq<string>, targets: seq<string>,
                                                          overwrite: bool, dryRun: bool, start: Progress)
    requires start.error.None?
    requires forall f :: f in ruleFiles ==> f in start.files
    requires forall t :: t in targets ==> t in start.files
    ensures var p := OverRuleFiles(e, ruleFiles, targets, overwrite, dryRun, start);
      p.error.Some? ==> RuleError(p.error.value)
    decreases |ruleFiles|
  {
    if ruleFiles != [] {
      var init := ruleFiles[..|ruleFiles| - 1];
      assert forall f :: f in init ==> f in ruleFiles;
      OverRuleFilesOnlyRuleErrors(e, init, targets, overwrite, dryRun, start);
      var q := OverRuleFiles(e, init, targets, overwrite, dryRun, start);
      if q.error.None? {
        assert ruleFiles[|ruleFiles| - 1] in q.files;
        match RulesOf(q.files, ruleFiles[|ruleFiles| - 1])
        case Err(_) =>
        case Ok(rules) =>
          OverTargetsOnlyRuleErrors(e, rules, targets, overwrite, dryRun, q);
      }
    }
  }

  /** Every path a selection returns is in the file map when every walked file is. */
  lemma SelectedExist(e: Engine, files: map<string, string>, regex: string, walk: seq<WalkEntry>, sep: char)
    requires forall k :: 0 <= k < |walk| ==> walk[k].fullPath in files
    ensures forall f :: f in Selected(e, regex, walk, sep) ==> f in files
  {
    forall f | f in Selected(e, regex, walk, sep)
      ensures f in files
    {
      SelectedMembers(e, regex, walk, sep, f);
    }
  }

  /** Sorting keeps the paths, so sorted paths that were in the file map still are. */
  lemma SortedExist(files: map<string, string>, paths: seq<string>)
    requires forall f :: f in paths ==> f in files
    ensures forall f :: f in SortByBasename(paths) ==> f in files
  {
    SortByBasenamePermutes(paths);
    assert forall f :: f in SortByBasename(paths) ==> f in multiset(SortByBasename(paths));
  }

  /** When every file the walk reports exists in the file map, a run never fails on a
      missing rules or target file: the only error that can end it is a rule whose pattern
      or replacement the engine rejects. */
  lemma OnlyRuleErrors(e: Engine, files: map<string, string>, walk: seq<WalkEntry>, sep: char,
                          rulesRegex: string, targetRegex: string, overwrite: bool, dryRun: bool)
    requires forall k :: 0 <= k < |walk| ==> walk[k].fullPath in files
    ensures var r := Expected(e, files, walk, sep, rulesRegex, targetRegex, overwrite, dryRun);
      r.outcome.Aborted? ==> RuleError(r.outcome.error)
  {
    var ruleFiles := Selected(e, rulesRegex, walk, sep);
    var targets := Selected(e, targetRegex, walk, sep);
    SelectedExist(e, files, rulesRegex, walk, sep);
    SelectedExist(e, files, targetRegex, walk, sep);
    SortedExist(files, ruleFiles);
    OverRuleFilesOnlyRuleErrors(e, SortByBasename(ruleFiles), targets, overwrite, dryRun, Progress(files, [], None));
  }
}
