/** Processing one target file: transform its text, then report, back up and write. */
module FileProcess {
  import opened Common
  import opened FileStore
  import opened RuleFile
  import opened Transform

  /** The sibling path a backup is copied to: the original path with ".backup" appended. */
  function BackupPath(path: string): string
  {
    path + ".backup"
  }

  /** `backup_file`: copies the file at `path` to its backup path, silently replacing an
      older backup; nothing else in the file system changes. */
  method BackupFile(fs: FileSystem, path: string)
    requires path in fs.files
    modifies fs
    ensures fs.files == old(fs.files)[BackupPath(path) := old(fs.files)[path]]
  {
    fs.Copy(path, BackupPath(path));
  }

  /** The file map after processing one target, and what processing reported:
      Ok(true) when the file's text changed, Ok(false) when it did not, or the error. */
  datatype Step = Step(files: map<string, string>, result: Result<bool>)

  /** `process_file` on a file map: read the target, apply the rules, and when the text
      changed either stop (dry run) or back the original up (unless overwriting) and write
      the new text. */
  function Process(e: Engine, files: map<string, string>, rules: seq<Rule>, path: string,
                   overwrite: bool, dryRun: bool): (s: Step)
    // Errors: a missing target or a rule the engine rejects; nothing is written.
    ensures s.result.Err? <==> path !in files || Apply(e, files[path], rules).Err?
    ensures s.result.Err? ==> s.files == files
    ensures s.result.Err? ==>
      s.result.error == if path !in files then NotFound(path) else Apply(e, files[path], rules).error
    // The result says whether the transformation changed the text.
    ensures s.result.Ok? ==> s.result.value == (Apply(e, files[path], rules).value.text != files[path])
    // No change, or a dry run: the file map is left exactly as it was.
    ensures s.result == Ok(false) ==> s.files == files
    ensures dryRun ==> s.files == files
    // A real change: the target holds the new text, and the backup (if any) the old text.
    ensures s.result == Ok(true) && !dryRun ==>
      && path in s.files && s.files[path] == Apply(e, files[path], rules).value.text
      && (!overwrite ==> BackupPath(path) in s.files && s.files[BackupPath(path)] == files[path])
      && (overwrite ==> s.files.Keys == files.Keys)
    // Only the target and its backup path can change, and no file disappears.
    ensures files.Keys <= s.files.Keys
    ensures forall q :: q != path && q != BackupPath(path) ==>
      (q in s.files <==> q in files) && (q in files ==> s.files[q] == files[q])
    ensures overwrite ==> forall q :: q in files && q != path ==> s.files[q] == files[q]
  {
    if path !in files then Step(files, Err(NotFound(path)))
    else
      var text := files[path];
      match Apply(e, text, rules)
      case Err(err) => Step(files, Err(err))
      case Ok(t) =>
        if t.text == text then Step(files, Ok(false))
        else if dryRun then Step(files, Ok(true))
        else
          var backedUp := if overwrite then files else files[BackupPath(path) := text];
          assert BackupPath(path) != path by { assert |BackupPath(path)| == |path| + 7; }
          Step(backedUp[path := t.text], Ok(true))
  }

  /** A replacement the engine rejects (such as `\1` for a pattern without groups) stops the
      target before anything is written, even when overwriting, and even after earlier
      rules of the list were taken. */
  lemma RejectedReplacementWritesNothing(e: Engine, files: map<string, string>, taken: seq<Rule>,
                                         bad: Rule, path: string, overwrite: bool, dryRun: bool)
    requires path in files
    requires forall k :: 0 <= k < |taken| ==> Accepted(e, taken[k])
    requires e.compiles(bad.pattern) && !e.acceptsReplacement(bad.pattern, bad.replacement)
    ensures var s := Process(e, files, taken + [bad], path, overwrite, dryRun);
      s.files == files && s.result == Err(InvalidReplacement(bad.pattern, bad.replacement))
  {
    var rules := taken + [bad];
    ApplyFailsAtFirstInvalid(e, files[path], taken);
    assert rules[..|rules| - 1] == taken && rules[|rules| - 1] == bad;
  }

  /** `process_file`: the same steps on the file system object; the console report of
      each rule's pattern, replacement and count is not modelled. */
  method ProcessFile(fs: FileSystem, e: Engine, rules: seq<Rule>, path: string,
                     overwrite: bool, dryRun: bool) returns (changed: Result<bool>)
    modifies fs
    ensures Step(fs.files, changed) == Process(e, old(fs.files), rules, path, overwrite, dryRun)
  {
    if path !in fs.files {
      return Err(NotFound(path));
    }
    var text := fs.files[path];
    var applied := ApplyRulesToText(e, text, rules);
    if applied.Err? {
      return Err(applied.error);
    }
    var newText := applied.value.text;
    if newText != text {
      if dryRun {
        return Ok(true);
      }
      if !overwrite {
        BackupFile(fs, path);
      }
      fs.Write(path, newText);
      return Ok(true);
    }
    return Ok(false);
  }
}
