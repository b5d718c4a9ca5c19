/** Selecting files by a regular expression searched in their relative paths. */
module Selector {
  import opened Common

  /** A file met while walking the tree under the root: its full path and its path
      relative to the root, in the order the walk meets them. */
  datatype WalkEntry = WalkEntry(fullPath: string, relPath: string)

  /** A relative path with every occurrence of the platform separator `sep` turned into '/'. */
  function Normalize(rel: string, sep: char): (r: string)
    ensures |r| == |rel|
    ensures forall i :: 0 <= i < |rel| ==> r[i] == (if rel[i] == sep then '/' else rel[i])
    ensures sep != '/' ==> sep !in r
    decreases |rel|
  {
    if rel == [] then []
    else [if rel[0] == sep then '/' else rel[0]] + Normalize(rel[1..], sep)
  }

  /** The walk entry is selected: the pattern is found somewhere in its normalised path. */
  predicate Matches(e: Engine, regex: string, sep: char, w: WalkEntry)
  {
    e.search(regex, Normalize(w.relPath, sep))
  }

  /** The full paths of the selected walk entries, in walk order. */
  function Selected(e: Engine, regex: string, walk: seq<WalkEntry>, sep: char): (paths: seq<string>)
    ensures |paths| <= |walk|
    decreases |walk|
  {
    if walk == [] then []
    else
      var w := walk[|walk| - 1];
      Selected(e, regex, walk[..|walk| - 1], sep) + (if Matches(e, regex, sep, w) then [w.fullPath] else [])
  }

  /** `iter_files_with_regex` as a value: the pattern must compile, then the walk is filtered. */
  function Select(e: Engine, regex: string, walk: seq<WalkEntry>, sep: char): Result<seq<string>>
  {
    if !e.compiles(regex) then Err(InvalidPattern(regex)) else Ok(Selected(e, regex, walk, sep))
  }

  /** A path is selected exactly when some walk entry with that full path matches. */
  lemma {:induction false} SelectedMembers(e: Engine, regex: string, walk: seq<WalkEntry>, sep: char, p: string)
    ensures p in Selected(e, regex, walk, sep) <==>
      exists k :: 0 <= k < |walk| && walk[k].fullPath == p && Matches(e, regex, sep, walk[k])
    decreases |walk|
  {
    if walk != [] {
      var init := walk[..|walk| - 1];
      SelectedMembers(e, regex, init, sep, p);
      assert forall k :: 0 <= k < |init| ==> init[k] == walk[k];
      if exists k :: 0 <= k < |walk| && walk[k].fullPath == p && Matches(e, regex, sep, walk[k]) {
        var k :| 0 <= k < |walk| && walk[k].fullPath == p && Matches(e, regex, sep, walk[k]);
        if k < |init| {
          assert init[k].fullPath == p && Matches(e, regex, sep, init[k]);
        }
      }
    }
  }

  /** Selection keeps walk order: selecting from two walks one after the other gives the
      two selections one after the other. */
  lemma {:induction false} SelectedAppend(e: Engine, regex: string, first: seq<WalkEntry>, second: seq<WalkEntry>, sep: char)
    ensures Selected(e, regex, first + second, sep) == Selected(e, regex, first, sep) + Selected(e, regex, second, sep)
    decreases |second|
  {
    if second == [] {
      assert first + second == first;
    } else {
      var init := second[..|second| - 1];
      assert (first + second)[..|first + second| - 1] == first + init;
      SelectedAppend(e, regex, first, init, sep);
    }
  }

  /** `iter_files_with_regex`: compiles the pattern, then walks the files in order and keeps
      the full path of each one whose normalised relative path the pattern is found in. */
  method IterFilesWithRegex(e: Engine, regex: string, walk: seq<WalkEntry>, sep: char)
    returns (r: Result<seq<string>>)
    ensures r == Select(e, regex, walk, sep)
  {
    if !e.compiles(regex) {
      return Err(InvalidPattern(regex));
    }
    var matched: seq<string> := [];
    var i := 0;
    while i < |walk|
      invariant i <= |walk|
      invariant matched == Selected(e, regex, walk[..i], sep)
    {
      var relPath := Normalize(walk[i].relPath, sep);
      assert walk[..i + 1][..i] == walk[..i];
      if e.search(regex, relPath) {
        matched := matched + [walk[i].fullPath];
      }
      i := i + 1;
    }
    assert walk[..i] == walk;
    r := Ok(matched);
  }
}
