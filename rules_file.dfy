/** Reading a rules file into an ordered list of (pattern, replacement) rules. */
module RuleFile {
  import opened Common
  import opened FileStore

  /** One replacement rule: every match of `pattern` is replaced by `replacement`. */
  datatype Rule = Rule(pattern: string, replacement: string)

  /** Index of the first line feed in `s` at or after i, or |s| when there is none. */
  function LineEndFrom(s: string, i: nat): (j: nat)
    requires i <= |s|
    ensures i <= j <= |s|
    ensures j < |s| ==> s[j] == '\n'
    decreases |s| - i
  {
    if i == |s| || s[i] == '\n' then i else LineEndFrom(s, i + 1)
  }

  /** Index of the first line feed in `s`, or |s| when there is none. */
  function LineEnd(s: string): (j: nat)
    ensures j <= |s|
    ensures j < |s| ==> s[j] == '\n'
  {
    LineEndFrom(s, 0)
  }

  /** No line feed lies between i and `LineEndFrom(s, i)`. */
  lemma {:induction false} LineEndFromIsFirst(s: string, i: nat)
    requires i <= |s|
    ensures forall k :: i <= k < LineEndFrom(s, i) ==> s[k] != '\n'
    decreases |s| - i
  {
    if i < |s| && s[i] != '\n' {
      LineEndFromIsFirst(s, i + 1);
    }
  }

  /** No line feed comes before `LineEnd(s)`: it is the first one. */
  lemma LineEndIsFirst(s: string)
    ensures forall k :: 0 <= k < LineEnd(s) ==> s[k] != '\n'
  {
    LineEndFromIsFirst(s, 0);
  }

  /** The lines that iterating over a text file accepted, each with its line feed stripped:
      a final line without a line feed still counts, a final line feed opens no new line. */
  function SplitLines(content: string): seq<string>
    decreases |content|
  {
    if content == [] then []
    else
      var j := LineEnd(content);
      if j == |content| then [content]
      else [content[..j]] + SplitLines(content[j + 1..])
  }

  /** No line that splitting gives holds a line feed. */
  lemma {:induction false} SplitLinesHaveNoLineFeed(content: string)
    ensures forall i :: 0 <= i < |SplitLines(content)| ==> '\n' !in SplitLines(content)[i]
    decreases |content|
  {
    if content != [] {
      var j := LineEnd(content);
      LineEndIsFirst(content);
      if j < |content| {
        SplitLinesHaveNoLineFeed(content[j + 1..]);
        assert SplitLines(content) == [content[..j]] + SplitLines(content[j + 1..]);
      }
    }
  }

  /** The content of a file that holds `lines`, each one terminated by a line feed. */
  function JoinLines(lines: seq<string>): string
  {
    if lines == [] then [] else lines[0] + "\n" + JoinLines(lines[1..])
  }

  /** Splitting the content written from a list of lines gives the list back. */
  lemma {:induction false} SplitJoin(lines: seq<string>)
    requires forall i :: 0 <= i < |lines| ==> '\n' !in lines[i]
    ensures SplitLines(JoinLines(lines)) == lines
  {
    if lines != [] {
      var s := JoinLines(lines);
      var n := |lines[0]|;
      assert s == lines[0] + "\n" + JoinLines(lines[1..]);
      assert s[n] == '\n';
      LineEndIsFirst(s);
      var j := LineEnd(s);
      assert j == n;
      assert s[..j] == lines[0];
      assert s[j + 1..] == JoinLines(lines[1..]);
      SplitJoin(lines[1..]);
    }
  }

  lemma JoinCons(line: string, tail: seq<string>)
    ensures JoinLines([line] + tail) == line + "\n" + JoinLines(tail)
  {
    assert ([line] + tail)[1..] == tail;
  }

  /** The content with a line feed added at the end unless it is empty or already has one. */
  function Terminated(content: string): string
  {
    if content == [] || content[|content| - 1] == '\n' then content else content + "\n"
  }

  lemma TerminatedAfterLine(line: string, rest: string)
    ensures Terminated(line + "\n" + rest) == line + "\n" + Terminated(rest)
  {
    if rest != [] {
      assert (line + "\n" + rest)[|line + "\n" + rest| - 1] == rest[|rest| - 1];
    }
  }

  /** Content without a line feed is one unterminated line. */
  lemma SplitWhole(content: string)
    requires content != [] && LineEnd(content) == |content|
    ensures SplitLines(content) == [content]
    ensures Terminated(content) == content + "\n"
  {
    LineEndIsFirst(content);
  }

  /** Content with a line feed is its first line, that line feed, and the rest. */
  lemma SplitAtLineEnd(content: string)
    requires LineEnd(content) < |content|
    ensures content == content[..LineEnd(content)] + "\n" + content[LineEnd(content) + 1..]
  {
    var j := LineEnd(content);
    assert content[..j + 1] == content[..j] + "\n";
  }

  /** Content with a line feed splits into its first line and the lines of the rest. */
  lemma SplitLinesAtLineEnd(content: string)
    requires LineEnd(content) < |content|
    ensures SplitLines(content) == [content[..LineEnd(content)]] + SplitLines(content[LineEnd(content) + 1..])
  {
  }

  /** Splitting loses nothing but the final line feed: joining the lines back gives the
      content, with a line feed added when the content did not end in one. */
  lemma {:induction false} JoinSplit(content: string)
    ensures JoinLines(SplitLines(content)) == Terminated(content)
    decreases |content|
  {
    if content != [] {
      var j := LineEnd(content);
      if j == |content| {
        SplitWhole(content);
        JoinCons(content, []);
      } else {
        SplitAtLineEnd(content);
        SplitLinesAtLineEnd(content);
        var line, rest := content[..j], content[j + 1..];
        JoinSplit(rest);
        JoinCons(line, SplitLines(rest));
        TerminatedAfterLine(line, rest);
      }
    }
  }

  /** The rules read from the windows of three lines starting at index i, i + 3, i + 6, ...:
      a window with a second line gives (first line, second line) unless the first line is
      empty; the third line of a window is never looked at. */
  function ParseFrom(lines: seq<string>, i: nat): seq<Rule>
    decreases |lines| - i
  {
    if i >= |lines| then []
    else
      (if i + 1 < |lines| && lines[i] != "" then [Rule(lines[i], lines[i + 1])] else [])
      + ParseFrom(lines, i + 3)
  }

  /** The rules of a rules file whose lines are `lines`, in file order. */
  function ParseRules(lines: seq<string>): seq<Rule>
  {
    ParseFrom(lines, 0)
  }

  /** Window w (lines 3w, 3w + 1, 3w + 2) has a second line and a non-empty first line. */
  predicate WindowYields(lines: seq<string>, w: nat)
  {
    3 * w + 1 < |lines| && lines[3 * w] != ""
  }

  /** The numbers of the windows from w on that yield a rule, in increasing order. */
  function RuleWindows(lines: seq<string>, w: nat): (ws: seq<nat>)
    ensures forall k :: 0 <= k < |ws| ==> w <= ws[k] && WindowYields(lines, ws[k])
    ensures forall k, l :: 0 <= k < l < |ws| ==> ws[k] < ws[l]
    decreases |lines| - 3 * w
  {
    if 3 * w >= |lines| then []
    else (if WindowYields(lines, w) then [w] else []) + RuleWindows(lines, w + 1)
  }

  /** Every window from w on that yields a rule is listed. */
  lemma {:induction false} RuleWindowsComplete(lines: seq<string>, w: nat, v: nat)
    requires w <= v && WindowYields(lines, v)
    ensures v in RuleWindows(lines, w)
    decreases |lines| - 3 * w
  {
    if v > w {
      RuleWindowsComplete(lines, w + 1, v);
    }
  }

  /** Rule k is exactly (lines[3v], lines[3v + 1]) for the k-th window v that yields a rule:
      every rule comes from a window with a second line and a non-empty pattern, every such
      window (even one with an empty replacement) gives its rule, and file order is kept. */
  lemma {:induction false} ParseFromWindows(lines: seq<string>, w: nat)
    ensures |ParseFrom(lines, 3 * w)| == |RuleWindows(lines, w)|
    ensures forall k :: 0 <= k < |RuleWindows(lines, w)| ==>
      ParseFrom(lines, 3 * w)[k] == Rule(lines[3 * RuleWindows(lines, w)[k]], lines[3 * RuleWindows(lines, w)[k] + 1])
    decreases |lines| - 3 * w
  {
    if 3 * w < |lines| {
      ParseFromWindows(lines, w + 1);
      var accepted := WindowYields(lines, w);
      var head: seq<Rule> := if accepted then [Rule(lines[3 * w], lines[3 * w + 1])] else [];
      var headWs: seq<nat> := if accepted then [w] else [];
      var rest, restWs := ParseFrom(lines, 3 * (w + 1)), RuleWindows(lines, w + 1);
      var rules, ws := ParseFrom(lines, 3 * w), RuleWindows(lines, w);
      assert rules == head + rest;
      assert ws == headWs + restWs;
      forall k | 0 <= k < |ws|
        ensures rules[k] == Rule(lines[3 * ws[k]], lines[3 * ws[k] + 1])
      {
        if k >= |headWs| {
          assert ws[k] == restWs[k - |headWs|];
          assert rules[k] == rest[k - |headWs|];
        }
      }
    }
  }

  /** Every window with a second line and a non-empty first line gives its rule, whatever
      the replacement line holds (an empty replacement is kept). */
  lemma WindowGivesRule(lines: seq<string>, w: nat)
    requires WindowYields(lines, w)
    ensures Rule(lines[3 * w], lines[3 * w + 1]) in ParseRules(lines)
  {
    var rules, ws := ParseFrom(lines, 0), RuleWindows(lines, 0);
    ParseFromWindows(lines, 0);
    RuleWindowsComplete(lines, 0, w);
    var k :| 0 <= k < |ws| && ws[k] == w;
    assert rules[k] == Rule(lines[3 * w], lines[3 * w + 1]);
  }

  /** Every rule read comes from a window with a second line and a non-empty first line,
      so no rule ever has an empty pattern. */
  lemma RuleFromWindow(lines: seq<string>, r: Rule)
    requires r in ParseRules(lines)
    ensures exists w: nat :: WindowYields(lines, w) && r == Rule(lines[3 * w], lines[3 * w + 1])
    ensures r.pattern != ""
  {
    var rules, ws := ParseFrom(lines, 0), RuleWindows(lines, 0);
    ParseFromWindows(lines, 0);
    var k :| 0 <= k < |rules| && rules[k] == r;
    assert WindowYields(lines, ws[k]);
  }

  /** No more rules than windows that have a second line: at most (|lines| + 1) / 3. */
  lemma {:induction false} RuleCountBound(lines: seq<string>, i: nat)
    ensures |ParseFrom(lines, i)| <= if i <= |lines| then (|lines| + 1 - i) / 3 else 0
    decreases |lines| - i
  {
    if i < |lines| {
      RuleCountBound(lines, i + 3);
    }
  }

  /** The separator line of each window (index 2 modulo 3) never affects the rules. */
  lemma {:induction false} SeparatorIgnored(lines: seq<string>, other: seq<string>, i: nat)
    requires i % 3 == 0
    requires |lines| == |other|
    requires forall j :: i <= j < |lines| && j % 3 != 2 ==> lines[j] == other[j]
    ensures ParseFrom(lines, i) == ParseFrom(other, i)
    decreases |lines| - i
  {
    if i < |lines| {
      SeparatorIgnored(lines, other, i + 3);
    }
  }

  /** One more line at the end of the file only matters when it completes a window that
      had a pattern line alone; after a whole window or a pattern-replacement pair it is
      ignored, so a missing final separator changes nothing. */
  lemma {:induction false} AppendLine(lines: seq<string>, x: string, i: nat)
    requires i % 3 == 0
    ensures ParseFrom(lines + [x], i)
         == ParseFrom(lines, i)
            + (if |lines| % 3 == 1 && i < |lines| && lines[|lines| - 1] != ""
               then [Rule(lines[|lines| - 1], x)] else [])
    decreases |lines| - i
  {
    var n, all := |lines|, lines + [x];
    if i + 1 == n {
      AppendLineAtLast(lines, x, i);
    } else if i < n {
      AppendLine(lines, x, i + 3);
      var tail, tailAll := ParseFrom(lines, i + 3), ParseFrom(all, i + 3);
      var head: seq<Rule> := if lines[i] != "" then [Rule(lines[i], lines[i + 1])] else [];
      assert all[i] == lines[i] && all[i + 1] == lines[i + 1];
      assert ParseFrom(lines, i) == head + tail;
      assert ParseFrom(all, i) == head + tailAll;
      assert n % 3 == 1 ==> i + 3 < n;
      var extra: seq<Rule> := if n % 3 == 1 && lines[n - 1] != "" then [Rule(lines[n - 1], x)] else [];
      assert tailAll == tail + extra;
      assert head + (tail + extra) == (head + tail) + extra;
    } else {
      assert ParseFrom(lines, i) == [];
      assert ParseFrom(all, i) == [];
    }
  }

  /** A window that starts on the last line gets the appended line as its replacement. */
  lemma AppendLineAtLast(lines: seq<string>, x: string, i: nat)
    requires i + 1 == |lines|
    ensures ParseFrom(lines, i) == []
    ensures ParseFrom(lines + [x], i) == if lines[i] != "" then [Rule(lines[i], x)] else []
  {
    var all := lines + [x];
    assert all[i] == lines[i] && all[i + 1] == x;
    assert ParseFrom(lines, i + 3) == [] && ParseFrom(all, i + 3) == [];
  }

  /** `load_rules_from_file` on a file already split into lines: steps through the lines
      three at a time and appends each accepted (pattern, replacement) pair. */
  method LoadRules(lines: seq<string>) returns (rules: seq<Rule>)
    ensures rules == ParseRules(lines)
  {
    rules := [];
    var i := 0;
    while i < |lines|
      invariant i % 3 == 0
      invariant rules + ParseFrom(lines, i) == ParseRules(lines)
    {
      if i + 1 < |lines| {
        var pattern := lines[i];
        var replacement := lines[i + 1];
        if pattern != "" {
          rules := rules + [Rule(pattern, replacement)];
        }
      }
      i := i + 3;
    }
  }

  /** The rules of the file at `path`, or NotFound when there is no such file. */
  function RulesOf(files: map<string, string>, path: string): Result<seq<Rule>>
  {
    if path in files then Ok(ParseRules(SplitLines(files[path]))) else Err(NotFound(path))
  }

  /** `load_rules_from_file`: fails when the path is not a file, otherwise reads its lines. */
  method LoadRulesFromFile(fs: FileSystem, path: string) returns (r: Result<seq<Rule>>)
    ensures r == RulesOf(fs.files, path)
  {
    if path !in fs.files {
      return Err(NotFound(path));
    }
    var lines := SplitLines(fs.files[path]);
    var rules := LoadRules(lines);
    r := Ok(rules);
  }

  /** A file holding one pattern line, one replacement line and a blank separator gives
      exactly that one rule. */
  lemma OneRuleFile()
    ensures ParseRules(SplitLines("foo\nbar\n\n")) == [Rule("foo", "bar")]
  {
    var lines := ["foo", "bar", ""];
    assert JoinLines(lines[2..]) == "\n";
    assert JoinLines(lines[1..]) == "bar\n\n";
    assert JoinLines(lines) == "foo\nbar\n\n";
    SplitJoin(lines);
    assert ParseFrom(lines, 3) == [];
  }
}
