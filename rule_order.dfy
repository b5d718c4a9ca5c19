/** The order rules files run in: stably sorted by basename (`rules_files.sort(key=basename)`). */
module RuleOrder {

  /** `os.path.basename` for '/'-separated paths: everything after the last '/'. */
  function Basename(p: string): string
    decreases |p|
  {
    if p == [] || p[|p| - 1] == '/' then []
    else Basename(p[..|p| - 1]) + [p[|p| - 1]]
  }

  /** The basename is a suffix of the path. */
  lemma {:induction false} BasenameSuffix(p: string)
    ensures |Basename(p)| <= |p| && Basename(p) == p[|p| - |Basename(p)|..]
    decreases |p|
  {
    if p != [] && p[|p| - 1] != '/' {
      var init := p[..|p| - 1];
      BasenameSuffix(init);
      var n := |init| - |Basename(init)|;
      assert p == init + [p[|p| - 1]];
      assert p[n..] == init[n..] + [p[|p| - 1]];
    }
  }

  /** The basename holds no '/'. */
  lemma {:induction false} BasenameNoSlash(p: string)
    ensures '/' !in Basename(p)
    decreases |p|
  {
    if p != [] && p[|p| - 1] != '/' {
      BasenameNoSlash(p[..|p| - 1]);
    }
  }

  /** The character just before the basename, if any, is a '/'. */
  lemma {:induction false} BasenameAfterSlash(p: string)
    ensures |Basename(p)| < |p| ==> p[|p| - |Basename(p)| - 1] == '/'
    decreases |p|
  {
    if p != [] && p[|p| - 1] != '/' {
      var init := p[..|p| - 1];
      BasenameAfterSlash(init);
      BasenameSuffix(init);
      var n := |init| - |Basename(init)|;
      if n > 0 {
        assert p[n - 1] == init[n - 1];
      }
    }
  }

  /** The basename is the longest suffix of the path without a '/': it is a suffix, it holds
      no '/', and the character just before it (if any) is a '/'. */
  lemma BasenameIsLastComponent(p: string)
    ensures |Basename(p)| <= |p|
    ensures Basename(p) == p[|p| - |Basename(p)|..]
    ensures '/' !in Basename(p)
    ensures |Basename(p)| < |p| ==> p[|p| - |Basename(p)| - 1] == '/'
  {
    BasenameSuffix(p);
    BasenameNoSlash(p);
    BasenameAfterSlash(p);
  }

  /** Python's `a < b` on strings: lexicographic order on code points, where a proper
      prefix comes first. */
  predicate Less(a: string, b: string)
    decreases |a|
  {
    b != [] && (a == [] || a[0] < b[0] || (a[0] == b[0] && Less(a[1..], b[1..])))
  }

  lemma {:induction false} LessIrreflexive(a: string)
    ensures !Less(a, a)
    decreases |a|
  {
    if a != [] {
      LessIrreflexive(a[1..]);
    }
  }

  lemma {:induction false} LessTransitive(a: string, b: string, c: string)
    requires Less(a, b) && Less(b, c)
    ensures Less(a, c)
    decreases |a|
  {
    if a != [] && a[0] == b[0] && b[0] == c[0] {
      LessTransitive(a[1..], b[1..], c[1..]);
    }
  }

  /** Any two different strings are ordered one way or the other. */
  lemma {:induction false} LessTotal(a: string, b: string)
    ensures a == b || Less(a, b) || Less(b, a)
    decreases |a|
  {
    if a != [] && b != [] && a[0] == b[0] {
      LessTotal(a[1..], b[1..]);
      if a[1..] == b[1..] {
        assert a == [a[0]] + a[1..] && b == [b[0]] + b[1..];
      }
    }
  }

  /** Sorted by basename: no path has a basename strictly below that of a path before it. */
  predicate SortedByBasename(s: seq<string>)
  {
    forall i, j :: 0 <= i < j < |s| ==> !Less(Basename(s[j]), Basename(s[i]))
  }

  /** The paths of `s` whose basename is `b`, in their order in `s`. */
  function WithBasename(s: seq<string>, b: string): seq<string>
    decreases |s|
  {
    if s == [] then []
    else WithBasename(s[..|s| - 1], b) + (if Basename(s[|s| - 1]) == b then [s[|s| - 1]] else [])
  }

  lemma {:induction false} WithBasenameAppend(s: seq<string>, t: seq<string>, b: string)
    ensures WithBasename(s + t, b) == WithBasename(s, b) + WithBasename(t, b)
    decreases |t|
  {
    if t == [] {
      assert s + t == s;
    } else {
      assert (s + t)[..|s + t| - 1] == s + t[..|t| - 1];
      WithBasenameAppend(s, t[..|t| - 1], b);
    }
  }

  lemma {:induction false} WithBasenameNone(s: seq<string>, b: string)
    requires forall k :: 0 <= k < |s| ==> Basename(s[k]) != b
    ensures WithBasename(s, b) == []
    decreases |s|
  {
    if s != [] {
      WithBasenameNone(s[..|s| - 1], b);
    }
  }

  /** Where a stable insertion puts `x`: before the first path whose basename is strictly
      greater than x's, so after every path whose basename is equal. */
  function InsertionPoint(s: seq<string>, x: string): (p: nat)
    ensures p <= |s|
    ensures forall k :: 0 <= k < p ==> !Less(Basename(x), Basename(s[k]))
    ensures p < |s| ==> Less(Basename(x), Basename(s[p]))
    decreases |s|
  {
    if s == [] || Less(Basename(x), Basename(s[0])) then 0
    else 1 + InsertionPoint(s[1..], x)
  }

  function Insert(s: seq<string>, x: string): seq<string>
  {
    var p := InsertionPoint(s, x);
    s[..p] + [x] + s[p..]
  }

  /** The stable sort by basename, built by inserting the paths one after the other. */
  function SortByBasename(s: seq<string>): seq<string>
    decreases |s|
  {
    if s == [] then [] else Insert(SortByBasename(s[..|s| - 1]), s[|s| - 1])
  }

  /** Inserting into a sorted list keeps it sorted. */
  lemma InsertSorted(s: seq<string>, x: string)
    requires SortedByBasename(s)
    ensures SortedByBasename(Insert(s, x))
  {
    var p := InsertionPoint(s, x);
    var r := Insert(s, x);
    assert |r| == |s| + 1;
    forall i, j | 0 <= i < j < |r|
      ensures !Less(Basename(r[j]), Basename(r[i]))
    {
      if i < p && j == p {
        assert r[i] == s[i] && r[j] == x;
      } else if i == p && p < j {
        assert r[i] == x && r[j] == s[j - 1];
        if Less(Basename(s[j - 1]), Basename(x)) {
          LessTransitive(Basename(s[j - 1]), Basename(x), Basename(s[p]));
          if j - 1 == p {
            LessIrreflexive(Basename(s[p]));
          }
        }
      } else {
        var i', j' := if i < p then i else i - 1, if j < p then j else j - 1;
        assert r[i] == s[i'] && r[j] == s[j'] && i' < j';
      }
    }
  }

  /** Inserting into a sorted list puts x after every path with the same basename, so each
      basename's paths are in the same order as in `s + [x]`. */
  lemma InsertStable(s: seq<string>, x: string, b: string)
    requires SortedByBasename(s)
    ensures WithBasename(Insert(s, x), b) == WithBasename(s + [x], b)
  {
    var p := InsertionPoint(s, x);
    if b == Basename(x) {
      AfterInsertionPoint(s, x);
      WithBasenameNone(s[p..], b);
    }
    assert s == s[..p] + s[p..];
    SpliceStable(s[..p], s[p..], x, b);
  }

  /** In a sorted list, no path from the insertion point on has the basename of x. */
  lemma AfterInsertionPoint(s: seq<string>, x: string)
    requires SortedByBasename(s)
    ensures forall k :: 0 <= k < |s[InsertionPoint(s, x)..]| ==>
      Basename(s[InsertionPoint(s, x)..][k]) != Basename(x)
  {
    var p := InsertionPoint(s, x);
    forall k | 0 <= k < |s[p..]|
      ensures Basename(s[p..][k]) != Basename(x)
    {
      assert s[p..][k] == s[p + k];
      if k == 0 {
        LessIrreflexive(Basename(x));
      }
    }
  }

  lemma WithBasenameSingle(x: string, b: string)
    ensures WithBasename([x], b) == if Basename(x) == b then [x] else []
  {
    assert [x][..0] == [];
    assert WithBasename([x][..0], b) == [];
  }

  /** Moving x from the end to just before `back` changes no basename's paths when none of
      the paths in `back` share the basename of x. */
  lemma SpliceStable(front: seq<string>, back: seq<string>, x: string, b: string)
    requires b == Basename(x) ==> WithBasename(back, b) == []
    ensures WithBasename(front + [x] + back, b) == WithBasename(front + back + [x], b)
  {
    var wf, wb, wx := WithBasename(front, b), WithBasename(back, b), WithBasename([x], b);
    WithBasenameSingle(x, b);
    WithBasenameAppend(front + [x], back, b);
    WithBasenameAppend(front, [x], b);
    assert WithBasename(front + [x] + back, b) == wf + wx + wb;
    WithBasenameAppend(front, back, b);
    WithBasenameAppend(front + back, [x], b);
    assert WithBasename(front + back + [x], b) == wf + wb + wx;
    if Basename(x) == b {
      assert wb == [];
      assert wf + wx + wb == wf + wx == wf + wb + wx;
    } else {
      assert wx == [];
      assert wf + wx + wb == wf + wb == wf + wb + wx;
    }
  }

  /** The rules files come out sorted by basename. */
  lemma {:induction false} SortByBasenameSorted(s: seq<string>)
    ensures SortedByBasename(SortByBasename(s))
    decreases |s|
  {
    if s != [] {
      SortByBasenameSorted(s[..|s| - 1]);
      InsertSorted(SortByBasename(s[..|s| - 1]), s[|s| - 1]);
    }
  }

  /** Inserting adds x and nothing else. */
  lemma InsertPermutes(s: seq<string>, x: string)
    ensures multiset(Insert(s, x)) == multiset(s) + multiset{x}
  {
    var p := InsertionPoint(s, x);
    assert s == s[..p] + s[p..];
  }

  /** The sorted rules files are a permutation of the selection. */
  lemma {:induction false} SortByBasenamePermutes(s: seq<string>)
    ensures multiset(SortByBasename(s)) == multiset(s)
    decreases |s|
  {
    if s != [] {
      var init, x := s[..|s| - 1], s[|s| - 1];
      var sortedInit := SortByBasename(init);
      SortByBasenamePermutes(init);
      InsertPermutes(sortedInit, x);
      assert s == init + [x];
    }
  }

  /** Rules files with the same basename keep their relative order (a stable sort). */
  lemma {:induction false} SortByBasenameStable(s: seq<string>, b: string)
    ensures WithBasename(SortByBasename(s), b) == WithBasename(s, b)
    decreases |s|
  {
    if s != [] {
      var init, x := s[..|s| - 1], s[|s| - 1];
      var sortedInit := SortByBasename(init);
      SortByBasenameStable(init, b);
      SortByBasenameSorted(init);
      InsertStable(sortedInit, x, b);
      WithBasenameAppend(sortedInit, [x], b);
      WithBasenameAppend(init, [x], b);
      assert s == init + [x];
    }
  }

  lemma {:induction false} WithBasenameMembers(s: seq<string>, b: string, x: string)
    ensures x in WithBasename(s, b) <==> x in s && Basename(x) == b
    decreases |s|
  {
    if s != [] {
      var init := s[..|s| - 1];
      WithBasenameMembers(init, b, x);
      assert s == init + [s[|s| - 1]];
    }
  }

  /** The last path of a sorted non-empty list has a basename no other path's exceeds. */
  lemma LastIsGreatest(t: seq<string>, x: string)
    requires SortedByBasename(t) && t != [] && x in t
    ensures !Less(Basename(t[|t| - 1]), Basename(x))
  {
    var i :| 0 <= i < |t| && t[i] == x;
    if i < |t| - 1 {
      assert !Less(Basename(t[|t| - 1]), Basename(t[i]));
    } else {
      LessIrreflexive(Basename(x));
    }
  }

  /** A path of t2 is a path of t1 when the two lists agree on that path's basename. */
  lemma InOther(t1: seq<string>, t2: seq<string>, x: string)
    requires x in t2
    requires WithBasename(t1, Basename(x)) == WithBasename(t2, Basename(x))
    ensures x in t1
  {
    WithBasenameMembers(t2, Basename(x), x);
    WithBasenameMembers(t1, Basename(x), x);
  }

  /** The last path of a non-empty list is the last of those with its basename. */
  lemma LastWithBasename(t: seq<string>)
    requires t != []
    ensures var w := WithBasename(t, Basename(t[|t| - 1]));
      w != [] && w[|w| - 1] == t[|t| - 1]
  {
    assert WithBasename(t, Basename(t[|t| - 1]))
        == WithBasename(t[..|t| - 1], Basename(t[|t| - 1])) + [t[|t| - 1]];
  }

  /** Two sorted lists in which every basename's paths agree end in the same path. */
  lemma SameLast(t1: seq<string>, t2: seq<string>)
    requires SortedByBasename(t1) && SortedByBasename(t2) && t1 != [] && t2 != []
    requires forall b :: WithBasename(t1, b) == WithBasename(t2, b)
    ensures t1[|t1| - 1] == t2[|t2| - 1]
  {
    var x1, x2 := t1[|t1| - 1], t2[|t2| - 1];
    var k1, k2 := Basename(x1), Basename(x2);
    assert WithBasename(t1, k2) == WithBasename(t2, k2);
    assert WithBasename(t1, k1) == WithBasename(t2, k1);
    InOther(t1, t2, x2);
    InOther(t2, t1, x1);
    LastIsGreatest(t1, x2);
    LastIsGreatest(t2, x1);
    LessTotal(k1, k2);
    LastWithBasename(t1);
    LastWithBasename(t2);
  }

  /** Dropping the same last path from both lists keeps every basename's paths in agreement. */
  lemma InitsAgree(t1: seq<string>, t2: seq<string>, b: string)
    requires t1 != [] && t2 != [] && t1[|t1| - 1] == t2[|t2| - 1]
    requires WithBasename(t1, b) == WithBasename(t2, b)
    ensures WithBasename(t1[..|t1| - 1], b) == WithBasename(t2[..|t2| - 1], b)
  {
    var x := t1[|t1| - 1];
    var v1, v2 := WithBasename(t1[..|t1| - 1], b), WithBasename(t2[..|t2| - 1], b);
    var tail := if Basename(x) == b then [x] else [];
    assert v1 + tail == v2 + tail;
    assert v1 == (v1 + tail)[..|v1|];
    assert v2 == (v2 + tail)[..|v2|];
  }

  /** A stable sort by basename has only one possible result: two lists sorted by basename
      in which every basename's paths come in the same order are equal. */
  lemma {:induction false} StableSortUnique(t1: seq<string>, t2: seq<string>)
    requires SortedByBasename(t1) && SortedByBasename(t2)
    requires forall b :: WithBasename(t1, b) == WithBasename(t2, b)
    ensures t1 == t2
    decreases |t1|
  {
    if t1 == [] || t2 == [] {
      var t, u := if t1 == [] then t2 else t1, if t1 == [] then t1 else t2;
      if t != [] {
        var x := t[0];
        WithBasenameMembers(t, Basename(x), x);
        WithBasenameMembers(u, Basename(x), x);
        assert false;
      }
    } else {
      SameLast(t1, t2);
      var init1, init2 := t1[..|t1| - 1], t2[..|t2| - 1];
      forall b
        ensures WithBasename(init1, b) == WithBasename(init2, b)
      {
        InitsAgree(t1, t2, b);
      }
      StableSortUnique(init1, init2);
      assert t1 == init1 + [t1[|t1| - 1]] && t2 == init2 + [t2[|t2| - 1]];
    }
  }

  /** Any stable sort by basename, as Python's `list.sort` with a key is, puts the paths in
      exactly the order `SortByBasename` gives. */
  lemma AnyStableSortAgrees(s: seq<string>, t: seq<string>)
    requires SortedByBasename(t)
    requires forall b :: WithBasename(t, b) == WithBasename(s, b)
    ensures t == SortByBasename(s)
  {
    SortByBasenameSorted(s);
    forall b
      ensures WithBasename(t, b) == WithBasename(SortByBasename(s), b)
    {
      SortByBasenameStable(s, b);
    }
    StableSortUnique(t, SortByBasename(s));
  }

  /** `rules_files.sort(key=os.path.basename)`: inserts each path after every path already
      placed whose basename is not greater, which gives the same order as a stable sort. */
  method SortRuleFiles(paths: seq<string>) returns (sorted: seq<string>)
    ensures sorted == SortByBasename(paths)
    ensures SortedByBasename(sorted) && multiset(sorted) == multiset(paths)
    ensures forall b :: WithBasename(sorted, b) == WithBasename(paths, b)
  {
    sorted := [];
    var i := 0;
    while i < |paths|
      invariant i <= |paths|
      invariant sorted == SortByBasename(paths[..i])
    {
      var x := paths[i];
      var p := FindInsertionPoint(sorted, x);
      sorted := sorted[..p] + [x] + sorted[p..];
      assert paths[..i + 1][..i] == paths[..i];
      i := i + 1;
    }
    assert paths[..i] == paths;
    SortByBasenameSorted(paths);
    SortByBasenamePermutes(paths);
    forall b
      ensures WithBasename(sorted, b) == WithBasename(paths, b)
    {
      SortByBasenameStable(paths, b);
    }
  }

  /** The scan for where x goes: past every path whose basename is not greater than x's. */
  method FindInsertionPoint(sorted: seq<string>, x: string) returns (p: nat)
    ensures p == InsertionPoint(sorted, x)
  {
    p := 0;
    while p < |sorted| && !Less(Basename(x), Basename(sorted[p]))
      invariant p <= |sorted|
      invariant forall k :: 0 <= k < p ==> !Less(Basename(x), Basename(sorted[k]))
    {
      p := p + 1;
    }
  }
}
