/** The value histories of puzzles/2023/src/day09.cpp. A history is
    extrapolated through its tree of differences: each level holds the
    differences between neighbours of the level above, down to a level
    with no nonzero entry. The next value adds up the last entry of every
    level; the previous value alternates the first entries. */
module Mirage {
  import opened Wrappers

  /** any_of(level, l != 0) */
  predicate AnyNonzero(s: seq<int>) {
    exists i :: 0 <= i < |s| && s[i] != 0
  }

  /** std::adjacent_difference: the first entry is copied, every later
      entry is its difference with the one before. */
  function AdjacentDifference(s: seq<int>): (r: seq<int>)
    ensures |r| == |s|
    ensures |s| > 0 ==> r[0] == s[0]
    ensures forall i :: 1 <= i < |s| ==> r[i] == s[i] - s[i - 1]
  {
    seq(|s|, i requires 0 <= i < |s| => if i == 0 then s[0] else s[i] - s[i - 1])
  }

  /** The differences between neighbours: one entry fewer than s. */
  function Diffs(s: seq<int>): (r: seq<int>)
    ensures |r| == if |s| == 0 then 0 else |s| - 1
    ensures forall i :: 0 <= i < |r| ==> r[i] == s[i + 1] - s[i]
  {
    if |s| == 0 then [] else seq(|s| - 1, i requires 0 <= i < |s| - 1 => s[i + 1] - s[i])
  }

  /** The difference tree: the history, then its differences, until a
      level with no nonzero entry (which may be the empty level). */
  function DiffTree(p: seq<int>): seq<seq<int>>
    decreases |p|
  {
    if !AnyNonzero(p) then [p] else [p] + DiffTree(Diffs(p))
  }

  /** difference_tree: starts from the history and appends the
      adjacent differences of the last level, without their first entry,
      while that level has a nonzero entry. */
  method DifferenceTree(p: seq<int>) returns (pp: seq<seq<int>>)
    ensures pp == DiffTree(p)
  {
    pp := [p];
    assert pp[..0] + DiffTree(p) == DiffTree(p);
    while AnyNonzero(pp[|pp| - 1])
      invariant |pp| >= 1
      invariant pp[..|pp| - 1] + DiffTree(pp[|pp| - 1]) == DiffTree(p)
      decreases |pp[|pp| - 1]|
    {
      var back := pp[|pp| - 1];
      var next := AdjacentDifference(back);
      next := next[1..];
      AdjacentDifferenceTail(back);
      TreeStep(p, pp, next);
      pp := pp + [next];
    }
    TreeDone(pp, DiffTree(p));
  }

  /** One round of difference_tree keeps the unbuilt rest of the tree
      and shortens the last level. */
  lemma TreeStep(p: seq<int>, pp: seq<seq<int>>, next: seq<int>)
    requires |pp| >= 1 && pp[..|pp| - 1] + DiffTree(pp[|pp| - 1]) == DiffTree(p)
    requires AnyNonzero(pp[|pp| - 1]) && next == Diffs(pp[|pp| - 1])
    ensures (pp + [next])[..|pp + [next]| - 1] + DiffTree((pp + [next])[|pp + [next]| - 1]) == DiffTree(p)
    ensures |(pp + [next])[|pp + [next]| - 1]| < |pp[|pp| - 1]|
  {
    TreeGrows(pp, next);
    assert (pp + [next])[|pp|] == next;
  }

  /** Once the last level has no nonzero entry, the tree is built. */
  lemma TreeDone(pp: seq<seq<int>>, whole: seq<seq<int>>)
    requires |pp| >= 1 && pp[..|pp| - 1] + DiffTree(pp[|pp| - 1]) == whole
    requires !AnyNonzero(pp[|pp| - 1])
    ensures pp == whole
  {
    var last := pp[|pp| - 1];
    DiffTreeLeaf(last);
    assert pp == pp[..|pp| - 1] + [last];
  }

  /** Dropping the first entry of adjacent_difference leaves the
      differences. */
  lemma AdjacentDifferenceTail(s: seq<int>)
    requires |s| > 0
    ensures AdjacentDifference(s)[1..] == Diffs(s)
  {
    var a := AdjacentDifference(s)[1..];
    forall i | 0 <= i < |a|
      ensures a[i] == Diffs(s)[i]
    {
      assert a[i] == AdjacentDifference(s)[i + 1];
    }
  }

  lemma TreeGrows(pp: seq<seq<int>>, next: seq<int>)
    requires |pp| >= 1 && AnyNonzero(pp[|pp| - 1]) && next == Diffs(pp[|pp| - 1])
    ensures (pp + [next])[..|pp|] + DiffTree(next) == pp[..|pp| - 1] + DiffTree(pp[|pp| - 1])
  {
    var back := pp[|pp| - 1];
    var init := pp[..|pp| - 1];
    var rest := DiffTree(next);
    DiffTreeUnfold(back);
    assert (pp + [next])[..|pp|] == pp;
    assert pp == init + [back];
    SeqAssoc(init, [back], rest);
  }

  /** A level with a nonzero entry is followed by the tree of its
      differences. */
  lemma DiffTreeUnfold(back: seq<int>)
    requires AnyNonzero(back)
    ensures DiffTree(back) == [back] + DiffTree(Diffs(back))
  {
  }

  /** A level with no nonzero entry ends the tree. */
  lemma DiffTreeLeaf(back: seq<int>)
    requires !AnyNonzero(back)
    ensures DiffTree(back) == [back]
  {
  }

  lemma SeqAssoc(a: seq<seq<int>>, b: seq<seq<int>>, c: seq<seq<int>>)
    ensures (a + b) + c == a + (b + c)
  {
  }

  /** The shape of the tree: level 0 is the history, each level holds the
      differences of the one above and is one entry shorter, every level
      but the last has a nonzero entry, and the last has none. */
  lemma TreeLevels(p: seq<int>)
    ensures 1 <= |DiffTree(p)| <= |p| + 1 && DiffTree(p)[0] == p
    ensures !AnyNonzero(DiffTree(p)[|DiffTree(p)| - 1])
    ensures |DiffTree(p)[|DiffTree(p)| - 1]| == |p| + 1 - |DiffTree(p)|
    ensures forall i :: 0 <= i < |DiffTree(p)| - 1 ==>
      AnyNonzero(DiffTree(p)[i]) && DiffTree(p)[i + 1] == Diffs(DiffTree(p)[i])
    ensures forall i :: 0 <= i < |DiffTree(p)| ==> |DiffTree(p)[i]| == |p| - i
  {
    TreeEnds(p);
    TreeSteps(p);
    TreeWidths(p);
    var t := DiffTree(p);
    assert |t[|t| - 1]| == |p| - (|t| - 1);
  }

  /** The tree starts with the history and ends with a level that has no
      nonzero entry. */
  lemma {:induction false} TreeEnds(p: seq<int>)
    ensures 1 <= |DiffTree(p)| && DiffTree(p)[0] == p
    ensures !AnyNonzero(DiffTree(p)[|DiffTree(p)| - 1])
    decreases |p|
  {
    if AnyNonzero(p) {
      var d := Diffs(p);
      TreeEnds(d);
      DiffTreeUnfold(p);
      var t := DiffTree(p);
      var td := DiffTree(d);
      assert t[|t| - 1] == td[|td| - 1];
    } else {
      DiffTreeLeaf(p);
    }
  }

  /** Every level but the last has a nonzero entry, and the next level
      holds its differences. */
  lemma {:induction false} TreeSteps(p: seq<int>)
    ensures forall i :: 0 <= i < |DiffTree(p)| - 1 ==>
      AnyNonzero(DiffTree(p)[i]) && DiffTree(p)[i + 1] == Diffs(DiffTree(p)[i])
    decreases |p|
  {
    if AnyNonzero(p) {
      var d := Diffs(p);
      TreeSteps(d);
      TreeEnds(d);
      DiffTreeUnfold(p);
      var t := DiffTree(p);
      var td := DiffTree(d);
      forall i | 0 <= i < |t| - 1
        ensures AnyNonzero(t[i]) && t[i + 1] == Diffs(t[i])
      {
        if i > 0 {
          assert t[i] == td[i - 1] && t[i + 1] == td[i];
        }
      }
    } else {
      DiffTreeLeaf(p);
    }
  }

  /** Level i is i entries shorter than the history. */
  lemma {:induction false} TreeWidths(p: seq<int>)
    ensures forall i :: 0 <= i < |DiffTree(p)| ==> |DiffTree(p)[i]| == |p| - i
    decreases |p|
  {
    if AnyNonzero(p) {
      var d := Diffs(p);
      TreeWidths(d);
      DiffTreeUnfold(p);
      var t := DiffTree(p);
      var td := DiffTree(d);
      forall i | 0 <= i < |t|
        ensures |t[i]| == |p| - i
      {
        if i > 0 {
          assert t[i] == td[i - 1];
        }
      }
    } else {
      DiffTreeLeaf(p);
    }
  }

  // ---------------------------------------------------------------------
  // find_next and find_prev
  // ---------------------------------------------------------------------

  /** find_next as written: accumulates back() of every level, bottom
      level first. back() of an empty level is undefined, modelled as
      None. */
  function FindNextAsWritten(pp: seq<seq<int>>): (r: Option<int>)
    ensures r.Some? <==> forall i :: 0 <= i < |pp| ==> |pp[i]| > 0
    ensures r.Some? ==> r.value == FindNext(pp)
  {
    if |pp| == 0 then Some(0)
    else
      match FindNextAsWritten(pp[1..])
      case None => None
      case Some(acc) => if |pp[0]| == 0 then None else Some(acc + pp[0][|pp[0]| - 1])
  }

  /** find_prev as written: accumulates n - part over front() of every
      level, bottom level first; undefined on an empty level. */
  function FindPrevAsWritten(pp: seq<seq<int>>): (r: Option<int>)
    ensures r.Some? <==> forall i :: 0 <= i < |pp| ==> |pp[i]| > 0
    ensures r.Some? ==> r.value == FindPrev(pp)
  {
    if |pp| == 0 then Some(0)
    else
      match FindPrevAsWritten(pp[1..])
      case None => None
      case Some(part) => if |pp[0]| == 0 then None else Some(pp[0][0] - part)
  }

  /** find_next with an empty level contributing 0. */
  function FindNext(pp: seq<seq<int>>): int {
    if |pp| == 0 then 0
    else FindNext(pp[1..]) + (if |pp[0]| == 0 then 0 else pp[0][|pp[0]| - 1])
  }

  /** find_prev with an empty level contributing 0. */
  function FindPrev(pp: seq<seq<int>>): int {
    if |pp| == 0 then 0
    else (if |pp[0]| == 0 then 0 else pp[0][0]) - FindPrev(pp[1..])
  }

  function Next(p: seq<int>): int {
    FindNext(DiffTree(p))
  }

  function Prev(p: seq<int>): int {
    FindPrev(DiffTree(p))
  }

  /** The folds of the source are undefined exactly when the tree ends in
      an empty level, which happens exactly when it has one level more
      than the history has entries. */
  lemma AsWrittenUndefinedIff(p: seq<int>)
    ensures FindNextAsWritten(DiffTree(p)).None? <==> |DiffTree(p)| == |p| + 1
    ensures FindPrevAsWritten(DiffTree(p)).None? <==> |DiffTree(p)| == |p| + 1
  {
    TreeLevels(p);
    var t := DiffTree(p);
    if |t| == |p| + 1 {
      assert |t[|t| - 1]| == 0;
    }
  }

  // ---------------------------------------------------------------------
  // Extrapolation
  // ---------------------------------------------------------------------

  lemma DiffsSnoc(s: seq<int>, x: int)
    requires |s| > 0
    ensures Diffs(s + [x]) == Diffs(s) + [x - s[|s| - 1]]
  {
    var a := Diffs(s + [x]);
    var b := Diffs(s) + [x - s[|s| - 1]];
    forall i | 0 <= i < |a|
      ensures a[i] == b[i]
    {
      if i < |s| - 1 {
        assert a[i] == s[i + 1] - s[i];
      }
    }
  }

  lemma DiffsCons(x: int, s: seq<int>)
    requires |s| > 0
    ensures Diffs([x] + s) == [s[0] - x] + Diffs(s)
  {
    var a := Diffs([x] + s);
    var b := [s[0] - x] + Diffs(s);
    forall i | 0 <= i < |a|
      ensures a[i] == b[i]
    {
      if i > 0 {
        assert a[i] == s[i] - s[i - 1];
      }
    }
  }

  /** The folds over a one-level tree. */
  lemma FoldsOfOneLevel(s: seq<int>)
    ensures FindNext([s]) == if |s| == 0 then 0 else s[|s| - 1]
    ensures FindPrev([s]) == if |s| == 0 then 0 else s[0]
  {
    assert [s][1..] == [];
  }

  lemma NoNonzeroDiffs(p: seq<int>)
    requires !AnyNonzero(p)
    ensures !AnyNonzero(Diffs(p))
  {
    forall i | 0 <= i < |Diffs(p)|
      ensures Diffs(p)[i] == 0
    {
      assert p[i] == 0 && p[i + 1] == 0;
    }
  }

  /** The predicted next value extends the history so that its
      differences are the differences' own prediction: the history is
      extrapolated by the lowest-degree polynomial through it. */
  lemma NextExtends(p: seq<int>)
    requires |p| > 0
    ensures Diffs(p + [Next(p)]) == Diffs(p) + [Next(Diffs(p))]
  {
    var d := Diffs(p);
    var last := p[|p| - 1];
    DiffsSnoc(p, Next(p));
    if AnyNonzero(p) {
      assert DiffTree(p) == [p] + DiffTree(d);
      assert DiffTree(p)[1..] == DiffTree(d);
      assert Next(p) == Next(d) + last;
    } else {
      assert last == 0;
      NoNonzeroDiffs(p);
      assert DiffTree(d) == [d];
      FoldsOfOneLevel(d);
      FoldsOfOneLevel(p);
      if |d| > 0 {
        assert d[|d| - 1] == 0;
      }
    }
  }

  /** The predicted previous value extends the history at the front in
      the same way. */
  lemma PrevExtends(p: seq<int>)
    requires |p| > 0
    ensures Diffs([Prev(p)] + p) == [Prev(Diffs(p))] + Diffs(p)
  {
    var d := Diffs(p);
    DiffsCons(Prev(p), p);
    if AnyNonzero(p) {
      assert DiffTree(p) == [p] + DiffTree(d);
      assert DiffTree(p)[1..] == DiffTree(d);
      assert Prev(p) == p[0] - Prev(d);
    } else {
      assert p[0] == 0;
      NoNonzeroDiffs(p);
      assert DiffTree(d) == [d];
      FoldsOfOneLevel(d);
      FoldsOfOneLevel(p);
      if |d| > 0 {
        assert d[0] == 0;
      }
    }
  }

  /** A constant history predicts the same constant at both ends. */
  lemma ConstantHistory(c: int, n: nat)
    requires n > 0
    ensures Next(seq(n, _ => c)) == c && Prev(seq(n, _ => c)) == c
  {
    var p := seq(n, _ => c);
    var d := Diffs(p);
    var zeros := seq(n - 1, _ => 0);
    assert d == zeros;
    assert !AnyNonzero(d);
    assert DiffTree(d) == [d];
    FoldsOfOneLevel(d);
    FoldsOfOneLevel(p);
    if c == 0 {
      assert !AnyNonzero(p);
      assert DiffTree(p) == [p];
    } else {
      assert p[0] != 0;
      assert DiffTree(p) == [p, d];
      assert DiffTree(p)[1..] == [d];
      if |d| > 0 {
        assert d[0] == 0 && d[|d| - 1] == 0;
      }
    }
  }

  /** The history [1] has no all-zero difference level: its tree ends in
      an empty level, so the folds as written read back() and front() of
      an empty vector, while the predictions are 1 at both ends. */
  lemma SingleEntryHistory()
    ensures DiffTree([1]) == [[1], []]
    ensures FindNextAsWritten(DiffTree([1])).None? && FindPrevAsWritten(DiffTree([1])).None?
    ensures Next([1]) == 1 && Prev([1]) == 1
  {
    assert AnyNonzero([1]);
    assert Diffs([1]) == [];
    assert DiffTree([]) == [[]];
    assert DiffTree([1]) == [[1], []];
    ConstantHistory(1, 1);
    assert seq(1, _ => 1) == [1];
  }
}
