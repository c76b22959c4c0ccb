/** The section assignments of puzzles/2022/src/day04.cpp: each elf of a
    pair is assigned a closed range of section numbers, and the puzzle
    asks whether one range contains the other, or whether they overlap. */
module CampCleanup {
  /** A closed range of section numbers. */
  datatype Range = Range(low: int, high: int)

  predicate WellFormed(r: Range) {
    r.low <= r.high
  }

  /** Section x is in range r. */
  predicate Contains(r: Range, x: int) {
    r.low <= x <= r.high
  }

  /** Every section of inner is a section of outer. */
  ghost predicate Within(inner: Range, outer: Range) {
    forall x :: Contains(inner, x) ==> Contains(outer, x)
  }

  /** overlap_full: the first elf's range lies within the second's, or the
      other way round. */
  function OverlapFull(elf1: Range, elf2: Range): bool {
    if elf1.low >= elf2.low && elf1.high <= elf2.high then true
    else if elf1.low <= elf2.low && elf1.high >= elf2.high then true
    else false
  }

  /** overlap: the first elf's range reaches the second's from the left,
      or the second's reaches the first's. */
  function Overlap(elf1: Range, elf2: Range): bool {
    if elf1.low <= elf2.high && elf1.high >= elf2.low then true
    else if elf2.low <= elf1.high && elf2.high >= elf1.low then true
    else false
  }

  /** Containment of a non-empty range is containment of its bounds. */
  lemma Containment(a: Range, b: Range)
    requires WellFormed(a)
    ensures Within(a, b) <==> b.low <= a.low && a.high <= b.high
  {
    if Within(a, b) {
      assert Contains(a, a.low) && Contains(a, a.high);
    }
  }

  /** overlap_full holds exactly when one range's sections contain the
      other's. */
  lemma OverlapFullIsContainment(elf1: Range, elf2: Range)
    requires WellFormed(elf1) && WellFormed(elf2)
    ensures OverlapFull(elf1, elf2) <==> Within(elf1, elf2) || Within(elf2, elf1)
  {
    Containment(elf1, elf2);
    Containment(elf2, elf1);
  }

  /** overlap holds exactly when the two ranges share a section. */
  lemma OverlapIsIntersection(elf1: Range, elf2: Range)
    requires WellFormed(elf1) && WellFormed(elf2)
    ensures Overlap(elf1, elf2) ==> exists x :: Contains(elf1, x) && Contains(elf2, x)
    ensures (exists x :: Contains(elf1, x) && Contains(elf2, x)) ==> Overlap(elf1, elf2)
  {
    if Overlap(elf1, elf2) {
      var x := if elf1.low <= elf2.low then elf2.low else elf1.low;
      assert Contains(elf1, x) && Contains(elf2, x);
    }
  }

  /** Both predicates ignore the order of the pair. */
  lemma Symmetric(elf1: Range, elf2: Range)
    ensures OverlapFull(elf1, elf2) == OverlapFull(elf2, elf1)
    ensures Overlap(elf1, elf2) == Overlap(elf2, elf1)
  {
  }

  /** A pair where one range contains the other also overlaps. */
  lemma FullImpliesOverlap(elf1: Range, elf2: Range)
    requires WellFormed(elf1) && WellFormed(elf2)
    ensures OverlapFull(elf1, elf2) ==> Overlap(elf1, elf2)
  {
  }

  // ---------------------------------------------------------------------
  // The puzzle answers: how many pairs pass each filter
  // ---------------------------------------------------------------------

  function FullCount(pairs: seq<(Range, Range)>): nat {
    if |pairs| == 0 then 0
    else FullCount(pairs[..|pairs| - 1]) + (if OverlapFull(pairs[|pairs| - 1].0, pairs[|pairs| - 1].1) then 1 else 0)
  }

  function OverlapCount(pairs: seq<(Range, Range)>): nat {
    if |pairs| == 0 then 0
    else OverlapCount(pairs[..|pairs| - 1]) + (if Overlap(pairs[|pairs| - 1].0, pairs[|pairs| - 1].1) then 1 else 0)
  }

  /** The second answer is at least the first, and neither exceeds the
      number of pairs. */
  lemma {:induction false} CountsOrdered(pairs: seq<(Range, Range)>)
    requires forall i :: 0 <= i < |pairs| ==> WellFormed(pairs[i].0) && WellFormed(pairs[i].1)
    ensures FullCount(pairs) <= OverlapCount(pairs) <= |pairs|
    decreases |pairs|
  {
    if |pairs| > 0 {
      CountsOrdered(pairs[..|pairs| - 1]);
      FullImpliesOverlap(pairs[|pairs| - 1].0, pairs[|pairs| - 1].1);
    }
  }
}
