/** Counting helpers shared by the models: how often a value occurs in a
    sequence, and the sum of a sequence of integers. */
module Counting {

  /** How many entries of s equal v. */
  function CountOf(s: seq<int>, v: int): (r: nat)
    ensures r <= |s|
  {
    if |s| == 0 then 0 else CountOf(s[..|s| - 1], v) + (if s[|s| - 1] == v then 1 else 0)
  }

  lemma {:induction false} CountConcat(a: seq<int>, b: seq<int>, v: int)
    ensures CountOf(a + b, v) == CountOf(a, v) + CountOf(b, v)
    decreases |b|
  {
    if |b| == 0 {
      assert a + b == a;
    } else {
      assert (a + b)[..|a + b| - 1] == a + b[..|b| - 1];
      CountConcat(a, b[..|b| - 1], v);
    }
  }

  lemma {:induction false} CountPositive(s: seq<int>, v: int)
    ensures CountOf(s, v) > 0 <==> v in s
    decreases |s|
  {
    if |s| > 0 {
      CountPositive(s[..|s| - 1], v);
      assert s == s[..|s| - 1] + [s[|s| - 1]];
    }
  }

  function Sum(s: seq<int>): int {
    if |s| == 0 then 0 else Sum(s[..|s| - 1]) + s[|s| - 1]
  }

  predicate NonNegative(s: seq<int>) {
    forall i :: 0 <= i < |s| ==> s[i] >= 0
  }

  /** Each entry of a non-negative sequence is at most its sum. */
  lemma {:induction false} EntryAtMostSum(s: seq<int>, i: int)
    requires NonNegative(s) && 0 <= i < |s|
    ensures s[i] <= Sum(s)
    decreases |s|
  {
    var p := s[..|s| - 1];
    assert NonNegative(p);
    SumNonNegative(p);
    if i < |s| - 1 {
      EntryAtMostSum(p, i);
    }
  }

  lemma {:induction false} SumNonNegative(s: seq<int>)
    requires NonNegative(s)
    ensures Sum(s) >= 0
    decreases |s|
  {
    if |s| > 0 {
      assert NonNegative(s[..|s| - 1]);
      SumNonNegative(s[..|s| - 1]);
    }
  }

  lemma {:induction false} SumOfZeros(s: seq<int>)
    requires forall i :: 0 <= i < |s| ==> s[i] == 0
    ensures Sum(s) == 0
    decreases |s|
  {
    if |s| > 0 {
      SumOfZeros(s[..|s| - 1]);
    }
  }

  /** Incrementing one entry adds one to the sum. */
  lemma {:induction false} SumIncrement(s: seq<int>, c: int)
    requires 0 <= c < |s|
    ensures Sum(s[c := s[c] + 1]) == Sum(s) + 1
    decreases |s|
  {
    var t := s[c := s[c] + 1];
    if c < |s| - 1 {
      assert t[..|t| - 1] == s[..|s| - 1][c := s[c] + 1];
      SumIncrement(s[..|s| - 1], c);
    } else {
      assert t[..|t| - 1] == s[..|s| - 1];
    }
  }


  lemma {:induction false} SumConcat(a: seq<int>, b: seq<int>)
    ensures Sum(a + b) == Sum(a) + Sum(b)
    decreases |b|
  {
    if |b| == 0 {
      assert a + b == a;
    } else {
      assert (a + b)[..|a + b| - 1] == a + b[..|b| - 1];
      SumConcat(a, b[..|b| - 1]);
    }
  }

  /** Replacing one entry changes the sum by the difference. */
  lemma {:induction false} SumUpdate(s: seq<int>, c: int, v: int)
    requires 0 <= c < |s|
    ensures Sum(s[c := v]) == Sum(s) - s[c] + v
    decreases |s|
  {
    var t := s[c := v];
    if c < |s| - 1 {
      assert t[..|t| - 1] == s[..|s| - 1][c := v];
      SumUpdate(s[..|s| - 1], c, v);
    } else {
      assert t[..|t| - 1] == s[..|s| - 1];
    }
  }
}
