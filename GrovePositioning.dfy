/** The mixing of puzzles/2022/src/day20.cpp. The encrypted file is a
    circular list of numbers; mixing moves each number, in its original
    order, forward or backward by its own value. decryption_index[k] keeps
    track of where the k-th original number currently sits. */
module GrovePositioning {

  function Abs(i: int): nat {
    if i < 0 then -i else i
  }

  /** sign: std::abs(i) / i for nonzero i. The division is exact, so
      truncating and Euclidean division agree here. */
  function Sign(i: int): (r: int)
    ensures i > 0 ==> r == 1
    ensures i < 0 ==> r == -1
    ensures i == 0 ==> r == 0
  {
    if i == 0 then 0 else Abs(i) / i
  }

  /** C++'s % on long: the remainder truncated toward zero, which takes
      the sign of the dividend. */
  function TruncRem(a: int, b: int): (r: int)
    requires b > 0
    ensures a >= 0 ==> 0 <= r < b
    ensures a < 0 ==> -b < r <= 0
  {
    if a >= 0 then a % b else -((-a) % b)
  }

  lemma TruncRemCongruent(a: int, b: int)
    requires b > 0
    ensures (TruncRem(a, b) - a) % b == 0
  {
    if a >= 0 {
      MultipleOf(-(a / b), b);
      assert TruncRem(a, b) - a == -(a / b) * b;
    } else {
      MultipleOf((-a) / b, b);
      assert TruncRem(a, b) - a == ((-a) / b) * b;
    }
  }

  lemma MultipleOf(q: int, b: int)
    requires b > 0
    ensures (q * b) % b == 0
  {
    var d := (q * b) / b;
    var r := (q * b) % b;
    assert q * b == d * b + r;
    assert (q - d) * b == r by {
      assert (q - d) * b == q * b - d * b;
    }
    if q - d >= 1 {
      MulAtLeast(q - d, b);
    } else if q - d <= -1 {
      MulAtLeast(d - q, b);
    }
  }

  lemma MulAtLeast(k: int, b: int)
    requires k >= 1 && b > 0
    ensures k * b >= b
  {
  }

  /** clamp: the position that base + diff wraps to among max - 1 slots,
      as a value in [1, max - 1]; a zero move keeps base. */
  function Clamp(diff: int, base: int, max: int): (r: int)
    requires diff == 0 || max >= 2
    ensures diff == 0 ==> r == base
    ensures diff != 0 && base >= 0 ==> 1 <= r <= max - 1
  {
    if diff == 0 then base
    else if diff < 0 then
      var temp := TruncRem(diff + base - 1, max - 1);
      (if temp < 0 then temp + (max - 1) else temp) + 1
    else
      TruncRem(diff + base - 1, max - 1) + 1
  }

  /** A nonzero move lands in [1, max - 1], in the same residue class as
      base + diff modulo the max - 1 slots left once the number is taken
      out. */
  lemma ClampRange(diff: int, base: int, max: int)
    requires max >= 2 && base >= 0 && diff != 0
    ensures 1 <= Clamp(diff, base, max) <= max - 1
    ensures (Clamp(diff, base, max) - (base + diff)) % (max - 1) == 0
  {
    var a := diff + base - 1;
    var b := max - 1;
    TruncRemCongruent(a, b);
    if diff < 0 && TruncRem(a, b) < 0 {
      var t := TruncRem(a, b);
      assert Clamp(diff, base, max) - (base + diff) == (t - a) + b;
      ShiftByModulus(t - a, b);
    } else {
      assert Clamp(diff, base, max) - (base + diff) == TruncRem(a, b) - a;
    }
  }

  lemma ShiftByModulus(x: int, b: int)
    requires b > 0 && x % b == 0
    ensures (x + b) % b == 0
  {
    var q := x / b;
    assert x == q * b;
    assert x + b == (q + 1) * b;
    MultipleOf(q + 1, b);
  }

  // ---------------------------------------------------------------------
  // Moving one number: erase, then insert
  // ---------------------------------------------------------------------

  /** encrypted.erase(begin + from) followed by insert(begin + to, value). */
  function Moved(s: seq<int>, from: int, to: int): (r: seq<int>)
    requires 0 <= from < |s| && 0 <= to < |s|
    ensures |r| == |s|
  {
    var erased := s[..from] + s[from + 1..];
    erased[..to] + [s[from]] + erased[to..]
  }

  /** The new position of the number at x, for x other than the moved
      one: the numbers between the two positions shift by one toward the
      gap. */
  function Shift(x: int, from: int, to: int): int {
    if from < to && from <= x <= to then x - 1
    else if to < from && to <= x <= from then x + 1
    else x
  }

  /** The update of every decryption index: x -= sign(to - from) for x in
      [min(from, to), max(from, to)]. */
  lemma ShiftIsSignStep(x: int, from: int, to: int)
    ensures Shift(x, from, to) ==
      (if (if from <= to then from else to) <= x <= (if from <= to then to else from) then x - Sign(to - from) else x)
  {
  }

  lemma MovedAt(s: seq<int>, from: int, to: int, j: int)
    requires 0 <= from < |s| && 0 <= to < |s| && 0 <= j < |s|
    ensures Moved(s, from, to)[j] ==
      if j == to then s[from]
      else if from < to && from <= j < to then s[j + 1]
      else if to < from && to < j <= from then s[j - 1]
      else s[j]
  {
    var erased := s[..from] + s[from + 1..];
    assert forall k :: 0 <= k < |erased| ==> erased[k] == if k < from then s[k] else s[k + 1];
    var r := erased[..to] + [s[from]] + erased[to..];
    assert forall k :: 0 <= k < |r| ==> r[k] == if k < to then erased[k] else if k == to then s[from] else erased[k - 1];
  }

  /** Every number but the moved one is found at its shifted position. */
  lemma MovedTracks(s: seq<int>, from: int, to: int, x: int)
    requires 0 <= from < |s| && 0 <= to < |s| && 0 <= x < |s| && x != from
    ensures 0 <= Shift(x, from, to) < |s| && Shift(x, from, to) != to
    ensures Moved(s, from, to)[Shift(x, from, to)] == s[x]
  {
    MovedAt(s, from, to, Shift(x, from, to));
  }

  /** Moving a number keeps the numbers. */
  lemma MovedKeepsNumbers(s: seq<int>, from: int, to: int)
    requires 0 <= from < |s| && 0 <= to < |s|
    ensures multiset(Moved(s, from, to)) == multiset(s)
  {
    var erased := s[..from] + s[from + 1..];
    Erased(s, from);
    Inserted(erased, to, s[from]);
  }

  lemma Erased(s: seq<int>, i: int)
    requires 0 <= i < |s|
    ensures multiset(s[..i] + s[i + 1..]) + multiset{s[i]} == multiset(s)
  {
    assert s == s[..i] + [s[i]] + s[i + 1..];
  }

  lemma Inserted(t: seq<int>, j: int, v: int)
    requires 0 <= j <= |t|
    ensures multiset(t[..j] + [v] + t[j..]) == multiset(t) + multiset{v}
  {
    assert t == t[..j] + t[j..];
  }

  // ---------------------------------------------------------------------
  // The mixing loop of solve
  // ---------------------------------------------------------------------

  /** The decryption index locates every original number: it holds
      distinct positions of the list, and position index[k] holds the k-th
      original number. */
  predicate Tracks(original: seq<int>, encrypted: seq<int>, index: seq<int>) {
    |index| == |original| == |encrypted| &&
    (forall k :: 0 <= k < |index| ==> 0 <= index[k] < |encrypted| && encrypted[index[k]] == original[k]) &&
    (forall k, l :: 0 <= k < l < |index| ==> index[k] != index[l])
  }

  function Scaled(values: seq<int>, key: int): (r: seq<int>)
    ensures |r| == |values| && forall k :: 0 <= k < |values| ==> r[k] == values[k] * key
  {
    seq(|values|, k requires 0 <= k < |values| => values[k] * key)
  }

  /** The decryption index and the list once the i-th original number has
      moved: it goes from index[i] to the clamped position, and every other
      tracked position shifts toward the gap. */
  function MoveStep(encrypted: seq<int>, index: seq<int>, i: int): (seq<int>, seq<int>)
    requires 0 <= i < |index| && 0 <= index[i] < |encrypted|
    requires |encrypted| != 1 || encrypted[index[i]] == 0
  {
    var from := index[i];
    var to := Clamp(encrypted[from], from, |encrypted|);
    (seq(|index|, k requires 0 <= k < |index| => if k == i then to else Shift(index[k], from, to)),
     Moved(encrypted, from, to))
  }

  /** Moving a number keeps the numbers and keeps the decryption index
      locating every original number. */
  lemma MoveStepTracks(original: seq<int>, encrypted: seq<int>, index: seq<int>, i: int)
    requires Tracks(original, encrypted, index) && 0 <= i < |encrypted|
    requires |encrypted| != 1 || encrypted[index[i]] == 0
    ensures multiset(MoveStep(encrypted, index, i).1) == multiset(encrypted)
    ensures Tracks(original, MoveStep(encrypted, index, i).1, MoveStep(encrypted, index, i).0)
  {
    var from := index[i];
    var to := Clamp(encrypted[from], from, |encrypted|);
    var index2 := MoveStep(encrypted, index, i).0;
    var encrypted2 := MoveStep(encrypted, index, i).1;
    MovedKeepsNumbers(encrypted, from, to);
    forall k | 0 <= k < |index| && k != i
      ensures 0 <= index2[k] < |encrypted| && index2[k] != to && encrypted2[index2[k]] == original[k]
    {
      MovedTracks(encrypted, from, to, index[k]);
    }
    MovedAt(encrypted, from, to, to);
    forall k, l | 0 <= k < l < |index|
      ensures index2[k] != index2[l]
    {
      if k != i && l != i {
        ShiftInjective(index[k], index[l], from, to);
      }
    }
  }

  /** A single number is only ever 0; the list then never changes. */
  predicate Mixable(original: seq<int>) {
    |original| != 1 || original[0] == 0
  }

  /** The rest of one round: the original numbers i, i + 1, ... move in
      turn. */
  function RoundFrom(original: seq<int>, encrypted: seq<int>, index: seq<int>, i: int): (r: (seq<int>, seq<int>))
    requires Tracks(original, encrypted, index) && Mixable(original) && 0 <= i <= |encrypted|
    ensures Tracks(original, r.1, r.0) && multiset(r.1) == multiset(encrypted)
    decreases |encrypted| - i
  {
    if i == |encrypted| then (index, encrypted)
    else
      MoveStepTracks(original, encrypted, index, i);
      var next := MoveStep(encrypted, index, i);
      RoundFrom(original, next.1, next.0, i + 1)
  }

  /** n whole rounds of mixing. */
  function Rounds(original: seq<int>, encrypted: seq<int>, index: seq<int>, n: nat): (r: (seq<int>, seq<int>))
    requires Tracks(original, encrypted, index) && Mixable(original)
    ensures Tracks(original, r.1, r.0) && multiset(r.1) == multiset(encrypted)
    decreases n
  {
    if n == 0 then (index, encrypted)
    else
      var round := RoundFrom(original, encrypted, index, 0);
      assert Tracks(original, round.1, round.0);
      var rest := Rounds(original, round.1, round.0, n - 1);
      assert multiset(rest.1) == multiset(round.1);
      rest
  }

  lemma RoundsUnfold(original: seq<int>, encrypted: seq<int>, index: seq<int>, n: nat)
    requires Tracks(original, encrypted, index) && Mixable(original) && n > 0
    ensures Rounds(original, encrypted, index, n)
         == Rounds(original, RoundFrom(original, encrypted, index, 0).1, RoundFrom(original, encrypted, index, 0).0, n - 1)
  {
  }

  /** Mixing: every number is multiplied by the key, then repeat rounds
      move each number, in original order, by its value. A single number
      can only stay where it is: clamp would divide by zero otherwise. */
  method Mix(values: seq<int>, repeat: nat, key: int) returns (encrypted: seq<int>, decryptionIndex: seq<int>)
    requires |values| != 1 || values[0] * key == 0
    ensures Tracks(Scaled(values, key), Scaled(values, key), seq(|values|, k => k))
    ensures (decryptionIndex, encrypted) == Rounds(Scaled(values, key), Scaled(values, key), seq(|values|, k => k), repeat)
    ensures multiset(encrypted) == multiset(Scaled(values, key))
    ensures Tracks(Scaled(values, key), encrypted, decryptionIndex)
  {
    encrypted := Scaled(values, key);
    ghost var original := encrypted;
    var messageSize := |encrypted|;
    decryptionIndex := seq(messageSize, k => k);
    ghost var whole := Rounds(original, encrypted, decryptionIndex, repeat);
    for iteration := 0 to repeat
      invariant Tracks(original, encrypted, decryptionIndex)
      invariant whole == Rounds(original, encrypted, decryptionIndex, repeat - iteration)
    {
      RoundsUnfold(original, encrypted, decryptionIndex, repeat - iteration);
      decryptionIndex, encrypted := MixRound(original, encrypted, decryptionIndex);
    }
  }

  /** The inner loop of the mixing: one round, each original number moving
      in turn. */
  method MixRound(ghost original: seq<int>, encrypted: seq<int>, decryptionIndex: seq<int>)
    returns (index2: seq<int>, encrypted2: seq<int>)
    requires Tracks(original, encrypted, decryptionIndex) && Mixable(original)
    ensures (index2, encrypted2) == RoundFrom(original, encrypted, decryptionIndex, 0)
  {
    var messageSize := |encrypted|;
    index2, encrypted2 := decryptionIndex, encrypted;
    for i := 0 to messageSize
      invariant Tracks(original, encrypted2, index2)
      invariant RoundFrom(original, encrypted, decryptionIndex, 0) == RoundFrom(original, encrypted2, index2, i)
    {
      ghost var next := MoveStep(encrypted2, index2, i);
      index2, encrypted2 := MoveNumber(original, encrypted2, index2, i);
      assert index2 == next.0;
    }
  }

  /** One step of the inner loop: the i-th original number moves from
      index[i] to its clamped position, and every other decryption index in
      between shifts by one toward the gap. */
  method MoveNumber(ghost original: seq<int>, encrypted: seq<int>, decryptionIndex: seq<int>, i: int)
    returns (index2: seq<int>, encrypted2: seq<int>)
    requires Tracks(original, encrypted, decryptionIndex) && 0 <= i < |encrypted|
    requires |encrypted| != 1 || encrypted[0] == 0
    ensures encrypted2 == Moved(encrypted, decryptionIndex[i], Clamp(encrypted[decryptionIndex[i]], decryptionIndex[i], |encrypted|))
    ensures |index2| == |decryptionIndex| && index2[i] == Clamp(encrypted[decryptionIndex[i]], decryptionIndex[i], |encrypted|)
    ensures forall k :: 0 <= k < |index2| && k != i ==>
      index2[k] == Shift(decryptionIndex[k], decryptionIndex[i], Clamp(encrypted[decryptionIndex[i]], decryptionIndex[i], |encrypted|))
    ensures multiset(encrypted2) == multiset(encrypted)
    ensures Tracks(original, encrypted2, index2)
  {
    var messageSize := |encrypted|;
    var index := decryptionIndex[i];
    var val := encrypted[index];
    var clamped := Clamp(val, index, messageSize);
    var start, end := if index <= clamped then index else clamped, if index <= clamped then clamped else index;
    index2 := decryptionIndex;
    for k := 0 to messageSize
      invariant |index2| == messageSize
      invariant forall j :: 0 <= j < k ==> index2[j] == Shift(decryptionIndex[j], index, clamped)
      invariant forall j :: k <= j < messageSize ==> index2[j] == decryptionIndex[j]
    {
      ShiftIsSignStep(index2[k], index, clamped);
      if start <= index2[k] && index2[k] <= end {
        index2 := index2[k := index2[k] - Sign(clamped - index)];
      }
    }
    index2 := index2[i := clamped];
    encrypted2 := Moved(encrypted, index, clamped);
    ghost var step := MoveStep(encrypted, decryptionIndex, i);
    assert forall k :: 0 <= k < messageSize ==> index2[k] == step.0[k];
    assert index2 == step.0 && encrypted2 == step.1;
    MoveStepTracks(original, encrypted, decryptionIndex, i);
  }

  /** Shifting keeps distinct positions apart. */
  lemma ShiftInjective(x: int, y: int, from: int, to: int)
    requires x != y && x != from && y != from
    ensures Shift(x, from, to) != Shift(y, from, to)
  {
  }
}
