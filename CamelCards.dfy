/** Camel Cards hands of puzzles/2023/src/day07.cpp: five cards with values
    in [0, 15), a hand type computed from how often each value occurs, and
    the order of hands by type and then by their cards. In part 2 a Joker
    (value 1) becomes whichever card makes the hand strongest. */
module CamelCards {
  import opened Counting

  // HAND_TYPES, in increasing strength
  const Default := 0
  const HighCard := 1
  const OnePair := 2
  const TwoPair := 3
  const ThreeKind := 4
  const FullHouse := 5
  const FourKind := 6
  const FiveKind := 7

  const Joker := 1
  const Jack := 11
  /** Card values lie in [0, MaxCard). */
  const MaxCard := 15
  const HandSize := 5

  // ---------------------------------------------------------------------
  // Counting
  // ---------------------------------------------------------------------

  /** Every pair counted twice: the sum is at least twice the number of
      entries equal to 2. */
  lemma {:induction false} PairsAtMostHalf(s: seq<int>)
    requires NonNegative(s)
    ensures Sum(s) >= 2 * CountOf(s, 2)
    decreases |s|
  {
    if |s| > 0 {
      assert NonNegative(s[..|s| - 1]);
      PairsAtMostHalf(s[..|s| - 1]);
    }
  }

  // ---------------------------------------------------------------------
  // determine_type
  // ---------------------------------------------------------------------

  /** The type of a hand from its card counts: has[k] is the number of
      values that occur k + 2 times. */
  function DetermineType(counts: seq<int>): (t: int)
    ensures HighCard <= t <= FiveKind
    ensures t == FiveKind <==> CountOf(counts, 5) > 0
    ensures t == FullHouse ==> CountOf(counts, 3) > 0 && CountOf(counts, 2) > 0
    ensures t == TwoPair ==> CountOf(counts, 2) == 2 && CountOf(counts, 3) == 0
  {
    var has0 := CountOf(counts, 2);
    var has1 := CountOf(counts, 3);
    var has2 := CountOf(counts, 4);
    var has3 := CountOf(counts, 5);
    if has3 > 0 then FiveKind
    else if has2 > 0 then FourKind
    else if has1 > 0 && has0 > 0 then FullHouse
    else if has1 > 0 then ThreeKind
    else if has0 == 2 then TwoPair
    else if has0 == 1 then OnePair
    else HighCard
  }

  /** determine_type: the loop tallying has[count - 2]. A count above 5
      would index past has[3]; the source never produces one. */
  method DetermineTypeLoop(counts: seq<int>) returns (t: int)
    requires forall i :: 0 <= i < |counts| ==> counts[i] <= 5
    ensures t == DetermineType(counts)
    ensures HighCard <= t <= FiveKind
  {
    var has := [0, 0, 0, 0];
    for i := 0 to |counts|
      invariant |has| == 4
      invariant forall k :: 0 <= k < 4 ==> has[k] == CountOf(counts[..i], k + 2)
    {
      assert counts[..i + 1][..i] == counts[..i];
      var count := counts[i];
      if count >= 2 {
        has := has[count - 2 := has[count - 2] + 1];
      }
    }
    assert counts[..|counts|] == counts;
    if has[3] > 0 {
      return FiveKind;
    }
    if has[2] > 0 {
      return FourKind;
    }
    if has[1] > 0 && has[0] > 0 {
      return FullHouse;
    }
    if has[1] > 0 {
      return ThreeKind;
    }
    if has[0] == 2 {
      return TwoPair;
    }
    if has[0] == 1 {
      return OnePair;
    }
    return HighCard;
  }

  /** Counts of five cards: the hand is a high card exactly when no value
      repeats, and five of a kind exactly when some value occurs five
      times. */
  lemma HighCardIffNoRepeat(counts: seq<int>)
    requires NonNegative(counts) && Sum(counts) == HandSize
    requires forall i :: 0 <= i < |counts| ==> counts[i] <= 5
    ensures DetermineType(counts) == HighCard <==> forall i :: 0 <= i < |counts| ==> counts[i] <= 1
    ensures DetermineType(counts) == FiveKind <==> 5 in counts
  {
    HighCardIff(counts);
    CountPositive(counts, 5);
  }

  lemma HighCardIff(counts: seq<int>)
    requires NonNegative(counts) && Sum(counts) == HandSize
    requires forall i :: 0 <= i < |counts| ==> counts[i] <= 5
    ensures DetermineType(counts) == HighCard <==> forall i :: 0 <= i < |counts| ==> counts[i] <= 1
  {
    PairsAtMostHalf(counts);
    CountPositive(counts, 2);
    CountPositive(counts, 3);
    CountPositive(counts, 4);
    CountPositive(counts, 5);
    if DetermineType(counts) == HighCard {
      NoRepeatWhenAbsent(counts);
    }
  }

  /** Counts of at most 5 none of which is 2, 3, 4 or 5 are all at most 1. */
  lemma NoRepeatWhenAbsent(counts: seq<int>)
    requires forall i :: 0 <= i < |counts| ==> counts[i] <= 5
    requires 2 !in counts && 3 !in counts && 4 !in counts && 5 !in counts
    ensures forall i :: 0 <= i < |counts| ==> counts[i] <= 1
  {
    forall i | 0 <= i < |counts|
      ensures counts[i] <= 1
    {
      assert counts[i] in counts;
    }
  }

  // ---------------------------------------------------------------------
  // set_types: the counts of a hand
  // ---------------------------------------------------------------------

  predicate ValidCards(cards: seq<int>) {
    forall i :: 0 <= i < |cards| ==> 0 <= cards[i] < MaxCard
  }

  /** counts plus one for each card of cards. */
  function AddCards(counts: seq<int>, cards: seq<int>): (r: seq<int>)
    ensures |r| == |counts|
  {
    seq(|counts|, v requires 0 <= v < |counts| => counts[v] + CountOf(cards, v))
  }

  function NoCounts(): (r: seq<int>)
    ensures |r| == MaxCard && forall v :: 0 <= v < MaxCard ==> r[v] == 0
  {
    seq(MaxCard, v => 0)
  }

  /** The type with every card, Jokers included, counted at its own value. */
  function PlainType(cards: seq<int>): int {
    DetermineType(AddCards(NoCounts(), cards))
  }

  /** Adding the first card on its own, then the rest. */
  lemma AddFirstCard(counts: seq<int>, cards: seq<int>)
    requires |cards| > 0 && 0 <= cards[0] < |counts|
    ensures AddCards(counts, cards) == AddCards(counts[cards[0] := counts[cards[0]] + 1], cards[1..])
  {
    assert cards == [cards[0]] + cards[1..];
    forall v | 0 <= v < |counts|
      ensures AddCards(counts, cards)[v] == AddCards(counts[cards[0] := counts[cards[0]] + 1], cards[1..])[v]
    {
      CountConcat([cards[0]], cards[1..], v);
      assert [cards[0]][..0] == [];
    }
  }

  lemma AddNoCards(counts: seq<int>)
    ensures AddCards(counts, []) == counts
  {
  }

  // ---------------------------------------------------------------------
  // get_type_recursive_imp: the best substitution for every Joker
  // ---------------------------------------------------------------------

  function Max(a: int, b: int): int { if a < b then b else a }

  /** The strongest type reachable from counts by adding the cards from
      position idx on, each Joker replaced by the best value in [0, 15). */
  function JokerSpec(cards: seq<int>, counts: seq<int>, idx: nat): int
    requires ValidCards(cards) && |counts| == MaxCard
    decreases |cards| - idx, 1
  {
    if idx >= |cards| then DetermineType(counts)
    else if cards[idx] != Joker then JokerSpec(cards, counts[cards[idx] := counts[cards[idx]] + 1], idx + 1)
    else BestFrom(cards, counts, idx, MaxCard)
  }

  /** The best over the substitutions 0 .. hi - 1 of the Joker at idx
      (DEFAULT when there are none). */
  function BestFrom(cards: seq<int>, counts: seq<int>, idx: nat, hi: nat): int
    requires ValidCards(cards) && |counts| == MaxCard && idx < |cards| && hi <= MaxCard
    decreases |cards| - idx, 0, hi
  {
    if hi == 0 then Default
    else Max(BestFrom(cards, counts, idx, hi - 1), JokerSpec(cards, counts[hi - 1 := counts[hi - 1] + 1], idx + 1))
  }

  lemma {:induction false} BestFromCovers(cards: seq<int>, counts: seq<int>, idx: nat, hi: nat, c: nat)
    requires ValidCards(cards) && |counts| == MaxCard && idx < |cards| && c < hi <= MaxCard
    ensures BestFrom(cards, counts, idx, hi) >= JokerSpec(cards, counts[c := counts[c] + 1], idx + 1)
    decreases hi
  {
    if c < hi - 1 {
      BestFromCovers(cards, counts, idx, hi - 1, c);
    }
  }

  /** Choosing the best substitution is never worse than counting each
      Joker as the value 1. */
  lemma {:induction false} JokerAtLeastPlain(cards: seq<int>, counts: seq<int>, idx: nat)
    requires ValidCards(cards) && |counts| == MaxCard && idx <= |cards|
    ensures JokerSpec(cards, counts, idx) >= DetermineType(AddCards(counts, cards[idx..]))
    decreases |cards| - idx
  {
    if idx == |cards| {
      AddNoCards(counts);
    } else {
      var c := cards[idx];
      AddFirstCard(counts, cards[idx..]);
      assert cards[idx..][1..] == cards[idx + 1..];
      JokerAtLeastPlain(cards, counts[c := counts[c] + 1], idx + 1);
      if c == Joker {
        BestFromCovers(cards, counts, idx, MaxCard, c);
      }
    }
  }

  /** Without Jokers there is nothing to choose: the type is the plain one. */
  lemma {:induction false} NoJokerIsPlain(cards: seq<int>, counts: seq<int>, idx: nat)
    requires ValidCards(cards) && |counts| == MaxCard && idx <= |cards|
    requires Joker !in cards[idx..]
    ensures JokerSpec(cards, counts, idx) == DetermineType(AddCards(counts, cards[idx..]))
    decreases |cards| - idx
  {
    if idx == |cards| {
      AddNoCards(counts);
    } else {
      var c := cards[idx];
      assert c == cards[idx..][0];
      AddFirstCard(counts, cards[idx..]);
      assert cards[idx..][1..] == cards[idx + 1..];
      NoJokerIsPlain(cards, counts[c := counts[c] + 1], idx + 1);
    }
  }

  /** The type of a hand in each part. */
  lemma JokerTypeBounds(cards: seq<int>)
    requires ValidCards(cards)
    ensures JokerSpec(cards, NoCounts(), 0) >= PlainType(cards)
    ensures Joker !in cards ==> JokerSpec(cards, NoCounts(), 0) == PlainType(cards)
  {
    assert cards[0..] == cards;
    JokerAtLeastPlain(cards, NoCounts(), 0);
    if Joker !in cards {
      NoJokerIsPlain(cards, NoCounts(), 0);
    }
  }

  // ---------------------------------------------------------------------
  // operator< on hands
  // ---------------------------------------------------------------------

  /** lexicographical_compare on card values. */
  function LexLess(a: seq<int>, b: seq<int>): (lt: bool)
    ensures lt ==> a != b
  {
    if |a| == 0 || |b| == 0 then |a| == 0 && |b| > 0
    else if a[0] < b[0] then true
    else if b[0] < a[0] then false
    else LexLess(a[1..], b[1..])
  }

  /** operator<: by type; equal types by the cards in order. */
  function HandLess(type1: int, cards1: seq<int>, type2: int, cards2: seq<int>): (lt: bool)
    ensures type1 < type2 ==> lt
    ensures lt ==> type1 <= type2 && (type1, cards1) != (type2, cards2)
  {
    if type1 == type2 then LexLess(cards1, cards2) else type1 < type2
  }

  lemma {:induction false} LexTransitive(a: seq<int>, b: seq<int>, c: seq<int>)
    requires LexLess(a, b) && LexLess(b, c)
    ensures LexLess(a, c)
    decreases |a|
  {
    if |a| > 0 && a[0] == b[0] && b[0] == c[0] {
      LexTransitive(a[1..], b[1..], c[1..]);
    }
  }

  /** Two different card sequences of the same length are ordered one way
      or the other, never both. */
  lemma {:induction false} LexTotal(a: seq<int>, b: seq<int>)
    requires |a| == |b|
    ensures !(LexLess(a, b) && LexLess(b, a))
    ensures a != b ==> LexLess(a, b) || LexLess(b, a)
    decreases |a|
  {
    if |a| > 0 {
      LexTotal(a[1..], b[1..]);
      if a[0] == b[0] && a[1..] == b[1..] {
        assert a == [a[0]] + a[1..] && b == [b[0]] + b[1..];
      }
    }
  }

  /** operator< is a strict total order on (type, cards) pairs of hands. */
  lemma HandOrder(t1: int, c1: seq<int>, t2: int, c2: seq<int>, t3: int, c3: seq<int>)
    requires |c1| == |c2| == HandSize
    ensures !(HandLess(t1, c1, t2, c2) && HandLess(t2, c2, t1, c1))
    ensures (t1, c1) != (t2, c2) ==> HandLess(t1, c1, t2, c2) || HandLess(t2, c2, t1, c1)
    ensures HandLess(t1, c1, t2, c2) && HandLess(t2, c2, t3, c3) ==> HandLess(t1, c1, t3, c3)
  {
    LexTotal(c1, c2);
    if HandLess(t1, c1, t2, c2) && HandLess(t2, c2, t3, c3) && t1 == t2 == t3 {
      LexTransitive(c1, c2, c3);
    }
  }

  // ---------------------------------------------------------------------
  // from_char
  // ---------------------------------------------------------------------

  /** The value of a card letter; 'J' is a Jack (11) in part 1 and a
      Joker (1) in part 2. Other characters count as c - '0'. */
  function FromChar(c: char, jokers: bool): (r: int)
    ensures c == 'A' ==> r == 14
    ensures c == 'K' ==> r == 13
    ensures c == 'Q' ==> r == 12
    ensures c == 'J' ==> r == (if jokers then Joker else Jack)
    ensures c == 'T' ==> r == 10
    ensures c !in "AKQJT" ==> r == c as int - '0' as int
  {
    match c
    case 'A' => 14
    case 'K' => 13
    case 'Q' => 12
    case 'J' => if jokers then Joker else Jack
    case 'T' => 10
    case _ => c as int - '0' as int
  }

  /** The card letters from weakest to strongest in part 1, and with 'J'
      moved to the front in part 2. */
  const Ranking1 := "23456789TJQKA"
  const Ranking2 := "J23456789TQKA"

  /** from_char orders the cards as the game ranks them, and every card
      value is a valid counts index. */
  lemma FromCharRanks()
    ensures forall i, j :: 0 <= i < j < |Ranking1| ==> FromChar(Ranking1[i], false) < FromChar(Ranking1[j], false)
    ensures forall i, j :: 0 <= i < j < |Ranking2| ==> FromChar(Ranking2[i], true) < FromChar(Ranking2[j], true)
    ensures forall i :: 0 <= i < |Ranking1| ==> 0 <= FromChar(Ranking1[i], false) < MaxCard
    ensures forall i :: 0 <= i < |Ranking2| ==> 0 <= FromChar(Ranking2[i], true) < MaxCard
  {
    RankValues1();
    RankValues2();
  }

  /** In part 1 the i-th weakest card is worth i + 2. */
  lemma RankValues1()
    ensures forall i :: 0 <= i < |Ranking1| ==> FromChar(Ranking1[i], false) == i + 2
  {
    forall i | 0 <= i < |Ranking1|
      ensures FromChar(Ranking1[i], false) == i + 2
    {
      if i < 8 {
        assert Ranking1[i] == "23456789"[i];
      }
    }
  }

  /** In part 2 the joker is worth 1, the digits and 'T' follow, and the
      court cards skip the jack's 11. */
  lemma RankValues2()
    ensures forall i :: 0 <= i < |Ranking2| ==> FromChar(Ranking2[i], true) == if i < 10 then i + 1 else i + 2
  {
    forall i | 0 <= i < |Ranking2|
      ensures FromChar(Ranking2[i], true) == if i < 10 then i + 1 else i + 2
    {
      if 1 <= i < 9 {
        assert Ranking2[i] == "23456789"[i - 1];
      }
    }
  }

  // ---------------------------------------------------------------------
  // The hand object
  // ---------------------------------------------------------------------

  class Hand {
    const cards: seq<int>
    var kind: int

    constructor(cards: seq<int>)
      ensures this.cards == cards && kind == Default
    {
      this.cards := cards;
      kind := Default;
    }

    /** set_types: tally the cards and classify the counts. */
    method SetTypes()
      requires |cards| == HandSize && ValidCards(cards)
      modifies this
      ensures kind == PlainType(cards)
    {
      var counts := NoCounts();
      SumOfZeros(counts);
      assert cards[..0] == [];
      for i := 0 to |cards|
        invariant counts == AddCards(NoCounts(), cards[..i])
        invariant NonNegative(counts) && Sum(counts) == i
      {
        var c := cards[i];
        AddLastCard(NoCounts(), cards[..i], c);
        assert cards[..i + 1] == cards[..i] + [c];
        SumIncrement(counts, c);
        counts := counts[c := counts[c] + 1];
      }
      assert cards[..|cards|] == cards;
      CountsAtMostFive(counts);
      kind := DetermineTypeLoop(counts);
    }

    /** set_joker_types. */
    method SetJokerTypes()
      requires |cards| == HandSize && ValidCards(cards)
      modifies this
      ensures kind == JokerSpec(cards, NoCounts(), 0)
    {
      SumOfZeros(NoCounts());
      kind := TypeRecursive(NoCounts(), 0);
    }

    /** get_type_recursive_imp: counts holds the cards before idx, Jokers
        already replaced; each Joker tries every value in [0, 15). */
    method TypeRecursive(counts: seq<int>, idx: nat) returns (t: int)
      requires |cards| == HandSize && ValidCards(cards)
      requires |counts| == MaxCard && NonNegative(counts) && Sum(counts) == idx <= HandSize
      ensures t == JokerSpec(cards, counts, idx)
      decreases HandSize - idx
    {
      if idx >= HandSize {
        CountsAtMostFive(counts);
        t := DetermineTypeLoop(counts);
        return;
      }
      var currCount := counts;
      var c := cards[idx];
      if c != Joker {
        SumIncrement(currCount, c);
        currCount := currCount[c := currCount[c] + 1];
        t := TypeRecursive(currCount, idx + 1);
        return;
      }
      var max := Default;
      for d := 0 to MaxCard
        invariant currCount == counts
        invariant max == BestFrom(cards, counts, idx, d)
      {
        SumIncrement(currCount, d);
        currCount := currCount[d := currCount[d] + 1];
        var sub := TypeRecursive(currCount, idx + 1);
        max := Max(max, sub);
        currCount := currCount[d := currCount[d] - 1];
      }
      t := max;
    }

    /** operator<. */
    function Less(other: Hand): (lt: bool)
      reads this, other
      ensures kind < other.kind ==> lt
      ensures lt ==> kind <= other.kind && (kind != other.kind || cards != other.cards)
    {
      HandLess(kind, cards, other.kind, other.cards)
    }
  }

  lemma AddLastCard(counts: seq<int>, cards: seq<int>, c: int)
    requires 0 <= c < |counts|
    ensures AddCards(counts, cards + [c]) == AddCards(counts, cards)[c := AddCards(counts, cards)[c] + 1]
  {
    forall v | 0 <= v < |counts|
      ensures AddCards(counts, cards + [c])[v] == AddCards(counts, cards)[c := AddCards(counts, cards)[c] + 1][v]
    {
      assert (cards + [c])[..|cards|] == cards;
    }
  }

  lemma CountsAtMostFive(counts: seq<int>)
    requires NonNegative(counts) && Sum(counts) <= HandSize
    ensures forall i :: 0 <= i < |counts| ==> counts[i] <= 5
  {
    forall i | 0 <= i < |counts|
      ensures counts[i] <= 5
    {
      EntryAtMostSum(counts, i);
    }
  }
}
