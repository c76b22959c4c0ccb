/** The lanternfish population of puzzles/2021/src/day06.cpp: instead of
    one timer per fish, the population keeps nine counters, one per timer
    value. Each day every timer decreases; a fish at 0 restarts at 6 and
    spawns a new fish at 8. */
module Lanternfish {
  import opened Wrappers
  import opened Counting

  /** Timer values lie in [0, Timers). */
  const Timers := 9

  predicate ValidTimers(fish: seq<int>) {
    forall i :: 0 <= i < |fish| ==> 0 <= fish[i] < Timers
  }

  // ---------------------------------------------------------------------
  // The reference: one timer per fish
  // ---------------------------------------------------------------------

  /** One fish after a day: its timer decreases, or it restarts at 6 and
      spawns a fish at 8. */
  function NextFish(t: int): seq<int> {
    if t == 0 then [6, 8] else [t - 1]
  }

  /** Every fish after a day. */
  function AgeFish(fish: seq<int>): (r: seq<int>)
    ensures ValidTimers(fish) ==> ValidTimers(r)
  {
    if |fish| == 0 then [] else AgeFish(fish[..|fish| - 1]) + NextFish(fish[|fish| - 1])
  }

  function AgeFishDays(fish: seq<int>, n: nat): (r: seq<int>)
    ensures ValidTimers(fish) ==> ValidTimers(r)
    decreases n
  {
    if n == 0 then fish else AgeFishDays(AgeFish(fish), n - 1)
  }

  // ---------------------------------------------------------------------
  // The counters
  // ---------------------------------------------------------------------

  /** How many fish have each timer value. */
  function Tally(fish: seq<int>): (r: seq<int>)
    ensures |r| == Timers && NonNegative(r)
  {
    seq(Timers, k => CountOf(fish, k))
  }

  /** operator++ on the counters: rotate left by one, so the fish at 0
      become the newborns at 8, then add those same fish back at 6. */
  function NextDay(c: seq<int>): (r: seq<int>)
    requires |c| == Timers
    ensures |r| == Timers
    ensures forall k :: 0 <= k < Timers ==> r[k] == if k == 8 then c[0] else if k == 6 then c[7] + c[0] else c[k + 1]
  {
    var rotated := c[1..] + [c[0]];
    rotated[6 := rotated[6] + rotated[8]]
  }

  function Days(c: seq<int>, n: nat): (r: seq<int>)
    requires |c| == Timers
    ensures |r| == Timers
    decreases n
  {
    if n == 0 then c else Days(NextDay(c), n - 1)
  }

  /** A day adds exactly as many fish as there were timers at 0. */
  lemma TotalAfterDay(c: seq<int>)
    requires |c| == Timers
    ensures Sum(NextDay(c)) == Sum(c) + c[0]
  {
    var rotated := c[1..] + [c[0]];
    SumConcat(c[1..], [c[0]]);
    SumConcat([c[0]], c[1..]);
    assert [c[0]] + c[1..] == c;
    assert Sum([c[0]]) == c[0] by {
      assert [c[0]][..0] == [];
    }
    SumUpdate(rotated, 6, rotated[6] + rotated[8]);
  }

  /** Each counter after a day. */
  lemma {:induction false} TallySnoc(fish: seq<int>, t: int)
    requires 0 <= t < Timers
    ensures Tally(fish + [t]) == Tally(fish)[t := Tally(fish)[t] + 1]
  {
    assert (fish + [t])[..|fish|] == fish;
  }

  /** The counters count the fish. */
  lemma {:induction false} TallySum(fish: seq<int>)
    requires ValidTimers(fish)
    ensures Sum(Tally(fish)) == |fish|
    decreases |fish|
  {
    if |fish| == 0 {
      SumOfZeros(Tally(fish));
    } else {
      var f := fish[..|fish| - 1];
      var t := fish[|fish| - 1];
      assert fish == f + [t];
      TallySum(f);
      TallySnoc(f, t);
      SumIncrement(Tally(f), t);
    }
  }

  /** The counters step exactly as the individual fish do. */
  lemma {:induction false} TallyAgeFish(fish: seq<int>)
    requires ValidTimers(fish)
    ensures Tally(AgeFish(fish)) == NextDay(Tally(fish))
    decreases |fish|
  {
    if |fish| > 0 {
      var f := fish[..|fish| - 1];
      var t := fish[|fish| - 1];
      assert fish == f + [t];
      assert AgeFish(fish) == AgeFish(f) + NextFish(t);
      TallyAgeFish(f);
      TallyAgeSnoc(f, t);
    }
  }

  /** The step of TallyAgeFish: one more fish at the end. */
  lemma TallyAgeSnoc(f: seq<int>, t: int)
    requires 0 <= t < Timers && Tally(AgeFish(f)) == NextDay(Tally(f))
    ensures Tally(AgeFish(f) + NextFish(t)) == NextDay(Tally(f + [t]))
  {
    TallySnoc(f, t);
    TallyAgeAll(AgeFish(f), Tally(f), Tally(f + [t]), t);
  }

  /** Every counter of that step. */
  lemma TallyAgeAll(g: seq<int>, c: seq<int>, c': seq<int>, t: int)
    requires |c| == Timers && 0 <= t < Timers && Tally(g) == NextDay(c)
    requires c' == c[t := c[t] + 1]
    ensures Tally(g + NextFish(t)) == NextDay(c')
  {
    forall k | 0 <= k < Timers
      ensures Tally(g + NextFish(t))[k] == NextDay(c')[k]
    {
      assert Tally(g)[k] == CountOf(g, k);
      TallyAgeAt(g, c, t, k);
    }
  }

  /** One counter of that step. */
  lemma TallyAgeAt(g: seq<int>, c: seq<int>, t: int, k: int)
    requires |c| == Timers && 0 <= t < Timers && 0 <= k < Timers
    requires CountOf(g, k) == NextDay(c)[k]
    ensures CountOf(g + NextFish(t), k) == NextDay(c[t := c[t] + 1])[k]
  {
    CountConcat(g, NextFish(t), k);
    CountNextFish(t, k);
  }

  lemma CountNextFish(t: int, k: int)
    ensures CountOf(NextFish(t), k) == (if t == 0 && (k == 6 || k == 8) then 1 else if t != 0 && k == t - 1 then 1 else 0)
  {
    if t == 0 {
      assert [6, 8][..1] == [6];
      assert [6][..0] == [];
    } else {
      assert [t - 1][..0] == [];
    }
  }

  lemma {:induction false} TallyAgeFishDays(fish: seq<int>, n: nat)
    requires ValidTimers(fish)
    ensures Tally(AgeFishDays(fish, n)) == Days(Tally(fish), n)
    decreases n
  {
    if n > 0 {
      TallyAgeFish(fish);
      TallyAgeFishDays(AgeFish(fish), n - 1);
    }
  }

  // ---------------------------------------------------------------------
  // fish_population
  // ---------------------------------------------------------------------

  class FishPopulation {
    var daysCount: array<int>
    var day: int

    ghost predicate Valid()
      reads this
    {
      daysCount.Length == Timers
    }

    /** The empty population on day 0. */
    constructor()
      ensures Valid() && fresh(daysCount) && day == 0
      ensures daysCount[..] == Tally([])
    {
      daysCount := new int[Timers](k => 0);
      day := 0;
    }

    /** operator++: one more day. */
    method Increment()
      requires Valid()
      modifies this, daysCount
      ensures Valid() && daysCount == old(daysCount)
      ensures day == old(day) + 1
      ensures daysCount[..] == NextDay(old(daysCount[..]))
    {
      day := day + 1;
      Rotate();
      daysCount[6] := daysCount[6] + daysCount[8];
    }

    /** std::rotate(begin, begin + 1, end): every count moves down one
        timer and the count at timer 0 goes to the end. */
    method Rotate()
      requires Valid()
      modifies daysCount
      ensures daysCount[..] == old(daysCount[..])[1..] + [old(daysCount[0])]
    {
      var first := daysCount[0];
      for k := 0 to Timers - 1
        invariant forall j :: 0 <= j < k ==> daysCount[j] == old(daysCount[j + 1])
        invariant forall j :: k <= j < Timers ==> daysCount[j] == old(daysCount[j])
      {
        daysCount[k] := daysCount[k + 1];
      }
      daysCount[Timers - 1] := first;
      ghost var rotated := old(daysCount[..])[1..] + [old(daysCount[0])];
      assert forall j :: 0 <= j < Timers ==> daysCount[j] == rotated[j];
    }

    /** get_result: the total number of fish. */
    method GetResult() returns (total: int)
      requires Valid()
      ensures total == Sum(daysCount[..])
    {
      total := 0;
      for k := 0 to Timers
        invariant total == Sum(daysCount[..k])
      {
        assert daysCount[..k + 1][..k] == daysCount[..k];
        total := total + daysCount[k];
      }
      assert daysCount[..Timers] == daysCount[..];
    }

    /** One call of operator++ per generation. */
    method Generations(n: nat)
      requires Valid()
      modifies this, daysCount
      ensures Valid() && daysCount == old(daysCount)
      ensures day == old(day) + n
      ensures daysCount[..] == Days(old(daysCount[..]), n)
    {
      for g := 0 to n
        invariant Valid() && daysCount == old(daysCount)
        invariant day == old(day) + g
        invariant Days(old(daysCount[..]), n) == Days(daysCount[..], n - g)
      {
        Increment();
      }
    }
  }

  /** The constructor: one increment of days_count.at(i) per timer read.
      at() throws on a timer outside [0, 9), and no population is made. */
  method FromTimers(timers: seq<int>) returns (r: Option<FishPopulation>)
    ensures r.Some? <==> ValidTimers(timers)
    ensures r.Some? ==> fresh(r.value) && fresh(r.value.daysCount) && r.value.Valid()
    ensures r.Some? ==> r.value.day == 0 && r.value.daysCount[..] == Tally(timers)
  {
    var p := new FishPopulation();
    for i := 0 to |timers|
      invariant fresh(p) && fresh(p.daysCount) && p.Valid() && p.day == 0
      invariant ValidTimers(timers[..i])
      invariant p.daysCount[..] == Tally(timers[..i])
    {
      var t := timers[i];
      if !(0 <= t < Timers) {
        assert !ValidTimers(timers);
        return None;
      }
      TallySnoc(timers[..i], t);
      assert timers[..i + 1] == timers[..i] + [t];
      p.daysCount[t] := p.daysCount[t] + 1;
    }
    assert timers[..|timers|] == timers;
    r := Some(p);
  }

  /** run_test: the number of fish after the given number of days, which is
      the number of fish the one-timer-per-fish simulation ends with. */
  method RunTest(timers: seq<int>, generations: nat) returns (r: Option<int>)
    ensures r.Some? <==> ValidTimers(timers)
    ensures r.Some? ==> r.value == Sum(Days(Tally(timers), generations))
    ensures r.Some? ==> r.value == |AgeFishDays(timers, generations)|
  {
    var p := FromTimers(timers);
    if p.None? {
      return None;
    }
    var fishes := p.value;
    fishes.Generations(generations);
    var total := fishes.GetResult();
    TallyAgeFishDays(timers, generations);
    TallySum(AgeFishDays(timers, generations));
    r := Some(total);
  }
}
