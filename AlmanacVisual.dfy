/** The value logic of Visualizations/day2023-05.py: the same rules and
    stages as puzzles/2023/src/day05.cpp (reused from module Almanac), with a
    dictionary-building reverse step in which the last matching rule wins, a
    pipeline that keeps every result paired with its seed, and the
    widest-gap probe of part 2. Drawing and timing are not modelled. */
module AlmanacVisual {
  import opened Wrappers
  import opened Almanac

  // ---------------------------------------------------------------------
  // IntMaps.convert_rev: a dictionary, the last matching rule wins
  // ---------------------------------------------------------------------

  /** The reverse image under the last rule whose destination range holds
      the mark, if any. */
  function LastRevMatch(maps: Stage, mark: int): (r: Option<int>)
    ensures r.Some? ==> exists j :: 0 <= j < |maps| && InRangeRev(maps[j], mark) && r.value == ConvertRev(maps[j], mark)
                                    && forall k :: j < k < |maps| ==> !InRangeRev(maps[k], mark)
    ensures r.None? <==> forall j :: 0 <= j < |maps| ==> !InRangeRev(maps[j], mark)
  {
    if |maps| == 0 then None
    else if InRangeRev(maps[|maps| - 1], mark) then Some(ConvertRev(maps[|maps| - 1], mark))
    else LastRevMatch(maps[..|maps| - 1], mark)
  }

  /** The value the dictionary holds for a mark. */
  function RevTarget(maps: Stage, mark: int): int {
    match LastRevMatch(maps, mark)
    case Some(v) => v
    case None => mark
  }

  /** The inner loop for one mark: each matching rule overwrites the entry,
      and an entry still missing afterwards is set to the mark itself. */
  method VisitMark(maps: Stage, mark: int, m0: map<int, int>) returns (mapping: map<int, int>)
    ensures mapping == m0[mark := match LastRevMatch(maps, mark)
                                   case Some(v) => v
                                   case None => if mark in m0 then m0[mark] else mark]
  {
    mapping := m0;
    for j := 0 to |maps|
      invariant mapping == match LastRevMatch(maps[..j], mark)
                           case Some(v) => m0[mark := v]
                           case None => m0
    {
      assert maps[..j + 1][..j] == maps[..j];
      if InRangeRev(maps[j], mark) {
        mapping := mapping[mark := ConvertRev(maps[j], mark)];
      }
    }
    assert maps[..|maps|] == maps;
    if mark !in mapping {
      mapping := mapping[mark := mark];
    }
  }

  /** IntMaps.convert_rev: the marks are the input values followed by every
      rule's dest_start; the result maps each mark to its reverse image under
      the last matching rule, or to itself when no rule matches. */
  method ConvertRevDict(maps: Stage, vec: set<int>) returns (mapping: map<int, int>)
    ensures mapping.Keys == vec + Dests(maps)
    ensures forall m :: m in mapping ==> mapping[m] == RevTarget(maps, m)
  {
    mapping := map[];
    var todo := vec;
    while todo != {}
      invariant todo <= vec
      invariant mapping.Keys == vec - todo
      invariant forall m :: m in mapping ==> mapping[m] == RevTarget(maps, m)
      decreases todo
    {
      ghost var someMark := MemberOf(todo);
      var mark :| mark in todo;
      mapping := VisitMark(maps, mark, mapping);
      todo := todo - {mark};
    }
    for i := 0 to |maps|
      invariant mapping.Keys == vec + set j | 0 <= j < i :: maps[j].destStart
      invariant forall m :: m in mapping ==> mapping[m] == RevTarget(maps, m)
    {
      mapping := VisitMark(maps, maps[i].destStart, mapping);
    }
  }

  /** The dictionary entry in terms of the rules: a mark no destination
      range holds maps to itself; otherwise the last matching rule decides. */
  lemma RevTargetByRules(maps: Stage, mark: int, j: int)
    ensures (forall k :: 0 <= k < |maps| ==> !InRangeRev(maps[k], mark)) ==> RevTarget(maps, mark) == mark
    ensures 0 <= j < |maps| && InRangeRev(maps[j], mark) && (forall k :: j < k < |maps| ==> !InRangeRev(maps[k], mark))
            ==> RevTarget(maps, mark) == ConvertRev(maps[j], mark)
  {
    if 0 <= j < |maps| && InRangeRev(maps[j], mark) && (forall k :: j < k < |maps| ==> !InRangeRev(maps[k], mark)) {
      var r := LastRevMatch(maps, mark);
      var i :| 0 <= i < |maps| && InRangeRev(maps[i], mark) && r.value == ConvertRev(maps[i], mark)
               && forall k :: i < k < |maps| ==> !InRangeRev(maps[k], mark);
      assert i == j;
    }
  }

  predicate DisjointSources(maps: Stage) {
    forall i, j :: 0 <= i < |maps| && 0 <= j < |maps| && i != j ==>
      maps[i].sourceStart + maps[i].distance <= maps[j].sourceStart
      || maps[j].sourceStart + maps[j].distance <= maps[i].sourceStart
      || maps[i].distance <= 0 || maps[j].distance <= 0
  }

  /** When the source ranges of a stage do not overlap (as in the puzzle's
      inputs), the reverse entry of a value some destination range holds is a
      true preimage: converting it forward gives the value back. */
  lemma RevTargetIsPreimage(maps: Stage, y: int)
    requires DisjointSources(maps)
    requires exists j :: 0 <= j < |maps| && InRangeRev(maps[j], y)
    ensures StageConvert(maps, RevTarget(maps, y)) == y
  {
    var j := LastRevWitness(maps, y);
    var x := RevTarget(maps, y);
    assert InRange(maps[j], x);
    OnlyMatch(maps, j, x);
  }

  /** The rule whose reverse image the dictionary keeps for y. */
  lemma LastRevWitness(maps: Stage, y: int) returns (j: int)
    requires exists j :: 0 <= j < |maps| && InRangeRev(maps[j], y)
    ensures 0 <= j < |maps| && InRangeRev(maps[j], y) && RevTarget(maps, y) == ConvertRev(maps[j], y)
  {
    var r := LastRevMatch(maps, y);
    j :| 0 <= j < |maps| && InRangeRev(maps[j], y) && r.value == ConvertRev(maps[j], y)
         && forall k :: j < k < |maps| ==> !InRangeRev(maps[k], y);
  }

  /** With disjoint source ranges a seed in rule j's range is matched by j. */
  lemma OnlyMatch(maps: Stage, j: int, x: int)
    requires DisjointSources(maps) && 0 <= j < |maps| && InRange(maps[j], x)
    ensures FirstMatch(maps, x) == Some(j)
  {
    assert forall i :: 0 <= i < |maps| && i != j ==> !InRange(maps[i], x);
  }

  // ---------------------------------------------------------------------
  // Pipeline.run_through_pipeline_rev
  // ---------------------------------------------------------------------

  function Targets(maps: Stage, marks: set<int>): set<int> {
    set m | m in marks :: RevTarget(maps, m)
  }

  /** The set the Python boundary pass returns: walking the stages last to
      first, the values of each stage's dictionary become the next input. */
  function RevCandidatesPy(pipe: Pipeline): set<int> {
    if |pipe| == 0 then {}
    else Targets(pipe[0], RevCandidatesPy(pipe[1..]) + Dests(pipe[0]))
  }

  lemma ValuesAreTargets(maps: Stage, mapping: map<int, int>)
    requires forall m :: m in mapping ==> mapping[m] == RevTarget(maps, m)
    ensures mapping.Values == Targets(maps, mapping.Keys)
  {
    forall v | v in Targets(maps, mapping.Keys)
      ensures v in mapping.Values
    {
      var m :| m in mapping.Keys && v == RevTarget(maps, m);
      assert mapping[m] == v;
    }
    forall v | v in mapping.Values
      ensures v in Targets(maps, mapping.Keys)
    {
      assert (forall m :: m in mapping ==> mapping[m] != v) ==> v !in mapping.Values;
      var m :| m in mapping && mapping[m] == v;
    }
  }

  method RunThroughPipelineRevPy(pipe: Pipeline) returns (vec: set<int>)
    ensures vec == RevCandidatesPy(pipe)
  {
    vec := {};
    var k := |pipe|;
    while k > 0
      invariant 0 <= k <= |pipe|
      invariant vec == RevCandidatesPy(pipe[k..])
    {
      k := k - 1;
      var mapping := ConvertRevDict(pipe[k], vec);
      ValuesAreTargets(pipe[k], mapping);
      assert pipe[k..][0] == pipe[k] && pipe[k..][1..] == pipe[k + 1..];
      vec := mapping.Values;
    }
  }

  // ---------------------------------------------------------------------
  // Pipeline.run_through_pipeline: results paired with their seeds
  // ---------------------------------------------------------------------

  /** The stage loop rebinds the whole list of values, then pairs each final
      value with the seed it came from, in the input order. */
  method RunThroughPipelinePairs(pipe: Pipeline, seeds: seq<int>) returns (pairs: seq<(int, int)>)
    ensures |pairs| == |seeds|
    ensures forall i :: 0 <= i < |seeds| ==> pairs[i] == (RunPipeline(pipe, seeds[i]), seeds[i])
  {
    var data := seeds;
    for k := 0 to |pipe|
      invariant |data| == |seeds|
      invariant forall i :: 0 <= i < |seeds| ==> data[i] == RunPipeline(pipe[..k], seeds[i])
    {
      assert pipe[..k + 1][..k] == pipe[..k];
      data := seq(|data|, i requires 0 <= i < |data| => StageConvert(pipe[k], data[i]));
    }
    assert pipe[..|pipe|] == pipe;
    pairs := seq(|seeds|, i requires 0 <= i < |seeds| => (data[i], seeds[i]));
  }

  /** Python's ordering of pairs: by the first component, then the second. */
  predicate PairLe(a: (int, int), b: (int, int)) {
    a.0 < b.0 || (a.0 == b.0 && a.1 <= b.1)
  }

  /** min() over a list of pairs; an empty list has no minimum. */
  function MinPair(ps: seq<(int, int)>): (r: Option<(int, int)>)
    ensures r.None? <==> |ps| == 0
    ensures r.Some? ==> r.value in ps && forall i :: 0 <= i < |ps| ==> PairLe(r.value, ps[i])
  {
    if |ps| == 0 then None
    else match MinPair(ps[1..])
      case None => Some(ps[0])
      case Some(m) => Some(if PairLe(ps[0], m) then ps[0] else m)
  }

  /** puzzle1: the smallest (location, seed) pair, so among seeds reaching
      the smallest location the smallest seed is reported. */
  method Puzzle1Py(seeds: seq<int>, pipe: Pipeline) returns (r: Option<(int, int)>)
    ensures r.None? <==> |seeds| == 0
    ensures r.Some? ==> r.value.1 in seeds && r.value.0 == RunPipeline(pipe, r.value.1)
    ensures r.Some? ==> forall s :: s in seeds ==> r.value.0 <= RunPipeline(pipe, s)
    ensures r.Some? ==> forall s :: s in seeds && RunPipeline(pipe, s) == r.value.0 ==> r.value.1 <= s
  {
    var pairs := RunThroughPipelinePairs(pipe, seeds);
    r := MinPair(pairs);
    forall s | s in seeds && r.Some?
      ensures PairLe(r.value, (RunPipeline(pipe, s), s))
    {
      var i :| 0 <= i < |seeds| && seeds[i] == s;
      assert pairs[i] == (RunPipeline(pipe, s), s);
    }
  }

  // ---------------------------------------------------------------------
  // puzzle2: the widest-gap probe and the candidate list
  // ---------------------------------------------------------------------

  /** The gap between the value at i and its successor, paired with its
      left end. */
  function GapAt(data: seq<int>, i: int): (int, int)
    requires 0 <= i < |data| - 1
  {
    (data[i + 1] - data[i], data[i])
  }

  /** max((b - a, a) for a, b in pairwise(data)): the widest gap between
      consecutive values, the larger left end on a tie; none for fewer than
      two values (Python raises ValueError). */
  function WidestGap(data: seq<int>): (r: Option<(int, int)>)
    ensures r.None? <==> |data| < 2
    ensures r.Some? ==> exists i :: 0 <= i < |data| - 1 && r.value == GapAt(data, i)
    ensures r.Some? ==> forall i :: 0 <= i < |data| - 1 ==> PairLe(GapAt(data, i), r.value)
  {
    if |data| < 2 then None
    else
      var here := GapAt(data, 0);
      assert forall i :: 0 < i < |data| - 1 ==> GapAt(data, i) == GapAt(data[1..], i - 1);
      match WidestGap(data[1..])
      case None => Some(here)
      case Some(g) =>
        assert exists i :: 0 < i < |data| - 1 && g == GapAt(data, i) by {
          var i :| 0 <= i < |data| - 2 && g == GapAt(data[1..], i);
          assert GapAt(data, i + 1) == g;
        }
        Some(if PairLe(g, here) then here else g)
  }

  /** The two probe seeds: the gap's left end and the value just before its
      right end. */
  function ProbeSeeds(gap: (int, int)): seq<int> {
    [gap.1, gap.1 + gap.0 - 1]
  }

  predicate StrictlySorted(data: seq<int>) {
    forall i, j :: 0 <= i < j < |data| ==> data[i] < data[j]
  }

  /** On a sorted list of distinct boundaries the probes lie in the widest
      gap: the first is its left boundary, the second the last value before
      the next boundary, and no boundary lies strictly between them. */
  lemma ProbesSpanWidestGap(data: seq<int>, g: (int, int))
    requires StrictlySorted(data) && WidestGap(data) == Some(g)
    ensures ProbeSeeds(g)[0] in data && ProbeSeeds(g)[1] + 1 in data
    ensures ProbeSeeds(g)[0] <= ProbeSeeds(g)[1]
    ensures forall j :: 0 <= j < |data| ==> !(ProbeSeeds(g)[0] < data[j] <= ProbeSeeds(g)[1])
    ensures forall k :: 0 <= k < |data| - 1 ==> GapAt(data, k).0 <= g.0
  {
    var i := WidestGapIndex(data);
    ProbesOfGap(data, i, g);
    WidestGapIsWidest(data);
  }

  lemma WidestGapIndex(data: seq<int>) returns (i: int)
    requires |data| >= 2
    ensures 0 <= i < |data| - 1 && WidestGap(data).value == GapAt(data, i)
  {
    var g := WidestGap(data).value;
    i :| 0 <= i < |data| - 1 && g == GapAt(data, i);
  }

  lemma WidestGapIsWidest(data: seq<int>)
    requires |data| >= 2
    ensures forall k :: 0 <= k < |data| - 1 ==> GapAt(data, k).0 <= WidestGap(data).value.0
  {
    var g := WidestGap(data).value;
    forall k | 0 <= k < |data| - 1
      ensures GapAt(data, k).0 <= g.0
    {
      assert PairLe(GapAt(data, k), g);
    }
  }

  /** The probes of the gap after position i span that gap. */
  lemma ProbesOfGap(data: seq<int>, i: int, gap: (int, int))
    requires StrictlySorted(data) && 0 <= i < |data| - 1 && gap == GapAt(data, i)
    ensures ProbeSeeds(gap)[0] in data && ProbeSeeds(gap)[1] + 1 in data
    ensures ProbeSeeds(gap)[0] <= ProbeSeeds(gap)[1]
    ensures forall j :: 0 <= j < |data| ==> !(ProbeSeeds(gap)[0] < data[j] <= ProbeSeeds(gap)[1])
  {
    NothingBetweenNeighbours(data, i);
    var p := ProbeSeeds(gap);
    assert p[0] == data[i] && p[1] + 1 == data[i + 1];
    assert data[i] in data && data[i + 1] in data;
    assert data[i] < data[i + 1];
  }

  lemma NothingBetweenNeighbours(data: seq<int>, i: int)
    requires StrictlySorted(data) && 0 <= i < |data| - 1
    ensures forall j :: 0 <= j < |data| ==> !(data[i] < data[j] < data[i + 1])
  {
    forall j | 0 <= j < |data|
      ensures !(data[i] < data[j] < data[i + 1])
    {
      if j < i {
        assert data[j] < data[i];
      } else if j > i + 1 {
        assert data[i + 1] < data[j];
      }
    }
  }

  /** The list of every range's start, in range order. */
  function StartList(ranges: seq<(int, int)>): (r: seq<int>)
    ensures forall s :: s in r ==> s in Starts(ranges)
    ensures forall s :: s in Starts(ranges) ==> s in r
  {
    if |ranges| == 0 then []
    else
      var rest := StartList(ranges[1..]);
      assert forall s :: s in Starts(ranges) <==> s == ranges[0].0 || s in Starts(ranges[1..]) by {
        forall s | s in Starts(ranges) && s != ranges[0].0
          ensures s in Starts(ranges[1..])
        {
          var k :| 0 <= k < |ranges| && ranges[k].0 == s;
          assert ranges[1..][k - 1].0 == s;
        }
        forall s | s in Starts(ranges[1..])
          ensures s in Starts(ranges)
        {
          var k :| 0 <= k < |ranges| - 1 && ranges[1..][k].0 == s;
          assert ranges[k + 1].0 == s;
        }
        assert ranges[0].0 in Starts(ranges);
      }
      [ranges[0].0] + rest
  }

  /** The in-bounds list of puzzle2: the boundaries lying in a seed range, in
      list order, followed by every range's start (whatever its length). */
  function InBoundsSeeds(mock: seq<int>, ranges: seq<(int, int)>): (r: seq<int>)
    ensures forall s :: s in r ==> (s in mock && SeedInRanges(ranges, s)) || s in Starts(ranges)
    ensures forall s :: s in mock && SeedInRanges(ranges, s) ==> s in r
    ensures forall s :: s in Starts(ranges) ==> s in r
  {
    if |mock| == 0 then StartList(ranges)
    else if SeedInRanges(ranges, mock[0]) then [mock[0]] + InBoundsSeeds(mock[1..], ranges)
    else InBoundsSeeds(mock[1..], ranges)
  }

  /** puzzle2. `mock` is the sorted list of the boundary set; the probe seeds
      are only drawn and do not enter the candidates. When the boundary set
      has fewer than two values the widest-gap max fails, and when no
      candidate exists the final min fails; both give no answer. */
  method Puzzle2Py(ranges: seq<(int, int)>, pipe: Pipeline, mock: seq<int>) returns (r: Option<(int, int)>, probe: seq<int>)
    requires StrictlySorted(mock) && (set s | s in mock) == RevCandidatesPy(pipe)
    ensures r.None? <==> |mock| < 2 || |ranges| == 0
    ensures |mock| >= 2 ==> probe == ProbeSeeds(WidestGap(mock).value)
    ensures |mock| >= 2 ==> probe[0] in mock && probe[1] + 1 in mock && probe[0] <= probe[1]
    ensures |mock| >= 2 ==> forall j :: 0 <= j < |mock| ==> !(probe[0] < mock[j] <= probe[1])
    ensures r.Some? ==> r.value.0 == RunPipeline(pipe, r.value.1)
    ensures r.Some? ==> r.value.1 in Starts(ranges) || (r.value.1 in RevCandidatesPy(pipe) && SeedInRanges(ranges, r.value.1))
    ensures r.Some? ==> forall k :: 0 <= k < |ranges| ==> r.value.0 <= RunPipeline(pipe, ranges[k].0)
    ensures r.Some? ==> forall c :: c in RevCandidatesPy(pipe) && SeedInRanges(ranges, c) ==> r.value.0 <= RunPipeline(pipe, c)
    ensures r.Some? ==> forall c ::
      (c in Starts(ranges) || (c in RevCandidatesPy(pipe) && SeedInRanges(ranges, c))) && RunPipeline(pipe, c) == r.value.0
      ==> r.value.1 <= c
  {
    var widest := WidestGap(mock);
    if widest.None? {
      return None, [];
    }
    probe := ProbeSeeds(widest.value);
    ProbesSpanWidestGap(mock, widest.value);
    var inBounds := InBoundsSeeds(mock, ranges);
    if |ranges| > 0 {
      assert ranges[0].0 in Starts(ranges);
      assert ranges[0].0 in inBounds;
    }
    assert |inBounds| > 0 ==> inBounds[0] in inBounds;
    var pairs := RunThroughPipelinePairs(pipe, inBounds);
    r := MinPair(pairs);
    if r.Some? {
      var i :| 0 <= i < |pairs| && pairs[i] == r.value;
      assert r.value.1 == inBounds[i];
      forall s | s in inBounds
        ensures PairLe(r.value, (RunPipeline(pipe, s), s))
      {
        var j :| 0 <= j < |inBounds| && inBounds[j] == s;
        assert pairs[j] == (RunPipeline(pipe, s), s);
      }
      forall k | 0 <= k < |ranges|
        ensures ranges[k].0 in inBounds
      {
        assert ranges[k].0 in Starts(ranges);
      }
    }
  }
}
