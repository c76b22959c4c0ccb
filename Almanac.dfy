/** The chained interval-remapping engine of puzzles/2023/src/day05.cpp:
    rules (`int_map`), stages (`int_maps`), the pipeline, the reverse
    boundary pass and the two solvers. C++ `long` is modelled as `int`. */
module Almanac {
  import opened Wrappers

  // ---------------------------------------------------------------------
  // int_map: one rule (dest_start, source_start, distance)
  // ---------------------------------------------------------------------

  datatype IntMap = IntMap(destStart: int, sourceStart: int, distance: int)

  predicate InRange(m: IntMap, seed: int) {
    0 <= seed - m.sourceStart < m.distance
  }

  function Convert(m: IntMap, seed: int): int {
    m.destStart + (seed - m.sourceStart)
  }

  predicate InRangeRev(m: IntMap, location: int) {
    0 <= location - m.destStart < m.distance
  }

  function ConvertRev(m: IntMap, location: int): int {
    m.sourceStart + (location - m.destStart)
  }

  /** Forward then reverse translation returns the seed, and the forward
      image of an in-range seed is in the rule's destination range. */
  lemma RoundTrip(m: IntMap, seed: int)
    requires InRange(m, seed)
    ensures InRangeRev(m, Convert(m, seed))
    ensures ConvertRev(m, Convert(m, seed)) == seed
  {
  }

  /** The two translations shift by the same offset in opposite directions,
      so they are mutual inverses and map the two ranges onto each other. */
  lemma OffsetsAreInverse(m: IntMap, x: int, y: int)
    ensures ConvertRev(m, Convert(m, x)) == x && Convert(m, ConvertRev(m, y)) == y
    ensures InRange(m, x) <==> InRangeRev(m, Convert(m, x))
    ensures InRangeRev(m, y) <==> InRange(m, ConvertRev(m, y))
  {
  }

  // ---------------------------------------------------------------------
  // int_maps: one stage, first matching rule wins, otherwise identity
  // ---------------------------------------------------------------------

  type Stage = seq<IntMap>

  /** Index of the first rule whose source range holds `seed`. */
  function FirstMatch(maps: Stage, seed: int): (r: Option<nat>)
    ensures r.Some? ==> r.value < |maps| && InRange(maps[r.value], seed)
    ensures r.Some? ==> forall j :: 0 <= j < r.value ==> !InRange(maps[j], seed)
    ensures r.None? <==> forall j :: 0 <= j < |maps| ==> !InRange(maps[j], seed)
  {
    if |maps| == 0 then None
    else if InRange(maps[0], seed) then Some(0)
    else match FirstMatch(maps[1..], seed)
      case None => None
      case Some(i) => Some(i + 1)
  }

  predicate Covered(maps: Stage, x: int) {
    exists j :: 0 <= j < |maps| && InRange(maps[j], x)
  }

  /** int_maps::convert: the first matching rule's translation, or the seed
      itself when no rule matches. */
  function StageConvert(maps: Stage, seed: int): (r: int)
    ensures match FirstMatch(maps, seed)
              case Some(i) => r == Convert(maps[i], seed)
              case None => r == seed
  {
    if |maps| == 0 then seed
    else if InRange(maps[0], seed) then Convert(maps[0], seed)
    else StageConvert(maps[1..], seed)
  }

  /** A seed no rule covers passes through unchanged. */
  lemma IdentityFallback(maps: Stage, seed: int)
    requires !Covered(maps, seed)
    ensures StageConvert(maps, seed) == seed
  {
    assert FirstMatch(maps, seed).None?;
  }

  // ---------------------------------------------------------------------
  // pipeline: the stages folded in order
  // ---------------------------------------------------------------------

  type Pipeline = seq<Stage>

  /** The seed after the stages of `pipe`, applied first to last. */
  function RunPipeline(pipe: Pipeline, seed: int): int
  {
    if |pipe| == 0 then seed
    else StageConvert(pipe[|pipe| - 1], RunPipeline(pipe[..|pipe| - 1], seed))
  }

  /** Running two pipelines back to back is running their concatenation;
      with no stage at all the seed is returned unchanged. */
  lemma {:induction false} RunPipelineAppend(p1: Pipeline, p2: Pipeline, seed: int)
    ensures RunPipeline([], seed) == seed
    ensures RunPipeline(p1 + p2, seed) == RunPipeline(p2, RunPipeline(p1, seed))
  {
    if |p2| != 0 {
      var q := p1 + p2;
      assert q[..|q| - 1] == p1 + p2[..|p2| - 1];
      assert q[|q| - 1] == p2[|p2| - 1];
      RunPipelineAppend(p1, p2[..|p2| - 1], seed);
    } else {
      assert p1 + p2 == p1;
    }
  }

  /** pipeline::run_trough_pipeline: a loop rebinding the seed stage by stage. */
  method RunThroughPipeline(pipe: Pipeline, seed: int) returns (r: int)
    ensures r == RunPipeline(pipe, seed)
  {
    r := seed;
    for i := 0 to |pipe|
      invariant r == RunPipeline(pipe[..i], seed)
    {
      assert pipe[..i + 1][..i] == pipe[..i];
      r := StageConvert(pipe[i], r);
    }
    assert pipe[..|pipe|] == pipe;
  }

  // ---------------------------------------------------------------------
  // seeds2: the seed ranges of part 2
  // ---------------------------------------------------------------------

  /** seeds2::in_range: some (start, len) pair has 0 <= seed - start < len. */
  predicate SeedInRanges(ranges: seq<(int, int)>, seed: int) {
    exists k :: 0 <= k < |ranges| && 0 <= seed - ranges[k].0 < ranges[k].1
  }

  function Starts(ranges: seq<(int, int)>): set<int> {
    set k | 0 <= k < |ranges| :: ranges[k].0
  }

  // ---------------------------------------------------------------------
  // int_maps::convert_rev: the reverse boundary step on one stage
  // ---------------------------------------------------------------------

  function Dests(maps: Stage): set<int> {
    set j | 0 <= j < |maps| :: maps[j].destStart
  }

  /** Every reverse image of a mark under every rule whose destination range
      holds it. */
  function RevImages(maps: Stage, marks: set<int>): set<int> {
    set m, j | m in marks && 0 <= j < |maps| && InRangeRev(maps[j], m) :: ConvertRev(maps[j], m)
  }

  /** The reverse images of one mark. */
  function MarkImages(maps: Stage, mark: int): set<int> {
    set k | 0 <= k < |maps| && InRangeRev(maps[k], mark) :: ConvertRev(maps[k], mark)
  }

  lemma RevImagesAdd(maps: Stage, done: set<int>, mark: int)
    ensures RevImages(maps, done + {mark}) == RevImages(maps, done) + MarkImages(maps, mark)
  {
  }

  lemma RevImagesMonotone(maps: Stage, a: set<int>, b: set<int>)
    requires a <= b
    ensures RevImages(maps, a) <= RevImages(maps, b)
  {
  }

  /** The inner loop of int_maps::convert_rev for one mark: every rule whose
      destination range holds the mark inserts its reverse image; the mark is
      erased afterwards when some rule's source range holds it. */
  method ReverseMark(maps: Stage, mark: int, vec: set<int>) returns (out: set<int>)
    ensures out == (vec + MarkImages(maps, mark)) - (if Covered(maps, mark) then {mark} else {})
  {
    out := vec;
    var canMapToSelf := true;
    for j := 0 to |maps|
      invariant out == vec + set k | 0 <= k < j && InRangeRev(maps[k], mark) :: ConvertRev(maps[k], mark)
      invariant canMapToSelf <==> forall k :: 0 <= k < j ==> !InRange(maps[k], mark)
    {
      if InRangeRev(maps[j], mark) {
        out := out + {ConvertRev(maps[j], mark)};
      }
      if InRange(maps[j], mark) {
        canMapToSelf := false;
      }
    }
    if !canMapToSelf {
      out := out - {mark};
    }
  }

  /** What holds of the set once the marks in `done` have been walked. */
  ghost predicate RevInvariant(maps: Stage, marks: set<int>, done: set<int>, out: set<int>) {
    && marks - done <= out
    && out <= marks + RevImages(maps, marks)
    && (forall v :: v in marks && !Covered(maps, v) ==> v in out)
    && (forall v :: v in RevImages(maps, done) && (v !in marks || !Covered(maps, v)) ==> v in out)
    && (forall v :: v in done && Covered(maps, v) && v !in RevImages(maps, done) ==> v !in out)
  }

  lemma RevStep(maps: Stage, marks: set<int>, done: set<int>, mark: int, before: set<int>, after: set<int>)
    requires done <= marks && mark in marks - done
    requires RevInvariant(maps, marks, done, before)
    requires after == (before + MarkImages(maps, mark)) - (if Covered(maps, mark) then {mark} else {})
    ensures RevInvariant(maps, marks, done + {mark}, after)
  {
    RevImagesAdd(maps, done, mark);
    RevImagesMonotone(maps, done + {mark}, marks);
  }

  lemma RevStart(maps: Stage, marks: set<int>)
    ensures RevInvariant(maps, marks, {}, marks)
  {
    assert RevImages(maps, {}) == {};
  }

  /** Once every mark has been walked the invariant is the result's
      contract. */
  lemma RevDone(maps: Stage, marks: set<int>, out: set<int>)
    requires RevInvariant(maps, marks, marks, out)
    ensures out <= marks + RevImages(maps, marks)
    ensures forall v :: v in marks && !Covered(maps, v) ==> v in out
    ensures forall v :: v in RevImages(maps, marks) && (v !in marks || !Covered(maps, v)) ==> v in out
    ensures forall v :: v in marks && Covered(maps, v) && v !in RevImages(maps, marks) ==> v !in out
  {
  }

  lemma WalkStep(maps: Stage, marks: set<int>, todo0: set<int>, todo: set<int>, mark: int, before: set<int>, after: set<int>)
    requires todo0 <= marks && mark in todo0 && todo == todo0 - {mark}
    requires RevInvariant(maps, marks, marks - todo0, before)
    requires after == (before + MarkImages(maps, mark)) - (if Covered(maps, mark) then {mark} else {})
    ensures todo <= marks && RevInvariant(maps, marks, marks - todo, after)
  {
    assert marks - todo == (marks - todo0) + {mark};
    RevStep(maps, marks, marks - todo0, mark, before, after);
  }

  /** int_maps::convert_rev. The marks are the set after every rule's
      dest_start has been inserted; the source walks a snapshot of them in the
      unspecified order of an unordered_set, modelled by an arbitrary choice.
      For each mark every reverse image is inserted, and the mark is erased
      when some rule's source range holds it. The result is pinned down
      whatever the order: */
  method StageConvertRev(maps: Stage, vec: set<int>) returns (out: set<int>)
    // every rule's dest_start is examined, and nothing but marks and their
    // reverse images is produced
    ensures out <= vec + Dests(maps) + RevImages(maps, vec + Dests(maps))
    // a mark that no source range holds is never removed
    ensures forall v :: v in vec + Dests(maps) && !Covered(maps, v) ==> v in out
    // a reverse image stays unless it is itself a covered mark
    ensures forall v :: v in RevImages(maps, vec + Dests(maps)) && (v !in vec + Dests(maps) || !Covered(maps, v)) ==> v in out
    // a covered mark that is nobody's reverse image is removed
    ensures forall v :: v in vec + Dests(maps) && Covered(maps, v) && v !in RevImages(maps, vec + Dests(maps)) ==> v !in out
  {
    var marks := AddDests(maps, vec);
    out := WalkMarks(maps, marks);
    RevDone(maps, marks, out);
  }

  /** The first loop of convert_rev: every rule's dest_start is inserted. */
  method AddDests(maps: Stage, vec: set<int>) returns (out: set<int>)
    ensures out == vec + Dests(maps)
  {
    out := vec;
    for i := 0 to |maps|
      invariant out == vec + set j | 0 <= j < i :: maps[j].destStart
    {
      out := out + {maps[i].destStart};
    }
  }

  /** The second loop of convert_rev: each mark is replaced by its reverse
      images, in whatever order the marks are visited. */
  method WalkMarks(maps: Stage, marks: set<int>) returns (out: set<int>)
    ensures RevInvariant(maps, marks, marks, out)
  {
    out := marks;
    var todo := marks;
    RevStart(maps, marks);
    assert marks - todo == {};
    while todo != {}
      invariant todo <= marks
      invariant RevInvariant(maps, marks, marks - todo, out)
      decreases todo
    {
      ghost var someMark := MemberOf(todo);
      var mark :| mark in todo;
      ghost var before, todo0 := out, todo;
      out := ReverseMark(maps, mark, out);
      todo := todo - {mark};
      WalkStep(maps, marks, todo0, todo, mark, before, out);
    }
    assert marks - todo == marks;
  }

  // ---------------------------------------------------------------------
  // pipeline::run_trough_pipeline_rev: the boundary pass
  // ---------------------------------------------------------------------

  /** Every value the boundary pass can produce: the stages are walked last
      to first, each adding its dest_starts to the current set and then the
      reverse images of the whole set. */
  function RevCandidates(pipe: Pipeline): set<int>
  {
    if |pipe| == 0 then {}
    else
      var marks := RevCandidates(pipe[1..]) + Dests(pipe[0]);
      marks + RevImages(pipe[0], marks)
  }

  /** What int_maps::convert_rev may leave for the set vec, whatever the
      order of its marks: the four clauses of StageConvertRev's contract. */
  ghost predicate StageRev(maps: Stage, vec: set<int>, out: set<int>) {
    && out <= vec + Dests(maps) + RevImages(maps, vec + Dests(maps))
    && (forall v :: v in vec + Dests(maps) && !Covered(maps, v) ==> v in out)
    && (forall v :: v in RevImages(maps, vec + Dests(maps)) && (v !in vec + Dests(maps) || !Covered(maps, v)) ==> v in out)
    && (forall v :: v in vec + Dests(maps) && Covered(maps, v) && v !in RevImages(maps, vec + Dests(maps)) ==> v !in out)
  }

  /** The sets of the boundary pass: chain[k] is the set once the stages
      from k to the last have been walked back, last first, starting from
      the empty set; each is a convert_rev of the next. */
  ghost predicate RevChain(pipe: Pipeline, chain: seq<set<int>>) {
    && |chain| == |pipe| + 1
    && chain[|pipe|] == {}
    && forall k :: 0 <= k < |pipe| ==> StageRev(pipe[k], chain[k + 1], chain[k])
  }

  /** Whatever order each stage walks its marks in, the boundary pass only
      produces values of RevCandidates. */
  lemma {:induction false} ChainBounded(pipe: Pipeline, chain: seq<set<int>>)
    requires RevChain(pipe, chain)
    ensures chain[0] <= RevCandidates(pipe)
    decreases |pipe|
  {
    if |pipe| > 0 {
      assert RevChain(pipe[1..], chain[1..]) by {
        forall k | 0 <= k < |pipe| - 1
          ensures StageRev(pipe[1..][k], chain[1..][k + 1], chain[1..][k])
        {
          assert pipe[1..][k] == pipe[k + 1];
          assert StageRev(pipe[k + 1], chain[k + 2], chain[k + 1]);
        }
      }
      ChainBounded(pipe[1..], chain[1..]);
      assert StageRev(pipe[0], chain[1], chain[0]);
      RevImagesMonotone(pipe[0], chain[1] + Dests(pipe[0]), RevCandidates(pipe[1..]) + Dests(pipe[0]));
    }
  }

  /** pipeline::run_trough_pipeline_rev: starting from the empty set, apply
      int_maps::convert_rev for the last stage down to the first. chain
      records the set after each stage. */
  method RunThroughPipelineRev(pipe: Pipeline) returns (vec: set<int>, ghost chain: seq<set<int>>)
    ensures RevChain(pipe, chain) && vec == chain[0]
    ensures vec <= RevCandidates(pipe)
    // the dest_starts of the first stage that no source range of that stage
    // holds always survive as candidate seeds
    ensures |pipe| > 0 ==> forall v :: v in Dests(pipe[0]) && !Covered(pipe[0], v) ==> v in vec
  {
    vec := {};
    chain := [{}];
    var k := |pipe|;
    while k > 0
      invariant 0 <= k <= |pipe|
      invariant |chain| == |pipe| - k + 1 && chain[0] == vec && chain[|chain| - 1] == {}
      invariant forall j :: 0 <= j < |pipe| - k ==> StageRev(pipe[k + j], chain[j + 1], chain[j])
    {
      k := k - 1;
      ghost var prev := vec;
      vec := StageConvertRev(pipe[k], vec);
      assert StageRev(pipe[k], prev, vec);
      chain := [vec] + chain;
    }
    ChainBounded(pipe, chain);
    if |pipe| > 0 {
      assert StageRev(pipe[0], chain[1], vec);
    }
  }

  // ---------------------------------------------------------------------
  // the two solvers
  // ---------------------------------------------------------------------

  /** stdr::min over a range of values; an empty range has no minimum. */
  function MinOf(xs: seq<int>): (r: Option<int>)
    ensures r.None? <==> |xs| == 0
    ensures r.Some? ==> r.value in xs && forall i :: 0 <= i < |xs| ==> r.value <= xs[i]
  {
    if |xs| == 0 then None
    else match MinOf(xs[1..])
      case None => Some(xs[0])
      case Some(m) => Some(if xs[0] <= m then xs[0] else m)
  }

  function Locations(pipe: Pipeline, seeds: seq<int>): (r: seq<int>)
    ensures |r| == |seeds| && forall i :: 0 <= i < |seeds| ==> r[i] == RunPipeline(pipe, seeds[i])
  {
    seq(|seeds|, i requires 0 <= i < |seeds| => RunPipeline(pipe, seeds[i]))
  }

  /** puzzle1: the smallest location any listed seed reaches. */
  function Puzzle1(seeds: seq<int>, pipe: Pipeline): (r: Option<int>)
    ensures r.None? <==> |seeds| == 0
    ensures r.Some? ==> exists i :: 0 <= i < |seeds| && r.value == RunPipeline(pipe, seeds[i])
    ensures r.Some? ==> forall i :: 0 <= i < |seeds| ==> r.value <= RunPipeline(pipe, seeds[i])
  {
    var ls := Locations(pipe, seeds);
    var m := MinOf(ls);
    assert m.Some? ==> exists i :: 0 <= i < |ls| && m.value == ls[i];
    m
  }

  /** The candidates of puzzle2 that survive the filter: boundaries and range
      starts (inserted before filtering) that lie in some seed range. */
  function Candidates(boundaries: set<int>, ranges: seq<(int, int)>): set<int> {
    set c | c in boundaries + Starts(ranges) && SeedInRanges(ranges, c)
  }

  /** The filter-transform-min chain of puzzle2 over a given boundary set. */
  method MinOverCandidates(pipe: Pipeline, ranges: seq<(int, int)>, boundaries: set<int>) returns (r: Option<int>)
    ensures r.None? <==> Candidates(boundaries, ranges) == {}
    ensures r.Some? ==> exists c :: c in Candidates(boundaries, ranges) && r.value == RunPipeline(pipe, c)
    ensures r.Some? ==> forall c :: c in Candidates(boundaries, ranges) ==> r.value <= RunPipeline(pipe, c)
  {
    var todo := Candidates(boundaries, ranges);
    r := None;
    while todo != {}
      invariant todo <= Candidates(boundaries, ranges)
      invariant r.None? <==> todo == Candidates(boundaries, ranges)
      invariant r.Some? ==> exists c :: c in Candidates(boundaries, ranges) - todo && r.value == RunPipeline(pipe, c)
      invariant r.Some? ==> forall c :: c in Candidates(boundaries, ranges) - todo ==> r.value <= RunPipeline(pipe, c)
      decreases todo
    {
      ghost var someCandidate := MemberOf(todo);
      var c :| c in todo;
      var loc := RunThroughPipeline(pipe, c);
      if r.None? || loc < r.value {
        r := Some(loc);
      }
      todo := todo - {c};
    }
  }

  /** A range with a positive length contains its own start. */
  lemma StartOfRangeIsCandidate(boundaries: set<int>, ranges: seq<(int, int)>, k: int)
    requires 0 <= k < |ranges| && ranges[k].1 > 0
    ensures ranges[k].0 in Candidates(boundaries, ranges)
  {
    assert SeedInRanges(ranges, ranges[k].0);
  }

  /** puzzle2: the boundary pass, then the minimum over the candidates:
      the boundaries and the range starts that lie in some seed range. The
      answer is the smallest location of a candidate, so the location of
      some seed inside the ranges (never below the true minimum), and is at
      most the location of every non-empty range's start; it is absent
      exactly when every range is empty. */
  method Puzzle2(ranges: seq<(int, int)>, pipe: Pipeline) returns (r: Option<int>, ghost chain: seq<set<int>>)
    ensures RevChain(pipe, chain)
    ensures r.None? <==> Candidates(chain[0], ranges) == {}
    ensures r.Some? ==> exists c :: c in Candidates(chain[0], ranges) && r.value == RunPipeline(pipe, c)
    ensures r.Some? ==> forall c :: c in Candidates(chain[0], ranges) ==> r.value <= RunPipeline(pipe, c)
    ensures r.None? <==> forall k :: 0 <= k < |ranges| ==> ranges[k].1 <= 0
    ensures r.Some? ==> exists c :: c in RevCandidates(pipe) + Starts(ranges) && SeedInRanges(ranges, c) && r.value == RunPipeline(pipe, c)
    ensures r.Some? ==> forall k :: 0 <= k < |ranges| && ranges[k].1 > 0 ==> r.value <= RunPipeline(pipe, ranges[k].0)
  {
    var boundaries;
    boundaries, chain := RunThroughPipelineRev(pipe);
    r := MinOverCandidates(pipe, ranges, boundaries);
    forall k | 0 <= k < |ranges| && ranges[k].1 > 0
      ensures ranges[k].0 in Candidates(boundaries, ranges)
    {
      StartOfRangeIsCandidate(boundaries, ranges, k);
    }
  }

  // ---------------------------------------------------------------------
  // the heuristic misses minima at the end of a rule
  // ---------------------------------------------------------------------

  /** One stage whose only rule lifts [0, 10) to [100, 110): its candidate
      seeds are 100 and 0, so of the seed range (0, 20) only 0 is examined,
      although seed 10 (where the identity region starts) reaches 10. */
  lemma RuleEndIsNoCandidate()
    ensures RevCandidates([[IntMap(100, 0, 10)]]) == {100, 0}
    ensures Candidates({100, 0}, [(0, 20)]) == {0}
    ensures RunPipeline([[IntMap(100, 0, 10)]], 0) == 100
    ensures SeedInRanges([(0, 20)], 10) && RunPipeline([[IntMap(100, 0, 10)]], 10) == 10
  {
    ExampleBoundaries();
    ExampleCandidates();
    ExampleLocations();
  }

  lemma ExampleBoundaries()
    ensures RevCandidates([[IntMap(100, 0, 10)]]) == {100, 0}
  {
    var rule := IntMap(100, 0, 10);
    var pipe: Pipeline := [[rule]];
    assert pipe[1..] == [] && pipe[0] == [rule] && pipe[0][0] == rule;
    assert Dests(pipe[0]) == {100} by {
      assert forall x :: x in Dests(pipe[0]) <==> x == 100;
    }
    assert RevImages(pipe[0], {100}) == {0} by {
      assert InRangeRev(rule, 100) && ConvertRev(rule, 100) == 0;
      assert forall x :: x in RevImages(pipe[0], {100}) <==> x == 0;
    }
  }

  lemma ExampleCandidates()
    ensures Candidates({100, 0}, [(0, 20)]) == {0}
  {
    var ranges := [(0, 20)];
    assert ranges[0] == (0, 20);
    assert Starts(ranges) == {0} by {
      assert forall x :: x in Starts(ranges) <==> x == 0;
    }
    assert SeedInRanges(ranges, 0) && !SeedInRanges(ranges, 100);
    assert forall x :: x in Candidates({100, 0}, ranges) <==> x == 0;
  }

  lemma ExampleLocations()
    ensures RunPipeline([[IntMap(100, 0, 10)]], 0) == 100
    ensures SeedInRanges([(0, 20)], 10) && RunPipeline([[IntMap(100, 0, 10)]], 10) == 10
  {
    var pipe: Pipeline := [[IntMap(100, 0, 10)]];
    assert pipe[..0] == [] && pipe[0][1..] == [];
    assert RunPipeline(pipe, 0) == StageConvert(pipe[0], 0);
    assert RunPipeline(pipe, 10) == StageConvert(pipe[0], 10);
    assert [(0, 20)][0] == (0, 20);
  }

  /** puzzle2 on that input reports 100, while the smallest location inside
      the seed range is 10. */
  method HeuristicMissesRuleEnd() returns (r: Option<int>)
    ensures r == Some(100)
    ensures SeedInRanges([(0, 20)], 10) && RunPipeline([[IntMap(100, 0, 10)]], 10) == 10
  {
    var pipe: Pipeline := [[IntMap(100, 0, 10)]];
    var ranges := [(0, 20)];
    ghost var chain;
    r, chain := Puzzle2(ranges, pipe);
    assert ranges[0].1 > 0;
    ghost var c :| c in RevCandidates(pipe) + Starts(ranges) && SeedInRanges(ranges, c) && r.value == RunPipeline(pipe, c);
    OnlyCandidateValue(c, r.value);
    ExampleLocations();
  }

  /** On that input the only candidate inside the range is seed 0, which
      maps to 100. */
  lemma OnlyCandidateValue(c: int, v: int)
    requires c in RevCandidates([[IntMap(100, 0, 10)]]) + Starts([(0, 20)])
    requires SeedInRanges([(0, 20)], c) && v == RunPipeline([[IntMap(100, 0, 10)]], c)
    ensures v == 100
  {
    RuleEndIsNoCandidate();
    assert c in Candidates({100, 0}, [(0, 20)]);
  }

  /** Whether seed s lies in one of the first k ranges, or among the first d
      seeds of range k. */
  ghost predicate Walked(ranges: seq<(int, int)>, k: int, d: int, s: int)
    requires 0 <= k <= |ranges|
  {
    (exists j :: 0 <= j < k && 0 <= s - ranges[j].0 < ranges[j].1)
    || (k < |ranges| && 0 <= s - ranges[k].0 < d)
  }

  /** One range of the exhaustive walk: every seed of ranges[k] is run
      through the pipeline and the smallest location so far is kept. */
  method WalkRange(ranges: seq<(int, int)>, pipe: Pipeline, k: int, r0: Option<int>) returns (r: Option<int>)
    requires 0 <= k < |ranges|
    requires r0.None? <==> forall j :: 0 <= j < k ==> ranges[j].1 <= 0
    requires r0.Some? ==> exists s :: Walked(ranges, k, 0, s) && r0.value == RunPipeline(pipe, s)
    requires r0.Some? ==> forall s :: Walked(ranges, k, 0, s) ==> r0.value <= RunPipeline(pipe, s)
    ensures r.None? <==> forall j :: 0 <= j < k + 1 ==> ranges[j].1 <= 0
    ensures r.Some? ==> exists s :: Walked(ranges, k + 1, 0, s) && r.value == RunPipeline(pipe, s)
    ensures r.Some? ==> forall s :: Walked(ranges, k + 1, 0, s) ==> r.value <= RunPipeline(pipe, s)
  {
    r := r0;
    var d := 0;
    while d < ranges[k].1
      invariant 0 <= d <= if ranges[k].1 < 0 then 0 else ranges[k].1
      invariant r.None? <==> (d == 0 && forall j :: 0 <= j < k ==> ranges[j].1 <= 0)
      invariant r.Some? ==> exists s :: Walked(ranges, k, d, s) && r.value == RunPipeline(pipe, s)
      invariant r.Some? ==> forall s :: Walked(ranges, k, d, s) ==> r.value <= RunPipeline(pipe, s)
    {
      var seed := ranges[k].0 + d;
      var loc := RunThroughPipeline(pipe, seed);
      if r.None? || loc < r.value {
        r := Some(loc);
      }
      d := d + 1;
    }
    assert forall s :: Walked(ranges, k + 1, 0, s) <==> Walked(ranges, k, d, s);
  }

  /** The evidently intended part-2 answer: the smallest location over every
      seed of every range, found by walking each range seed by seed. */
  method ExhaustiveMin(ranges: seq<(int, int)>, pipe: Pipeline) returns (r: Option<int>)
    ensures r.None? <==> forall k :: 0 <= k < |ranges| ==> ranges[k].1 <= 0
    ensures r.Some? ==> exists s :: SeedInRanges(ranges, s) && r.value == RunPipeline(pipe, s)
    ensures r.Some? ==> forall s :: SeedInRanges(ranges, s) ==> r.value <= RunPipeline(pipe, s)
  {
    r := None;
    for k := 0 to |ranges|
      invariant r.None? <==> forall j :: 0 <= j < k ==> ranges[j].1 <= 0
      invariant r.Some? ==> exists s :: Walked(ranges, k, 0, s) && r.value == RunPipeline(pipe, s)
      invariant r.Some? ==> forall s :: Walked(ranges, k, 0, s) ==> r.value <= RunPipeline(pipe, s)
    {
      r := WalkRange(ranges, pipe, k, r);
    }
    assert forall s :: Walked(ranges, |ranges|, 0, s) <==> SeedInRanges(ranges, s);
  }
}
