/** Part ratings, rating ranges and workflow rules of
    puzzles/2023/src/day19.cpp. A range holds, for each of the four
    qualities, a closed interval of ratings; a rule compares one quality
    with a value and either accepts or rejects a part, or splits a range
    into the parts it passes and the parts it fails. */
module Workflows {
  import opened Wrappers

  datatype Quality = Extreme | Musical | Aero | Shiny

  datatype Part = Part(extreme: int, musical: int, aero: int, shiny: int)

  /** A closed interval of ratings (first, second). */
  type Interval = (int, int)

  datatype PartsRange = PartsRange(extreme: Interval, musical: Interval, aero: Interval, shiny: Interval)

  function Rating(p: Part, q: Quality): int {
    match q
    case Extreme => p.extreme
    case Musical => p.musical
    case Aero => p.aero
    case Shiny => p.shiny
  }

  function Field(pr: PartsRange, q: Quality): Interval {
    match q
    case Extreme => pr.extreme
    case Musical => pr.musical
    case Aero => pr.aero
    case Shiny => pr.shiny
  }

  function WithField(pr: PartsRange, q: Quality, iv: Interval): (r: PartsRange)
    ensures Field(r, q) == iv
    ensures forall q' :: q' != q ==> Field(r, q') == Field(pr, q')
  {
    match q
    case Extreme => pr.(extreme := iv)
    case Musical => pr.(musical := iv)
    case Aero => pr.(aero := iv)
    case Shiny => pr.(shiny := iv)
  }

  /** The default range: every rating from 1 to 4000. */
  function DefaultRange(): (r: PartsRange)
    ensures forall q :: Field(r, q) == (1, 4000)
  {
    PartsRange((1, 4000), (1, 4000), (1, 4000), (1, 4000))
  }

  function Min(a: int, b: int): int { if a <= b then a else b }

  function Max(a: int, b: int): int { if a >= b then a else b }

  /** parts_range::split: tightens one quality's interval, from above to
      amount - exclusive when `less`, from below to amount + exclusive
      otherwise. */
  function Split(pr: PartsRange, q: Quality, less: bool, amount: int, exclusive: bool): (r: PartsRange)
    ensures forall q' :: q' != q ==> Field(r, q') == Field(pr, q')
    ensures less ==> Field(r, q) == (Field(pr, q).0, Min(Field(pr, q).1, amount - (if exclusive then 1 else 0)))
    ensures !less ==> Field(r, q) == (Max(Field(pr, q).0, amount + (if exclusive then 1 else 0)), Field(pr, q).1)
  {
    var iv := Field(pr, q);
    var e := if exclusive then 1 else 0;
    if less then WithField(pr, q, (iv.0, Min(iv.1, amount - e)))
    else WithField(pr, q, (Max(iv.0, amount + e), iv.1))
  }

  /** The parts a range describes. */
  predicate Contains(pr: PartsRange, p: Part) {
    forall q :: Field(pr, q).0 <= Rating(p, q) <= Field(pr, q).1
  }

  /** parts_range::valid */
  predicate Valid(pr: PartsRange) {
    && pr.extreme.0 <= pr.extreme.1 && pr.musical.0 <= pr.musical.1
    && pr.aero.0 <= pr.aero.1 && pr.shiny.0 <= pr.shiny.1
  }

  /** The number of ratings in an interval. */
  function Width(iv: Interval): nat {
    if iv.0 <= iv.1 then iv.1 - iv.0 + 1 else 0
  }

  /** parts_range::score: 0 for an invalid range, else the product of the
      four interval widths. */
  function Score(pr: PartsRange): int {
    if !Valid(pr) then 0
    else (pr.extreme.1 - pr.extreme.0 + 1) * (pr.musical.1 - pr.musical.0 + 1)
         * (pr.aero.1 - pr.aero.0 + 1) * (pr.shiny.1 - pr.shiny.0 + 1)
  }

  /** The score counts the rating combinations: it is the product of the
      widths, which is 0 exactly when some interval is empty. */
  lemma ScoreIsCount(pr: PartsRange)
    ensures Score(pr) == Width(pr.extreme) * Width(pr.musical) * Width(pr.aero) * Width(pr.shiny)
    ensures Score(pr) >= 0
    ensures Score(pr) == 0 <==> !Valid(pr)
  {
    var a, b, c, d := Width(pr.extreme), Width(pr.musical), Width(pr.aero), Width(pr.shiny);
    if Valid(pr) {
      assert a * b > 0;
      assert a * b * c > 0;
    } else {
      assert a == 0 || b == 0 || c == 0 || d == 0;
      if a * b == 0 {
        assert a * b * c == 0;
      } else {
        assert c == 0 || d == 0;
        if c == 0 {
          assert a * b * c == 0;
        }
      }
    }
  }

  /** A valid range contains a part, and an invalid one contains none. */
  lemma ValidIffNonEmpty(pr: PartsRange)
    ensures Valid(pr) <==> exists p :: Contains(pr, p)
  {
    if Valid(pr) {
      var p := Part(pr.extreme.0, pr.musical.0, pr.aero.0, pr.shiny.0);
      assert forall q :: Rating(p, q) == Field(pr, q).0;
      assert Contains(pr, p);
    } else {
      forall p
        ensures !Contains(pr, p)
      {
        if pr.extreme.0 > pr.extreme.1 {
          assert !(Field(pr, Extreme).0 <= Rating(p, Extreme) <= Field(pr, Extreme).1);
        } else if pr.musical.0 > pr.musical.1 {
          assert !(Field(pr, Musical).0 <= Rating(p, Musical) <= Field(pr, Musical).1);
        } else if pr.aero.0 > pr.aero.1 {
          assert !(Field(pr, Aero).0 <= Rating(p, Aero) <= Field(pr, Aero).1);
        } else {
          assert !(Field(pr, Shiny).0 <= Rating(p, Shiny) <= Field(pr, Shiny).1);
        }
      }
    }
  }

  // ---------------------------------------------------------------------
  // Rules
  // ---------------------------------------------------------------------

  /** A rule: `op` is '<' or '>' for a comparison, or the character 0 for a
      rule that always applies; `dest` names the next workflow, "A" or "R". */
  datatype Rule = Rule(op: char, measure: Quality, value: int, dest: string)

  /** rule::evaluate(part): a rule without op always applies; '>' compares
      with greater, any other op with less. */
  predicate EvaluatePart(r: Rule, p: Part) {
    if r.op == 0 as char then true
    else if r.op == '>' then Rating(p, r.measure) > r.value
    else Rating(p, r.measure) < r.value
  }

  /** rule::evaluate(parts_range): the parts the comparison passes and the
      parts it fails. */
  function EvaluateRange(r: Rule, pr: PartsRange): (PartsRange, PartsRange) {
    (Split(pr, r.measure, r.op == '<', r.value, true), Split(pr, r.measure, r.op != '<', r.value, false))
  }

  /** For a comparison rule the two halves are exactly the parts of the
      range that pass and that fail it, so they are disjoint and together
      make the range. */
  lemma EvaluateRangePartitions(r: Rule, pr: PartsRange, p: Part)
    requires r.op == '<' || r.op == '>'
    ensures Contains(EvaluateRange(r, pr).0, p) <==> Contains(pr, p) && EvaluatePart(r, p)
    ensures Contains(EvaluateRange(r, pr).1, p) <==> Contains(pr, p) && !EvaluatePart(r, p)
  {
    var (pass, fail) := EvaluateRange(r, pr);
    var q := r.measure;
    if Contains(pass, p) {
      assert Field(pass, q).0 <= Rating(p, q) <= Field(pass, q).1;
      forall q' ensures Field(pr, q').0 <= Rating(p, q') <= Field(pr, q').1 {
        assert Field(pass, q').0 <= Rating(p, q') <= Field(pass, q').1;
      }
    }
    if Contains(fail, p) {
      assert Field(fail, q).0 <= Rating(p, q) <= Field(fail, q).1;
      forall q' ensures Field(pr, q').0 <= Rating(p, q') <= Field(pr, q').1 {
        assert Field(fail, q').0 <= Rating(p, q') <= Field(fail, q').1;
      }
    }
  }

  /** Splitting one interval at a cut: the two widths add up. */
  lemma CutWidths(iv: Interval, less: bool, v: int)
    ensures less ==> Width((iv.0, Min(iv.1, v - 1))) + Width((Max(iv.0, v), iv.1)) == Width(iv)
    ensures !less ==> Width((Max(iv.0, v + 1), iv.1)) + Width((iv.0, Min(iv.1, v))) == Width(iv)
  {
  }

  /** The product of the widths of the three other qualities. */
  function Rest(pr: PartsRange, q: Quality): int {
    match q
    case Extreme => Width(pr.musical) * Width(pr.aero) * Width(pr.shiny)
    case Musical => Width(pr.extreme) * Width(pr.aero) * Width(pr.shiny)
    case Aero => Width(pr.extreme) * Width(pr.musical) * Width(pr.shiny)
    case Shiny => Width(pr.extreme) * Width(pr.musical) * Width(pr.aero)
  }

  lemma ScoreByField(pr: PartsRange, q: Quality)
    ensures Score(pr) == Width(Field(pr, q)) * Rest(pr, q)
  {
    ScoreIsCount(pr);
    Regroup4(Width(pr.extreme), Width(pr.musical), Width(pr.aero), Width(pr.shiny));
  }

  /** Any one factor of a four-way product times the other three. */
  lemma Regroup4(a: int, b: int, c: int, d: int)
    ensures a * b * c * d == a * (b * c * d)
    ensures a * b * c * d == b * (a * c * d)
    ensures a * b * c * d == c * (a * b * d)
    ensures a * b * c * d == d * (a * b * c)
  {
  }

  lemma Distribute(x: int, y: int, z: int)
    ensures x * z + y * z == (x + y) * z
  {
  }

  lemma SameRest(pr: PartsRange, pr': PartsRange, q: Quality)
    requires forall q' :: q' != q ==> Field(pr', q') == Field(pr, q')
    ensures Rest(pr', q) == Rest(pr, q)
  {
    assert Field(pr', Extreme) == Field(pr, Extreme) || q == Extreme;
    assert Field(pr', Musical) == Field(pr, Musical) || q == Musical;
    assert Field(pr', Aero) == Field(pr, Aero) || q == Aero;
    assert Field(pr', Shiny) == Field(pr, Shiny) || q == Shiny;
  }

  /** The scores of the two halves add up to the score of the range. */
  lemma EvaluateRangeScores(r: Rule, pr: PartsRange)
    ensures Score(EvaluateRange(r, pr).0) + Score(EvaluateRange(r, pr).1) == Score(pr)
    ensures Score(EvaluateRange(r, pr).0) >= 0 && Score(EvaluateRange(r, pr).1) >= 0
  {
    var (pass, fail) := EvaluateRange(r, pr);
    var q := r.measure;
    ScoreIsCount(pass);
    ScoreIsCount(fail);
    ScoreByField(pr, q);
    ScoreByField(pass, q);
    ScoreByField(fail, q);
    SameRest(pr, pass, q);
    SameRest(pr, fail, q);
    CutWidths(Field(pr, q), r.op == '<', r.value);
    Distribute(Width(Field(pass, q)), Width(Field(fail, q)), Rest(pr, q));
  }

  // ---------------------------------------------------------------------
  // possible_values
  // ---------------------------------------------------------------------

  type Workflows = map<string, seq<Rule>>

  /** A count added to an answer that may be missing. */
  function Plus(a: int, r: Option<int>): Option<int> {
    match r
    case None => None
    case Some(b) => Some(a + b)
  }

  /** What possible_values counts, starting at workflow `name` with `fuel`
      levels of workflow calls left: "A" accepts the whole range and "R"
      none; a missing workflow, or running out of fuel, gives no answer. */
  function Count(wf: Workflows, pp: PartsRange, name: string, fuel: nat): Option<int>
    decreases fuel, 0
  {
    if name == "A" then Some(Score(pp))
    else if name == "R" then Some(0)
    else if name !in wf || fuel == 0 then None
    else CountRules(wf, pp, wf[name], fuel - 1)
  }

  /** The count of a workflow's remaining rules over what is left of the
      range: a rule without op forwards the whole range to its destination
      and ends the workflow; a comparison sends its passing half to its
      destination and leaves the failing half to the next rule; past the
      last rule nothing more is counted. */
  function CountRules(wf: Workflows, pp: PartsRange, rules: seq<Rule>, fuel: nat): Option<int>
    decreases fuel, 1, |rules|
  {
    if |rules| == 0 then Some(0)
    else if rules[0].op == 0 as char then Count(wf, pp, rules[0].dest, fuel)
    else
      var halves := EvaluateRange(rules[0], pp);
      match Count(wf, halves.0, rules[0].dest, fuel)
      case None => None
      case Some(a) => Plus(a, CountRules(wf, halves.1, rules[1..], fuel))
  }

  /** The count never exceeds the size of the range: the halves of each
      comparison share out the range, and each destination counts at most
      its half. */
  lemma {:induction false} CountBounded(wf: Workflows, pp: PartsRange, name: string, fuel: nat)
    ensures Count(wf, pp, name, fuel).Some? ==> 0 <= Count(wf, pp, name, fuel).value <= Score(pp)
    decreases fuel, 0
  {
    ScoreIsCount(pp);
    if name != "A" && name != "R" && name in wf && fuel > 0 {
      CountRulesBounded(wf, pp, wf[name], fuel - 1);
    }
  }

  lemma {:induction false} CountRulesBounded(wf: Workflows, pp: PartsRange, rules: seq<Rule>, fuel: nat)
    ensures CountRules(wf, pp, rules, fuel).Some? ==> 0 <= CountRules(wf, pp, rules, fuel).value <= Score(pp)
    decreases fuel, 1, |rules|
  {
    ScoreIsCount(pp);
    if |rules| > 0 {
      if rules[0].op == 0 as char {
        CountBounded(wf, pp, rules[0].dest, fuel);
      } else {
        var halves := EvaluateRange(rules[0], pp);
        EvaluateRangeScores(rules[0], pp);
        CountBounded(wf, halves.0, rules[0].dest, fuel);
        CountRulesBounded(wf, halves.1, rules[1..], fuel);
      }
    }
  }

  /** possible_values: the loop over the rules of workflow `name`, with the
      recursive calls on each destination. Its answer is Count; a name with
      no workflow gives no answer (map::at throws), as does a chain of
      workflows deeper than `fuel`. */
  method PossibleValues(wf: Workflows, pp: PartsRange, name: string, fuel: nat) returns (r: Option<int>)
    ensures r == Count(wf, pp, name, fuel)
    ensures r.Some? ==> 0 <= r.value <= Score(pp)
    ensures name == "A" ==> r == Some(Score(pp))
    ensures name == "R" ==> r == Some(0)
    ensures name != "A" && name != "R" && name !in wf ==> r.None?
    decreases fuel
  {
    CountBounded(wf, pp, name, fuel);
    if name == "A" {
      return Some(Score(pp));
    }
    if name == "R" {
      return Some(0);
    }
    if name !in wf || fuel == 0 {
      return None;
    }
    var res := 0;
    var cur := pp;
    var rules := wf[name];
    for i := 0 to |rules|
      invariant Count(wf, pp, name, fuel) == Plus(res, CountRules(wf, cur, rules[i..], fuel - 1))
    {
      var rule := rules[i];
      assert rules[i..][0] == rule && rules[i..][1..] == rules[i + 1..];
      if rule.op == 0 as char {
        var sub := PossibleValues(wf, cur, rule.dest, fuel - 1);
        if sub.None? {
          return None;
        }
        return Some(res + sub.value);
      }
      var halves := EvaluateRange(rule, cur);
      var sub := PossibleValues(wf, halves.0, rule.dest, fuel - 1);
      if sub.None? {
        return None;
      }
      res := res + sub.value;
      cur := halves.1;
    }
    return Some(res);
  }
}
