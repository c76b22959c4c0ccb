/** Distress-signal packets of puzzles/2022/src/day13.cpp: an element is an
    integer or a list of elements; two elements compare by value, list
    against list lexicographically, and an integer met by a list is first
    wrapped into a one-element list. A line of text is turned into an
    element by a stack of open lists. */
module Packets {
  import opened Wrappers
  import Digits

  datatype Element = Int(n: int) | List(items: seq<Element>)

  // ---------------------------------------------------------------------
  // Sizes (termination measure for the mutual recursions below)
  // ---------------------------------------------------------------------

  function Size(e: Element): (r: nat)
    ensures r >= 1
  {
    match e
    case Int(_) => 1
    case List(xs) => 1 + SumSize(xs)
  }

  function SumSize(xs: seq<Element>): (r: nat)
    ensures |xs| > 0 ==> r >= Size(xs[0]) && r > SumSize(xs[1..])
  {
    if |xs| == 0 then 0 else Size(xs[0]) + SumSize(xs[1..])
  }

  // ---------------------------------------------------------------------
  // element_comparison_overload and operator<
  // ---------------------------------------------------------------------

  /** operator< on elements: int against int by value, list against list
      lexicographically, and a lone int wrapped as a one-element list. */
  function Less(a: Element, b: Element): (lt: bool)
    ensures lt ==> a != b
    decreases Size(a) + Size(b), 0
  {
    match (a, b)
    case (Int(l), Int(r)) => l < r
    case (List(l), List(r)) => LexLess(l, r)
    case (List(l), Int(r)) => LexLess(l, [Int(r)])
    case (Int(l), List(r)) => LexLess([Int(l)], r)
  }

  /** lexicographical_compare with operator<: the first position at which
      one side is less decides; otherwise the shorter sequence is less. */
  function LexLess(l: seq<Element>, r: seq<Element>): (lt: bool)
    ensures lt ==> l != r
    decreases SumSize(l) + SumSize(r), 1
  {
    if |l| == 0 || |r| == 0 then |l| == 0 && |r| > 0
    else if Less(l[0], r[0]) then true
    else if Less(r[0], l[0]) then false
    else LexLess(l[1..], r[1..])
  }

  /** Of two elements at most one is less than the other. */
  lemma {:induction false} Asymmetric(a: Element, b: Element)
    ensures !(Less(a, b) && Less(b, a))
    decreases Size(a) + Size(b), 0
  {
    match (a, b)
    case (Int(_), Int(_)) =>
    case (List(l), List(r)) => LexAsymmetric(l, r);
    case (List(l), Int(r)) => LexAsymmetric(l, [Int(r)]);
    case (Int(l), List(r)) => LexAsymmetric([Int(l)], r);
  }

  lemma {:induction false} LexAsymmetric(l: seq<Element>, r: seq<Element>)
    ensures !(LexLess(l, r) && LexLess(r, l))
    decreases SumSize(l) + SumSize(r), 1
  {
    if |l| > 0 && |r| > 0 {
      Asymmetric(l[0], r[0]);
      LexAsymmetric(l[1..], r[1..]);
    }
  }

  /** Comparing an integer is the same as comparing the one-element list
      that holds it, on either side. */
  lemma IntIsWrapped(n: int, e: Element)
    ensures Less(Int(n), e) == Less(List([Int(n)]), e)
    ensures Less(e, Int(n)) == Less(e, List([Int(n)]))
  {
    var w := [Int(n)];
    assert w[0] == Int(n) && w[1..] == [];
    if e.Int? {
      var v := [e];
      assert v[0] == e && v[1..] == [];
      assert LexLess(w, v) == (n < e.n);
      assert LexLess(v, w) == (e.n < n);
    }
  }

  /** A proper prefix of a list is less than the list. */
  lemma {:induction false} PrefixIsLess(xs: seq<Element>, ys: seq<Element>)
    requires |ys| > 0
    ensures Less(List(xs), List(xs + ys))
    decreases |xs|
  {
    if |xs| > 0 {
      assert (xs + ys)[0] == xs[0];
      assert (xs + ys)[1..] == xs[1..] + ys;
      PrefixIsLess(xs[1..], ys);
    }
  }

  // ---------------------------------------------------------------------
  // element_output_overload: the textual form of an element
  // ---------------------------------------------------------------------

  /** An integer in decimal, with a '-' when negative. */
  function ShowInt(n: int): (r: string)
    ensures |r| > 0 && (r[0] == '-' || Digits.IsDigit(r[0]))
  {
    if n < 0 then "-" + Digits.Decimal(-n) else Digits.Decimal(n)
  }

  /** The printed form: integers in decimal, lists in brackets with their
      items separated by commas. */
  function Show(e: Element): (r: string)
    ensures |r| > 0
    decreases Size(e), 0
  {
    match e
    case Int(n) => ShowInt(n)
    case List(xs) => "[" + ShowItems(xs) + "]"
  }

  function ShowItems(xs: seq<Element>): string
    decreases SumSize(xs), 1
  {
    if |xs| == 0 then ""
    else if |xs| == 1 then Show(xs[0])
    else Show(xs[0]) + "," + ShowItems(xs[1..])
  }

  // ---------------------------------------------------------------------
  // The element parser (operator>> on element)
  // ---------------------------------------------------------------------

  /** strtol: skips white space, then reads a number. */
  function Strtol(s: string): (r: Option<(int, nat)>)
    ensures r.Some? ==> 0 < r.value.1 <= |s|
  {
    if |s| > 0 && Digits.IsSpace(s[0]) then
      match Strtol(s[1..])
      case None => None
      case Some(p) => Some((p.0, p.1 + 1))
    else SignedNumber(s)
  }

  /** An optional sign and the digits after it: None when no digit
      follows (no conversion), otherwise the value and the number of
      characters consumed. */
  function SignedNumber(s: string): (r: Option<(int, nat)>)
    ensures r.Some? ==> 0 < r.value.1 <= |s|
    ensures r.Some? ==> Digits.IsDigit(s[r.value.1 - 1])
    ensures r.Some? && r.value.1 < |s| ==> !Digits.IsDigit(s[r.value.1])
    ensures r.Some? && r.value.0 < 0 ==> s[0] == '-'
  {
    var sign := if |s| > 0 && s[0] in "+-" then 1 else 0;
    var ds := Digits.LeadingDigits(s[sign..]);
    if |ds| == 0 then None
    else Some((if sign == 1 && s[0] == '-' then -Digits.DigitsValue(ds) else Digits.DigitsValue(ds),
               sign + |ds|))
  }

  /** The stack of lists under construction; its top is the last entry. */
  type Stack = seq<seq<Element>>

  /** Appends an element to the list on top of the stack. */
  function AddToTop(st: Stack, e: Element): (r: Stack)
    requires |st| > 0
    ensures |r| == |st| && r[..|st| - 1] == st[..|st| - 1] && r[|st| - 1] == st[|st| - 1] + [e]
  {
    st[..|st| - 1] + [st[|st| - 1] + [e]]
  }

  /** Appends a run of elements to the list on top of the stack. */
  function AddAllToTop(st: Stack, xs: seq<Element>): (r: Stack)
    requires |st| > 0
    ensures |r| == |st| && r[..|st| - 1] == st[..|st| - 1] && r[|st| - 1] == st[|st| - 1] + xs
  {
    st[..|st| - 1] + [st[|st| - 1] + xs]
  }

  lemma AddNothing(st: Stack)
    requires |st| > 0
    ensures AddAllToTop(st, []) == st
  {
    var r := AddAllToTop(st, []);
    assert r[|st| - 1] == st[|st| - 1];
    forall k | 0 <= k < |st|
      ensures r[k] == st[k]
    {
      if k < |st| - 1 {
        assert r[k] == r[..|st| - 1][k] == st[..|st| - 1][k];
      }
    }
  }

  lemma AddToNewTop(st: Stack, xs: seq<Element>)
    requires |st| > 0
    ensures AddAllToTop(st + [[]], xs) == st + [xs]
  {
    var r := AddAllToTop(st + [[]], xs);
    assert r[..|st|] == st;
    assert r[|st|] == [] + xs == xs;
  }

  lemma AddOneThenRest(st: Stack, xs: seq<Element>)
    requires |st| > 0 && |xs| > 0
    ensures AddAllToTop(AddToTop(st, xs[0]), xs[1..]) == AddAllToTop(st, xs)
  {
    var r := AddAllToTop(AddToTop(st, xs[0]), xs[1..]);
    assert r[|st| - 1] == st[|st| - 1] + [xs[0]] + xs[1..];
    assert [xs[0]] + xs[1..] == xs;
    assert r[|st| - 1] == st[|st| - 1] + xs;
  }

  /** One pass of the character loop at the head of the line: '[' opens a
      list, ']' closes the top list into the one below, ',' is skipped,
      anything else is read by strtol. Gives the number of characters
      consumed and the new stack; None where the source goes wrong: ']'
      with no list below the top (top() of an empty stack), or a character
      strtol cannot convert (the pointer stays put and the loop never
      ends). */
  function Step(s: string, st: Stack): (r: Option<(nat, Stack)>)
    requires |s| > 0 && |st| > 0
    ensures r.Some? ==> 0 < r.value.0 <= |s| && |r.value.1| > 0
    ensures s[0] in "[]," ==> (r.Some? <==> s[0] != ']' || |st| >= 2)
    ensures s[0] in "[]," && r.Some? ==> r.value.0 == 1
    ensures s[0] == '[' && r.Some? ==> |r.value.1| == |st| + 1 && r.value.1[..|st|] == st && r.value.1[|st|] == []
    ensures s[0] == ']' && r.Some? ==> |r.value.1| == |st| - 1 && r.value.1[|st| - 2] == st[|st| - 2] + [List(st[|st| - 1])]
  {
    if s[0] == '[' then Some((1, st + [[]]))
    else if s[0] == ']' then
      if |st| < 2 then None
      else Some((1, AddToTop(st[..|st| - 1], List(st[|st| - 1]))))
    else if s[0] == ',' then Some((1, st))
    else match Strtol(s)
      case None => None
      case Some(p) => Some((p.1, AddToTop(st, Int(p.0))))
  }

  /** The character loop over the rest of the line, from a given stack. */
  function Run(s: string, st: Stack): (r: Option<Stack>)
    requires |st| > 0
    ensures r.Some? ==> |r.value| > 0
    decreases |s|
  {
    if |s| == 0 then Some(st)
    else match Step(s, st)
      case None => None
      case Some(p) => Run(s[p.0..], p.1)
  }

  /** The parsed line: the loop started from one empty list must leave one
      list holding exactly one element (the two asserts), which is the
      result. */
  function Parse(s: string): (r: Option<Element>)
    ensures r.Some? ==> Run(s, [[]]) == Some([[r.value]])
    ensures r.Some? ==> |s| > 0
  {
    match Run(s, [[]])
    case None => None
    case Some(st) =>
      if |st| == 1 && |st[0]| == 1 then
        assert st[0] == [st[0][0]] && st == [st[0]];
        Some(st[0][0])
      else None
  }

  /** The parser loop over the characters of one line. */
  method ParseLine(s: string) returns (r: Option<Element>)
    ensures r == Parse(s)
  {
    var stack: Stack := [[]];
    var i := 0;
    ghost var whole := Run(s, [[]]);
    assert s[0..] == s;
    while i < |s|
      invariant 0 <= i <= |s| && |stack| > 0
      invariant whole == Run(s[i..], stack)
      decreases |s| - i
    {
      var c := s[i];
      ghost var i0, stack0 := i, stack;
      assert s[i..][0] == c;
      if c == '[' {
        stack := stack + [[]];
        i := i + 1;
      } else if c == ']' {
        if |stack| < 2 {
          RunFails(s, i, stack);
          return None;
        }
        var top := stack[|stack| - 1];
        stack := stack[..|stack| - 1];
        stack := AddToTop(stack, List(top));
        i := i + 1;
      } else if c == ',' {
        i := i + 1;
      } else {
        var n := Strtol(s[i..]);
        if n.None? {
          RunFails(s, i, stack);
          return None;
        }
        stack := AddToTop(stack, Int(n.value.0));
        i := i + n.value.1;
      }
      RunAdvance(s, i0, i, stack0, stack);
    }
    assert s[i..] == [];
    if |stack| == 1 && |stack[0]| == 1 {
      r := Some(stack[0][0]);
    } else {
      r := None;
    }
  }

  /** A step of the loop that reads the characters from i up to j and
      leaves stack st' leaves the rest of the run to the characters from
      j on. */
  lemma RunAdvance(s: string, i: int, j: int, st: Stack, st': Stack)
    requires 0 <= i < j <= |s| && |st| > 0 && Step(s[i..], st) == Some((j - i, st'))
    ensures Run(s[i..], st) == Run(s[j..], st')
  {
    var rest := s[i..];
    RunUnfold(rest, st, j - i, st');
    assert rest[j - i..] == s[j..];
  }

  lemma RunUnfold(s: string, st: Stack, n: int, st': Stack)
    requires 0 < n <= |s| && |st| > 0 && Step(s, st) == Some((n, st'))
    ensures Run(s, st) == Run(s[n..], st')
  {
  }

  /** A step of the loop that fails fails the line. */
  lemma RunFails(s: string, i: int, st: Stack)
    requires 0 <= i < |s| && |st| > 0 && Step(s[i..], st).None?
    ensures Run(s[i..], st).None?
  {
  }

  // ---------------------------------------------------------------------
  // The parser reads back what the printer writes
  // ---------------------------------------------------------------------

  /** A string of digits followed by a non-digit (or nothing) is read up
      to its end. */
  lemma {:induction false} DigitsThenStop(d: string, t: string)
    requires forall i :: 0 <= i < |d| ==> Digits.IsDigit(d[i])
    requires |t| == 0 || !Digits.IsDigit(t[0])
    ensures Digits.LeadingDigits(d + t) == d
    decreases |d|
  {
    if |d| > 0 {
      assert (d + t)[1..] == d[1..] + t;
      DigitsThenStop(d[1..], t);
    } else {
      assert d + t == t;
    }
  }

  lemma NumberDecimal(m: nat, t: string)
    requires |t| == 0 || t[0] in ",]"
    ensures SignedNumber(Digits.Decimal(m) + t) == Some((m, |Digits.Decimal(m)|))
  {
    PlainDigits(Digits.Decimal(m), t);
    Digits.DecimalValue(m);
  }

  lemma NumberMinusDecimal(m: int, t: string)
    requires m >= 0
    requires |t| == 0 || t[0] in ",]"
    ensures SignedNumber("-" + Digits.Decimal(m) + t) == Some((-m, 1 + |Digits.Decimal(m)|))
  {
    MinusDigits(Digits.Decimal(m), t);
    Digits.DecimalValue(m);
  }

  /** Digits followed by a separator read as their value. */
  lemma PlainDigits(d: string, t: string)
    requires |d| > 0 && forall i :: 0 <= i < |d| ==> Digits.IsDigit(d[i])
    requires |t| == 0 || t[0] in ",]"
    ensures SignedNumber(d + t) == Some((Digits.DigitsValue(d), |d|))
  {
    var s := d + t;
    DigitsThenStop(d, t);
    assert s[0] == d[0] && Digits.IsDigit(d[0]);
    assert s[0] !in "+-";
    assert s[0..] == s;
  }

  /** A minus sign, digits and a separator read as the negated value. */
  lemma MinusDigits(d: string, t: string)
    requires |d| > 0 && forall i :: 0 <= i < |d| ==> Digits.IsDigit(d[i])
    requires |t| == 0 || t[0] in ",]"
    ensures SignedNumber("-" + d + t) == Some((-Digits.DigitsValue(d), 1 + |d|))
  {
    DigitsThenStop(d, t);
    var s := MinusSplit(d, t);
    SignedNumberMinus(s, d);
  }

  lemma MinusSplit(d: string, t: string) returns (s: string)
    ensures s == "-" + d + t && |s| > 0 && s[0] == '-' && s[1..] == d + t
  {
    s := "-" + d + t;
    assert s == ['-'] + (d + t);
  }

  /** After a minus sign and a non-empty run of digits d the number is
      the negated value of d. */
  lemma SignedNumberMinus(s: string, d: string)
    requires |s| > 0 && s[0] == '-'
    requires Digits.LeadingDigits(s[1..]) == d && |d| > 0
    ensures SignedNumber(s) == Some((-Digits.DigitsValue(d), 1 + |d|))
  {
    assert s[0] in "+-";
  }

  lemma NumberShowInt(n: int, t: string)
    requires |t| == 0 || t[0] in ",]"
    ensures SignedNumber(ShowInt(n) + t) == Some((n, |ShowInt(n)|))
  {
    if n < 0 {
      NumberMinusDecimal(-n, t);
    } else {
      NumberDecimal(n, t);
    }
  }

  lemma StrtolShowInt(n: int, t: string)
    requires |t| == 0 || t[0] in ",]"
    ensures Strtol(ShowInt(n) + t) == Some((n, |ShowInt(n)|))
  {
    NumberShowInt(n, t);
    var s := ShowInt(n) + t;
    assert s[0] == ShowInt(n)[0];
    StrtolNoSpace(s);
  }

  /** Without leading white space strtol reads the signed number. */
  lemma StrtolNoSpace(s: string)
    requires |s| > 0 && (s[0] == '-' || Digits.IsDigit(s[0]))
    ensures Strtol(s) == SignedNumber(s)
  {
    assert !Digits.IsSpace(s[0]);
  }

  lemma RunOpen(rest: string, st: Stack)
    requires |st| > 0
    ensures Run("[" + rest, st) == Run(rest, st + [[]])
  {
    var s := "[" + rest;
    assert s[0] == '[' && s[1..] == rest;
    assert Step(s, st) == Some((1, st + [[]]));
  }

  lemma RunClose(rest: string, st: Stack)
    requires |st| > 1
    ensures Run("]" + rest, st) == Run(rest, AddToTop(st[..|st| - 1], List(st[|st| - 1])))
  {
    var s := "]" + rest;
    assert s[0] == ']' && s[1..] == rest;
    assert Step(s, st) == Some((1, AddToTop(st[..|st| - 1], List(st[|st| - 1]))));
  }

  lemma RunComma(rest: string, st: Stack)
    requires |st| > 0
    ensures Run("," + rest, st) == Run(rest, st)
  {
    var s := "," + rest;
    assert s[0] == ',' && s[1..] == rest;
    assert Step(s, st) == Some((1, st));
  }

  lemma RunInt(n: int, t: string, st: Stack)
    requires |st| > 0
    requires |t| == 0 || t[0] in ",]"
    ensures Run(ShowInt(n) + t, st) == Run(t, AddToTop(st, Int(n)))
  {
    StrtolShowInt(n, t);
    var s := ShowInt(n) + t;
    assert s[0] == ShowInt(n)[0];
    assert Step(s, st) == Some((|ShowInt(n)|, AddToTop(st, Int(n))));
    assert s[|ShowInt(n)|..] == t;
  }

  /** Reading the printed form of e pushes e onto the top list. */
  lemma {:induction false} RunShow(e: Element, t: string, st: Stack)
    requires |st| > 0
    requires |t| == 0 || t[0] in ",]"
    ensures Run(Show(e) + t, st) == Run(t, AddToTop(st, e))
    decreases Size(e), 0
  {
    match e
    case Int(n) =>
      RunInt(n, t, st);
    case List(xs) =>
      var inner := ShowItems(xs) + ("]" + t);
      var st1 := st + [[]];
      var st2 := st + [xs];
      assert Show(e) + t == "[" + inner;
      AddToNewTop(st, xs);
      assert st2[..|st2| - 1] == st && st2[|st2| - 1] == xs;
      calc {
        Run(Show(e) + t, st);
        Run("[" + inner, st);
        { RunOpen(inner, st); }
        Run(inner, st1);
        { RunShowItems(xs, "]" + t, st1); }
        Run("]" + t, st2);
        { RunClose(t, st2); }
        Run(t, AddToTop(st, List(xs)));
      }
  }

  /** Reading the printed items of a list appends them all to the top list. */
  lemma {:induction false} RunShowItems(xs: seq<Element>, t: string, st: Stack)
    requires |st| > 0
    requires |t| > 0 && t[0] == ']'
    ensures Run(ShowItems(xs) + t, st) == Run(t, AddAllToTop(st, xs))
    decreases SumSize(xs), 1
  {
    if |xs| == 0 {
      AddNothing(st);
      assert ShowItems(xs) + t == t;
    } else if |xs| == 1 {
      RunShow(xs[0], t, st);
      assert xs == [xs[0]];
    } else {
      var after := ShowItems(xs[1..]) + t;
      var rest := "," + after;
      var st1 := AddToTop(st, xs[0]);
      ShowItemsSplit(xs, t);
      AddOneThenRest(st, xs);
      calc {
        Run(ShowItems(xs) + t, st);
        Run(Show(xs[0]) + rest, st);
        { RunShow(xs[0], rest, st); }
        Run(rest, st1);
        { RunComma(after, st1); }
        Run(after, st1);
        { RunShowItems(xs[1..], t, st1); }
        Run(t, AddAllToTop(st, xs));
      }
    }
  }

  lemma ShowItemsSplit(xs: seq<Element>, t: string)
    requires |xs| > 1
    ensures ShowItems(xs) + t == Show(xs[0]) + ("," + (ShowItems(xs[1..]) + t))
  {
    var a, b := Show(xs[0]), ShowItems(xs[1..]);
    assert ShowItems(xs) == a + "," + b;
    CommaAssoc(a, b, t);
  }

  lemma CommaAssoc(a: string, b: string, t: string)
    ensures a + "," + b + t == a + ("," + (b + t))
  {
  }

  /** Round trip: parsing the printed form of any element gives it back. */
  lemma ParseShow(e: Element)
    ensures Parse(Show(e)) == Some(e)
  {
    RunShow(e, "", [[]]);
    assert Show(e) + "" == Show(e);
  }

  // ---------------------------------------------------------------------
  // Divider packets (puzzle2)
  // ---------------------------------------------------------------------

  /** The divider packets [[2]] and [[6]]. */
  const Two: Element := List([List([Int(2)])])
  const Six: Element := List([List([Int(6)])])

  /** Sorted by operator<: no element is less than one before it. */
  ghost predicate Sorted(s: seq<Element>) {
    forall i, j :: 0 <= i < j < |s| ==> !Less(s[j], s[i])
  }

  /** find(...) - begin() + 1: the 1-based position of the first element
      equal to x, None when x does not occur. */
  function DividerPosition(s: seq<Element>, x: Element): (r: Option<nat>)
    ensures r.Some? <==> x in s
    ensures r.Some? ==> 1 <= r.value <= |s| && s[r.value - 1] == x
    ensures r.Some? ==> forall i :: 0 <= i < r.value - 1 ==> s[i] != x
  {
    if |s| == 0 then None
    else if s[0] == x then Some(1)
    else match DividerPosition(s[1..], x)
      case None => None
      case Some(p) => Some(p + 1)
  }

  /** In a sorted list, every element less than the divider comes before
      the divider's position, so the position exceeds their count. */
  lemma SmallerComeFirst(s: seq<Element>, x: Element)
    requires Sorted(s) && x in s
    ensures forall i :: 0 <= i < |s| && Less(s[i], x) ==> i < DividerPosition(s, x).value - 1
  {
    var p := DividerPosition(s, x).value - 1;
    assert s[p] == x;
  }
}
