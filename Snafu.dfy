/** The balanced base-5 ("SNAFU") number codec of puzzles/2022/src/day25.cpp.
    Digit strings are valued by Horner's rule over their digit values; the
    encoder writes plain base-5 digits and then rewrites them, least
    significant first, into the digits 2, 1, 0, -1 ('-') and -2 ('='). */
module Snafu {
  import opened Wrappers

  // ---------------------------------------------------------------------
  // Digit sequences and their value
  // ---------------------------------------------------------------------

  function Pow5(n: nat): (r: int)
    ensures r >= 1
  {
    if n == 0 then 1 else 5 * Pow5(n - 1)
  }

  /** The value of a digit sequence, most significant digit first. */
  function Horner(ds: seq<int>): int {
    if |ds| == 0 then 0 else Horner(ds[..|ds| - 1]) * 5 + ds[|ds| - 1]
  }

  lemma {:induction false} HornerConcat(a: seq<int>, b: seq<int>)
    ensures Horner(a + b) == Horner(a) * Pow5(|b|) + Horner(b)
    decreases |b|
  {
    if |b| == 0 {
      assert a + b == a;
    } else {
      var b' := b[..|b| - 1];
      assert (a + b)[..|a + b| - 1] == a + b';
      HornerConcat(a, b');
      calc {
        Horner(a + b);
        Horner(a + b') * 5 + b[|b| - 1];
        (Horner(a) * Pow5(|b'|) + Horner(b')) * 5 + b[|b| - 1];
        Horner(a) * (Pow5(|b'|) * 5) + (Horner(b') * 5 + b[|b| - 1]);
        Horner(a) * Pow5(|b|) + Horner(b);
      }
    }
  }

  /** Moving 5 units of a digit into one unit of the next more significant
      digit keeps the value. */
  lemma CarryKeepsValue(a: seq<int>, x: int, y: int, carry: int, b: seq<int>)
    ensures Horner(a + [x + carry, y - 5 * carry] + b) == Horner(a + [x, y] + b)
  {
    HornerConcat(a + [x + carry, y - 5 * carry], b);
    HornerConcat(a + [x, y], b);
    HornerConcat(a, [x + carry, y - 5 * carry]);
    HornerConcat(a, [x, y]);
    assert Horner([x + carry, y - 5 * carry]) == Horner([x, y]) by {
      assert [x + carry, y - 5 * carry][..1] == [x + carry];
      assert [x, y][..1] == [x];
    }
  }

  // ---------------------------------------------------------------------
  // Decoding: from_snafu_char and from_snafu
  // ---------------------------------------------------------------------

  /** from_snafu_char; any other character throws. */
  function FromSnafuChar(c: char): (r: Option<int>)
    ensures r.Some? <==> c in "210-="
    ensures r.Some? ==> -2 <= r.value <= 2
  {
    match c
    case '1' => Some(1)
    case '2' => Some(2)
    case '0' => Some(0)
    case '-' => Some(-1)
    case '=' => Some(-2)
    case _ => None
  }

  /** The character for a SNAFU digit value: the output side of the switch
      in to_snafu(char). */
  function SnafuChar(d: int): char
    requires -2 <= d <= 2
  {
    if d == 2 then '2' else if d == 1 then '1' else if d == 0 then '0' else if d == -1 then '-' else '='
  }

  /** The digit characters and the digit values are in one-to-one
      correspondence. */
  lemma SnafuCharRoundTrip(d: int, c: char)
    requires -2 <= d <= 2
    ensures FromSnafuChar(SnafuChar(d)) == Some(d)
    ensures FromSnafuChar(c) == Some(d) ==> c == SnafuChar(d)
  {
  }

  predicate AllSnafu(s: string) {
    forall i :: 0 <= i < |s| ==> FromSnafuChar(s[i]).Some?
  }

  function SnafuDigits(s: string): seq<int>
    requires AllSnafu(s)
  {
    seq(|s|, i requires 0 <= i < |s| && AllSnafu(s) => FromSnafuChar(s[i]).value)
  }

  /** from_snafu: the fold x * 5 + digit from 0, throwing on the first
      character that is no SNAFU digit. */
  function FromSnafu(s: string): (r: Option<int>)
    ensures r.Some? <==> AllSnafu(s)
    ensures r.Some? ==> r.value == Horner(SnafuDigits(s))
  {
    if |s| == 0 then Some(0)
    else
      var init := s[..|s| - 1];
      match FromSnafu(init)
      case None => None
      case Some(x) =>
        match FromSnafuChar(s[|s| - 1])
        case None => None
        case Some(d) =>
          assert SnafuDigits(s)[..|s| - 1] == SnafuDigits(init);
          Some(x * 5 + d)
  }

  // ---------------------------------------------------------------------
  // Encoding: to_base5_string, to_snafu(char), base5_to_snafu, to_snafu
  // ---------------------------------------------------------------------

  /** C++ integer division and remainder by 5: the quotient truncates
      toward zero and the remainder takes the sign of the dividend. */
  function TruncDiv5(x: int): int {
    if x >= 0 then x / 5 else -((-x) / 5)
  }

  function TruncMod5(x: int): int {
    x - 5 * TruncDiv5(x)
  }

  /** The digit values of a string of characters counted from '0'. */
  function CharDigits(s: string): seq<int> {
    seq(|s|, i requires 0 <= i < |s| => s[i] as int - '0' as int)
  }

  lemma CharDigitsCons(c: char, s: string)
    ensures CharDigits([c] + s) == [c as int - '0' as int] + CharDigits(s)
  {
  }

  /** to_base5_string: the base-5 digits, most significant first, of x; the
      empty string for 0. For negative x every digit is the C++ remainder,
      between -4 and 0. (The source appends digits and reverses at the
      end; prepending gives the same string.) */
  method ToBase5String(x: int) returns (s: string)
    ensures Horner(CharDigits(s)) == x
    ensures s == [] <==> x == 0
    ensures s != [] ==> CharDigits(s)[0] != 0
    ensures x >= 0 ==> forall i :: 0 <= i < |s| ==> 0 <= CharDigits(s)[i] <= 4
    ensures x < 0 ==> forall i :: 0 <= i < |s| ==> -4 <= CharDigits(s)[i] <= 0
  {
    s := [];
    var y := x;
    assert Pow5(0) == 1;
    while y != 0
      invariant Base5Progress(x, s, y)
      decreases if y >= 0 then y else -y
    {
      TruncDivMod5(y);
      var c := ('0' as int + TruncMod5(y)) as char;
      Base5Step(x, s, y, c);
      s := [c] + s;
      y := TruncDiv5(y);
    }
  }

  /** The state of the to_base5_string loop: the digits written so far
      hold the low part of x, y the rest. */
  ghost predicate Base5Progress(x: int, s: string, y: int) {
    && Horner(CharDigits(s)) + y * Pow5(|s|) == x
    && (x >= 0 ==> y >= 0 && forall i :: 0 <= i < |s| ==> 0 <= CharDigits(s)[i] <= 4)
    && (x < 0 ==> y <= 0 && forall i :: 0 <= i < |s| ==> -4 <= CharDigits(s)[i] <= 0)
    && (s != [] ==> y != 0 || CharDigits(s)[0] != 0)
    && (s == [] ==> y == x)
    && (s != [] ==> x != 0)
  }

  lemma Base5Step(x: int, s: string, y: int, c: char)
    requires Base5Progress(x, s, y) && y != 0
    requires c as int - '0' as int == TruncMod5(y)
    ensures Base5Progress(x, [c] + s, TruncDiv5(y))
  {
    TruncDivMod5(y);
    PrependDigit(c, s, y);
    CharDigitsCons(c, s);
  }

  /** The C++ quotient and remainder by 5 recombine to the dividend; the
      remainder has the dividend's sign and the quotient shrinks. */
  lemma TruncDivMod5(y: int)
    ensures y == 5 * TruncDiv5(y) + TruncMod5(y)
    ensures y >= 0 ==> 0 <= TruncMod5(y) <= 4 && 0 <= TruncDiv5(y) && (y > 0 ==> TruncDiv5(y) < y)
    ensures y <= 0 ==> -4 <= TruncMod5(y) <= 0 && TruncDiv5(y) <= 0 && (y < 0 ==> y < TruncDiv5(y))
    ensures TruncDiv5(y) == 0 ==> TruncMod5(y) == y
  {
  }

  /** One step of to_base5_string: the new most significant digit carries
      the quotient's weight. */
  lemma PrependDigit(c: char, s: string, y: int)
    requires c as int - '0' as int == TruncMod5(y)
    ensures Horner(CharDigits([c] + s)) + TruncDiv5(y) * Pow5(|s| + 1) == Horner(CharDigits(s)) + y * Pow5(|s|)
  {
    var d := TruncMod5(y);
    var q := TruncDiv5(y);
    var p := Pow5(|s|);
    var h := Horner(CharDigits(s));
    CharDigitsCons(c, s);
    HornerConcat([d], CharDigits(s));
    assert Horner([d]) == d by {
      assert [d][..0] == [];
    }
    assert Horner(CharDigits([c] + s)) == d * p + h;
    TruncDivMod5(y);
    assert Pow5(|s| + 1) == 5 * p;
    WeightedSplit(y, q, d, p);
  }

  /** y = 5q + d, weighed by p, splits into the two weighed parts. */
  lemma WeightedSplit(y: int, q: int, d: int, p: int)
    requires y == 5 * q + d
    ensures d * p + q * (5 * p) == y * p
  {
    assert q * (5 * p) == (5 * q) * p;
    assert d * p + (5 * q) * p == (d + 5 * q) * p;
  }

  /** to_snafu(char): repeatedly takes 5 off a digit character from '3' up,
      counting a carry, and names what is left as a SNAFU digit; a character
      below '0' - 2 throws. */
  method ToSnafuDigit(c: char) returns (r: Option<(int, char)>)
    ensures r.None? <==> c as int < '0' as int - 2
    ensures r.Some? ==> r.value.0 >= 0 && FromSnafuChar(r.value.1).Some?
                        && c as int - '0' as int == FromSnafuChar(r.value.1).value + 5 * r.value.0
    ensures r.Some? ==> (r.value.0 == 0 <==> c as int < '3' as int)
  {
    var v := c as int;
    var carry := 0;
    while v >= '3' as int
      invariant c as int == v + 5 * carry && carry >= 0
      invariant carry > 0 ==> v >= '3' as int - 5
      invariant carry == 0 ==> v == c as int
    {
      v := v - 5;
      carry := carry + 1;
    }
    if v == '0' as int {
      r := Some((carry, '0'));
    } else if v == '1' as int {
      r := Some((carry, '1'));
    } else if v == '2' as int {
      r := Some((carry, '2'));
    } else if v == '0' as int - 2 {
      r := Some((carry, '='));
    } else if v == '0' as int - 1 {
      r := Some((carry, '-'));
    } else {
      r := None;
    }
  }

  /** A base-5 string whose first k characters are still plain digits and
      whose remaining characters are already SNAFU digits. */
  ghost function MixedDigits(t: string, k: nat): seq<int>
    requires k <= |t| && AllSnafu(t[k..])
  {
    CharDigits(t[..k]) + SnafuDigits(t[k..])
  }

  /** base5_to_snafu: rewrites the digits in place from the least
      significant one, adding each carry into the next digit; at the most
      significant digit the carry is inserted in front as a digit of its
      own, so a non-empty result always gains a leading '0' or '1'. The
      empty string is left empty. A digit the rewrite cannot name gives no
      result. */
  method Base5ToSnafu(s: string) returns (r: Option<string>)
    requires forall i :: 0 <= i < |s| ==> -4 <= CharDigits(s)[i] <= 4
    ensures r.Some? ==> FromSnafu(r.value) == Some(Horner(CharDigits(s)))
    ensures (forall i :: 0 <= i < |s| ==> 0 <= CharDigits(s)[i]) ==> r.Some?
    ensures r.Some? && s != [] ==> |r.value| == |s| + 1 && r.value[0] in "01"
    ensures s == [] ==> r == Some([])
  {
    var t := s;
    var k := |t|;
    assert t[..k] == s && t[k..] == [];
    assert MixedDigits(t, k) == CharDigits(s);
    while k > 0
      invariant 0 <= k <= |t| == |s|
      invariant |s| > 0 ==> k > 0
      invariant forall j :: 0 <= j < k - 1 ==> t[j] == s[j]
      invariant k > 0 ==> s[k - 1] as int <= t[k - 1] as int <= s[k - 1] as int + 1
      invariant AllSnafu(t[k..])
      invariant Horner(MixedDigits(t, k)) == Horner(CharDigits(s))
    {
      assert CharDigits(s)[k - 1] == s[k - 1] as int - '0' as int;
      var step := ToSnafuDigit(t[k - 1]);
      if step.None? {
        return None;
      }
      var carry, rem := step.value.0, step.value.1;
      if k == 1 {
        var u := [(carry + '0' as int) as char] + t[0 := rem];
        LastStep(s, t, carry, rem, u);
        return Some(u);
      }
      assert CharDigits(s)[k - 2] == s[k - 2] as int - '0' as int;
      var t' := t[k - 1 := rem][k - 2 := (t[k - 2] as int + carry) as char];
      CarryStep(s, t, k, carry, rem, t');
      t := t';
      k := k - 1;
    }
    assert t == s;
    return Some(s);
  }

  /** One inner step of base5_to_snafu keeps the invariant of its loop. */
  lemma CarryStep(s: string, t: string, k: nat, carry: int, rem: char, t': string)
    requires 2 <= k <= |t| == |s|
    requires forall j :: 0 <= j < k - 1 ==> t[j] == s[j]
    requires s[k - 2] as int - '0' as int >= -4 && s[k - 2] as int - '0' as int <= 4
    requires AllSnafu(t[k..])
    requires Horner(MixedDigits(t, k)) == Horner(CharDigits(s))
    requires FromSnafuChar(rem).Some? && 0 <= carry <= 1
    requires t[k - 1] as int - '0' as int == FromSnafuChar(rem).value + 5 * carry
    requires t' == t[k - 1 := rem][k - 2 := (t[k - 2] as int + carry) as char]
    ensures |t'| == |s|
    ensures forall j :: 0 <= j < k - 2 ==> t'[j] == s[j]
    ensures s[k - 2] as int <= t'[k - 2] as int <= s[k - 2] as int + 1
    ensures AllSnafu(t'[k - 1..])
    ensures Horner(MixedDigits(t', k - 1)) == Horner(CharDigits(s))
  {
    InnerCarry(t, k, carry, rem, t');
  }

  /** One inner step of base5_to_snafu keeps the value of the partly
      rewritten string. */
  lemma InnerCarry(t: string, k: nat, carry: int, rem: char, t': string)
    requires 2 <= k <= |t| && AllSnafu(t[k..])
    requires FromSnafuChar(rem).Some?
    requires t[k - 1] as int - '0' as int == FromSnafuChar(rem).value + 5 * carry
    requires 0 <= t[k - 2] as int + carry < 0xD800
    requires t' == t[k - 1 := rem][k - 2 := (t[k - 2] as int + carry) as char]
    ensures AllSnafu(t'[k - 1..])
    ensures Horner(MixedDigits(t', k - 1)) == Horner(MixedDigits(t, k))
  {
    var d := FromSnafuChar(rem).value;
    var a := t[k - 2] as int - '0' as int;
    var v := t[k - 1] as int - '0' as int;
    var b := SnafuDigits(t[k..]);
    assert t'[k - 1..] == [rem] + t[k..];
    assert SnafuDigits(t'[k - 1..]) == [d] + b;
    assert MixedDigits(t, k) == CharDigits(t[..k - 2]) + [a, v] + b by {
      assert t[..k] == t[..k - 2] + [t[k - 2], t[k - 1]];
    }
    assert MixedDigits(t', k - 1) == CharDigits(t[..k - 2]) + [a + carry, d] + b by {
      assert t'[..k - 1] == t[..k - 2] + [t'[k - 2]];
    }
    CarryKeepsValue(CharDigits(t[..k - 2]), a, v, carry, b);
  }

  /** The string the last step of base5_to_snafu returns decodes to the
      value of the input, one character longer, led by '0' or '1'. */
  lemma LastStep(s: string, t: string, carry: int, rem: char, u: string)
    requires 1 <= |t| == |s| && AllSnafu(t[1..])
    requires Horner(MixedDigits(t, 1)) == Horner(CharDigits(s))
    requires FromSnafuChar(rem).Some?
    requires t[0] as int - '0' as int == FromSnafuChar(rem).value + 5 * carry
    requires 0 <= carry <= 1
    requires u == [(carry + '0' as int) as char] + t[0 := rem]
    ensures FromSnafu(u) == Some(Horner(CharDigits(s)))
    ensures |u| == |s| + 1 && u[0] in "01"
  {
    LastCarry(t, carry, rem, u);
  }

  /** The last step of base5_to_snafu: the carry out of the most
      significant digit becomes a new leading digit. */
  lemma LastCarry(t: string, carry: int, rem: char, u: string)
    requires 1 <= |t| && AllSnafu(t[1..])
    requires FromSnafuChar(rem).Some?
    requires t[0] as int - '0' as int == FromSnafuChar(rem).value + 5 * carry
    requires 0 <= carry <= 1
    requires u == [(carry + '0' as int) as char] + t[0 := rem]
    ensures AllSnafu(u)
    ensures Horner(SnafuDigits(u)) == Horner(MixedDigits(t, 1))
  {
    var v := t[0] as int - '0' as int;
    var b := SnafuDigits(t[1..]);
    LastCarryDigits(t, carry, rem, u);
    LeadingMixedDigits(t);
    LeadingCarry(v, carry, b);
  }

  /** The digits of the string with the carry in front. */
  lemma LastCarryDigits(t: string, carry: int, rem: char, u: string)
    requires 1 <= |t| && AllSnafu(t[1..])
    requires FromSnafuChar(rem).Some?
    requires t[0] as int - '0' as int == FromSnafuChar(rem).value + 5 * carry
    requires 0 <= carry <= 1
    requires u == [(carry + '0' as int) as char] + t[0 := rem]
    ensures AllSnafu(u)
    ensures SnafuDigits(u) == [carry, t[0] as int - '0' as int - 5 * carry] + SnafuDigits(t[1..])
  {
    assert u == [u[0], rem] + t[1..];
  }

  /** With one plain digit left, the mixed digits are that digit and the
      SNAFU digits after it. */
  lemma LeadingMixedDigits(t: string)
    requires 1 <= |t| && AllSnafu(t[1..])
    ensures MixedDigits(t, 1) == [t[0] as int - '0' as int] + SnafuDigits(t[1..])
  {
    assert t[..1] == [t[0]];
  }

  /** A carry out of the leading digit, written as a new leading digit,
      keeps the value. */
  lemma LeadingCarry(v: int, carry: int, b: seq<int>)
    ensures Horner([carry, v - 5 * carry] + b) == Horner([v] + b)
  {
    HornerConcat([0], [v] + b);
    assert Horner([0]) == 0 by {
      assert [0][..0] == [];
    }
    CarryKeepsValue([], 0, v, carry, b);
    assert [] + [0 + carry, v - 5 * carry] + b == [carry, v - 5 * carry] + b;
    assert [] + [0, v] + b == [0] + ([v] + b);
  }

  /** to_snafu(long): the SNAFU string of x. Every non-negative number has
      one, and whatever string comes out decodes back to x. */
  method ToSnafu(x: int) returns (r: Option<string>)
    ensures r.Some? ==> FromSnafu(r.value) == Some(x)
    ensures x >= 0 ==> r.Some?
    ensures x == 0 ==> r == Some([])
    ensures x > 0 && r.Some? ==> r.value[0] in "01"
  {
    var s := ToBase5String(x);
    r := Base5ToSnafu(s);
  }
}
