/** The chunk parser of puzzles/2021/src/day10.cpp. A line is scanned with
    a stack of open brackets; the first character that neither opens a
    chunk nor closes the innermost open one is the line's failure. A line
    without failure is incomplete, and its completion closes the open
    chunks from the innermost out. */
module Brackets {

  predicate IsOpen(c: char) {
    c == '(' || c == '[' || c == '<' || c == '{'
  }

  predicate IsClose(c: char) {
    c == ')' || c == ']' || c == '>' || c == '}'
  }

  /** match_close */
  predicate MatchClose(open: char, close: char) {
    match open
    case '(' => close == ')'
    case '{' => close == '}'
    case '[' => close == ']'
    case '<' => close == '>'
    case _ => false
  }

  /** The closing bracket of an opening one. */
  function CloseOf(open: char): (r: char)
    requires IsOpen(open)
    ensures IsClose(r)
  {
    match open
    case '(' => ')'
    case '[' => ']'
    case '{' => '}'
    case '<' => '>'
  }

  /** match_close accepts exactly the four bracket pairs. */
  lemma MatchCloseExactly(open: char, close: char)
    ensures MatchClose(open, close) <==> IsOpen(open) && close == CloseOf(open)
  {
  }

  /** close_to_score1: the syntax-error points of a closing bracket. */
  function CloseToScore1(c: char): (r: int)
    ensures r > 0 <==> IsClose(c)
    ensures r == 0 <==> !IsClose(c)
  {
    match c
    case ')' => 3
    case ']' => 57
    case '}' => 1197
    case '>' => 25137
    case _ => 0
  }

  /** open_to_score2: the completion points of the bracket that closes an
      open one. */
  function OpenToScore2(c: char): (r: int)
    ensures 1 <= r <= 4 <==> IsOpen(c)
    ensures r == 0 <==> !IsOpen(c)
  {
    match c
    case '(' => 1
    case '[' => 2
    case '{' => 3
    case '<' => 4
    case _ => 0
  }

  /** The completion points of a closing bracket, as the puzzle scores a
      completion string. */
  function ClosePoints(c: char): int {
    match c
    case ')' => 1
    case ']' => 2
    case '}' => 3
    case '>' => 4
    case _ => 0
  }

  // ---------------------------------------------------------------------
  // Scanning, as a function of the prefix read so far
  // ---------------------------------------------------------------------

  datatype Scanned =
    | Open(stack: seq<char>)            // every character accepted
    | Corrupt(at: nat, stack: seq<char>) // stopped at position `at`

  /** One character of the scan, read at position pos. */
  function Step(r: Scanned, c: char, pos: nat): Scanned {
    match r
    case Corrupt(at, st) => Corrupt(at, st)
    case Open(st) =>
      if IsOpen(c) then Open(st + [c])
      else if |st| > 0 && MatchClose(st[|st| - 1], c) then Open(st[..|st| - 1])
      else Corrupt(pos, st)
  }

  /** The state after reading s: the open brackets, bottom first, or the
      position of the first rejected character and the stack it met. */
  function Scan(s: string): (r: Scanned)
    ensures r.Corrupt? ==> r.at < |s| && !IsOpen(s[r.at])
    ensures forall i :: 0 <= i < |r.stack| ==> IsOpen(r.stack[i])
  {
    if |s| == 0 then Open([]) else Step(Scan(s[..|s| - 1]), s[|s| - 1], |s| - 1)
  }

  lemma ScanSnoc(s: string, i: nat)
    requires i < |s|
    ensures Scan(s[..i + 1]) == Step(Scan(s[..i]), s[i], i)
  {
    assert s[..i + 1][..i] == s[..i];
  }

  /** The closing brackets that complete a stack, innermost first. */
  function Completion(stack: seq<char>): (r: string)
    requires forall i :: 0 <= i < |stack| ==> IsOpen(stack[i])
    ensures |r| == |stack|
  {
    if |stack| == 0 then [] else [CloseOf(stack[|stack| - 1])] + Completion(stack[..|stack| - 1])
  }

  // ---------------------------------------------------------------------
  // Balanced lines
  // ---------------------------------------------------------------------

  /** A balanced line: empty, or a matched adjacent pair whose removal
      leaves a balanced line. */
  ghost predicate Balanced(w: string)
    decreases |w|
  {
    |w| == 0 || exists i :: 0 <= i < |w| - 1 && MatchClose(w[i], w[i + 1]) && Balanced(w[..i] + w[i + 2..])
  }

  /** Inserting a matched pair anywhere keeps a line balanced. */
  lemma InsertPair(x: string, o: char, y: string)
    requires IsOpen(o) && Balanced(x + y)
    ensures Balanced(x + [o, CloseOf(o)] + y)
  {
    var w := x + [o, CloseOf(o)] + y;
    assert w[..|x|] + w[|x| + 2..] == x + y;
    assert w[|x|] == o && w[|x| + 1] == CloseOf(o);
  }

  /** After the scan accepted a prefix, adding the completion of its stack
      gives a balanced line. */
  lemma {:induction false} OpenPrefixCompletes(s: string)
    requires Scan(s).Open?
    ensures Balanced(s + Completion(Scan(s).stack))
  {
    if |s| > 0 {
      var init := s[..|s| - 1];
      var c := s[|s| - 1];
      assert s == init + [c];
      assert Scan(s) == Step(Scan(init), c, |s| - 1);
      OpenPrefixCompletes(init);
      var st := Scan(init).stack;
      if IsOpen(c) {
        PushCompletes(init, c, st);
      } else {
        PopCompletes(init, c, st);
      }
    } else {
      assert s + Completion([]) == [];
    }
  }

  lemma PushCompletes(init: string, c: char, st: seq<char>)
    requires IsOpen(c) && forall i :: 0 <= i < |st| ==> IsOpen(st[i])
    requires Balanced(init + Completion(st))
    ensures Balanced(init + [c] + Completion(st + [c]))
  {
    InsertPair(init, c, Completion(st));
    PushShape(init, c, st);
  }

  lemma PushShape(init: string, c: char, st: seq<char>)
    requires IsOpen(c) && forall i :: 0 <= i < |st| ==> IsOpen(st[i])
    ensures init + [c, CloseOf(c)] + Completion(st) == init + [c] + Completion(st + [c])
  {
    CompletionPush(st, c);
    PairAssoc(init, c, CloseOf(c), Completion(st));
  }

  lemma CompletionPush(st: seq<char>, c: char)
    requires IsOpen(c) && forall i :: 0 <= i < |st| ==> IsOpen(st[i])
    ensures Completion(st + [c]) == [CloseOf(c)] + Completion(st)
  {
    assert (st + [c])[..|st|] == st;
  }

  lemma PairAssoc(a: string, c: char, d: char, rest: string)
    ensures a + [c, d] + rest == a + [c] + ([d] + rest)
  {
  }

  lemma PopCompletes(init: string, c: char, st: seq<char>)
    requires forall i :: 0 <= i < |st| ==> IsOpen(st[i])
    requires |st| > 0 && MatchClose(st[|st| - 1], c)
    requires Balanced(init + Completion(st))
    ensures Balanced(init + [c] + Completion(st[..|st| - 1]))
  {
    PopShape(init, c, st);
  }

  lemma PopShape(init: string, c: char, st: seq<char>)
    requires forall i :: 0 <= i < |st| ==> IsOpen(st[i])
    requires |st| > 0 && MatchClose(st[|st| - 1], c)
    ensures init + Completion(st) == init + [c] + Completion(st[..|st| - 1])
  {
    var last := st[|st| - 1];
    var rest := Completion(st[..|st| - 1]);
    assert c == CloseOf(last) by {
      assert IsOpen(last);
    }
    assert Completion(st) == [c] + rest;
    PrependAssoc(init, c, rest);
  }

  lemma PrependAssoc(a: string, c: char, rest: string)
    ensures a + ([c] + rest) == a + [c] + rest
  {
  }

  /** The closing bracket of an opening one, any other character for
      anything else. */
  function CloseOf2(o: char): char {
    if IsOpen(o) then CloseOf(o) else o
  }

  /** Scanning a line with a matched pair cancelled accepts the same way
      and leaves the same stack. */
  lemma {:induction false} CancelPair(x: string, o: char, y: string)
    requires IsOpen(o)
    ensures Scan(x + [o, CloseOf(o)] + y).Open? <==> Scan(x + y).Open?
    ensures Scan(x + y).Open? ==> Scan(x + [o, CloseOf(o)] + y).stack == Scan(x + y).stack
    decreases |y|
  {
    if |y| == 0 {
      CancelPairHere(x, o);
      assert x + [o, CloseOf(o)] + y == x + [o, CloseOf(o)] && x + y == x;
    } else {
      var y' := y[..|y| - 1];
      CancelPair(x, o, y');
      var withPair := SnocSplit(x + [o, CloseOf(o)], y);
      var without := SnocSplit(x, y);
      SameOpenStep(x + [o, CloseOf(o)] + y', x + y', y[|y| - 1]);
    }
  }

  /** Appending the last character of y separately. */
  lemma SnocSplit(x: string, y: string) returns (s: string)
    requires |y| > 0
    ensures s == x + y && s == x + y[..|y| - 1] + [y[|y| - 1]]
  {
    s := x + y;
    assert y == y[..|y| - 1] + [y[|y| - 1]];
  }

  /** Two lines that scan to the same open stack still agree after one
      more character. */
  lemma SameOpenStep(a: string, b: string, c: char)
    requires Scan(a).Open? <==> Scan(b).Open?
    requires Scan(b).Open? ==> Scan(a).stack == Scan(b).stack
    ensures Scan(a + [c]).Open? <==> Scan(b + [c]).Open?
    ensures Scan(b + [c]).Open? ==> Scan(a + [c]).stack == Scan(b + [c]).stack
  {
    ScanLast(a, c);
    ScanLast(b, c);
    StepAgrees(Scan(a), Scan(b), c, |a|, |b|);
  }

  lemma StepAgrees(ra: Scanned, rb: Scanned, c: char, i: nat, j: nat)
    requires ra.Open? <==> rb.Open?
    requires rb.Open? ==> ra.stack == rb.stack
    ensures Step(ra, c, i).Open? <==> Step(rb, c, j).Open?
    ensures Step(rb, c, j).Open? ==> Step(ra, c, i).stack == Step(rb, c, j).stack
  {
  }

  /** Pushing an opening bracket and then its closing one gives back the
      state before. */
  lemma PushPopStep(r: Scanned, o: char, i: nat, j: nat)
    requires IsOpen(o)
    ensures Step(Step(r, o, i), CloseOf(o), j).Open? <==> r.Open?
    ensures r.Open? ==> Step(Step(r, o, i), CloseOf(o), j).stack == r.stack
  {
    if r.Open? {
      var st := r.stack + [o];
      assert st[..|st| - 1] == r.stack;
      assert MatchClose(st[|st| - 1], CloseOf(o));
    }
  }

  lemma ScanLast(s: string, c: char)
    ensures Scan(s + [c]) == Step(Scan(s), c, |s|)
  {
    assert (s + [c])[..|s|] == s;
  }

  lemma CancelPairHere(x: string, o: char)
    requires IsOpen(o)
    ensures Scan(x + [o, CloseOf(o)]).Open? <==> Scan(x).Open?
    ensures Scan(x).Open? ==> Scan(x + [o, CloseOf(o)]).stack == Scan(x).stack
  {
    ScanLast(x, o);
    ScanLast(x + [o], CloseOf(o));
    PushPopStep(Scan(x), o, |x|, |x + [o]|);
    assert x + [o] + [CloseOf(o)] == x + [o, CloseOf(o)];
  }

  /** A balanced line scans with no failure and nothing left open. */
  lemma {:induction false} BalancedScansEmpty(w: string)
    requires Balanced(w)
    ensures Scan(w) == Open([])
    decreases |w|
  {
    if |w| > 0 {
      var i :| 0 <= i < |w| - 1 && MatchClose(w[i], w[i + 1]) && Balanced(w[..i] + w[i + 2..]);
      BalancedScansEmpty(w[..i] + w[i + 2..]);
      PairShape(w, i);
      CancelPair(w[..i], w[i], w[i + 2..]);
    }
  }

  lemma PairShape(w: string, i: nat)
    requires i < |w| - 1 && MatchClose(w[i], w[i + 1])
    ensures IsOpen(w[i]) && w == w[..i] + [w[i], CloseOf(w[i])] + w[i + 2..]
  {
    MatchCloseExactly(w[i], w[i + 1]);
  }

  /** Once the scan rejects a prefix, it rejects every extension. */
  lemma {:induction false} CorruptStaysCorrupt(s: string, t: string)
    requires Scan(s).Corrupt?
    ensures Scan(s + t).Corrupt?
    decreases |t|
  {
    if |t| == 0 {
      assert s + t == s;
    } else {
      CorruptStaysCorrupt(s, t[..|t| - 1]);
      assert (s + t)[..|s + t| - 1] == s + t[..|t| - 1];
    }
  }

  /** A line is corrupted exactly when no continuation balances it; an
      incomplete line is balanced by its completion. */
  lemma CorruptIffNoCompletion(s: string)
    ensures Scan(s).Corrupt? ==> forall t :: !Balanced(s + t)
    ensures Scan(s).Open? ==> Balanced(s + Completion(Scan(s).stack))
  {
    if Scan(s).Corrupt? {
      forall t
        ensures !Balanced(s + t)
      {
        CorruptStaysCorrupt(s, t);
        if Balanced(s + t) {
          BalancedScansEmpty(s + t);
        }
      }
    } else {
      OpenPrefixCompletes(s);
    }
  }

  /** The completion string's score: for each closing bracket, times 5
      plus its points. */
  function CompletionScore(completion: string): int {
    CompletionFrom(0, completion)
  }

  // ---------------------------------------------------------------------
  // The parser object
  // ---------------------------------------------------------------------

  class Parser {
    var state: seq<char>   // the std::stack, bottom first
    var fail: char         // 0 while nothing failed

    /** The constructor scans the line: openers are pushed, a matching
        closer pops, and the first other character is stored as the failure
        and ends the scan. */
    constructor(s: string)
      ensures Scan(s).Open? ==> state == Scan(s).stack && fail == 0 as char
      ensures Scan(s).Corrupt? ==> state == Scan(s).stack && fail == s[Scan(s).at]
    {
      state := [];
      fail := 0 as char;
      new;
      var i := 0;
      while i < |s|
        invariant 0 <= i <= |s|
        invariant Scan(s[..i]) == Open(state) && fail == 0 as char
      {
        var c := s[i];
        ScanSnoc(s, i);
        if IsOpen(c) {
          state := state + [c];
        } else if |state| > 0 && MatchClose(state[|state| - 1], c) {
          state := state[..|state| - 1];
        } else {
          fail := c;
          ScanExtends(s, i + 1);
          return;
        }
        i := i + 1;
      }
      assert s[..|s|] == s;
    }

    /** get_completion_score: pops a copy of the stack from the top,
        multiplying by 5 and adding each bracket's points; the parser is not
        changed. */
    method GetCompletionScore() returns (sum: int)
      requires forall i :: 0 <= i < |state| ==> IsOpen(state[i])
      ensures sum == CompletionScore(Completion(state))
    {
      var temp := state;
      sum := 0;
      while |temp| > 0
        invariant |temp| <= |state| && temp == state[..|temp|]
        invariant forall i :: 0 <= i < |temp| ==> IsOpen(temp[i])
        invariant CompletionFrom(0, Completion(state)) == CompletionFrom(sum, Completion(temp))
      {
        var top := temp[|temp| - 1];
        assert Completion(temp) == [CloseOf(top)] + Completion(temp[..|temp| - 1]);
        assert ClosePoints(CloseOf(top)) == OpenToScore2(top);
        sum := sum * 5;
        sum := sum + OpenToScore2(top);
        temp := temp[..|temp| - 1];
      }
    }
  }

  /** Continuing a completion score from an accumulated value. */
  function CompletionFrom(acc: int, rest: string): int
    decreases |rest|
  {
    if |rest| == 0 then acc else CompletionFrom(acc * 5 + ClosePoints(rest[0]), rest[1..])
  }

  /** A prefix the scan rejects at its last character keeps its failure in
      the whole line. */
  lemma {:induction false} ScanExtends(s: string, n: nat)
    requires n <= |s| && Scan(s[..n]).Corrupt?
    ensures Scan(s) == Scan(s[..n])
    decreases |s| - n
  {
    if n < |s| {
      assert s[..n + 1][..n] == s[..n];
      ScanExtends(s, n + 1);
    } else {
      assert s[..n] == s;
    }
  }
}
