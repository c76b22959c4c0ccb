/** The crate stacks of puzzles/2022/src/day05.cpp: nine stacks of crates
    (bottom first), and two cranes. The CrateMover 9000 moves crates one at
    a time, so a moved block lands upside down; the CrateMover 9001 moves
    the block at once and keeps its order. */
module SupplyStacks {

  const StackCount := 9
  const U32 := 0x1_0000_0000

  // ---------------------------------------------------------------------
  // line_index_to_stack
  // ---------------------------------------------------------------------

  /** (i - 1) / 4 on unsigned 32-bit values: i == 0 wraps around. */
  function LineIndexToStack(i: int): (r: int)
    requires 0 <= i < U32
    ensures i >= 1 ==> r == (i - 1) / 4
    ensures i == 0 ==> r == (U32 - 1) / 4
  {
    ((i - 1) % U32) / 4
  }

  /** The crate letter of stack k sits in column 1 + 4k of a drawing line,
      and that column (with the three that follow it) maps back to k. */
  lemma ColumnsOfStack(k: int, j: int)
    requires 0 <= k < StackCount && 0 <= j < 4
    ensures LineIndexToStack(1 + 4 * k + j) == k
  {
  }

  // ---------------------------------------------------------------------
  // Moves on stack contents
  // ---------------------------------------------------------------------

  type Stacks = seq<seq<char>>

  function Reverse(s: seq<char>): (r: seq<char>)
    ensures |r| == |s|
  {
    if |s| == 0 then [] else Reverse(s[1..]) + [s[0]]
  }

  lemma {:induction false} ReverseIndex(s: seq<char>, i: int)
    requires 0 <= i < |s|
    ensures Reverse(s)[i] == s[|s| - 1 - i]
    decreases |s|
  {
    if i < |s| - 1 {
      ReverseIndex(s[1..], i);
    }
  }

  lemma {:induction false} ReverseMultiset(s: seq<char>)
    ensures multiset(Reverse(s)) == multiset(s)
    decreases |s|
  {
    if |s| > 0 {
      ReverseMultiset(s[1..]);
      assert s == [s[0]] + s[1..];
    }
  }

  /** The loop count of a for loop running to amount. */
  function Times(amount: int): nat {
    if amount > 0 then amount else 0
  }

  /** One pass of apply_direction9000's loop: push the top crate of from
      onto to, then pop it from from. The source reads back() of an empty
      stack here; that case is excluded by the callers' precondition and
      left unchanged. */
  function MoveOne(st: Stacks, from: int, to: int): (r: Stacks)
    requires 0 <= from < |st| && 0 <= to < |st|
    ensures |r| == |st|
  {
    if |st[from]| == 0 then st
    else
      var crate := st[from][|st[from]| - 1];
      var pushed := st[to := st[to] + [crate]];
      pushed[from := pushed[from][..|pushed[from]| - 1]]
  }

  /** apply_direction9000: n single moves. */
  function Move9000(st: Stacks, n: nat, from: int, to: int): (r: Stacks)
    requires 0 <= from < |st| && 0 <= to < |st|
    ensures |r| == |st|
  {
    if n == 0 then st else MoveOne(Move9000(st, n - 1, from, to), from, to)
  }

  /** apply_direction9001: the top n crates of from, in their order, are
      put on top of to. */
  function Move9001(st: Stacks, n: nat, from: int, to: int): (r: Stacks)
    requires 0 <= from < |st| && 0 <= to < |st| && n <= |st[from]|
    ensures |r| == |st|
  {
    var rest := st[from][..|st[from]| - n];
    var block := st[from][|st[from]| - n..];
    var lifted := st[from := rest];
    lifted[to := lifted[to] + block]
  }

  /** The 9000 between two stacks: the top n crates land on to upside
      down, and no other stack changes. */
  lemma {:induction false} Move9000Reverses(st: Stacks, n: nat, from: int, to: int)
    requires 0 <= from < |st| && 0 <= to < |st| && from != to && n <= |st[from]|
    ensures Move9000(st, n, from, to)
         == st[from := st[from][..|st[from]| - n]][to := st[to] + Reverse(st[from][|st[from]| - n..])]
    decreases n
  {
    var l := |st[from]|;
    if n == 0 {
      assert st[from][..l] == st[from];
      assert st[from][l..] == [];
      assert st[from := st[from]] == st;
      assert st[to] + [] == st[to];
    } else {
      Move9000Reverses(st, n - 1, from, to);
      MoveOneMore(st, n, from, to, Move9000(st, n - 1, from, to));
    }
  }

  /** One more crate moved after n - 1 have landed upside down. */
  lemma MoveOneMore(st: Stacks, n: nat, from: int, to: int, prev: Stacks)
    requires 0 <= from < |st| && 0 <= to < |st| && from != to && 0 < n <= |st[from]|
    requires prev == st[from := st[from][..|st[from]| - (n - 1)]][to := st[to] + Reverse(st[from][|st[from]| - (n - 1)..])]
    ensures MoveOne(prev, from, to)
         == st[from := st[from][..|st[from]| - n]][to := st[to] + Reverse(st[from][|st[from]| - n..])]
  {
    var l := |st[from]|;
    var block := st[from][l - n..];
    var a' := st[from][..l - n + 1];
    var b' := st[to] + Reverse(block[1..]);
    assert block[1..] == st[from][l - n + 1..];
    assert prev[from] == a' && |a'| > 0;
    var crate := a'[|a'| - 1];
    assert crate == block[0];
    assert a'[..|a'| - 1] == st[from][..l - n];
    assert Reverse(block) == Reverse(block[1..]) + [block[0]];
    assert b' + [crate] == st[to] + Reverse(block);
    var pushed := prev[to := b' + [crate]];
    assert MoveOne(prev, from, to) == pushed[from := a'[..|a'| - 1]];
    assert pushed[from := a'[..|a'| - 1]] == st[from := st[from][..l - n]][to := st[to] + Reverse(block)];
  }

  /** The 9000 within one stack puts each crate straight back. */
  lemma {:induction false} Move9000SameStack(st: Stacks, n: nat, from: int)
    requires 0 <= from < |st| && |st[from]| > 0
    ensures Move9000(st, n, from, from) == st
    decreases n
  {
    if n > 0 {
      Move9000SameStack(st, n - 1, from);
      var s := st[from];
      assert (s + [s[|s| - 1]])[..|s|] == s;
    }
  }

  /** The two cranes agree on what leaves from; on to, the 9001 keeps the
      block's order where the 9000 reverses it, so they agree on blocks of
      at most one crate. */
  lemma CranesCompared(st: Stacks, n: nat, from: int, to: int)
    requires 0 <= from < |st| && 0 <= to < |st| && from != to && n <= |st[from]|
    ensures Move9000(st, n, from, to)[from] == Move9001(st, n, from, to)[from]
    ensures Move9000(st, n, from, to)[to] == st[to] + Reverse(st[from][|st[from]| - n..])
    ensures Move9001(st, n, from, to)[to] == st[to] + st[from][|st[from]| - n..]
    ensures n <= 1 ==> Move9000(st, n, from, to) == Move9001(st, n, from, to)
  {
    Move9000Reverses(st, n, from, to);
    var block := st[from][|st[from]| - n..];
    if n == 1 {
      assert Reverse(block) == Reverse(block[1..]) + [block[0]];
      assert block[1..] == [];
      assert Reverse(block) == block;
    } else if n == 0 {
      assert Reverse(block) == block;
    }
  }

  // ---------------------------------------------------------------------
  // Conservation
  // ---------------------------------------------------------------------

  /** Every crate, stack after stack. */
  function Flatten(st: Stacks): seq<char> {
    if |st| == 0 then [] else Flatten(st[..|st| - 1]) + st[|st| - 1]
  }

  lemma {:induction false} FlattenUpdate(st: Stacks, i: int, x: seq<char>)
    requires 0 <= i < |st|
    ensures multiset(Flatten(st[i := x])) + multiset(st[i]) == multiset(Flatten(st)) + multiset(x)
    decreases |st|
  {
    var u := st[i := x];
    if i < |st| - 1 {
      assert u[..|u| - 1] == st[..|st| - 1][i := x];
      FlattenUpdate(st[..|st| - 1], i, x);
      assert st[..|st| - 1][i] == st[i];
      assert Flatten(u) == Flatten(u[..|u| - 1]) + st[|st| - 1];
      assert multiset(Flatten(u)) == multiset(Flatten(u[..|u| - 1])) + multiset(st[|st| - 1]);
      assert multiset(Flatten(st)) == multiset(Flatten(st[..|st| - 1])) + multiset(st[|st| - 1]);
      var a, b, l := multiset(Flatten(u[..|u| - 1])), multiset(Flatten(st[..|st| - 1])), multiset(st[|st| - 1]);
      forall c
        ensures (a + l + multiset(st[i]))[c] == (b + l + multiset(x))[c]
      {
        assert (a + multiset(st[i]))[c] == (b + multiset(x))[c];
      }
      assert a + l + multiset(st[i]) == b + l + multiset(x);
    } else {
      assert u[..|u| - 1] == st[..|st| - 1];
    }
  }

  lemma Cancel(a: multiset<char>, b: multiset<char>, c: multiset<char>)
    requires a + c == b + c
    ensures a == b
  {
    forall x
      ensures a[x] == b[x]
    {
      assert (a + c)[x] == (b + c)[x];
    }
  }

  /** Moving a block from one stack onto another keeps every crate. */
  lemma MoveBlockConserves(st: Stacks, from: int, to: int, rest: seq<char>, block: seq<char>, landed: seq<char>)
    requires 0 <= from < |st| && 0 <= to < |st| && from != to
    requires st[from] == rest + block && multiset(landed) == multiset(block)
    ensures multiset(Flatten(st[from := rest][to := st[to] + landed])) == multiset(Flatten(st))
  {
    var lifted := st[from := rest];
    var moved := lifted[to := st[to] + landed];
    FlattenUpdate(st, from, rest);
    FlattenUpdate(lifted, to, lifted[to] + landed);
    assert lifted[to] == st[to];
    var f0, f1, f2 := multiset(Flatten(st)), multiset(Flatten(lifted)), multiset(Flatten(moved));
    assert (f1 + multiset(block)) + multiset(rest) == f0 + multiset(rest);
    Cancel(f1 + multiset(block), f0, multiset(rest));
    assert f2 + multiset(st[to]) == (f1 + multiset(landed)) + multiset(st[to]);
    Cancel(f2, f1 + multiset(landed), multiset(st[to]));
  }

  /** Both cranes keep every crate (and so the number of crates). */
  lemma MovesConserve(st: Stacks, n: nat, from: int, to: int)
    requires 0 <= from < |st| && 0 <= to < |st| && n <= |st[from]|
    ensures multiset(Flatten(Move9001(st, n, from, to))) == multiset(Flatten(st))
    ensures |st[from]| > 0 ==> multiset(Flatten(Move9000(st, n, from, to))) == multiset(Flatten(st))
  {
    Move9001Conserves(st, n, from, to);
    if |st[from]| > 0 {
      Move9000Conserves(st, n, from, to);
    }
  }

  lemma Move9001Conserves(st: Stacks, n: nat, from: int, to: int)
    requires 0 <= from < |st| && 0 <= to < |st| && n <= |st[from]|
    ensures multiset(Flatten(Move9001(st, n, from, to))) == multiset(Flatten(st))
  {
    var l := |st[from]|;
    var rest := st[from][..l - n];
    var block := st[from][l - n..];
    assert st[from] == rest + block;
    if from == to {
      assert Move9001(st, n, from, to) == st;
    } else {
      MoveBlockConserves(st, from, to, rest, block, block);
    }
  }

  lemma Move9000Conserves(st: Stacks, n: nat, from: int, to: int)
    requires 0 <= from < |st| && 0 <= to < |st| && 0 < |st[from]| && n <= |st[from]|
    ensures multiset(Flatten(Move9000(st, n, from, to))) == multiset(Flatten(st))
  {
    var l := |st[from]|;
    var rest := st[from][..l - n];
    var block := st[from][l - n..];
    assert st[from] == rest + block;
    if from == to {
      Move9000SameStack(st, n, from);
    } else {
      Move9000Reverses(st, n, from, to);
      ReverseMultiset(block);
      MoveBlockConserves(st, from, to, rest, block, Reverse(block));
    }
  }

  // ---------------------------------------------------------------------
  // crate_stacks
  // ---------------------------------------------------------------------

  class CrateStacks {
    var stacks: array<seq<char>>

    ghost predicate Valid()
      reads this
    {
      stacks.Length == StackCount
    }

    constructor()
      ensures Valid() && fresh(stacks)
      ensures forall k :: 0 <= k < StackCount ==> stacks[k] == []
    {
      stacks := new seq<char>[StackCount](k => []);
    }

    /** at(n): stacks are numbered from 1. */
    function At(n: int): seq<char>
      requires Valid() && 1 <= n <= StackCount
      reads this, stacks
    {
      stacks[n - 1]
    }

    /** apply_direction9000: amount single-crate moves. */
    method ApplyDirection9000(amount: int, start: int, end: int)
      requires Valid() && 1 <= start <= StackCount && 1 <= end <= StackCount
      requires Times(amount) == 0 || (|At(start)| > 0 && (start == end || Times(amount) <= |At(start)|))
      modifies stacks
      ensures stacks[..] == Move9000(old(stacks[..]), Times(amount), start - 1, end - 1)
    {
      for i := 0 to Times(amount)
        invariant stacks[..] == Move9000(old(stacks[..]), i, start - 1, end - 1)
        invariant start == end || |stacks[start - 1]| == |old(stacks[start - 1])| - i
        invariant start == end ==> i == 0 || stacks[start - 1] == old(stacks[start - 1])
      {
        if start == end {
          Move9000SameStack(old(stacks[..]), i, start - 1);
        }
        MoveTop(start - 1, end - 1);
      }
    }

    /** One crane move: the top crate of from is pushed onto to. */
    method MoveTop(from: int, to: int)
      requires Valid() && 0 <= from < StackCount && 0 <= to < StackCount && |stacks[from]| > 0
      modifies stacks
      ensures stacks[..] == MoveOne(old(stacks[..]), from, to)
      ensures from != to ==> |stacks[from]| == |old(stacks[from])| - 1
      ensures from == to ==> stacks[from] == old(stacks[from])
    {
      ghost var before := stacks[..];
      var top := stacks[from][|stacks[from]| - 1];
      stacks[to] := stacks[to] + [top];
      stacks[from] := stacks[from][..|stacks[from]| - 1];
      assert stacks[..] == MoveOne(before, from, to);
    }

    /** apply_direction9001: lift amount crates onto a temporary stack, then
        pop them onto end, so they keep their order. */
    method ApplyDirection9001(amount: int, start: int, end: int)
      requires Valid() && 1 <= start <= StackCount && 1 <= end <= StackCount
      requires Times(amount) <= |At(start)|
      modifies stacks
      ensures stacks[..] == Move9001(old(stacks[..]), Times(amount), start - 1, end - 1)
    {
      var n := Times(amount);
      ghost var l := |stacks[start - 1]|;
      ghost var block := stacks[start - 1][l - n..];
      var temp := LiftBlock(n, start - 1);
      DropBlock(temp, end - 1, block);
    }

    /** The first loop of apply_direction9001: pops the top n crates of
        stack from onto a temporary stack, which ends up holding them top
        crate first. */
    method LiftBlock(n: nat, from: int) returns (temp: seq<char>)
      requires Valid() && 0 <= from < StackCount && n <= |stacks[from]|
      modifies stacks
      ensures stacks[..] == old(stacks[..])[from := old(stacks[from])[..|old(stacks[from])| - n]]
      ensures temp == Reverse(old(stacks[from])[|old(stacks[from])| - n..])
    {
      ghost var l := |stacks[from]|;
      temp := [];
      assert old(stacks[from])[..l] == old(stacks[from]);
      assert old(stacks[from])[l..] == [];
      for i := 0 to n
        invariant stacks[..] == old(stacks[..])[from := old(stacks[from])[..l - i]]
        invariant temp == Reverse(old(stacks[from])[l - i..])
      {
        var s := old(stacks[from]);
        assert s[l - i - 1..][1..] == s[l - i..];
        temp := temp + [stacks[from][|stacks[from]| - 1]];
        stacks[from] := stacks[from][..|stacks[from]| - 1];
        assert s[..l - i][..l - i - 1] == s[..l - i - 1];
      }
    }

    /** The second loop of apply_direction9001: pops the temporary stack
        onto stack to, which puts the block back in its order. */
    method DropBlock(temp: seq<char>, to: int, ghost block: seq<char>)
      requires Valid() && 0 <= to < StackCount && temp == Reverse(block)
      modifies stacks
      ensures stacks[..] == old(stacks[..])[to := old(stacks[to]) + block]
    {
      var n := |temp|;
      ghost var lifted := stacks[..];
      ghost var base := stacks[to];
      var rest := temp;
      assert base + block[..0] == base;
      assert lifted[to := base] == lifted;
      for i := 0 to n
        invariant stacks[..] == lifted[to := base + block[..i]]
        invariant rest == Reverse(block)[..n - i]
      {
        ReverseIndex(block, n - 1 - i);
        assert rest[|rest| - 1] == block[i];
        assert block[..i + 1] == block[..i] + [block[i]];
        assert base + block[..i] + [block[i]] == base + block[..i + 1];
        stacks[to] := stacks[to] + [rest[|rest| - 1]];
        rest := rest[..|rest| - 1];
      }
      assert block[..n] == block;
    }
  }
}
