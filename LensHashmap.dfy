/** The HASH function, the instruction splitter and the 256-bucket hash
    map of puzzles/2023/src/day15.cpp. Each bucket is an ordered list of
    (key, value) entries; a key lives only in the bucket its HASH names and
    at most once there. */
module LensHashmap {
  import opened Wrappers
  import opened Digits

  // ---------------------------------------------------------------------
  // HASH
  // ---------------------------------------------------------------------

  /** The HASH of a string: for each character, add its code, multiply by
      17 and keep the remainder modulo 256. */
  function HashOf(s: string): (r: int)
    ensures 0 <= r < 256
  {
    if |s| == 0 then 0 else ((HashOf(s[..|s| - 1]) + s[|s| - 1] as int) * 17) % 256
  }

  /** HASH is a left fold: hashing a concatenation continues from the hash
      of the first part. */
  function HashFrom(h: int, s: string): int
    decreases |s|
  {
    if |s| == 0 then h else HashFrom(((h + s[0] as int) * 17) % 256, s[1..])
  }

  lemma {:induction false} HashConcat(a: string, b: string)
    ensures HashOf(a + b) == HashFrom(HashOf(a), b)
    decreases |b|
  {
    if |b| > 0 {
      var a' := a + [b[0]];
      assert a' + b[1..] == a + b;
      assert a'[..|a'| - 1] == a;
      HashConcat(a', b[1..]);
    } else {
      assert a + b == a;
    }
  }

  /** HASH: the loop over the characters. */
  method Hash(s: string) returns (res: int)
    ensures res == HashOf(s)
    ensures 0 <= res < 256
  {
    res := 0;
    for i := 0 to |s|
      invariant res == HashOf(s[..i])
    {
      assert s[..i + 1][..i] == s[..i];
      res := res + s[i] as int;
      res := res * 17;
      res := res % 256;
    }
    assert s[..|s|] == s;
  }

  // ---------------------------------------------------------------------
  // csv_string::split
  // ---------------------------------------------------------------------

  datatype Op = Add | Remove

  datatype Instruction = Instruction(key: string, value: int, op: Op)

  /** atoi: skips leading white space, reads an optional sign and then as
      many decimal digits as follow; 0 when there are none. */
  function Atoi(s: string): int {
    if |s| > 0 && IsSpace(s[0]) then Atoi(s[1..])
    else if |s| > 0 && s[0] == '-' then -DigitsValue(LeadingDigits(s[1..]))
    else if |s| > 0 && s[0] == '+' then DigitsValue(LeadingDigits(s[1..]))
    else DigitsValue(LeadingDigits(s))
  }

  /** atoi reads back what Decimal writes. */
  lemma AtoiDecimal(n: nat)
    ensures Atoi(Decimal(n)) == n
  {
    AllDigitsAreLeading(Decimal(n));
    DecimalValue(n);
  }

  /** The position of the first '=' or '-'. */
  function FirstOp(s: string): (r: Option<nat>)
    ensures r.Some? ==> r.value < |s| && s[r.value] in "=-" && forall j :: 0 <= j < r.value ==> s[j] !in "=-"
    ensures r.None? ==> forall j :: 0 <= j < |s| ==> s[j] !in "=-"
  {
    if |s| == 0 then None
    else if s[0] in "=-" then Some(0)
    else match FirstOp(s[1..])
      case None => None
      case Some(p) => Some(p + 1)
  }

  /** csv_string::split: the key is everything before the first '=' or '-';
      after '=' the value is read with atoi, after '-' it is 0. A string with
      neither character has no instruction (the source indexes past its
      end). */
  function Split(s: string): (r: Option<Instruction>)
    ensures r.None? <==> forall j :: 0 <= j < |s| ==> s[j] !in "=-"
    ensures r.Some? ==> |r.value.key| < |s| && s[..|r.value.key|] == r.value.key
                        && (forall j :: 0 <= j < |r.value.key| ==> r.value.key[j] !in "=-")
                        && s[|r.value.key|] == (if r.value.op == Add then '=' else '-')
                        && r.value.value == (if r.value.op == Add then Atoi(s[|r.value.key| + 1..]) else 0)
  {
    match FirstOp(s)
    case None => None
    case Some(p) =>
      if s[p] == '=' then Some(Instruction(s[..p], Atoi(s[p + 1..]), Add))
      else Some(Instruction(s[..p], 0, Remove))
  }

  /** The instruction strings of the puzzle split back into what they
      were written from. */
  lemma SplitRoundTrip(key: string, n: nat)
    requires forall j :: 0 <= j < |key| ==> key[j] !in "=-"
    ensures Split(key + "=" + Decimal(n)) == Some(Instruction(key, n, Add))
    ensures Split(key + "-") == Some(Instruction(key, 0, Remove))
  {
    SplitAdd(key, n);
    SplitRemove(key);
  }

  lemma SplitAdd(key: string, n: nat)
    requires forall j :: 0 <= j < |key| ==> key[j] !in "=-"
    ensures Split(key + "=" + Decimal(n)) == Some(Instruction(key, n, Add))
  {
    var s := key + "=" + Decimal(n);
    assert s[..|key|] == key && s[|key|] == '=' && s[|key| + 1..] == Decimal(n);
    AtoiDecimal(n);
  }

  lemma SplitRemove(key: string)
    requires forall j :: 0 <= j < |key| ==> key[j] !in "=-"
    ensures Split(key + "-") == Some(Instruction(key, 0, Remove))
  {
    var t := key + "-";
    assert t[..|key|] == key && t[|key|] == '-';
  }

  // ---------------------------------------------------------------------
  // HASHMAP
  // ---------------------------------------------------------------------

  type Bucket = seq<(string, int)>

  predicate KeysUnique(bucket: Bucket) {
    forall i, j :: 0 <= i < |bucket| && 0 <= j < |bucket| && bucket[i].0 == bucket[j].0 ==> i == j
  }

  /** The first position of the key in a bucket: std::find_if. */
  function Position(bucket: Bucket, key: string): (r: Option<nat>)
    ensures r.Some? ==> r.value < |bucket| && bucket[r.value].0 == key
                        && forall j :: 0 <= j < r.value ==> bucket[j].0 != key
    ensures r.None? <==> forall j :: 0 <= j < |bucket| ==> bucket[j].0 != key
  {
    if |bucket| == 0 then None
    else if bucket[0].0 == key then Some(0)
    else match Position(bucket[1..], key)
      case None => None
      case Some(p) => Some(p + 1)
  }

  /** std::find_if over one bucket. */
  method Find(bucket: Bucket, key: string) returns (pos: Option<nat>)
    ensures pos == Position(bucket, key)
  {
    var i := 0;
    while i < |bucket|
      invariant 0 <= i <= |bucket|
      invariant forall j :: 0 <= j < i ==> bucket[j].0 != key
    {
      if bucket[i].0 == key {
        return Some(i);
      }
      i := i + 1;
    }
    return None;
  }

  /** The value a bucket holds for a key: that of its first entry. */
  function BucketGet(bucket: Bucket, key: string): Option<int> {
    match Position(bucket, key)
    case None => None
    case Some(p) => Some(bucket[p].1)
  }

  /** A bucket with the first entry for the key removed; the others keep
      their order. */
  function RemoveKey(bucket: Bucket, key: string): Bucket {
    match Position(bucket, key)
    case None => bucket
    case Some(p) => bucket[..p] + bucket[p + 1..]
  }

  /** Appending an entry for an absent key: the key is found at the end,
      and no other key's lookup changes. */
  lemma {:induction false} AppendEntry(bucket: Bucket, key: string, value: int, k: string)
    requires Position(bucket, key).None?
    ensures Position(bucket + [(key, value)], key) == Some(|bucket|)
    ensures k != key ==> Position(bucket + [(key, value)], k) == Position(bucket, k)
    decreases |bucket|
  {
    if |bucket| > 0 {
      assert (bucket + [(key, value)])[1..] == bucket[1..] + [(key, value)];
      AppendEntry(bucket[1..], key, value, k);
    }
  }

  lemma AppendKeepsUnique(bucket: Bucket, key: string, value: int)
    requires Position(bucket, key).None? && KeysUnique(bucket)
    ensures KeysUnique(bucket + [(key, value)])
  {
    var longer := bucket + [(key, value)];
    forall i, j | 0 <= i < |longer| && 0 <= j < |longer| && longer[i].0 == longer[j].0
      ensures i == j
    {
      if i < |bucket| && j < |bucket| {
        assert longer[i] == bucket[i] && longer[j] == bucket[j];
      }
    }
  }

  /** Overwriting the value of the entry at i: keys and positions stay. */
  lemma {:induction false} SetValue(bucket: Bucket, i: nat, value: int, k: string)
    requires i < |bucket|
    ensures Position(bucket[i := (bucket[i].0, value)], k) == Position(bucket, k)
    decreases |bucket|
  {
    if |bucket| > 0 && i > 0 {
      assert bucket[i := (bucket[i].0, value)][1..] == bucket[1..][i - 1 := (bucket[i].0, value)];
      SetValue(bucket[1..], i - 1, value, k);
    }
  }

  /** Removing the entry at p, the first one for its key: the key is gone
      (keys being unique), and every other key keeps its value. */
  lemma {:induction false} RemoveEntry(bucket: Bucket, p: nat, k: string)
    requires KeysUnique(bucket) && p < |bucket|
    ensures KeysUnique(bucket[..p] + bucket[p + 1..])
    ensures Position(bucket[..p] + bucket[p + 1..], bucket[p].0).None?
    ensures k != bucket[p].0 ==> BucketGet(bucket[..p] + bucket[p + 1..], k) == BucketGet(bucket, k)
    decreases |bucket|
  {
    var rest := bucket[..p] + bucket[p + 1..];
    forall i, j | 0 <= i < |rest| && 0 <= j < |rest| && rest[i].0 == rest[j].0
      ensures i == j
    {
      var i' := if i < p then i else i + 1;
      var j' := if j < p then j else j + 1;
      assert rest[i] == bucket[i'] && rest[j] == bucket[j'];
    }
    forall j | 0 <= j < |rest|
      ensures rest[j].0 != bucket[p].0
    {
      var j' := if j < p then j else j + 1;
      assert rest[j] == bucket[j'];
    }
    if k != bucket[p].0 {
      match Position(bucket, k)
      case None =>
        forall j | 0 <= j < |rest|
          ensures rest[j].0 != k
        {
          var j' := if j < p then j else j + 1;
          assert rest[j] == bucket[j'];
        }
      case Some(q) =>
        var q' := if q < p then q else q - 1;
        assert rest[q'] == bucket[q];
        forall j | 0 <= j < q'
          ensures rest[j].0 != k
        {
          var j' := if j < p then j else j + 1;
          assert rest[j] == bucket[j'];
        }
        assert Position(rest, k) == Some(q');
    }
  }

  /** Everything in a valid map lies in the bucket its key hashes to. */
  ghost predicate WellPlaced(bs: seq<Bucket>) {
    |bs| == 256 && forall b :: 0 <= b < 256 ==>
      KeysUnique(bs[b]) && forall i :: 0 <= i < |bs[b]| ==> HashOf(bs[b][i].0) == b
  }

  /** Overwriting the value of the entry at position i of bucket b, the
      entry for key: the buckets stay well placed, the key gets the value
      and every other key keeps its own. */
  lemma AssignInBucket(bs: seq<Bucket>, b: int, i: nat, key: string, value: int)
    requires WellPlaced(bs) && b == HashOf(key) && Position(bs[b], key) == Some(i)
    ensures WellPlaced(bs[b := bs[b][i := (key, value)]])
    ensures BucketGet(bs[b][i := (key, value)], key) == Some(value)
    ensures forall k :: k != key ==> BucketGet(bs[b][i := (key, value)], k) == BucketGet(bs[b], k)
  {
    var after := bs[b := bs[b][i := (key, value)]];
    forall k
      ensures Position(after[b], k) == Position(bs[b], k)
    {
      SetValue(bs[b], i, value, k);
    }
    forall c | 0 <= c < 256
      ensures KeysUnique(after[c])
    {
      if c != b {
        assert after[c] == bs[c];
      }
    }
  }

  class HashMap {
    var buckets: array<Bucket>

    ghost predicate Valid()
      reads this, buckets
    {
      buckets.Length == 256 && WellPlaced(buckets[..])
    }

    /** The value stored for a key, if any. */
    function Get(key: string): (r: Option<int>)
      reads this, buckets
      requires Valid()
    {
      BucketGet(buckets[HashOf(key)], key)
    }

    /** Any entry of a valid map is what a lookup of its key gives. */
    lemma EntryIsFound(b: int, i: int)
      requires Valid() && 0 <= b < 256 && 0 <= i < |buckets[b]|
      ensures HashOf(buckets[b][i].0) == b
      ensures Get(buckets[b][i].0) == Some(buckets[b][i].1)
    {
      assert buckets[..][b] == buckets[b];
      var p := Position(buckets[b], buckets[b][i].0);
    }

    constructor()
      ensures Valid() && fresh(buckets)
      ensures forall b :: 0 <= b < 256 ==> buckets[b] == []
      ensures forall key :: Get(key) == None
    {
      buckets := new Bucket[256](_ => []);
    }

    /** operator[]: the position of the key's entry in bucket HASH(key). A
        present key changes nothing; an absent key is appended with value 0.
        No other bucket and no other key's value changes. */
    method Entry(key: string) returns (b: int, i: int)
      requires Valid()
      modifies buckets
      ensures Valid()
      ensures b == HashOf(key) && Position(buckets[b], key) == Some(i) && 0 <= i < |buckets[b]|
      ensures old(Get(key)).Some? ==> buckets[b] == old(buckets[b]) && Get(key) == old(Get(key))
      ensures old(Get(key)).None? ==> buckets[b] == old(buckets[b]) + [(key, 0)] && Get(key) == Some(0)
      ensures forall c :: 0 <= c < 256 && c != b ==> buckets[c] == old(buckets[c])
      ensures forall k :: k != key ==> Get(k) == old(Get(k))
    {
      b := Hash(key);
      var pos := Find(buckets[b], key);
      if pos.Some? {
        i := pos.value;
      } else {
        ghost var before := buckets[..];
        buckets[b] := buckets[b] + [(key, 0)];
        i := |buckets[b]| - 1;
        forall k
          ensures Position(buckets[b], k) == (if k == key then Some(i) else Position(before[b], k))
        {
          AppendEntry(before[b], key, 0, k);
        }
        assert WellPlaced(buckets[..]) by {
          forall c | 0 <= c < 256
            ensures KeysUnique(buckets[..][c])
          {
            if c == b {
              AppendKeepsUnique(before[b], key, 0);
            } else {
              assert buckets[..][c] == before[c];
            }
          }
        }
      }
    }

    /** hashmap[key] = value: the entry for the key gets the value in
        place, or a new entry for it goes at the end of bucket HASH(key);
        every other key keeps what it had. */
    method Assign(key: string, value: int)
      requires Valid()
      modifies buckets
      ensures Valid()
      ensures Get(key) == Some(value)
      ensures forall k :: k != key ==> Get(k) == old(Get(k))
      ensures buckets[HashOf(key)] == AssignBucket(old(buckets[HashOf(key)]), key, value)
      ensures forall c :: 0 <= c < 256 && c != HashOf(key) ==> buckets[c] == old(buckets[c])
      ensures |buckets[HashOf(key)]| == |old(buckets[HashOf(key)])| + (if old(Get(key)).None? then 1 else 0)
    {
      ghost var start := buckets[HashOf(key)];
      var b, i := Entry(key);
      ghost var before := buckets[..];
      AssignInBucket(before, b, i, key, value);
      buckets[b] := buckets[b][i := (key, value)];
      assert buckets[..] == before[b := before[b][i := (key, value)]];
      if Position(start, key).None? {
        assert buckets[b] == start + [(key, value)];
      }
    }

    /** erase: removes the key's entry, if any, keeping the order of the
        other entries of its bucket; every other key keeps what it had. */
    method Erase(key: string)
      requires Valid()
      modifies buckets
      ensures Valid()
      ensures Get(key) == None
      ensures forall k :: k != key ==> Get(k) == old(Get(k))
      ensures buckets[HashOf(key)] == RemoveKey(old(buckets[HashOf(key)]), key)
      ensures forall c :: 0 <= c < 256 && c != HashOf(key) ==> buckets[c] == old(buckets[c])
    {
      var b := Hash(key);
      var pos := Find(buckets[b], key);
      if pos.Some? {
        var p := pos.value;
        ghost var before := buckets[..];
        buckets[b] := buckets[b][..p] + buckets[b][p + 1..];
        forall k
          ensures k != key ==> BucketGet(buckets[b], k) == BucketGet(before[b], k)
        {
          RemoveEntry(before[b], p, k);
        }
        RemoveEntry(before[b], p, key);
        assert WellPlaced(buckets[..]) by {
          forall c | 0 <= c < 256
            ensures KeysUnique(buckets[..][c]) && forall i :: 0 <= i < |buckets[..][c]| ==> HashOf(buckets[..][c][i].0) == c
          {
            if c != b {
              assert buckets[..][c] == before[c];
            } else {
              forall i | 0 <= i < |buckets[b]|
                ensures HashOf(buckets[b][i].0) == b
              {
                var i' := if i < p then i else i + 1;
                assert buckets[b][i] == before[b][i'];
              }
            }
          }
        }
      }
    }
  }

  /** The bucket hashmap[key] = value leaves: the key's entry gets the
      value where it stands, or a new entry goes at the end. */
  function AssignBucket(bucket: Bucket, key: string, value: int): Bucket {
    match Position(bucket, key)
    case Some(p) => bucket[p := (key, value)]
    case None => bucket + [(key, value)]
  }

  /** One instruction of puzzle2 applied to the buckets: only bucket
      HASH(key) changes. */
  function Apply(bs: seq<Bucket>, ins: Instruction): (r: seq<Bucket>)
    requires |bs| == 256
    ensures |r| == 256
  {
    var b := HashOf(ins.key);
    bs[b := if ins.op == Add then AssignBucket(bs[b], ins.key, ins.value) else RemoveKey(bs[b], ins.key)]
  }

  /** A list of instructions applied in order. */
  function ApplyAll(instrs: seq<Instruction>, bs: seq<Bucket>): (r: seq<Bucket>)
    requires |bs| == 256
    ensures |r| == 256
    decreases |instrs|
  {
    if |instrs| == 0 then bs else ApplyAll(instrs[1..], Apply(bs, instrs[0]))
  }

  /** What one instruction does to the value of one key. */
  function After(ins: Instruction, key: string, before: Option<int>): Option<int> {
    if ins.key != key then before
    else if ins.op == Add then Some(ins.value)
    else None
  }

  /** The effect of a list of instructions on one key, starting from what
      the key held: '=' sets it, '-' clears it, others leave it. */
  function Effect(instrs: seq<Instruction>, key: string, before: Option<int>): Option<int>
    decreases |instrs|
  {
    if |instrs| == 0 then before else Effect(instrs[1..], key, After(instrs[0], key, before))
  }

  /** Assigning in one bucket keeps its keys unique, its entries in the
      bucket, gives the key its value and keeps every other key's value. */
  lemma AssignBucketGet(bucket: Bucket, key: string, value: int, b: int)
    requires KeysUnique(bucket) && HashOf(key) == b
    requires forall i :: 0 <= i < |bucket| ==> HashOf(bucket[i].0) == b
    ensures KeysUnique(AssignBucket(bucket, key, value))
    ensures forall i :: 0 <= i < |AssignBucket(bucket, key, value)| ==> HashOf(AssignBucket(bucket, key, value)[i].0) == b
    ensures forall k :: BucketGet(AssignBucket(bucket, key, value), k) == if k == key then Some(value) else BucketGet(bucket, k)
  {
    var after := AssignBucket(bucket, key, value);
    match Position(bucket, key)
    case Some(p) =>
      forall k
        ensures Position(after, k) == Position(bucket, k)
      {
        SetValue(bucket, p, value, k);
      }
      assert forall i :: 0 <= i < |after| ==> after[i].0 == bucket[i].0;
    case None =>
      forall k
        ensures Position(after, k) == (if k == key then Some(|bucket|) else Position(bucket, k))
      {
        AppendEntry(bucket, key, value, k);
      }
      AppendKeepsUnique(bucket, key, value);
  }

  /** Removing from one bucket keeps its keys unique and its entries in the
      bucket, clears the key and keeps every other key's value. */
  lemma RemoveKeyGet(bucket: Bucket, key: string, b: int)
    requires KeysUnique(bucket)
    requires forall i :: 0 <= i < |bucket| ==> HashOf(bucket[i].0) == b
    ensures KeysUnique(RemoveKey(bucket, key))
    ensures forall i :: 0 <= i < |RemoveKey(bucket, key)| ==> HashOf(RemoveKey(bucket, key)[i].0) == b
    ensures forall k :: BucketGet(RemoveKey(bucket, key), k) == if k == key then None else BucketGet(bucket, k)
  {
    match Position(bucket, key)
    case None =>
    case Some(p) =>
      var rest := bucket[..p] + bucket[p + 1..];
      forall k
        ensures BucketGet(rest, k) == if k == key then None else BucketGet(bucket, k)
      {
        RemoveEntry(bucket, p, k);
      }
      forall i | 0 <= i < |rest|
        ensures HashOf(rest[i].0) == b
      {
        var i' := if i < p then i else i + 1;
        assert rest[i] == bucket[i'];
      }
  }

  /** One instruction keeps the buckets well placed and changes the value
      of its own key only, as After says. */
  lemma ApplyKeeps(bs: seq<Bucket>, ins: Instruction)
    requires WellPlaced(bs)
    ensures WellPlaced(Apply(bs, ins))
    ensures forall k :: BucketGet(Apply(bs, ins)[HashOf(k)], k) == After(ins, k, BucketGet(bs[HashOf(k)], k))
  {
    var b := HashOf(ins.key);
    if ins.op == Add {
      AssignBucketGet(bs[b], ins.key, ins.value, b);
    } else {
      RemoveKeyGet(bs[b], ins.key, b);
    }
  }

  /** The bucket contents after a list of instructions give every key the
      value its own instructions leave it, whatever the other keys do. */
  lemma {:induction false} ApplyAllEffect(instrs: seq<Instruction>, bs: seq<Bucket>)
    requires WellPlaced(bs)
    ensures WellPlaced(ApplyAll(instrs, bs))
    ensures forall k :: BucketGet(ApplyAll(instrs, bs)[HashOf(k)], k) == Effect(instrs, k, BucketGet(bs[HashOf(k)], k))
    decreases |instrs|
  {
    if |instrs| > 0 {
      ApplyKeeps(bs, instrs[0]);
      ApplyAllEffect(instrs[1..], Apply(bs, instrs[0]));
    }
  }

  /** The instruction loop of puzzle2: the buckets, with the order of their
      entries, end up as the instructions applied in turn leave them. */
  method Run(hm: HashMap, instrs: seq<Instruction>)
    requires hm.Valid()
    modifies hm.buckets
    ensures hm.Valid()
    ensures hm.buckets[..] == ApplyAll(instrs, old(hm.buckets[..]))
    ensures forall k :: hm.Get(k) == Effect(instrs, k, old(hm.Get(k)))
  {
    ghost var start := hm.buckets[..];
    for n := 0 to |instrs|
      invariant hm.Valid()
      invariant ApplyAll(instrs, start) == ApplyAll(instrs[n..], hm.buckets[..])
    {
      var ins := instrs[n];
      ghost var before := hm.buckets[..];
      if ins.op == Add {
        hm.Assign(ins.key, ins.value);
      } else {
        hm.Erase(ins.key);
      }
      assert hm.buckets[..] == Apply(before, ins);
      assert instrs[n..][1..] == instrs[n + 1..];
    }
    assert instrs[|instrs|..] == [];
    ApplyAllEffect(instrs, start);
    forall k
      ensures hm.Get(k) == Effect(instrs, k, old(hm.Get(k)))
    {
      assert start[HashOf(k)] == old(hm.buckets[HashOf(k)]);
    }
  }
}
