/** Write batches (db/write_batch.cc): the bytes that go to the log as one record, and their replay. */
module Batches {
  import opened Keys
  import opened Coding

  /** WriteBatch header: an 8-byte sequence number and a 4-byte count. */
  const HEADER: nat := 12

  const DELETION_TAG: byte := 0
  const VALUE_TAG: byte := 1

  datatype Op = Put(key: Bytes, value: Bytes) | Delete(key: Bytes)

  predicate Fits(op: Op) {
    |op.key| < TWO_32 && (op.Put? ==> |op.value| < TWO_32)
  }

  predicate AllFit(ops: seq<Op>) {
    forall i :: 0 <= i < |ops| ==> Fits(ops[i])
  }

  function EncodeOp(op: Op): Bytes
    requires Fits(op)
  {
    match op
    case Put(key, value) => [VALUE_TAG] + (LengthPrefixed(key) + LengthPrefixed(value))
    case Delete(key) => [DELETION_TAG] + LengthPrefixed(key)
  }

  function CodesOf(ops: seq<Op>): (codes: seq<Bytes>)
    requires AllFit(ops)
    ensures |codes| == |ops| && forall i :: 0 <= i < |ops| ==> codes[i] == EncodeOp(ops[i])
  {
    seq(|ops|, i requires 0 <= i < |ops| => EncodeOp(ops[i]))
  }

  function EncodeOps(ops: seq<Op>): Bytes
    requires AllFit(ops)
  {
    Join(CodesOf(ops))
  }

  // ---------- Iterate ----------

  /** One record: the operation and where the next one begins; None where Iterate reports a corruption. */
  function ReadOp(b: Bytes, p: nat): Option<Parsed<Op>>
    requires p < |b|
  {
    if b[p] == VALUE_TAG then
      match GetLengthPrefixedSlice(b, p + 1, |b|)
      case None => None
      case Some(key) =>
        (match GetLengthPrefixedSlice(b, key.next, |b|)
         case None => None
         case Some(value) => Some(Parsed(Put(key.value, value.value), value.next)))
    else if b[p] == DELETION_TAG then
      match GetLengthPrefixedSlice(b, p + 1, |b|)
      case None => None
      case Some(key) => Some(Parsed(Delete(key.value), key.next))
    else None
  }

  /** The operations handed to the handler, and whether the input was read to its end. */
  datatype Replay = Replay(ops: seq<Op>, complete: bool)

  function ReadOps(b: Bytes, p: nat): Replay
    decreases |b| - p
  {
    if p >= |b| then Replay([], true)
    else
      ReadOpAdvances(b, p);
      match ReadOp(b, p)
      case None => Replay([], false)
      case Some(op) =>
        var rest := ReadOps(b, op.next);
        Replay([op.value] + rest.ops, rest.complete)
  }

  lemma ReadOpAdvances(b: Bytes, p: nat)
    requires p < |b|
    ensures ReadOp(b, p).Some? ==> p < ReadOp(b, p).value.next <= |b|
  {
    SliceAdvances(b, p + 1);
    if b[p] == VALUE_TAG && GetLengthPrefixedSlice(b, p + 1, |b|).Some? {
      SliceAdvances(b, GetLengthPrefixedSlice(b, p + 1, |b|).value.next);
    }
  }

  lemma SliceAdvances(b: Bytes, p: nat)
    ensures var r := GetLengthPrefixedSlice(b, p, |b|);
      r.Some? ==> p < r.value.next <= |b|
  {
    VarintAdvances(b, p, |b|, 5, 1, TWO_32, 0);
  }

  lemma {:induction false} VarintAdvances(b: Bytes, p: nat, limit: nat, groups: nat, scale: nat, modulus: nat, result: nat)
    requires limit <= |b| && modulus > 0
    ensures var r := VarintFrom(b, p, limit, groups, scale, modulus, result);
      r.Some? ==> p < r.value.next <= limit
    decreases groups
  {
    if groups > 0 && p < limit && b[p] >= 128 {
      VarintAdvances(b, p + 1, limit, groups - 1, scale * 128, modulus, (result + (b[p] as nat % 128) * scale) % modulus);
    }
  }

  lemma PutIsRead(b: Bytes, p: nat, key: Bytes, value: Bytes, a1: Bytes, a2: Bytes)
    requires |key| < TWO_32 && |value| < TWO_32 && a1 == LengthPrefixed(key) && a2 == LengthPrefixed(value)
    requires At(b, p, |b|, [VALUE_TAG] + (a1 + a2))
    ensures p < |b| && ReadOp(b, p) == Some(Parsed(Put(key, value), p + |[VALUE_TAG] + (a1 + a2)|))
  {
    AtBoth(b, p, |b|, [VALUE_TAG], a1 + a2);
    AtBoth(b, p + 1, |b|, a1, a2);
    assert b[p..p + 1][0] == b[p];
    var q := SliceStands(b, p + 1, key, a1);
    var r := SliceStands(b, q, value, a2);
  }

  lemma SliceStands(b: Bytes, p: nat, s: Bytes, a: Bytes) returns (next: nat)
    requires |s| < TWO_32 && a == LengthPrefixed(s) && At(b, p, |b|, a)
    ensures next == p + |a| && GetLengthPrefixedSlice(b, p, |b|) == Some(Parsed(s, next))
  {
    LengthPrefixedIsRead(b, p, |b|, s);
    next := p + |a|;
  }

  lemma DeleteIsRead(b: Bytes, p: nat, key: Bytes, a1: Bytes)
    requires |key| < TWO_32 && a1 == LengthPrefixed(key) && At(b, p, |b|, [DELETION_TAG] + a1)
    ensures p < |b| && ReadOp(b, p) == Some(Parsed(Delete(key), p + |[DELETION_TAG] + a1|))
  {
    AtBoth(b, p, |b|, [DELETION_TAG], a1);
    LengthPrefixedIsRead(b, p + 1, |b|, key);
    assert b[p..p + 1][0] == b[p];
  }

  lemma OpIsRead(b: Bytes, p: nat, op: Op, code: Bytes)
    requires Fits(op) && code == EncodeOp(op) && At(b, p, |b|, code)
    ensures p < |b| && ReadOp(b, p) == Some(Parsed(op, p + |code|))
  {
    match op
    case Put(key, value) => PutIsRead(b, p, key, value, LengthPrefixed(key), LengthPrefixed(value));
    case Delete(key) => DeleteIsRead(b, p, key, LengthPrefixed(key));
  }

  lemma EncodeOpsConcat(a: seq<Op>, b: seq<Op>)
    requires AllFit(a) && AllFit(b)
    ensures AllFit(a + b) && EncodeOps(a + b) == EncodeOps(a) + EncodeOps(b)
  {
    assert CodesOf(a + b) == CodesOf(a) + CodesOf(b);
    JoinConcat(CodesOf(a), CodesOf(b));
  }

  lemma OneMoreOp(ops: seq<Op>, op: Op)
    requires AllFit(ops) && Fits(op)
    ensures AllFit(ops + [op]) && EncodeOps(ops + [op]) == EncodeOps(ops) + EncodeOp(op)
  {
    assert CodesOf(ops + [op]) == CodesOf(ops) + [EncodeOp(op)];
    JoinSnoc(CodesOf(ops), EncodeOp(op));
  }

  lemma EncodeOpsFirst(ops: seq<Op>, first: Op, rest: seq<Op>)
    requires AllFit(ops) && ops != [] && first == ops[0] && rest == ops[1..]
    ensures AllFit(rest) && Fits(first) && EncodeOps(ops) == EncodeOp(first) + EncodeOps(rest)
  {
    assert CodesOf(ops) == [EncodeOp(first)] + CodesOf(rest);
    JoinFirst(CodesOf(rest), EncodeOp(first));
  }

  lemma {:induction false} OpsAreRead(b: Bytes, p: nat, ops: seq<Op>)
    requires AllFit(ops) && p <= |b| && b[p..] == EncodeOps(ops)
    ensures ReadOps(b, p) == Replay(ops, true)
    decreases |ops|
  {
    if ops != [] {
      var next := FirstOpIsRead(b, p, ops, ops[0], ops[1..]);
      OpsAreRead(b, next, ops[1..]);
      ReadStep(b, p, ops[0], next, ops[1..]);
      assert [ops[0]] + ops[1..] == ops;
    } else {
      assert |b[p..]| == 0;
    }
  }

  lemma FirstOpIsRead(b: Bytes, p: nat, ops: seq<Op>, first: Op, rest: seq<Op>) returns (next: nat)
    requires AllFit(ops) && ops != [] && first == ops[0] && rest == ops[1..]
    requires p <= |b| && b[p..] == EncodeOps(ops)
    ensures p < |b| && ReadOp(b, p) == Some(Parsed(first, next)) && p < next <= |b|
    ensures AllFit(rest) && b[next..] == EncodeOps(rest)
  {
    EncodeOpsFirst(ops, first, rest);
    next := OpStands(b, p, first, EncodeOp(first), EncodeOps(rest));
  }

  lemma OpStands(b: Bytes, p: nat, op: Op, code: Bytes, rest: Bytes) returns (next: nat)
    requires Fits(op) && code == EncodeOp(op) && p <= |b| && b[p..] == code + rest
    ensures p < |b| && ReadOp(b, p) == Some(Parsed(op, next)) && p < next <= |b| && b[next..] == rest
  {
    TailAfter(b, p, code, rest);
    OpIsRead(b, p, op, code);
    next := p + |code|;
    ReadOpAdvances(b, p);
  }

  lemma ReadStep(b: Bytes, p: nat, op: Op, next: nat, rest: seq<Op>)
    requires p < next <= |b| && ReadOp(b, p) == Some(Parsed(op, next)) && ReadOps(b, next) == Replay(rest, true)
    ensures ReadOps(b, p) == Replay([op] + rest, true)
  {
  }

  lemma TailAfter(b: Bytes, p: nat, first: Bytes, rest: Bytes)
    requires p <= |b| && b[p..] == first + rest
    ensures At(b, p, |b|, first) && b[p + |first|..] == rest
  {
    assert b[p..][..|first|] == first && b[p..][|first|..] == rest;
  }

  // ---------- The batch ----------

  /** The bytes of a batch of these operations. */
  function BatchBytes(sequence: nat, ops: seq<Op>): Bytes
    requires AllFit(ops)
  {
    Fixed64(sequence) + (Fixed32(|ops| % TWO_32) + EncodeOps(ops))
  }

  datatype Status = Ok | TooSmall | BadRecord | WrongCount

  /** A batch as it is built up: `ops` is what has been put in. */
  class WriteBatch {
    var rep: Bytes
    ghost var sequence: nat
    ghost var ops: seq<Op>

    ghost predicate Valid()
      reads this
    {
      AllFit(ops) && |ops| < TWO_32 && sequence < TWO_64 && rep == BatchBytes(sequence, ops)
    }

    constructor ()
      ensures Valid() && ops == [] && sequence == 0
    {
      rep := seq(HEADER, _ => 0);
      sequence, ops := 0, [];
      new;
      EmptyBatch();
    }

    function Count(): (n: nat)
      requires Valid()
      reads this
      ensures n == |ops|
    {
      BatchParts(rep, sequence, ops);
      GetFixed32(rep, 8)
    }

    /** SetCount, SetSequence and the records behind them, as the methods below leave them. */
    method SetRecords(ghost ops': seq<Op>, added: Bytes, count: nat)
      requires Valid() && AllFit(ops') && count == |ops'| < TWO_32 && EncodeOps(ops') == EncodeOps(ops) + added
      modifies this
      ensures Valid() && ops == ops' && sequence == old(sequence)
    {
      BatchParts(rep, sequence, ops);
      GrownBatch(sequence, ops, ops', added, count);
      rep := rep[..8] + (Fixed32(count) + (rep[HEADER..] + added));
      ops := ops';
    }

    method Put(key: Bytes, value: Bytes)
      requires Valid() && |key| < TWO_32 && |value| < TWO_32 && |ops| + 1 < TWO_32
      modifies this
      ensures Valid() && ops == old(ops) + [Op.Put(key, value)] && sequence == old(sequence)
    {
      var op := Op.Put(key, value);
      OneMoreOp(ops, op);
      SetRecords(ops + [op], EncodeOp(op), Count() + 1);
    }

    method Delete(key: Bytes)
      requires Valid() && |key| < TWO_32 && |ops| + 1 < TWO_32
      modifies this
      ensures Valid() && ops == old(ops) + [Op.Delete(key)] && sequence == old(sequence)
    {
      var op := Op.Delete(key);
      OneMoreOp(ops, op);
      SetRecords(ops + [op], EncodeOp(op), Count() + 1);
    }

    /** WriteBatchInternal::Append: the source's records behind the own ones. */
    method Append(source: WriteBatch)
      requires Valid() && source.Valid() && source != this && |ops| + |source.ops| < TWO_32
      modifies this
      ensures Valid() && ops == old(ops) + source.ops && sequence == old(sequence)
    {
      EncodeOpsConcat(ops, source.ops);
      BatchParts(source.rep, source.sequence, source.ops);
      SetRecords(ops + source.ops, source.rep[HEADER..], Count() + source.Count());
    }

    method SetSequence(s: nat)
      requires Valid() && s < TWO_64
      modifies this
      ensures Valid() && ops == old(ops) && sequence == s
    {
      BatchParts(rep, sequence, ops);
      rep := Fixed64(s) + rep[8..];
      sequence := s;
    }
  }

  lemma EmptyBatch()
    ensures BatchBytes(0, []) == seq(HEADER, _ => 0)
  {
  }

  lemma GrownBatch(sequence: nat, ops: seq<Op>, ops': seq<Op>, added: Bytes, count: nat)
    requires AllFit(ops) && AllFit(ops') && count == |ops'| < TWO_32 && EncodeOps(ops') == EncodeOps(ops) + added
    ensures BatchBytes(sequence, ops') == Fixed64(sequence) + (Fixed32(count) + (EncodeOps(ops) + added))
  {
    SmallMod(count, TWO_32);
  }

  lemma ThreeParts(rep: Bytes, a: Bytes, b: Bytes, c: Bytes)
    requires rep == a + (b + c) && |a| == 8 && |b| == 4
    ensures |rep| >= HEADER && rep[..8] == a && rep[HEADER..] == c && rep[8..] == b + c && At(rep, 8, |rep|, b)
  {
    AtBoth(rep, 8, |rep|, b, c);
  }

  lemma BatchParts(rep: Bytes, sequence: nat, ops: seq<Op>)
    requires AllFit(ops) && rep == BatchBytes(sequence, ops)
    ensures |rep| >= HEADER && rep[..8] == Fixed64(sequence) && rep[HEADER..] == EncodeOps(ops)
    ensures rep[8..] == Fixed32(|ops| % TWO_32) + EncodeOps(ops)
    ensures |ops| < TWO_32 ==> GetFixed32(rep, 8) == |ops|
  {
    ThreeParts(rep, Fixed64(sequence), Fixed32(|ops| % TWO_32), EncodeOps(ops));
    CountIsRead(rep, |ops|);
  }

  lemma CountIsRead(rep: Bytes, n: nat)
    requires At(rep, 8, |rep|, Fixed32(n % TWO_32))
    ensures |rep| >= HEADER && (n < TWO_32 ==> GetFixed32(rep, 8) == n)
  {
    if n < TWO_32 {
      SmallMod(n, TWO_32);
      Fixed32IsRead(rep, 8, n);
    }
  }

  /** Iterate over any bytes: the operations it hands over, and how it ends. */
  function Iterate(rep: Bytes): (seq<Op>, Status) {
    if |rep| < HEADER then ([], TooSmall)
    else
      var r := ReadOps(rep, HEADER);
      (r.ops, if !r.complete then BadRecord else if |r.ops| != GetFixed32(rep, 8) then WrongCount else Ok)
  }

  /** A batch's record, read back from the log, hands over exactly the operations put in, in order. */
  lemma BatchRoundTrip(sequence: nat, ops: seq<Op>)
    requires AllFit(ops) && |ops| < TWO_32
    ensures Iterate(BatchBytes(sequence, ops)) == (ops, Ok)
  {
    var rep := BatchBytes(sequence, ops);
    BatchParts(rep, sequence, ops);
    OpsAreRead(rep, HEADER, ops);
  }

  // ---------- A batch that is cut short ----------

  lemma OpStable(b: Bytes, c: nat, p: nat)
    requires p < c <= |b|
    ensures ReadOp(b[..c], p).Some? ==> ReadOp(b, p) == ReadOp(b[..c], p)
  {
    SliceStable(b, c, p + 1);
    var key := GetLengthPrefixedSlice(b[..c], p + 1, c);
    if key.Some? {
      SliceStable(b, c, key.value.next);
    }
  }

  /** From a prefix, fewer operations are read, or the last one is found broken. */
  lemma {:induction false} FewerOpsAreRead(b: Bytes, c: nat, p: nat, ops: seq<Op>)
    requires AllFit(ops) && p <= c < |b| && b[p..] == EncodeOps(ops)
    ensures ReadOps(b[..c], p).complete ==> |ReadOps(b[..c], p).ops| < |ops|
    decreases |ops|
  {
    SomeOps(b, p, ops);
    if p < c {
      var next := FirstOpIsRead(b, p, ops, ops[0], ops[1..]);
      OpStable(b, c, p);
      ReadOpAdvances(b[..c], p);
      if ReadOp(b[..c], p).Some? {
        FewerOpsAreRead(b, c, next, ops[1..]);
      }
    }
  }

  lemma SomeOps(b: Bytes, p: nat, ops: seq<Op>)
    requires AllFit(ops) && p < |b| && b[p..] == EncodeOps(ops)
    ensures ops != []
  {
    assert |b[p..]| > 0;
  }

  /** A record cut short anywhere is not taken for a whole batch. */
  lemma CutBatchIsRefused(sequence: nat, ops: seq<Op>, c: nat)
    requires AllFit(ops) && |ops| < TWO_32 && c < |BatchBytes(sequence, ops)|
    ensures Iterate(BatchBytes(sequence, ops)[..c]).1 != Ok
  {
    var rep := BatchBytes(sequence, ops);
    if c >= HEADER {
      BatchParts(rep, sequence, ops);
      FewerOpsAreRead(rep, c, HEADER, ops);
      SameCount(rep, c);
    }
  }

  lemma SameCount(rep: Bytes, c: nat)
    requires HEADER <= c <= |rep|
    ensures GetFixed32(rep[..c], 8) == GetFixed32(rep, 8)
  {
  }
}
