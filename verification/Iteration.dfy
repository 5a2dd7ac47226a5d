/** What every iterator shows its caller, and that the cursors of cursors, blocks, tables and merges
    all show it (include/leveldb/iterator.h): each can be a child of the next. */
module Iteration {
  import opened Keys
  import opened Cursors
  import opened Coding
  import opened BlockFormat
  import opened Blocks
  import opened Tables
  import TwoLevel
  import Recovery

  datatype Op = ToFirst | ToLast | To(target: IKey) | ToNext | ToPrev

  /** Only a cursor that stands on an entry may be moved by one. */
  predicate Allowed(list: seq<Entry>, pos: int, op: Op) {
    op.ToNext? || op.ToPrev? ==> 0 <= pos < |list|
  }

  function Moved(list: seq<Entry>, pos: int, op: Op): int {
    match op
    case ToFirst => 0
    case ToLast => |list| - 1
    case To(target) => SeekIndex(list, target)
    case ToNext => pos + 1
    case ToPrev => pos - 1
  }

  /** Where the calls lead in the list, from a new cursor. */
  function PosAfter(list: seq<Entry>, ops: seq<Op>): int {
    if ops == [] then |list| else Moved(list, PosAfter(list, ops[..|ops| - 1]), ops[|ops| - 1])
  }

  ghost predicate AllAllowed(list: seq<Entry>, ops: seq<Op>) {
    forall i :: 0 <= i < |ops| ==> Allowed(list, PosAfter(list, ops[..i]), ops[i])
  }

  function Shown(list: seq<Entry>, pos: int): Option<Entry> {
    if 0 <= pos < |list| then Some(list[pos]) else None
  }

  /** What the caller sees after each call: the entry the cursor stands on, or that it stands on none. */
  function Sights(list: seq<Entry>, ops: seq<Op>): seq<Option<Entry>> {
    seq(|ops|, i requires 0 <= i < |ops| => Shown(list, PosAfter(list, ops[..i + 1])))
  }

  lemma OneMoreOp(list: seq<Entry>, ops: seq<Op>, n: nat)
    requires n < |ops|
    ensures PosAfter(list, ops[..n + 1]) == Moved(list, PosAfter(list, ops[..n]), ops[n])
    ensures Sights(list, ops[..n + 1]) == Sights(list, ops[..n]) + [Shown(list, PosAfter(list, ops[..n + 1]))]
  {
    assert ops[..n + 1][..n] == ops[..n];
    var longer := ops[..n + 1];
    forall i | 0 <= i < n ensures Sights(list, longer)[i] == Sights(list, ops[..n])[i] {
      assert longer[..i + 1] == ops[..n][..i + 1];
    }
    assert longer[..n + 1] == longer;
  }

  // ---------- A run of entries ----------

  method MoveCursor(c: Cursor, op: Op)
    requires c.Ok() && Allowed(c.list, c.pos, op)
    modifies c
    ensures c.Ok() && c.pos == Moved(c.list, old(c.pos), op)
  {
    match op
    case ToFirst => c.SeekToFirst();
    case ToLast => c.SeekToLast();
    case To(target) => c.Seek(target);
    case ToNext => c.Next();
    case ToPrev => c.Prev();
  }

  method DriveCursor(c: Cursor, ops: seq<Op>) returns (seen: seq<Option<Entry>>)
    requires c.Ok() && c.pos == |c.list| && AllAllowed(c.list, ops)
    modifies c
    ensures seen == Sights(c.list, ops)
  {
    seen := [];
    for n := 0 to |ops|
      invariant c.Ok() && c.pos == PosAfter(c.list, ops[..n]) && seen == Sights(c.list, ops[..n])
    {
      OneMoreOp(c.list, ops, n);
      MoveCursor(c, ops[n]);
      seen := seen + [if c.Valid() then Some(c.list[c.pos]) else None];
    }
    assert ops[..|ops|] == ops;
  }

  // ---------- The two-level iterator ----------

  method MoveTwoLevel(it: TwoLevel.TwoLevelIterator, op: Op)
    requires it.Ok() && Allowed(TwoLevel.Concat(it.blocks), it.pos, op)
    modifies it
    ensures it.Ok() && it.pos == Moved(TwoLevel.Concat(it.blocks), old(it.pos), op)
  {
    match op
    case ToFirst => it.SeekToFirst();
    case ToLast => it.SeekToLast();
    case To(target) => it.Seek(target);
    case ToNext => it.Next();
    case ToPrev => it.Prev();
  }

  /** To its caller the two-level iterator is a cursor over the concatenation of its blocks. */
  method DriveTwoLevel(it: TwoLevel.TwoLevelIterator, ops: seq<Op>) returns (seen: seq<Option<Entry>>)
    requires it.Ok() && it.pos == |TwoLevel.Concat(it.blocks)| && AllAllowed(TwoLevel.Concat(it.blocks), ops)
    modifies it
    ensures seen == Sights(TwoLevel.Concat(it.blocks), ops)
  {
    ghost var list := TwoLevel.Concat(it.blocks);
    seen := [];
    for n := 0 to |ops|
      invariant it.Ok() && it.pos == PosAfter(list, ops[..n]) && seen == Sights(list, ops[..n])
    {
      OneMoreOp(list, ops, n);
      MoveTwoLevel(it, ops[n]);
      seen := seen + [if it.Valid() then Some(it.Current()) else None];
    }
    assert ops[..|ops|] == ops;
  }

  // ---------- A table ----------

  lemma BlockOfIndex(t: TableFile, o: Origin, b: nat)
    requires BlocksIndexed(t.index, t.file, o.handles, o.blocks, o.end) && b < |t.index|
    ensures t.index[b].handle in t.file && t.file[t.index[b].handle] == o.blocks[b]
  {
    assert StoredAt(t.file, o.handles, o.blocks, o.end, b);
  }

  /** Table::NewIterator: the index, and the blocks its handles name. */
  method NewTableIterator(t: TableFile, ghost o: Origin, ghost entries: seq<Entry>) returns (it: TwoLevel.TwoLevelIterator)
    requires IsTable(t, o, entries)
    ensures fresh(it) && it.Ok() && TwoLevel.Concat(it.blocks) == entries && it.pos == |entries|
  {
    forall b: nat | b < |t.index| ensures t.index[b].handle in t.file && t.file[t.index[b].handle] == o.blocks[b] {
      BlockOfIndex(t, o, b);
    }
    var blocks := seq(|t.index|, b requires 0 <= b < |t.index| => t.file[t.index[b].handle]);
    assert blocks == o.blocks;
    SeparatorsBoundBlocks(IndexKeys(t.index), blocks);
    it := new TwoLevel.TwoLevelIterator(IndexKeys(t.index), blocks);
  }

  /** To its caller the iterator of a built table is a cursor over the entries added to the builder. */
  method DriveTable(t: TableFile, ghost o: Origin, ghost entries: seq<Entry>, ops: seq<Op>) returns (seen: seq<Option<Entry>>)
    requires IsTable(t, o, entries) && AllAllowed(entries, ops)
    ensures seen == Sights(entries, ops)
  {
    var it := NewTableIterator(t, o, entries);
    seen := DriveTwoLevel(it, ops);
  }

  // ---------- A merge ----------

  method MoveMerge(it: MergingIterator, op: Op)
    requires it.Ok() && Allowed(it.all, it.pos, op)
    modifies it, it.children
    ensures it.Ok() && it.pos == Moved(it.all, old(it.pos), op)
  {
    match op
    case ToFirst => it.SeekToFirst();
    case ToLast => it.SeekToLast();
    case To(target) => it.Seek(target);
    case ToNext => it.Next();
    case ToPrev => it.Prev();
  }

  /** To its caller the merge is a cursor over the union of its children. */
  method DriveMerge(it: MergingIterator, ops: seq<Op>) returns (seen: seq<Option<Entry>>)
    requires it.Ok() && it.pos == |it.all| && AllAllowed(it.all, ops)
    modifies it, it.children
    ensures seen == Sights(it.all, ops)
  {
    seen := [];
    for n := 0 to |ops|
      invariant it.Ok() && it.pos == PosAfter(it.all, ops[..n]) && seen == Sights(it.all, ops[..n])
    {
      OneMoreOp(it.all, ops, n);
      MoveMerge(it, ops[n]);
      seen := seen + [if it.Valid() then Some(it.Current()) else None];
    }
    assert ops[..|ops|] == ops;
  }

  // ---------- A block ----------

  /** The entries a block holds, with its keys read as internal keys. */
  function Held(kvs: seq<KeyValue>): seq<Entry> {
    seq(|kvs|, i requires 0 <= i < |kvs| => Entry(Recovery.KeyOf(kvs[i].key), kvs[i].value))
  }

  /** InternalKeyComparator on encoded keys. */
  predicate KeyLess(a: Bytes, b: Bytes) {
    Less(Recovery.KeyOf(a), Recovery.KeyOf(b))
  }

  lemma HeldIsAscending(kvs: seq<KeyValue>)
    ensures Sorted(Held(kvs)) <==> Ascending(KeyLess, kvs)
  {
    var es := Held(kvs);
    if Ascending(KeyLess, kvs) {
      forall i, j | 0 <= i < j < |es| ensures Less(es[i].key, es[j].key) {
        assert KeyLess(kvs[i].key, kvs[j].key);
      }
    }
    if Sorted(es) {
      forall i, j | 0 <= i < j < |kvs| ensures KeyLess(kvs[i].key, kvs[j].key) {
        assert Less(es[i].key, es[j].key);
      }
    }
  }

  /** Entry `at` of the block, or none of them, is where the list's cursor stands. */
  predicate SamePlace(list: seq<Entry>, at: nat, pos: int) {
    if 0 <= pos < |list| then at == pos else at == |list|
  }

  method MoveBlock(it: BlockIter, target: Bytes, op: Op, ghost pos: int)
    requires it.Ok() && Ascending(KeyLess, it.shape.entries)
    requires SamePlace(Held(it.shape.entries), it.at, pos) && Allowed(Held(it.shape.entries), pos, op)
    requires op.To? ==> op.target == Recovery.KeyOf(target)
    modifies it
    ensures it.Ok() && SamePlace(Held(it.shape.entries), it.at, Moved(Held(it.shape.entries), pos, op))
  {
    it.ValidIsOnEntry();
    match op
    case ToFirst => it.SeekToFirst();
    case ToLast => it.SeekToLast();
    case To(k) =>
      it.Seek(KeyLess, target);
      SoughtIsSeekIndex(it.shape.entries, target, it.at);
    case ToNext => it.Next();
    case ToPrev => it.Prev();
  }

  lemma SoughtIsSeekIndex(kvs: seq<KeyValue>, target: Bytes, n: nat)
    requires n <= |kvs| && forall j :: 0 <= j < n ==> KeyLess(kvs[j].key, target)
    requires n < |kvs| ==> !KeyLess(kvs[n].key, target)
    ensures SeekIndex(Held(kvs), Recovery.KeyOf(target)) == n
  {
    TwoLevel.SeekIndexIs(Held(kvs), Recovery.KeyOf(target), n);
  }

  ghost predicate Targets(ops: seq<Op>, targets: seq<Bytes>) {
    |targets| == |ops| && forall i :: 0 <= i < |ops| && ops[i].To? ==> ops[i].target == Recovery.KeyOf(targets[i])
  }

  /** To its caller the iterator of a block is a cursor over the entries in it. */
  method DriveBlock(it: BlockIter, ops: seq<Op>, targets: seq<Bytes>) returns (seen: seq<Option<Entry>>)
    requires it.Ok() && it.at == |it.shape.entries| && Sorted(Held(it.shape.entries))
    requires AllAllowed(Held(it.shape.entries), ops) && Targets(ops, targets)
    modifies it
    ensures seen == Sights(Held(it.shape.entries), ops)
  {
    ghost var list := Held(it.shape.entries);
    HeldIsAscending(it.shape.entries);
    seen := [];
    for n := 0 to |ops|
      invariant it.Ok() && SamePlace(list, it.at, PosAfter(list, ops[..n])) && seen == Sights(list, ops[..n])
    {
      OneMoreOp(list, ops, n);
      MoveBlock(it, targets[n], ops[n], PosAfter(list, ops[..n]));
      it.ValidIsOnEntry();
      seen := seen + [if it.Valid() then Some(Entry(Recovery.KeyOf(it.key), it.data[it.valueStart..it.valueEnd])) else None];
    }
    assert ops[..|ops|] == ops;
  }
}
