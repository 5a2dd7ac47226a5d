/** Building a table and looking a key up in it (table/table_builder.cc, table/table.cc). */
module Tables {
  import opened Keys
  import opened Reads
  import opened Separators
  import opened Blooms
  import opened FilterBlocks
  import opened Coding
  import TwoLevel

  /** An entry of the index block: a separator and the handle of a data block, which is its offset. */
  datatype IndexEntry = IndexEntry(key: ByteKey, handle: nat)

  function IndexKeys(index: seq<IndexEntry>): (keys: seq<IKey>)
    ensures |keys| == |index| && forall b :: 0 <= b < |index| ==> keys[b] == Lift(index[b].key)
  {
    seq(|index|, b requires 0 <= b < |index| => Lift(index[b].key))
  }

  // ---------- The index ----------

  /** The blocks written and the one being filled, if it has entries. */
  function All(blocks: seq<seq<Entry>>, data: seq<Entry>): seq<seq<Entry>> {
    if data == [] then blocks else blocks + [data]
  }

  lemma ConcatSnoc(blocks: seq<seq<Entry>>, data: seq<Entry>)
    ensures TwoLevel.Concat(blocks + [data]) == TwoLevel.Concat(blocks) + data
    ensures TwoLevel.Concat(All(blocks, data)) == TwoLevel.Concat(blocks) + data
  {
    assert (blocks + [data])[..|blocks|] == blocks;
    assert TwoLevel.Concat(blocks) + [] == TwoLevel.Concat(blocks);
  }

  function FirstKey(blocks: seq<seq<Entry>>, b: nat): Option<IKey> {
    if b < |blocks| && blocks[b] != [] then Some(blocks[b][0].key) else None
  }

  ghost predicate SeparatedAt(key: IKey, blocks: seq<seq<Entry>>, b: nat)
    requires b < |blocks|
  {
    blocks[b] != [] && Separates(key, blocks[b][|blocks[b]| - 1].key, FirstKey(blocks, b + 1))
  }

  /** Each index key separates its block from the next one. */
  ghost predicate Separated(keys: seq<IKey>, blocks: seq<seq<Entry>>) {
    && |keys| <= |blocks|
    && (forall b :: 0 <= b < |blocks| ==> blocks[b] != [])
    && forall b: nat :: b < |keys| ==> SeparatedAt(keys[b], blocks, b)
  }

  /** The block being filled, which has no index entry yet, grows. */
  lemma LastBlockGrows(keys: seq<IKey>, blocks: seq<seq<Entry>>, data: seq<Entry>, e: Entry)
    requires data != [] && Separated(keys, blocks + [data]) && |keys| <= |blocks|
    ensures Separated(keys, blocks + [data + [e]])
  {
    var all, all' := blocks + [data], blocks + [data + [e]];
    forall b | 0 <= b < |all'| ensures all'[b] != [] {
      assert all[b] != [];
    }
    forall b: nat | b < |keys| ensures SeparatedAt(keys[b], all', b) {
      assert SeparatedAt(keys[b], all, b);
    }
  }

  /** The first entry of a new block: the block before it gets its index entry. */
  lemma NewBlock(keys: seq<IKey>, blocks: seq<seq<Entry>>, sep: IKey, e: Entry)
    requires Separated(keys, blocks) && |keys| + 1 == |blocks|
    requires Separates(sep, blocks[|keys|][|blocks[|keys|]| - 1].key, Some(e.key))
    ensures Separated(keys + [sep], blocks + [[e]])
  {
    var keys', all' := keys + [sep], blocks + [[e]];
    forall b: nat | b < |keys'| ensures SeparatedAt(keys'[b], all', b) {
      assert b < |keys| ==> SeparatedAt(keys[b], blocks, b);
    }
  }

  /** The last block gets its index entry. */
  lemma NoMoreBlocks(keys: seq<IKey>, blocks: seq<seq<Entry>>, sep: IKey)
    requires Separated(keys, blocks) && |keys| + 1 == |blocks|
    requires Separates(sep, blocks[|keys|][|blocks[|keys|]| - 1].key, None)
    ensures Separated(keys + [sep], blocks)
  {
    var keys' := keys + [sep];
    forall b: nat | b < |keys'| ensures SeparatedAt(keys'[b], blocks, b) {
      assert b < |keys| ==> SeparatedAt(keys[b], blocks, b);
    }
  }

  // ---------- The filter ----------

  ghost predicate HasUser(keys: seq<Bytes>, u: UserKey) {
    exists i :: 0 <= i < |keys| && Rank(keys[i]) == u
  }

  /** The keys that filter `n` has or will have. */
  function KeysFor(groups: seq<seq<Bytes>>, pending: seq<Bytes>, n: nat): seq<Bytes> {
    if n < |groups| then groups[n] else if n == |groups| then pending else []
  }

  ghost predicate BlockCovered(groups: seq<seq<Bytes>>, pending: seq<Bytes>, handle: nat, block: seq<Entry>) {
    forall i :: 0 <= i < |block| ==> HasUser(KeysFor(groups, pending, handle / BASE), block[i].key.user)
  }

  /** The user keys of each block are among the keys of the filter for its offset. */
  ghost predicate Covered(groups: seq<seq<Bytes>>, pending: seq<Bytes>, handles: seq<nat>, blocks: seq<seq<Entry>>) {
    |handles| == |blocks| && forall b: nat :: b < |blocks| ==> BlockCovered(groups, pending, handles[b], blocks[b])
  }

  lemma {:induction false} GroupsKept(groups: seq<seq<Bytes>>, pending: seq<Bytes>, n: nat, i: nat)
    requires i <= |groups| <= n
    ensures KeysFor(GroupsUpTo(groups, pending, n), PendingAt(groups, pending, n), i) == KeysFor(groups, pending, i)
  {
    if |groups| < n {
      GroupsReach(groups, pending, n);
      var more := GroupsUpTo(groups, pending, n);
      assert i < |groups| ==> more[i] == groups[i];
    }
  }

  /** Starting the next block moves keys between pending and filters, and loses none. */
  lemma CoveredAfterStart(groups: seq<seq<Bytes>>, pending: seq<Bytes>, n: nat, handle: nat, block: seq<Entry>)
    requires BlockCovered(groups, pending, handle, block) && block != [] && |groups| <= n
    ensures BlockCovered(GroupsUpTo(groups, pending, n), PendingAt(groups, pending, n), handle, block)
  {
    assert HasUser(KeysFor(groups, pending, handle / BASE), block[0].key.user);
    GroupsKept(groups, pending, n, handle / BASE);
  }

  lemma HasUserStays(keys: seq<Bytes>, more: seq<Bytes>, u: UserKey)
    requires HasUser(keys, u)
    ensures HasUser(keys + more, u)
  {
    var i :| 0 <= i < |keys| && Rank(keys[i]) == u;
    assert (keys + more)[i] == keys[i];
  }

  lemma CoveredAfterAdd(groups: seq<seq<Bytes>>, pending: seq<Bytes>, key: Bytes, handle: nat, block: seq<Entry>)
    requires BlockCovered(groups, pending, handle, block)
    ensures BlockCovered(groups, pending + [key], handle, block)
  {
    forall i | 0 <= i < |block| ensures HasUser(KeysFor(groups, pending + [key], handle / BASE), block[i].key.user) {
      HasUserStays(KeysFor(groups, pending, handle / BASE), [key], block[i].key.user);
    }
  }

  /** The entry just added is covered where its block will stand. */
  lemma AddedIsCovered(groups: seq<seq<Bytes>>, pending: seq<Bytes>, key: ByteKey, handle: nat, block: seq<Entry>, e: Entry)
    requires BlockCovered(groups, pending, handle, block) && handle / BASE == |groups| && e.key == Lift(key)
    ensures BlockCovered(groups, pending + [key.user], handle, block + [e])
  {
    CoveredAfterAdd(groups, pending, key.user, handle, block);
    var keys := pending + [key.user];
    assert keys[|pending|] == key.user;
    assert HasUser(keys, e.key.user);
  }

  /** Once the builder has finished there are no keys pending. */
  lemma CoveredAfterFinish(groups: seq<seq<Bytes>>, pending: seq<Bytes>, handle: nat, block: seq<Entry>)
    requires BlockCovered(groups, pending, handle, block)
    ensures BlockCovered(if pending == [] then groups else groups + [pending], [], handle, block)
  {
    var groups' := if pending == [] then groups else groups + [pending];
    assert KeysFor(groups', [], handle / BASE) == KeysFor(groups, pending, handle / BASE);
  }

  /** A covered user key passes the filter of its block. */
  lemma CoveredPasses(hash: Hash, bitsPerKey: nat, groups: seq<seq<Bytes>>, handle: nat, block: seq<Entry>, i: nat, user: Bytes)
    requires BlockCovered(groups, [], handle, block) && i < |block| && block[i].key.user == Rank(user)
    ensures FilterSays(hash, bitsPerKey, groups, handle / BASE, user)
  {
    var keys := KeysFor(groups, [], handle / BASE);
    var k :| 0 <= k < |keys| && Rank(keys[k]) == Rank(user);
    RankIsOrderEmbedding(keys[k], user);
    NoFalseNegatives(hash, bitsPerKey, groups, handle / BASE, user);
  }

  // ---------- Looking a key up ----------

  lemma BlockOrder(keys: seq<IKey>, blocks: seq<seq<Entry>>, a: nat, b: nat, i: nat)
    requires Separated(keys, blocks) && |keys| == |blocks| && Sorted(TwoLevel.Concat(blocks))
    requires a < b < |blocks| && i < |blocks[b]|
    ensures Less(keys[a], blocks[b][i].key)
  {
    var all := TwoLevel.Concat(blocks);
    var n := |blocks[a]| - 1;
    assert SeparatedAt(keys[a], blocks, a);
    TwoLevel.Place(blocks, a, n);
    TwoLevel.Place(blocks, b, i);
    TwoLevel.Place(blocks, a + 1, 0);
    TwoLevel.StartNext(blocks, a);
    TwoLevel.StartMonotone(blocks, a + 1, b);
    var first, here := TwoLevel.Start(blocks, a + 1), TwoLevel.Start(blocks, b) + i;
    assert first < here ==> Less(all[first].key, all[here].key);
  }

  lemma WithinBlock(blocks: seq<seq<Entry>>, b: nat, i: nat, j: nat)
    requires Sorted(TwoLevel.Concat(blocks)) && b < |blocks| && i < j < |blocks[b]|
    ensures Less(blocks[b][i].key, blocks[b][j].key)
  {
    TwoLevel.Place(blocks, b, i);
    TwoLevel.Place(blocks, b, j);
  }

  /** The index of a table bounds its blocks, as the two-level cursor asks. */
  lemma SeparatorsBoundBlocks(keys: seq<IKey>, blocks: seq<seq<Entry>>)
    requires Separated(keys, blocks) && |keys| == |blocks| && Sorted(TwoLevel.Concat(blocks))
    ensures TwoLevel.IndexBounds(keys, blocks)
    ensures forall b :: 0 <= b < |blocks| ==> Sorted(blocks[b])
  {
    forall b, i | 0 <= b < |blocks| && 0 <= i < |blocks[b]| ensures AtMost(blocks[b][i].key, keys[b]) {
      assert SeparatedAt(keys[b], blocks, b);
      if i < |blocks[b]| - 1 {
        WithinBlock(blocks, b, i, |blocks[b]| - 1);
      }
    }
    forall a, b, i | 0 <= a < b < |blocks| && 0 <= i < |blocks[b]| ensures Less(keys[a], blocks[b][i].key) {
      BlockOrder(keys, blocks, a, b, i);
    }
    forall a, b | 0 <= a < b < |keys| ensures Less(keys[a], keys[b]) {
      BlockOrder(keys, blocks, a, b, 0);
      assert AtMost(blocks[b][0].key, keys[b]);
    }
    forall b | 0 <= b < |blocks| ensures Sorted(blocks[b]) {
      forall i, j | 0 <= i < j < |blocks[b]| ensures Less(blocks[b][i].key, blocks[b][j].key) {
        WithinBlock(blocks, b, i, j);
      }
    }
  }

  /** The scan of one sorted run for the newest visible entry of a user key. */
  lemma ScanDecides(es: seq<Entry>, u: UserKey, s: nat)
    requires Sorted(es)
    ensures var n := SeekIndex(es, LookupKey(u, s));
            if n < |es| && es[n].key.user == u then Hit(EntrySet(es), u, s, es[n])
            else forall e :: e in es ==> !Visible(e, u, s)
  {
    var n := SeekIndex(es, LookupKey(u, s));
    forall j | 0 <= j < |es| && Visible(es[j], u, s) ensures n <= j && es[n].key.user == u && es[j].key.sn <= es[n].key.sn {
      LookupKeySplits(es[j].key, u, s);
      LookupKeySplits(es[n].key, u, s);
      assert n < j ==> Less(es[n].key, es[j].key);
    }
  }

  /** Where the seek through index and block ends, against the scan of the whole table: the same
      entry, or none while the scan meets another user key or the end. */
  lemma IndexSeekIsScan(keys: seq<IKey>, blocks: seq<seq<Entry>>, u: UserKey, s: nat, b: nat, i: nat)
    requires Separated(keys, blocks) && |keys| == |blocks| && Sorted(TwoLevel.Concat(blocks))
    requires b == TwoLevel.SeekKey(keys, LookupKey(u, s))
    requires i == if b < |blocks| then SeekIndex(blocks[b], LookupKey(u, s)) else 0
    ensures var all := TwoLevel.Concat(blocks); var n := SeekIndex(all, LookupKey(u, s));
            if b < |blocks| && i < |blocks[b]| then n < |all| && all[n] == blocks[b][i]
            else n < |all| ==> all[n].key.user != u
  {
    SeekPlace(keys, blocks, LookupKey(u, s), b, i);
    if b < |blocks| {
      if i < |blocks[b]| {
        TwoLevel.Place(blocks, b, i);
      } else {
        NextBlockStarts(keys, blocks, b);
        if b + 1 < |blocks| {
          NextUserIsLater(keys, blocks, u, s, b);
        }
      }
    }
  }

  lemma SeekPlace(keys: seq<IKey>, blocks: seq<seq<Entry>>, k: IKey, b: nat, i: nat)
    requires Separated(keys, blocks) && |keys| == |blocks| && Sorted(TwoLevel.Concat(blocks))
    requires b == TwoLevel.SeekKey(keys, k)
    requires i == if b < |blocks| then SeekIndex(blocks[b], k) else 0
    ensures SeekIndex(TwoLevel.Concat(blocks), k) == if b < |blocks| then TwoLevel.Start(blocks, b) + i else |TwoLevel.Concat(blocks)|
  {
    SeparatorsBoundBlocks(keys, blocks);
    TwoLevel.SeekLands(keys, blocks, k);
  }

  /** A seek that ends between a block's last entry and its index key is for a user key before the next block's. */
  lemma NextUserIsLater(keys: seq<IKey>, blocks: seq<seq<Entry>>, u: UserKey, s: nat, b: nat)
    requires Separated(keys, blocks) && |keys| == |blocks| && b + 1 < |blocks|
    requires AtMost(LookupKey(u, s), keys[b]) && SeekIndex(blocks[b], LookupKey(u, s)) == |blocks[b]|
    ensures u < blocks[b + 1][0].key.user
  {
    assert SeparatedAt(keys[b], blocks, b);
    assert Less(blocks[b][|blocks[b]| - 1].key, LookupKey(u, s));
  }

  /** Behind block `b` stands the first entry of the next block, or nothing. */
  lemma NextBlockStarts(keys: seq<IKey>, blocks: seq<seq<Entry>>, b: nat)
    requires Separated(keys, blocks) && b < |blocks|
    ensures var all := TwoLevel.Concat(blocks); var n := TwoLevel.Start(blocks, b) + |blocks[b]|;
            if b + 1 < |blocks| then n < |all| && FirstKey(blocks, b + 1) == Some(all[n].key) else n == |all|
  {
    TwoLevel.StartNext(blocks, b);
    if b + 1 < |blocks| {
      TwoLevel.Place(blocks, b + 1, 0);
    } else {
      assert blocks[..b + 1] == blocks;
    }
  }

  // ---------- The table ----------

  ghost predicate StoredAt(file: map<nat, seq<Entry>>, handles: seq<nat>, blocks: seq<seq<Entry>>, end: nat, b: nat)
    requires b < |handles| == |blocks|
  {
    handles[b] < end && handles[b] in file && file[handles[b]] == blocks[b]
  }

  /** The handles name the blocks in order, all of them before `end`. */
  ghost predicate Written(file: map<nat, seq<Entry>>, handles: seq<nat>, blocks: seq<seq<Entry>>, end: nat) {
    |handles| == |blocks| && forall b: nat :: b < |handles| ==> StoredAt(file, handles, blocks, end, b)
  }

  ghost predicate Named(index: seq<IndexEntry>, handles: seq<nat>) {
    |index| <= |handles| && forall b :: 0 <= b < |index| ==> index[b].handle == handles[b]
  }

  /** What a finished table consists of. */
  datatype TableFile = TableFile(index: seq<IndexEntry>, file: map<nat, seq<Entry>>, filter: Option<Bytes>)

  /** What it was made from. */
  datatype Origin = Origin(blocks: seq<seq<Entry>>, handles: seq<nat>, end: nat, hash: Hash, bitsPerKey: nat, size: nat, offsets: seq<nat>,
                           groups: seq<seq<Bytes>>)

  ghost predicate BlocksIndexed(index: seq<IndexEntry>, file: map<nat, seq<Entry>>, handles: seq<nat>, blocks: seq<seq<Entry>>, end: nat) {
    && |index| == |blocks| == |handles|
    && Separated(IndexKeys(index), blocks) && Sorted(TwoLevel.Concat(blocks))
    && Named(index, handles) && Written(file, handles, blocks, end)
  }

  /** A filter block of 4 GB or more does not have room for its offsets. */
  ghost predicate Filtered(filter: Option<Bytes>, o: Origin) {
    filter.Some? ==>
      && Covered(o.groups, [], o.handles, o.blocks)
      && (o.size < TWO_32 ==> IsFilterBlock(o.hash, o.bitsPerKey, filter.value, o.size, o.offsets, o.groups))
  }

  ghost predicate IsTable(t: TableFile, o: Origin, entries: seq<Entry>) {
    BlocksIndexed(t.index, t.file, o.handles, o.blocks, o.end) && Filtered(t.filter, o) && TwoLevel.Concat(o.blocks) == entries
  }

  // ---------- Builder ----------

  ghost function LastKey(blocks: seq<seq<Entry>>, data: seq<Entry>): IKey
    requires TwoLevel.Concat(blocks) + data != []
  {
    var all := TwoLevel.Concat(blocks) + data;
    all[|all| - 1].key
  }

  /** A table under construction: the block being filled has no index entry, nor has the one before it
      while that entry is pending. */
  ghost predicate Building(blocks: seq<seq<Entry>>, data: seq<Entry>, keys: seq<IKey>, lastKey: ByteKey, pending: bool) {
    && Separated(keys, All(blocks, data)) && Sorted(TwoLevel.Concat(blocks) + data)
    && |keys| == (if pending then |blocks| - 1 else |blocks|)
    && (pending ==> data == [])
    && (!pending && data == [] ==> blocks == [])
    && (TwoLevel.Concat(blocks) + data != [] ==> LastKey(blocks, data) == Lift(lastKey))
  }

  lemma LastOfBlocks(blocks: seq<seq<Entry>>)
    requires blocks != [] && blocks[|blocks| - 1] != []
    ensures TwoLevel.Concat(blocks) != []
    ensures var last := blocks[|blocks| - 1]; LastKey(blocks, []) == last[|last| - 1].key
  {
  }

  lemma RunGrows(blocks: seq<seq<Entry>>, data: seq<Entry>, e: Entry, all: seq<Entry>)
    requires all == TwoLevel.Concat(blocks) + data && Sorted(all)
    requires all != [] ==> Less(all[|all| - 1].key, e.key)
    ensures Sorted(TwoLevel.Concat(blocks) + (data + [e])) && LastKey(blocks, data + [e]) == e.key
  {
    SortedAppend(all, e);
    assert all + [e] == TwoLevel.Concat(blocks) + (data + [e]);
  }

  /** The first entry of a block that follows another one. */
  lemma BlockIsOpened(blocks: seq<seq<Entry>>, keys: seq<IKey>, lastKey: ByteKey, sep: IKey, e: Entry)
    requires Building(blocks, [], keys, lastKey, true) && Separates(sep, Lift(lastKey), Some(e.key))
    ensures Separated(keys + [sep], blocks + [[e]])
  {
    LastOfBlocks(blocks);
    NewBlock(keys, blocks, sep, e);
  }

  lemma EntryIsAdded(blocks: seq<seq<Entry>>, data: seq<Entry>, keys: seq<IKey>, lastKey: ByteKey, pending: bool,
                     key: ByteKey, e: Entry, sep: IKey, keys': seq<IKey>)
    requires Building(blocks, data, keys, lastKey, pending) && e.key == Lift(key)
    requires TwoLevel.Concat(blocks) + data != [] ==> Less(Lift(lastKey), e.key)
    requires pending ==> Separates(sep, Lift(lastKey), Some(e.key))
    requires keys' == if pending then keys + [sep] else keys
    ensures Building(blocks, data + [e], keys', key, false)
  {
    RunGrows(blocks, data, e, TwoLevel.Concat(blocks) + data);
    assert Separated(keys', All(blocks, data + [e])) by {
      if pending {
        BlockIsOpened(blocks, keys, lastKey, sep, e);
        assert data + [e] == [e];
      } else if data != [] {
        LastBlockGrows(keys, blocks, data, e);
      }
    }
  }

  lemma BlockIsFlushed(blocks: seq<seq<Entry>>, data: seq<Entry>, keys: seq<IKey>, lastKey: ByteKey)
    requires Building(blocks, data, keys, lastKey, false) && data != []
    ensures Building(blocks + [data], [], keys, lastKey, true)
  {
    ConcatSnoc(blocks, data);
    var all := TwoLevel.Concat(blocks) + data;
    assert all + [] == all;
  }

  /** Every block, and the one being filled, is covered by the filters made and the pending keys. */
  ghost predicate Covering(groups: seq<seq<Bytes>>, pending: seq<Bytes>, handles: seq<nat>, offset: nat, blocks: seq<seq<Entry>>,
                           data: seq<Entry>) {
    && |groups| == offset / BASE
    && Covered(groups, pending, handles, blocks) && BlockCovered(groups, pending, offset, data)
  }

  lemma CoveringAfterAdd(groups: seq<seq<Bytes>>, pending: seq<Bytes>, handles: seq<nat>, offset: nat, blocks: seq<seq<Entry>>,
                         data: seq<Entry>, key: ByteKey, e: Entry)
    requires Covering(groups, pending, handles, offset, blocks, data) && e.key == Lift(key)
    ensures Covering(groups, pending + [key.user], handles, offset, blocks, data + [e])
  {
    AddedIsCovered(groups, pending, key, offset, data, e);
    forall b: nat | b < |blocks| ensures BlockCovered(groups, pending + [key.user], handles[b], blocks[b]) {
      CoveredAfterAdd(groups, pending, key.user, handles[b], blocks[b]);
    }
  }

  lemma CoveringAfterFlush(groups: seq<seq<Bytes>>, pending: seq<Bytes>, handles: seq<nat>, offset: nat, blocks: seq<seq<Entry>>,
                           data: seq<Entry>, offset': nat)
    requires Covering(groups, pending, handles, offset, blocks, data) && offset <= offset'
    requires data != [] && forall b :: 0 <= b < |blocks| ==> blocks[b] != []
    ensures var n := offset' / BASE;
            Covering(GroupsUpTo(groups, pending, n), PendingAt(groups, pending, n), handles + [offset], offset', blocks + [data], [])
  {
    var n := offset' / BASE;
    var groups', pending' := GroupsUpTo(groups, pending, n), PendingAt(groups, pending, n);
    assert offset / BASE <= n;
    if |groups| < n {
      GroupsReach(groups, pending, n);
    }
    forall b: nat | b < |blocks| + 1 ensures BlockCovered(groups', pending', (handles + [offset])[b], (blocks + [data])[b]) {
      CoveredAfterStart(groups, pending, n, (handles + [offset])[b], (blocks + [data])[b]);
    }
  }

  /** The filter builder, if there is one, is on the same footing. */
  ghost predicate FilterOk(f: FilterBlockBuilder?, handles: seq<nat>, offset: nat, blocks: seq<seq<Entry>>, data: seq<Entry>)
    reads f
  {
    f != null ==> f.Valid() && Covering(f.groups, f.pending, handles, offset, blocks, data)
  }

  method AddToFilter(f: FilterBlockBuilder?, key: ByteKey, ghost handles: seq<nat>, ghost offset: nat, ghost blocks: seq<seq<Entry>>,
                     ghost data: seq<Entry>, ghost e: Entry)
    requires FilterOk(f, handles, offset, blocks, data) && e.key == Lift(key)
    modifies f
    ensures FilterOk(f, handles, offset, blocks, data + [e])
  {
    if f != null {
      CoveringAfterAdd(f.groups, f.pending, handles, offset, blocks, data, key, e);
      f.AddKey(key.user);
    }
  }

  method StartNextBlock(f: FilterBlockBuilder?, offset': nat, ghost handles: seq<nat>, ghost offset: nat, ghost blocks: seq<seq<Entry>>,
                        ghost data: seq<Entry>)
    requires FilterOk(f, handles, offset, blocks, data) && offset <= offset'
    requires data != [] && forall b :: 0 <= b < |blocks| ==> blocks[b] != []
    modifies f
    ensures FilterOk(f, handles + [offset], offset', blocks + [data], [])
  {
    if f != null {
      CoveringAfterFlush(f.groups, f.pending, handles, offset, blocks, data, offset');
      assert offset / BASE <= offset' / BASE;
      f.StartBlock(offset');
    }
  }

  ghost predicate InFile(file: map<nat, seq<Entry>>, index: seq<IndexEntry>, handles: seq<nat>, blocks: seq<seq<Entry>>, end: nat,
                         pending: bool, pendingHandle: nat) {
    && Named(index, handles) && Written(file, handles, blocks, end)
    && (pending ==> handles != [] && pendingHandle == handles[|handles| - 1])
  }

  lemma OneMoreWritten(file: map<nat, seq<Entry>>, index: seq<IndexEntry>, handles: seq<nat>, blocks: seq<seq<Entry>>, end: nat,
                       pending: bool, pendingHandle: nat, data: seq<Entry>, end': nat)
    requires InFile(file, index, handles, blocks, end, pending, pendingHandle) && end < end'
    ensures InFile(file[end := data], index, handles + [end], blocks + [data], end', true, end)
  {
    var file', handles', blocks' := file[end := data], handles + [end], blocks + [data];
    forall b: nat | b < |handles'| ensures StoredAt(file', handles', blocks', end', b) {
      assert b < |handles| ==> StoredAt(file, handles, blocks, end, b);
    }
  }

  /** TableBuilder.  `estimate` is what CurrentSizeEstimate says of the block being filled and `stored` the
      bytes its contents take in the file, compressed or not. */
  class TableBuilder {
    const estimate: seq<Entry> -> nat
    const stored: seq<Entry> -> nat
    const blockSize: nat
    const filterBlock: FilterBlockBuilder?
    var offset: nat
    var dataBlock: seq<Entry>
    var index: seq<IndexEntry>
    var lastKey: ByteKey
    var closed: bool
    var pendingIndexEntry: bool
    var pendingHandle: nat
    var file: map<nat, seq<Entry>>
    ghost var blocks: seq<seq<Entry>>
    ghost var handles: seq<nat>

    /** The entries added so far. */
    ghost function Added(): seq<Entry>
      reads this
    {
      TwoLevel.Concat(blocks) + dataBlock
    }

    ghost predicate Valid()
      reads this, filterBlock
    {
      && Building(blocks, dataBlock, IndexKeys(index), lastKey, pendingIndexEntry)
      && InFile(file, index, handles, blocks, offset, pendingIndexEntry, pendingHandle)
      && FilterOk(filterBlock, handles, offset, blocks, dataBlock)
    }

    /** With a new filter block, or none. */
    constructor (estimate: seq<Entry> -> nat, stored: seq<Entry> -> nat, blockSize: nat, filterBlock: FilterBlockBuilder?)
      requires filterBlock != null ==> filterBlock.Valid() && filterBlock.groups == [] && filterBlock.pending == []
      modifies filterBlock
      ensures Valid() && Added() == [] && !closed && this.filterBlock == filterBlock
    {
      this.estimate, this.stored, this.blockSize, this.filterBlock := estimate, stored, blockSize, filterBlock;
      offset, dataBlock, index, lastKey := 0, [], [], ByteKey([], 0, Deletion);
      closed, pendingIndexEntry, pendingHandle, file := false, false, 0, map[];
      blocks, handles := [], [];
      new;
      if filterBlock != null {
        filterBlock.StartBlock(0);
      }
    }

    /** Keys come in ascending order. */
    method Add(key: ByteKey, value: Bytes)
      requires Valid() && !closed
      requires Added() != [] ==> Less(Lift(lastKey), Lift(key))
      modifies this, filterBlock
      ensures Valid() && !closed
      ensures Added() == old(Added()) + [Entry(Lift(key), value)] && lastKey == key
      ensures var grown := old(dataBlock) + [Entry(Lift(key), value)];
              if estimate(grown) >= blockSize then blocks == old(blocks) + [grown] && dataBlock == []
              else blocks == old(blocks) && dataBlock == grown
    {
      var e := Entry(Lift(key), value);
      AddToFilter(filterBlock, key, handles, offset, blocks, dataBlock, e);
      AddToBlock(key, e);
      if estimate(dataBlock) >= blockSize {
        Flush();
      }
    }

    /** The pending index entry, now that the first key after its block is known, and the entry itself. */
    method AddToBlock(key: ByteKey, e: Entry)
      requires Building(blocks, dataBlock, IndexKeys(index), lastKey, pendingIndexEntry)
      requires InFile(file, index, handles, blocks, offset, pendingIndexEntry, pendingHandle)
      requires Added() != [] ==> Less(Lift(lastKey), Lift(key))
      requires e.key == Lift(key)
      modifies this`index, this`pendingIndexEntry, this`lastKey, this`dataBlock
      ensures Building(blocks, dataBlock, IndexKeys(index), lastKey, pendingIndexEntry)
      ensures InFile(file, index, handles, blocks, offset, pendingIndexEntry, pendingHandle)
      ensures dataBlock == old(dataBlock) + [e] && lastKey == key && Added() == old(Added()) + [e]
    {
      ghost var keys, was, last, data := IndexKeys(index), pendingIndexEntry, lastKey, dataBlock;
      var sep := key;
      if pendingIndexEntry {
        sep := ShortestSeparator(lastKey, key);
        index := index + [IndexEntry(sep, pendingHandle)];
        pendingIndexEntry := false;
        assert IndexKeys(index) == keys + [Lift(sep)];
      }
      lastKey := key;
      dataBlock := dataBlock + [e];
      EntryIsAdded(blocks, data, keys, last, was, key, e, Lift(sep), IndexKeys(index));
      assert TwoLevel.Concat(blocks) + (data + [e]) == TwoLevel.Concat(blocks) + data + [e];
    }

    /** Writes the block, if it has entries; its index entry waits for the next key. */
    method Flush()
      requires Valid() && !closed
      modifies this, filterBlock
      ensures Valid() && !closed && Added() == old(Added()) && dataBlock == [] && lastKey == old(lastKey)
      ensures blocks == All(old(blocks), old(dataBlock))
    {
      if dataBlock == [] {
        return;
      }
      ghost var handles0, offset0, blocks0, data0 := handles, offset, blocks, dataBlock;
      ConcatSnoc(blocks, dataBlock);
      WriteBlock();
      StartNextBlock(filterBlock, offset, handles0, offset0, blocks0, data0);
    }

    method WriteBlock()
      requires Building(blocks, dataBlock, IndexKeys(index), lastKey, false) && dataBlock != []
      requires InFile(file, index, handles, blocks, offset, pendingIndexEntry, pendingHandle)
      modifies this`file, this`offset, this`pendingHandle, this`dataBlock, this`pendingIndexEntry, this`blocks, this`handles
      ensures Building(blocks, dataBlock, IndexKeys(index), lastKey, pendingIndexEntry) && dataBlock == []
      ensures InFile(file, index, handles, blocks, offset, pendingIndexEntry, pendingHandle)
      ensures blocks == old(blocks) + [old(dataBlock)] && handles == old(handles) + [old(offset)] && offset >= old(offset)
    {
      ghost var blocks', handles' := blocks + [dataBlock], handles + [offset];
      var handle, file', next := offset, file[offset := dataBlock], offset + stored(dataBlock) + 5;
      BlockIsFlushed(blocks, dataBlock, IndexKeys(index), lastKey);
      OneMoreWritten(file, index, handles, blocks, offset, pendingIndexEntry, pendingHandle, dataBlock, next);
      file, offset, pendingHandle, dataBlock, pendingIndexEntry := file', next, handle, [], true;
      blocks, handles := blocks', handles';
    }

    /** The last block, the filter block, and the index entry of the last block. */
    method Finish() returns (t: TableFile, ghost o: Origin)
      requires Valid() && !closed
      modifies this, filterBlock
      ensures IsTable(t, o, old(Added())) && closed
      ensures o.blocks == All(old(blocks), old(dataBlock))
      ensures t.filter.Some? <==> filterBlock != null
    {
      hide Building, InFile, FilterOk, Filtered, BlocksIndexed;
      Flush();
      closed := true;
      var filter;
      filter, o := FinishFilter(filterBlock, handles, offset, blocks);
      FinishIndex();
      t := TableFile(index, file, filter);
    }

    method FinishIndex()
      requires Building(blocks, [], IndexKeys(index), lastKey, pendingIndexEntry)
      requires InFile(file, index, handles, blocks, offset, pendingIndexEntry, pendingHandle)
      modifies this`index, this`pendingIndexEntry
      ensures BlocksIndexed(index, file, handles, blocks, offset)
    {
      ghost var keys := IndexKeys(index);
      ConcatSnoc(blocks, []);
      assert TwoLevel.Concat(blocks) + [] == TwoLevel.Concat(blocks);
      if pendingIndexEntry {
        var sep := ShortSuccessor(lastKey);
        LastOfBlocks(blocks);
        NoMoreBlocks(keys, blocks, Lift(sep));
        index := index + [IndexEntry(sep, pendingHandle)];
        pendingIndexEntry := false;
        assert IndexKeys(index) == keys + [Lift(sep)];
      }
    }
  }

  method FinishFilter(f: FilterBlockBuilder?, ghost handles: seq<nat>, ghost offset: nat, ghost blocks: seq<seq<Entry>>)
      returns (filter: Option<Bytes>, ghost o: Origin)
    requires FilterOk(f, handles, offset, blocks, [])
    modifies f
    ensures o.handles == handles && o.blocks == blocks && o.end == offset
    ensures Filtered(filter, o) && (filter.Some? <==> f != null)
  {
    if f == null {
      filter := None;
      o := Origin(blocks, handles, offset, _ => 0, 0, 0, [], []);
    } else {
      ghost var groups, pending := f.groups, f.pending;
      var contents, offsets, size := f.Finish();
      filter := Some(contents);
      o := Origin(blocks, handles, offset, f.hash, f.bitsPerKey, size, offsets, f.groups);
      forall b: nat | b < |blocks| ensures BlockCovered(o.groups, [], handles[b], blocks[b]) {
        CoveredAfterFinish(groups, pending, handles[b], blocks[b]);
      }
    }
  }

  // ---------- Lookup ----------

  lemma RefusedIsAbsent(hash: Hash, bitsPerKey: nat, groups: seq<seq<Bytes>>, handle: nat, block: seq<Entry>, i: nat, user: Bytes)
    requires BlockCovered(groups, [], handle, block) && i < |block|
    requires !FilterSays(hash, bitsPerKey, groups, handle / BASE, user)
    ensures block[i].key.user != Rank(user)
  {
    if block[i].key.user == Rank(user) {
      CoveredPasses(hash, bitsPerKey, groups, handle, block, i, user);
    }
  }

  /** Table.  The filter reader, if any, was made from the table's filter block. */
  class Table {
    const index: seq<IndexEntry>
    const file: map<nat, seq<Entry>>
    const filter: FilterBlockReader?
    ghost const origin: Origin

    ghost predicate Valid() {
      && BlocksIndexed(index, file, origin.handles, origin.blocks, origin.end)
      && (filter != null ==>
            filter.Valid() && filter.groups == origin.groups && filter.Whole()
            && Covered(origin.groups, [], origin.handles, origin.blocks))
    }

    ghost function Entries(): seq<Entry> {
      TwoLevel.Concat(origin.blocks)
    }

    /** Table::Open: index and filter are read in. */
    constructor (t: TableFile, hash: Hash, ghost o: Origin)
      requires IsTable(t, o, TwoLevel.Concat(o.blocks))
      requires t.filter.Some? ==> o.hash == hash && o.size < TWO_32
      ensures Valid() && origin == o
    {
      index, file, origin := t.index, t.file, o;
      if t.filter.Some? {
        var reader := new FilterBlockReader(hash, t.filter.value, o.bitsPerKey, o.size, o.offsets, o.groups);
        filter := reader;
      } else {
        filter := null;
      }
    }

    /** InternalGet for the lookup key of (`user`, `s`): the entry handed to the callback, if any.  It is the one
        that a scan of the whole table ends at, or none while the scan meets another user key or the end. */
    method InternalGet(user: Bytes, s: nat) returns (r: Option<Entry>)
      requires Valid()
      ensures var all := Entries(); var n := SeekIndex(all, LookupKey(Rank(user), s));
              if r.Some? then n < |all| && r.value == all[n] else n < |all| ==> all[n].key.user != Rank(user)
    {
      var k := LookupKey(Rank(user), s);
      var b := TwoLevel.SeekKey(IndexKeys(index), k);
      r := None;
      var i := 0;
      if b < |index| {
        var may := MayHold(b, user);
        var block := BlockReader(b);
        i := SeekIndex(block, k);
        if may && i < |block| {
          r := Some(block[i]);
        }
      }
      IndexSeekIsScan(IndexKeys(index), origin.blocks, Rank(user), s, b, i);
    }

    /** The filter's word on the block of index entry `b`, if there is a filter: no means that the block has
        no entry of the user key. */
    method MayHold(b: nat, user: Bytes) returns (may: bool)
      requires Valid() && b < |index|
      ensures may || forall i :: 0 <= i < |origin.blocks[b]| ==> origin.blocks[b][i].key.user != Rank(user)
    {
      may := true;
      if filter != null {
        var handle := index[b].handle;
        may := filter.KeyMayMatch(handle, user);
        ghost var block := origin.blocks[b];
        assert BlockCovered(origin.groups, [], origin.handles[b], block);
        forall i | 0 <= i < |block| && !may ensures block[i].key.user != Rank(user) {
          RefusedIsAbsent(filter.hash, filter.bitsPerKey, filter.groups, handle, block, i, user);
        }
      }
    }

    /** BlockReader: the block that the handle of index entry `b` names. */
    method BlockReader(b: nat) returns (block: seq<Entry>)
      requires Valid() && b < |index|
      ensures block == origin.blocks[b]
    {
      assert StoredAt(file, origin.handles, origin.blocks, origin.end, b);
      block := file[index[b].handle];
    }

    /** InternalGet with SaveValue as its callback: an entry of another user key counts for nothing. */
    method Get(user: Bytes, s: nat) returns (r: Option<Entry>)
      requires Valid()
      ensures r.Some? ==> Hit(EntrySet(Entries()), Rank(user), s, r.value)
      ensures r.None? ==> forall e :: e in Entries() ==> !Visible(e, Rank(user), s)
    {
      r := InternalGet(user, s);
      ScanDecides(Entries(), Rank(user), s);
      if r.Some? && r.value.key.user != Rank(user) {
        r := None;
      }
    }
  }
}
