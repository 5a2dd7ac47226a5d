/** The two-level iterator: an index over blocks (or files), and one block at a time
    (table/two_level_iterator.cc). */
module TwoLevel {
  import opened Keys

  function Concat(blocks: seq<seq<Entry>>): seq<Entry> {
    if blocks == [] then [] else Concat(blocks[..|blocks| - 1]) + blocks[|blocks| - 1]
  }

  /** Where block `b` starts in the concatenation. */
  function Start(blocks: seq<seq<Entry>>, b: nat): nat
    requires b <= |blocks|
  {
    |Concat(blocks[..b])|
  }

  lemma StartNext(blocks: seq<seq<Entry>>, b: nat)
    requires b < |blocks|
    ensures Start(blocks, b + 1) == Start(blocks, b) + |blocks[b]|
    ensures Concat(blocks[..b + 1]) == Concat(blocks[..b]) + blocks[b]
  {
    assert blocks[..b + 1][..b] == blocks[..b];
  }

  lemma {:induction false} StartMonotone(blocks: seq<seq<Entry>>, a: nat, b: nat)
    requires a <= b <= |blocks|
    ensures Start(blocks, a) <= Start(blocks, b)
    ensures Concat(blocks[..a]) <= Concat(blocks[..b])
    decreases b
  {
    if a < b {
      StartMonotone(blocks, a, b - 1);
      StartNext(blocks, b - 1);
    }
  }

  /** Position `i` of block `b` is this position of the concatenation. */
  lemma Place(blocks: seq<seq<Entry>>, b: nat, i: nat)
    requires b < |blocks| && i < |blocks[b]|
    ensures Start(blocks, b) + i < |Concat(blocks)| && Concat(blocks)[Start(blocks, b) + i] == blocks[b][i]
  {
    StartNext(blocks, b);
    StartMonotone(blocks, b + 1, |blocks|);
    assert blocks[..|blocks|] == blocks;
  }

  /** Each index key is at or after every key of its block and before every key of later
      blocks (table_builder.cc: separators; version_set.cc: a file's largest key). */
  ghost predicate IndexBounds(index: seq<IKey>, blocks: seq<seq<Entry>>) {
    && |index| == |blocks|
    && (forall b, i :: 0 <= b < |blocks| && 0 <= i < |blocks[b]| ==> AtMost(blocks[b][i].key, index[b]))
    && (forall a, b, i :: 0 <= a < b < |blocks| && 0 <= i < |blocks[b]| ==> Less(index[a], blocks[b][i].key))
    && (forall a, b :: 0 <= a < b < |index| ==> Less(index[a], index[b]))
  }

  function SeekKey(keys: seq<IKey>, target: IKey): (i: nat)
    ensures i <= |keys|
    ensures forall j :: 0 <= j < i ==> Less(keys[j], target)
    ensures i < |keys| ==> AtMost(target, keys[i])
  {
    if keys == [] || !Less(keys[0], target) then 0 else 1 + SeekKey(keys[1..], target)
  }

  /** TwoLevelIterator.  `dataBlock` is the block the data iterator was opened on (its handle);
      None is the null iterator.  Two index entries never carry the same handle. */
  class TwoLevelIterator {
    const index: seq<IKey>
    const blocks: seq<seq<Entry>>
    var indexPos: int
    var dataBlock: Option<nat>
    var dataPos: int
    /** The place in the concatenation. */
    ghost var pos: int

    ghost predicate Shape() {
      && IndexBounds(index, blocks) && Sorted(Concat(blocks))
      && forall b :: 0 <= b < |blocks| ==> Sorted(blocks[b])
    }

    predicate IndexValid()
      reads this
    {
      0 <= indexPos < |index|
    }

    predicate Valid()
      reads this
    {
      dataBlock.Some? && dataBlock.value < |blocks| && 0 <= dataPos < |blocks[dataBlock.value]|
    }

    /** The index cursor is in range and the data iterator, if any, belongs to its entry. */
    ghost predicate InStep()
      reads this
    {
      && Shape() && -1 <= indexPos <= |index|
      && (dataBlock.Some? ==> IndexValid() && dataBlock.value == indexPos && -1 <= dataPos <= |blocks[indexPos]|)
    }

    ghost predicate Ok()
      reads this
    {
      && InStep() && -1 <= pos <= |Concat(blocks)|
      && (Valid() <==> 0 <= pos < |Concat(blocks)|)
      && (Valid() ==> pos == Start(blocks, indexPos) + dataPos)
    }

    constructor (index: seq<IKey>, blocks: seq<seq<Entry>>)
      requires IndexBounds(index, blocks) && Sorted(Concat(blocks))
      requires forall b :: 0 <= b < |blocks| ==> Sorted(blocks[b])
      ensures Ok() && !Valid() && this.index == index && this.blocks == blocks && pos == |Concat(blocks)|
    {
      this.index, this.blocks := index, blocks;
      indexPos, dataBlock, dataPos := |index|, None, 0;
      pos := |Concat(blocks)|;
    }

    function Current(): Entry
      requires Ok() && Valid()
      reads this
      ensures 0 <= pos < |Concat(blocks)| && Current() == Concat(blocks)[pos]
    {
      Place(blocks, indexPos, dataPos);
      blocks[dataBlock.value][dataPos]
    }

    /** InitDataBlock: reuse the open data iterator when the handle is the same. */
    method InitDataBlock()
      requires Shape() && -1 <= indexPos <= |index|
      requires dataBlock.Some? ==> dataBlock.value < |blocks| && -1 <= dataPos <= |blocks[dataBlock.value]|
      modifies this`dataBlock, this`dataPos
      ensures InStep() && dataBlock.Some? == IndexValid()
    {
      if !IndexValid() {
        dataBlock := None;
      } else if dataBlock == Some(indexPos) {
      } else {
        dataBlock, dataPos := Some(indexPos), |blocks[indexPos]|;
      }
    }

    /** SkipEmptyDataBlocksForward: from the end of the current block to the next entry there is. */
    method SkipEmptyDataBlocksForward()
      requires InStep()
      requires dataBlock.Some? == IndexValid()
      requires dataBlock.Some? ==> 0 <= dataPos
      modifies this
      ensures Ok()
      ensures old(dataBlock.Some?) ==> pos == Start(blocks, old(indexPos)) + old(dataPos)
      ensures old(dataBlock.None?) ==> pos == |Concat(blocks)|
    {
      ghost var goal := if dataBlock.Some? then Start(blocks, indexPos) + dataPos else |Concat(blocks)|;
      while dataBlock.None? || !Valid()
        invariant InStep() && dataBlock.Some? == IndexValid()
        invariant dataBlock.Some? ==> 0 <= dataPos && goal == Start(blocks, indexPos) + dataPos
        invariant old(dataBlock.None?) ==> dataBlock.None?
        invariant old(dataBlock.Some?) && dataBlock.None? ==> goal == |Concat(blocks)|
        decreases |index| - indexPos, if IndexValid() then 1 else 0
      {
        if !IndexValid() {
          dataBlock := None;
          pos := |Concat(blocks)|;
          return;
        }
        StartNext(blocks, indexPos);
        assert blocks[..|blocks|] == blocks;
        indexPos := indexPos + 1;
        InitDataBlock();
        if dataBlock.Some? {
          dataPos := 0;
        }
      }
      Place(blocks, indexPos, dataPos);
      pos := goal;
    }

    /** SkipEmptyDataBlocksBackward: from before the current block to the last entry there is. */
    method SkipEmptyDataBlocksBackward()
      requires InStep()
      requires dataBlock.Some? == IndexValid()
      requires dataBlock.Some? ==> dataPos < |blocks[indexPos]|
      modifies this
      ensures Ok()
      ensures old(dataBlock.Some?) ==> pos == Start(blocks, old(indexPos)) + old(dataPos)
      ensures old(dataBlock.None?) ==> pos == -1
    {
      ghost var goal := if dataBlock.Some? then Start(blocks, indexPos) + dataPos else -1;
      while dataBlock.None? || !Valid()
        invariant InStep() && dataBlock.Some? == IndexValid()
        invariant dataBlock.Some? ==> dataPos < |blocks[indexPos]| && goal == Start(blocks, indexPos) + dataPos
        invariant old(dataBlock.None?) ==> dataBlock.None?
        invariant old(dataBlock.Some?) && dataBlock.None? ==> goal == -1
        decreases indexPos, if IndexValid() then 1 else 0
      {
        if !IndexValid() {
          dataBlock := None;
          pos := -1;
          return;
        }
        if indexPos > 0 {
          StartNext(blocks, indexPos - 1);
        }
        indexPos := indexPos - 1;
        InitDataBlock();
        if dataBlock.Some? {
          dataPos := |blocks[indexPos]| - 1;
        }
      }
      Place(blocks, indexPos, dataPos);
      pos := goal;
    }

    method Seek(target: IKey)
      requires Ok()
      modifies this
      ensures Ok() && pos == SeekIndex(Concat(blocks), target)
    {
      indexPos := SeekKey(index, target);
      InitDataBlock();
      if dataBlock.Some? {
        dataPos := SeekIndex(blocks[dataBlock.value], target);
      }
      SeekLands(index, blocks, target);
      SkipEmptyDataBlocksForward();
    }

    method SeekToFirst()
      requires Ok()
      modifies this
      ensures Ok() && pos == 0
    {
      indexPos := 0;
      InitDataBlock();
      if dataBlock.Some? {
        dataPos := 0;
      }
      assert blocks[..0] == [];
      SkipEmptyDataBlocksForward();
    }

    method SeekToLast()
      requires Ok()
      modifies this
      ensures Ok() && pos == |Concat(blocks)| - 1
    {
      indexPos := |index| - 1;
      InitDataBlock();
      if dataBlock.Some? {
        dataPos := |blocks[dataBlock.value]| - 1;
        StartNext(blocks, |blocks| - 1);
        assert blocks[..|blocks|] == blocks;
      }
      SkipEmptyDataBlocksBackward();
    }

    method Next()
      requires Ok() && Valid()
      modifies this
      ensures Ok() && pos == old(pos) + 1
    {
      dataPos := dataPos + 1;
      SkipEmptyDataBlocksForward();
    }

    method Prev()
      requires Ok() && Valid()
      modifies this
      ensures Ok() && pos == old(pos) - 1
    {
      dataPos := dataPos - 1;
      SkipEmptyDataBlocksBackward();
    }
  }

  lemma SeekIndexIs(es: seq<Entry>, target: IKey, n: nat)
    requires n <= |es| && (forall j :: 0 <= j < n ==> Less(es[j].key, target))
    requires n < |es| ==> AtMost(target, es[n].key)
    ensures SeekIndex(es, target) == n
  {
  }

  lemma {:induction false} LocateIn(blocks: seq<seq<Entry>>, p: nat) returns (b: nat, i: nat)
    requires p < |Concat(blocks)|
    ensures b < |blocks| && i < |blocks[b]| && p == Start(blocks, b) + i && Concat(blocks)[p] == blocks[b][i]
  {
    var n := |blocks| - 1;
    if p >= |Concat(blocks[..n])| {
      b, i := n, p - |Concat(blocks[..n])|;
    } else {
      b, i := LocateIn(blocks[..n], p);
      assert blocks[..n][..b] == blocks[..b];
    }
  }

  /** Seeking the index and then its block finds the place in the concatenation. */
  lemma SeekLands(index: seq<IKey>, blocks: seq<seq<Entry>>, target: IKey)
    requires IndexBounds(index, blocks)
    ensures var b := SeekKey(index, target);
            SeekIndex(Concat(blocks), target) ==
              if b < |blocks| then Start(blocks, b) + SeekIndex(blocks[b], target) else |Concat(blocks)|
  {
    var b := SeekKey(index, target);
    var n := if b < |blocks| then Start(blocks, b) + SeekIndex(blocks[b], target) else |Concat(blocks)|;
    if b < |blocks| {
      StartNext(blocks, b);
      StartMonotone(blocks, b + 1, |blocks|);
      assert blocks[..|blocks|] == blocks;
    }
    forall p | 0 <= p < |Concat(blocks)|
      ensures p < n ==> Less(Concat(blocks)[p].key, target)
      ensures p == n ==> AtMost(target, Concat(blocks)[p].key)
    {
      SeekSplits(index, blocks, target, p, n);
    }
    SeekIndexIs(Concat(blocks), target, n);
  }

  lemma SeekSplits(index: seq<IKey>, blocks: seq<seq<Entry>>, target: IKey, p: nat, n: nat)
    requires IndexBounds(index, blocks) && p < |Concat(blocks)|
    requires var b := SeekKey(index, target);
             n == if b < |blocks| then Start(blocks, b) + SeekIndex(blocks[b], target) else |Concat(blocks)|
    ensures p < n ==> Less(Concat(blocks)[p].key, target)
    ensures p == n ==> AtMost(target, Concat(blocks)[p].key)
  {
    var b := SeekKey(index, target);
    var c, i := LocateIn(blocks, p);
    if c > b {
      StartNext(blocks, b);
      StartMonotone(blocks, b + 1, c);
      assert Less(index[b], blocks[c][i].key);
    } else if c < b {
      StartNext(blocks, c);
      if b < |blocks| {
        StartMonotone(blocks, c + 1, b);
      }
    }
  }
}
