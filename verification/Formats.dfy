/** The formats byte by byte, for the smallest cases: what the reading and writing sides must agree on with any
    other implementation of the formats. */
module Formats {
  import opened Keys
  import opened Coding
  import LogFormat
  import Batches
  import EditCodec
  import Recovery
  import Separators
  import BlockFormat
  import Blooms
  import FilterBlocks
  import Versions
  import Inputs
  import SkipLists
  import WriteQueue

  const A: byte := 0x61
  const B: byte := 0x62

  /** db/log_format.h: checksum, length (little-endian), type, payload. */
  lemma OneFragment(sum: LogFormat.Checksum)
    ensures LogFormat.Emission(sum, 0, [A], true) == sum([1, A]) + [1, 0, 1, A]
  {
    OnlyFragment(sum, 0, [A], true, 1);
    assert LogFormat.Zeros(0) == [] && [1 as byte] + [A] == [1, A];
    assert sum([1, A]) + [1, 0, 1] + [A] == sum([1, A]) + [1, 0, 1, A];
  }

  /** A fragment that takes all the data. */
  lemma OnlyFragment(sum: LogFormat.Checksum, p: nat, data: Bytes, begin: bool, t: byte)
    requires LogFormat.Taken(p, |data|) == |data| < 256 && t == LogFormat.FragmentType(begin, true)
    ensures LogFormat.Emission(sum, p, data, begin)
         == LogFormat.Zeros(LogFormat.Padding(p)) + (sum([t] + data) + [|data| as byte, 0, t] + data)
  {
    assert data[..|data|] == data;
    OnlyHeader(sum, data, t);
    hide LogFormat.Header, LogFormat.Padding, LogFormat.FragmentType;
    assert LogFormat.Emission(sum, p, data, begin) == LogFormat.FirstFragment(sum, p, data, begin);
  }

  lemma OnlyHeader(sum: LogFormat.Checksum, data: Bytes, t: byte)
    requires |data| < 256
    ensures LogFormat.Header(sum, t, data) == sum([t] + data) + [|data| as byte, 0, t]
  {
  }

  /** Seven bytes before the end of a block there is room for an empty first fragment. */
  lemma TwoFragments(sum: LogFormat.Checksum)
    requires LogFormat.FourBytes(sum)
    ensures LogFormat.Emission(sum, 32761, [A], true) == sum([2]) + [0, 0, 2] + (sum([4, A]) + [1, 0, 4, A])
  {
    OnlyFragment(sum, 32768, [A], false, 4);
    assert LogFormat.Zeros(0) == [] && [4 as byte] + [A] == [4, A];
    assert sum([4, A]) + [1, 0, 4] + [A] == sum([4, A]) + [1, 0, 4, A];
    assert [A][..0] == [] && [A][0..] == [A] && [2 as byte] + [] == [2];
    assert LogFormat.FirstFragment(sum, 32761, [A], true) == sum([2]) + [0, 0, 2];
  }

  /** With less than that, zeros fill the block. */
  lemma FilledBlock(sum: LogFormat.Checksum)
    ensures LogFormat.Emission(sum, 32766, [A], true) == [0, 0] + (sum([1, A]) + [1, 0, 1, A])
  {
    OnlyFragment(sum, 32766, [A], true, 1);
    assert LogFormat.Zeros(2) == [0, 0] && [1 as byte] + [A] == [1, A];
    assert sum([1, A]) + [1, 0, 1] + [A] == sum([1, A]) + [1, 0, 1, A];
  }

  /** db/write_batch.cc: sequence number, count, then a tag and the strings with their lengths. */
  lemma OneBatch()
    ensures Batches.BatchBytes(5, [Batches.Put([A], [B]), Batches.Delete([A])])
         == [5, 0, 0, 0, 0, 0, 0, 0, 2, 0, 0, 0, 1, 1, A, 1, B, 0, 1, A]
  {
    hide Fixed32, Fixed64, Join, Varint;
    OneOfEach();
    var ops := [Batches.Put([A], [B]), Batches.Delete([A])];
    var codes := Batches.CodesOf(ops);
    hide Batches.EncodeOp;
    assert codes[0] == [1, 1, A, 1, B] && codes[1] == [0, 1, A];
    JoinTwo(codes);
    BatchHeader();
  }

  lemma OneOfEach()
    ensures Batches.EncodeOp(Batches.Put([A], [B])) == [1, 1, A, 1, B]
    ensures Batches.EncodeOp(Batches.Delete([A])) == [0, 1, A]
  {
    VarintUnfolds(1);
  }

  lemma JoinTwo(parts: seq<Bytes>)
    requires |parts| == 2
    ensures Join(parts) == parts[0] + parts[1]
  {
    var init := parts[..1];
    assert init[..0] == [] && Join(init) == [] + init[0];
  }

  lemma BatchHeader()
    ensures Fixed64(5) == [5, 0, 0, 0, 0, 0, 0, 0] && Fixed32(2 % TWO_32) == [2, 0, 0, 0]
  {
  }

  /** db/dbformat.h: an internal key is the user key and eight bytes of number and kind. */
  lemma OneKey()
    ensures Recovery.KeyBytes(Separators.ByteKey([A], 5, Value)) == [A, 1, 5, 0, 0, 0, 0, 0, 0]
    ensures Recovery.KeyBytes(Separators.ByteKey([A], 5, Deletion)) == [A, 0, 5, 0, 0, 0, 0, 0, 0]
  {
  }

  lemma OneField(f: EditCodec.Field, tag: nat, body: Bytes)
    requires EditCodec.Fits(f) && EditCodec.Tag(f) == tag < 128 && EditCodec.EncodeParts(EditCodec.PartsOf(f)) == body
    ensures EditCodec.EncodeField(f) == [tag as byte] + body
  {
    VarintUnfolds(tag);
  }

  lemma OnePart(x: EditCodec.Part)
    requires EditCodec.FitsPart(x)
    ensures EditCodec.EncodeParts([x]) == EditCodec.EncodePart(x)
  {
    assert [x][1..] == [];
  }

  lemma PartThenParts(x: EditCodec.Part, rest: seq<EditCodec.Part>)
    requires EditCodec.FitsPart(x) && EditCodec.AllFit(rest)
    ensures EditCodec.EncodeParts([x] + rest) == EditCodec.EncodePart(x) + EditCodec.EncodeParts(rest)
  {
    assert ([x] + rest)[1..] == rest;
  }

  /** db/version_edit.cc: the tags are on disk for good. */
  lemma NumberFields(n: nat)
    requires n < 128
    ensures EditCodec.EncodeField(EditCodec.LogNumber(n)) == [2, n as byte]
    ensures EditCodec.EncodeField(EditCodec.NextFileNumber(n)) == [3, n as byte]
    ensures EditCodec.EncodeField(EditCodec.LastSequence(n)) == [4, n as byte]
    ensures EditCodec.EncodeField(EditCodec.PrevLogNumber(n)) == [9, n as byte]
  {
    VarintUnfolds(n);
    OnePart(EditCodec.Number(n));
    OneField(EditCodec.LogNumber(n), 2, [n as byte]);
    OneField(EditCodec.NextFileNumber(n), 3, [n as byte]);
    OneField(EditCodec.LastSequence(n), 4, [n as byte]);
    OneField(EditCodec.PrevLogNumber(n), 9, [n as byte]);
  }

  lemma StringFields()
    ensures EditCodec.EncodeField(EditCodec.Comparator([A])) == [1, 1, A]
    ensures EditCodec.EncodeField(EditCodec.CompactPointer(3, [A])) == [5, 3, 1, A]
    ensures EditCodec.EncodeField(EditCodec.DeletedFile(3, 7)) == [6, 3, 7]
  {
    VarintUnfolds(1);
    VarintUnfolds(3);
    VarintUnfolds(7);
    var text, level, number := EditCodec.Text([A]), EditCodec.Level(3), EditCodec.Number(7);
    OnePart(text);
    OnePart(number);
    PartThenParts(level, [text]);
    PartThenParts(level, [number]);
    OneField(EditCodec.Comparator([A]), 1, [1, A]);
    OneField(EditCodec.CompactPointer(3, [A]), 5, [3, 1, A]);
    OneField(EditCodec.DeletedFile(3, 7), 6, [3, 7]);
  }

  /** Level, number, size, smallest key, largest key. */
  lemma FileField()
    ensures EditCodec.EncodeField(EditCodec.NewFile(3, EditCodec.FileMeta(7, 9, [A], [B]))) == [7, 3, 7, 9, 1, A, 1, B]
  {
    VarintUnfolds(1);
    VarintUnfolds(3);
    VarintUnfolds(7);
    VarintUnfolds(9);
    hide EditCodec.EncodeParts;
    var level, number, size, smallest, largest := EditCodec.Level(3), EditCodec.Number(7), EditCodec.Number(9), EditCodec.Text([A]), EditCodec.Text([B]);
    OnePart(largest);
    PartThenParts(smallest, [largest]);
    assert [smallest] + [largest] == [smallest, largest];
    assert EditCodec.EncodeParts([smallest, largest]) == [1, A, 1, B];
    PartThenParts(size, [smallest, largest]);
    assert [size] + [smallest, largest] == [size, smallest, largest];
    assert EditCodec.EncodeParts([size, smallest, largest]) == [9, 1, A, 1, B];
    PartThenParts(number, [size, smallest, largest]);
    assert [number] + [size, smallest, largest] == [number, size, smallest, largest];
    assert EditCodec.EncodeParts([number, size, smallest, largest]) == [7, 9, 1, A, 1, B];
    PartThenParts(level, [number, size, smallest, largest]);
    assert [level] + [number, size, smallest, largest] == [level, number, size, smallest, largest];
    OneField(EditCodec.NewFile(3, EditCodec.FileMeta(7, 9, [A], [B])), 7, [3, 7, 9, 1, A, 1, B]);
  }

  /** table/block_builder.cc: shared and unshared length of the key, length of the value, the rest of the key, the value. */
  lemma OneEntry()
    ensures BlockFormat.EncodeEntry(0, [A], [B, B]) == [0, 1, 2, A, B, B]
    ensures BlockFormat.EncodeEntry(1, [A, B], [B]) == [1, 1, 1, B, B]
  {
    VarintUnfolds(0);
    VarintUnfolds(1);
    VarintUnfolds(2);
  }

  /** util/coding.cc: the low byte first. */
  lemma FixedBytes()
    ensures Fixed32(0x0403_0201) == [1, 2, 3, 4]
    ensures Fixed64(0x0807_0605_0403_0201) == [1, 2, 3, 4, 5, 6, 7, 8]
  {
  }

  /** util/bloom.cc: probes and size for ten bits a key. */
  lemma BloomSizes()
    ensures Blooms.ProbeCount(10) == 6 && Blooms.ProbeCount(1) == 1 && Blooms.ProbeCount(100) == 30
    ensures Blooms.ArrayBytes(0, 10) == 8 && Blooms.ArrayBytes(10, 10) == 13
    ensures Blooms.Delta(0x2_0000) == 1 && Blooms.Delta(1) == 0x8000
  {
  }

  /** Bits are counted from the low end of each byte, and each probe is one rotated hash further. */
  lemma BloomBits()
    ensures Blooms.BitAt([2, 0x80], 1) && !Blooms.BitAt([2, 0x80], 0) && Blooms.BitAt([2, 0x80], 15) && !Blooms.BitAt([2, 0x80], 8)
    ensures Blooms.Probe(1, 0) == 1 && Blooms.Probe(1, 1) == 0x8001 && Blooms.Probe(1, 2) == 0x1_0001
  {
    assert Blooms.Bit(2, 1) == Blooms.Bit(1, 0);
    assert Blooms.Bit(0x80, 7) == Blooms.Bit(0x40, 6) == Blooms.Bit(0x20, 5) == Blooms.Bit(0x10, 4) == Blooms.Bit(8, 3)
        == Blooms.Bit(4, 2) == Blooms.Bit(2, 1);
  }

  /** The sizes and limits that the formats and the store are built on. */
  lemma Limits()
    ensures LogFormat.BLOCK_SIZE == 32768 && LogFormat.HEADER_SIZE == 7
    ensures Versions.NUM_LEVELS == 7 && Inputs.MAX_MEM_COMPACT_LEVEL == 2 && MAX_SEQUENCE == 0x100_0000_0000_0000 - 1
    ensures FilterBlocks.BASE == 2048 && SkipLists.MAX_HEIGHT == 12
    ensures WriteQueue.LIMIT == 0x10_0000 && WriteQueue.SMALL == 0x2_0000
  {
  }
}
