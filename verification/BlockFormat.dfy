/** Prefix-compressed blocks (table/block_builder.cc, table/block.cc): their bytes, and decoding one entry. */
module BlockFormat {
  import opened Keys
  import opened Coding

  datatype KeyValue = KeyValue(key: Bytes, value: Bytes)

  predicate Small(s: Bytes) {
    |s| < TWO_32
  }

  /** One entry: it shares `shared` bytes of its key with the entry before it. */
  function EncodeEntry(shared: nat, key: Bytes, value: Bytes): Bytes
    requires shared <= |key| && Small(key) && Small(value)
  {
    Varint(shared) + (Varint(|key| - shared) + (Varint(|value|) + (key[shared..] + value)))
  }

  /** What DecodeEntry finds; `keyStart` is where the unshared part of the key begins. */
  datatype EntryHeader = EntryHeader(shared: nat, nonShared: nat, valueLength: nat, keyStart: nat)

  /** The three lengths, by the general route. */
  function DecodeLengths(b: Bytes, p: nat, limit: nat): Option<EntryHeader>
    requires limit <= |b|
  {
    match GetVarint32(b, p, limit)
    case None => None
    case Some(shared) =>
      match GetVarint32(b, shared.next, limit)
      case None => None
      case Some(nonShared) =>
        match GetVarint32(b, nonShared.next, limit)
        case None => None
        case Some(length) => Some(EntryHeader(shared.value, nonShared.value, length.value, length.next))
  }

  /** DecodeEntry, with its fast path for three one-byte lengths. */
  function DecodeEntry(b: Bytes, p: nat, limit: nat): Option<EntryHeader>
    requires limit <= |b|
  {
    if limit < p + 3 then None
    else
      var h :=
        if b[p] < 128 && b[p + 1] < 128 && b[p + 2] < 128 then
          Some(EntryHeader(b[p] as nat, b[p + 1] as nat, b[p + 2] as nat, p + 3))
        else DecodeLengths(b, p, limit);
      if h.Some? && limit - h.value.keyStart < (h.value.nonShared + h.value.valueLength) % TWO_32 then None else h
  }

  lemma FastPathAgrees(b: Bytes, p: nat, limit: nat)
    requires p + 3 <= limit <= |b| && b[p] < 128 && b[p + 1] < 128 && b[p + 2] < 128
    ensures DecodeLengths(b, p, limit) == Some(EntryHeader(b[p] as nat, b[p + 1] as nat, b[p + 2] as nat, p + 3))
  {
    OneByteVarint(b, p, limit);
    OneByteVarint(b, p + 1, limit);
    OneByteVarint(b, p + 2, limit);
  }

  lemma OneByteVarint(b: Bytes, p: nat, limit: nat)
    requires p < limit <= |b| && b[p] < 128
    ensures GetVarint32(b, p, limit) == Some(Parsed(b[p] as nat, p + 1))
  {
    assert (0 + (b[p] as nat % 128) * 1) % TWO_32 == b[p] as nat;
  }

  /** An encoded entry is decoded, whichever way is taken. */
  lemma EntryIsDecoded(b: Bytes, p: nat, limit: nat, shared: nat, key: Bytes, value: Bytes) returns (start: nat)
    requires limit < TWO_32 && shared <= |key| && Small(key) && Small(value)
    requires At(b, p, limit, EncodeEntry(shared, key, value))
    ensures DecodeEntry(b, p, limit) == Some(EntryHeader(shared, |key| - shared, |value|, start))
    ensures At(b, start, limit, key[shared..]) && At(b, start + (|key| - shared), limit, value)
    ensures p + 3 <= start && start + (|key| - shared) + |value| == p + |EncodeEntry(shared, key, value)|
  {
    var a1, a2, a3, rest := Varint(shared), Varint(|key| - shared), Varint(|value|), key[shared..];
    var p1, p2, p3, p4 := FiveParts(b, p, limit, a1, a2, a3, rest, value);
    VarintStands(b, p, p1, limit, shared, a1);
    LengthsStand(b, p, p1, p2, p3, limit, shared, |key| - shared, |value|, a2, a3);
    start := p3;
  }

  lemma LengthsStand(b: Bytes, p: nat, p1: nat, p2: nat, p3: nat, limit: nat, shared: nat, nonShared: nat, length: nat,
                     a2: Bytes, a3: Bytes)
    requires nonShared < TWO_32 && length < TWO_32 && a2 == Varint(nonShared) && a3 == Varint(length)
    requires limit <= |b| && p < p1 && GetVarint32(b, p, limit) == Some(Parsed(shared, p1))
    requires At(b, p1, limit, a2) && At(b, p2, limit, a3) && p2 == p1 + |a2| && p3 == p2 + |a3|
    requires p3 + nonShared + length <= limit < TWO_32
    ensures p + 3 <= p3
    ensures DecodeEntry(b, p, limit) == Some(EntryHeader(shared, nonShared, length, p3))
  {
    VarintStands(b, p1, p2, limit, nonShared, a2);
    VarintStands(b, p2, p3, limit, length, a3);
    LengthsAreDecoded(b, p, limit, p1, p2, p3, shared, nonShared, length);
  }

  lemma VarintStands(b: Bytes, p: nat, next: nat, limit: nat, v: nat, a: Bytes)
    requires v < TWO_32 && a == Varint(v) && At(b, p, limit, a) && next == p + |a|
    ensures p < next && GetVarint32(b, p, limit) == Some(Parsed(v, next))
  {
    Varint32IsRead(b, p, limit, v);
  }

  lemma LengthsAreDecoded(b: Bytes, p: nat, limit: nat, p1: nat, p2: nat, p3: nat, shared: nat, nonShared: nat, length: nat)
    requires limit <= |b| && p < p1 < p2 < p3 && p3 + nonShared + length <= limit < TWO_32
    requires GetVarint32(b, p, limit) == Some(Parsed(shared, p1))
    requires GetVarint32(b, p1, limit) == Some(Parsed(nonShared, p2))
    requires GetVarint32(b, p2, limit) == Some(Parsed(length, p3))
    ensures DecodeEntry(b, p, limit) == Some(EntryHeader(shared, nonShared, length, p3))
  {
    if b[p] < 128 && b[p + 1] < 128 && b[p + 2] < 128 {
      FastPathAgrees(b, p, limit);
    }
    SmallMod(nonShared + length, TWO_32);
  }

  // ---------- The layout of a block ----------

  /** What a block holds: entries, where each begins (and the last one ends), how much each shares,
      and which entries begin at restart points. */
  datatype Shape = Shape(entries: seq<KeyValue>, offsets: seq<nat>, shared: seq<nat>, starts: seq<nat>)

  /** The key an entry is compressed against: none at a restart point. */
  ghost function KeyBefore(s: Shape, i: nat): Bytes
    requires i < |s.entries|
  {
    if i == 0 || i in s.starts then [] else s.entries[i - 1].key
  }

  ghost predicate Sound(s: Shape) {
    && |s.offsets| == |s.entries| + 1 && |s.shared| == |s.entries| && s.offsets[0] == 0
    && s.starts != [] && s.starts[0] == 0
    && (forall i, j :: 0 <= i < j < |s.starts| ==> s.starts[i] < s.starts[j] < |s.entries|)
  }

  ghost predicate EntryLaid(b: Bytes, limit: nat, s: Shape, i: nat)
    requires Sound(s) && i < |s.entries|
  {
    var e, shared := s.entries[i], s.shared[i];
    && Small(e.key) && Small(e.value)
    && shared <= |e.key| && e.key[..shared] <= KeyBefore(s, i)
    && At(b, s.offsets[i], limit, EncodeEntry(shared, e.key, e.value))
    && s.offsets[i + 1] == s.offsets[i] + |EncodeEntry(shared, e.key, e.value)|
  }

  /** The first `limit` bytes of `b` are the entries of `s`, each compressed against the one before it. */
  ghost predicate Laid(b: Bytes, limit: nat, s: Shape) {
    && Sound(s) && s.offsets[|s.entries|] == limit <= |b|
    && forall i {:trigger EntryLaid(b, limit, s, i)} :: 0 <= i < |s.entries| ==> EntryLaid(b, limit, s, i)
  }

  /** Where restart point `j` is. */
  ghost function RestartOffset(s: Shape, j: nat): nat
    requires Sound(s) && j < |s.starts|
  {
    if s.starts[j] < |s.offsets| then s.offsets[s.starts[j]] else 0
  }

  ghost predicate RestartLaid(b: Bytes, limit: nat, s: Shape, j: nat)
    requires Sound(s) && j < |s.starts|
  {
    At(b, limit + 4 * j, |b|, Fixed32(RestartOffset(s, j)))
  }

  /** A finished block: the entries, the restart points, their number. */
  ghost predicate IsBlock(b: Bytes, limit: nat, s: Shape) {
    && Laid(b, limit, s)
    && |b| == limit + 4 * |s.starts| + 4 < TWO_32
    && (forall j {:trigger RestartLaid(b, limit, s, j)} :: 0 <= j < |s.starts| ==> RestartLaid(b, limit, s, j))
    && At(b, limit + 4 * |s.starts|, |b|, Fixed32(|s.starts|))
  }

  lemma {:induction false} OffsetsAscend(b: Bytes, limit: nat, s: Shape, i: nat, j: nat)
    requires Laid(b, limit, s) && i < j <= |s.entries|
    ensures s.offsets[i] + 3 <= s.offsets[j] <= limit
    decreases |s.entries| - i
  {
    assert EntryLaid(b, limit, s, i);
    EntryTakesThree(s.shared[i], s.entries[i].key, s.entries[i].value);
    if i + 1 < j {
      OffsetsAscend(b, limit, s, i + 1, j);
    }
    if j < |s.entries| {
      assert EntryLaid(b, limit, s, j);
    }
  }

  lemma EntryTakesThree(shared: nat, key: Bytes, value: Bytes)
    requires shared <= |key| && Small(key) && Small(value)
    ensures |EncodeEntry(shared, key, value)| >= 3
  {
  }
}
