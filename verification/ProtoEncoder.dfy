/** The encoder: one pass that only counts, one that writes (nanopb/pb_encode.c). */
module ProtoEncoder {
  import opened Keys
  import opened Coding
  import opened Protos

  /** pb_ostream_t.  A stream without a callback only counts. */
  class OStream {
    const sizing: bool
    const maxSize: nat
    var out: Bytes
    var bytesWritten: nat

    predicate Valid()
      reads this
    {
      sizing || bytesWritten <= maxSize
    }

    constructor (sizing: bool, maxSize: nat, out: Bytes)
      ensures Valid() && this.sizing == sizing && this.maxSize == maxSize && this.out == out && bytesWritten == 0
    {
      this.sizing, this.maxSize, this.out, bytesWritten := sizing, maxSize, out, 0;
    }
  }

  /** A stream of which `n` bytes are written and which holds `out` takes `e`: it succeeds exactly if `can` and there
      is room, and then has counted `e` and, unless it only counts, has `e` appended. */
  ghost predicate Took(s: OStream, n: nat, out: Bytes, e: Bytes, can: bool, ok: bool)
    reads s
  {
    && (ok <==> can && (s.sizing || n + |e| <= s.maxSize))
    && (ok ==> s.bytesWritten == n + |e| && s.out == if s.sizing then out else out + e)
  }

  /** pb_write. */
  method Write(s: OStream, e: Bytes) returns (ok: bool)
    requires s.Valid()
    modifies s
    ensures Took(s, old(s.bytesWritten), old(s.out), e, true, ok) && (ok ==> s.Valid())
  {
    if |e| > 0 && !s.sizing {
      if s.bytesWritten + |e| > s.maxSize {
        return false;
      }
      s.out := s.out + e;
    }
    s.bytesWritten := s.bytesWritten + |e|;
    assert s.sizing || |e| > 0 || old(s.out) + e == old(s.out);
    return true;
  }

  /** pb_write on a stream that only counts. */
  method Count(s: OStream, ghost e: Bytes, count: nat) returns (ok: bool)
    requires s.Valid() && s.sizing && count == |e|
    modifies s
    ensures Took(s, old(s.bytesWritten), old(s.out), e, true, ok) && ok && s.Valid()
  {
    s.bytesWritten := s.bytesWritten + count;
    return true;
  }

  // ---------- Scalars ----------

  function TopCleared(b: Bytes): Bytes
    requires b != []
  {
    b[|b| - 1 := (b[|b| - 1] as nat % 128) as byte]
  }

  /** pb_encode_varint's buffer. */
  method VarintBuffer(value: nat) returns (buffer: Bytes)
    requires 0 < value
    ensures buffer == Varint(value)
  {
    buffer := [];
    var rest: nat := value;
    while rest != 0
      invariant rest > 0 ==> buffer + Varint(rest) == Varint(value)
      invariant rest == 0 ==> buffer != [] && TopCleared(buffer) == Varint(value)
    {
      ghost var before := buffer;
      VarintUnfolds(rest);
      buffer := buffer + [More(rest)];
      if rest / 128 == 0 {
        LastGroup(before, rest, buffer);
      } else {
        assert before + ([More(rest)] + Varint(rest / 128)) == buffer + Varint(rest / 128);
      }
      rest := rest / 128;
    }
    buffer := TopCleared(buffer);
  }

  lemma LastGroup(before: Bytes, rest: nat, buffer: Bytes)
    requires rest < 128 && buffer == before + [More(rest)]
    ensures TopCleared(buffer) == before + [rest as byte]
  {
    assert More(rest) as nat % 128 == rest;
  }

  method EncodeVarint(s: OStream, value: nat) returns (ok: bool)
    requires s.Valid()
    modifies s
    ensures Took(s, old(s.bytesWritten), old(s.out), Varint(value), true, ok) && (ok ==> s.Valid())
  {
    if value <= 0x7F {
      ok := Write(s, [value as byte]);
    } else {
      var buffer := VarintBuffer(value);
      ok := Write(s, buffer);
    }
  }

  method EncodeTag(s: OStream, tag: nat, wire: nat) returns (ok: bool)
    requires s.Valid()
    modifies s
    ensures Took(s, old(s.bytesWritten), old(s.out), EncTag(tag, wire), true, ok) && (ok ==> s.Valid())
  {
    ok := EncodeVarint(s, 8 * tag + wire);
  }

  /** pb_encode_svarint: `~(value << 1)` or `value << 1` in 64 bits. */
  method EncodeSVarint(s: OStream, value: int) returns (ok: bool)
    requires s.Valid() && Fits(value, TWO_64)
    modifies s
    ensures Took(s, old(s.bytesWritten), old(s.out), Varint(ZigZag(value)), true, ok) && (ok ==> s.Valid())
  {
    var shifted := 2 * AsUnsigned(value) % TWO_64;
    var zigzagged := if value < 0 then TWO_64 - 1 - shifted else shifted;
    assert zigzagged == ZigZag(value) by {
      if value < 0 {
        assert 2 * AsUnsigned(value) == 2 * value + 2 * TWO_64;
        if 2 * value + TWO_64 == 0 {
          assert 2 * AsUnsigned(value) == TWO_64;
        } else {
          assert 2 * AsUnsigned(value) - TWO_64 == 2 * value + TWO_64;
        }
      }
    }
    ok := EncodeVarint(s, zigzagged);
  }

  /** pb_encode_string. */
  method EncodeString(s: OStream, b: Bytes) returns (ok: bool)
    requires s.Valid()
    modifies s
    ensures Took(s, old(s.bytesWritten), old(s.out), Prefixed(b), true, ok) && (ok ==> s.Valid())
  {
    ghost var out := s.out;
    ok := EncodeVarint(s, |b|);
    if ok {
      ok := Write(s, b);
      assert out + Prefixed(b) == out + Varint(|b|) + b;
    }
  }

  // ---------- Messages ----------

  /** What has been written, with what is still to be written, makes up `all`. */
  ghost predicate Upto(s: OStream, n: nat, out: Bytes, rest: Bytes, all: Bytes)
    reads s
  {
    && s.Valid() && s.bytesWritten + |rest| == n + |all|
    && if s.sizing then s.out == out else s.out + rest == out + all
  }

  /** pb_encode. */
  method Encode(s: OStream, d: Desc, v: Value) returns (ok: bool)
    requires s.Valid() && MsgOk(d, v, Held)
    modifies s
    ensures Took(s, old(s.bytesWritten), old(s.out), EncFields(d, v, 0), MsgOk(d, v, Encodable), ok) && (ok ==> s.Valid())
    decreases d, 0
  {
    ghost var n, out, all := s.bytesWritten, s.out, EncFields(d, v, 0);
    for i := 0 to |d.fields|
      invariant forall j :: 0 <= j < i ==> SlotOk(d.fields[j], v.slots[j], Encodable)
      invariant Upto(s, n, out, EncFields(d, v, i), all)
    {
      ghost var e, rest := EncSlot(d.fields[i], v.slots[i]), EncFields(d, v, i + 1);
      ghost var before := s.out;
      ok := EncodeField(s, d.fields[i], v.slots[i]);
      if !ok {
        return;
      }
      assert before + e + rest == before + (e + rest);
    }
    return true;
  }

  /** encode_field, for a field with static data. */
  method EncodeField(s: OStream, f: Field, slot: Slot) returns (ok: bool)
    requires s.Valid() && SlotOk(f, slot, Held)
    modifies s
    ensures Took(s, old(s.bytesWritten), old(s.out), EncSlot(f, slot), SlotOk(f, slot, Encodable), ok) && (ok ==> s.Valid())
    decreases f
  {
    ok := true;
    match f.rule
    case Required =>
      ok := EncodeOne(s, f.members[0], slot.value);
    case Implicit =>
      var zero := IsZero(f.members[0].ltype, slot.value);
      if !zero {
        ok := EncodeOne(s, f.members[0], slot.value);
      }
    case Optional =>
      if slot.opt.Some? {
        ok := EncodeOne(s, f.members[0], slot.opt.value);
      }
    case Repeated(max) =>
      ok := EncodeArray(s, f.members[0], slot.items, max);
    case OneOf =>
      if slot.chosen.Some? {
        ok := EncodeOne(s, f.members[slot.chosen.value.member], slot.chosen.value.value);
      }
  }

  /** The tag, then the value. */
  method EncodeOne(s: OStream, m: Member, v: Value) returns (ok: bool)
    requires s.Valid() && ValueOk(m.ltype, v, Held)
    modifies s
    ensures Took(s, old(s.bytesWritten), old(s.out), EncMember(m, v), ValueOk(m.ltype, v, Encodable), ok) && (ok ==> s.Valid())
    decreases m, 0
  {
    ghost var out := s.out;
    ok := EncodeTag(s, m.tag, WireType(m.ltype));
    if ok {
      ok := EncodeValue(s, m.ltype, v);
    }
  }

  /** encode_array. */
  method EncodeArray(s: OStream, m: Member, items: seq<Value>, max: nat) returns (ok: bool)
    requires s.Valid() && forall i :: 0 <= i < |items| ==> ValueOk(m.ltype, items[i], Held)
    modifies s
    ensures Took(s, old(s.bytesWritten), old(s.out), EncArray(m, items), |items| <= max && AllEncodable(m, items), ok)
    ensures ok ==> s.Valid()
    decreases m, 3
  {
    if |items| == 0 {
      return true;
    }
    if |items| > max {
      return false;
    }
    if Packable(m.ltype) {
      ok := EncodePacked(s, m, items);
    } else {
      ok := EncodeUnpacked(s, m, items);
    }
  }

  ghost predicate AllEncodable(m: Member, items: seq<Value>) {
    forall i :: 0 <= i < |items| ==> ValueOk(m.ltype, items[i], Encodable)
  }

  method EncodePacked(s: OStream, m: Member, items: seq<Value>) returns (ok: bool)
    requires s.Valid() && Packable(m.ltype) && items != [] && forall i :: 0 <= i < |items| ==> ValueOk(m.ltype, items[i], Held)
    modifies s
    ensures Took(s, old(s.bytesWritten), old(s.out), EncArray(m, items), AllEncodable(m, items), ok) && (ok ==> s.Valid())
    decreases m, 2
  {
    ghost var out, e := s.out, EncItems(m, items, 0);
    ok := EncodeTag(s, m.tag, 2);
    if !ok {
      return;
    }
    var size;
    ok, size := PackedSize(m, items);
    if !ok {
      return;
    }
    ok := EncodeVarint(s, size);
    if !ok {
      return;
    }
    if s.sizing {
      ok := Count(s, e, size);
    } else {
      ok := EncodeItems(s, m, items);
      assert out + EncTag(m.tag, 2) + Varint(size) + e == out + (EncTag(m.tag, 2) + (Varint(size) + e));
    }
  }

  /** The size of the packed values: known for fixed widths, else from a pass over a stream that only counts. */
  method PackedSize(m: Member, items: seq<Value>) returns (ok: bool, size: nat)
    requires Packable(m.ltype) && forall i :: 0 <= i < |items| ==> ValueOk(m.ltype, items[i], Held)
    ensures ok <==> AllEncodable(m, items)
    ensures ok ==> size == |EncItems(m, items, 0)|
    decreases m, 1
  {
    if m.ltype.Fix32? {
      FixedWidth(m, items, 0, 4);
      return true, 4 * |items|;
    } else if m.ltype.Fix64? {
      FixedWidth(m, items, 0, 8);
      return true, 8 * |items|;
    }
    var sizestream := new OStream(true, 0, []);
    ok := EncodeItems(sizestream, m, items);
    size := sizestream.bytesWritten;
  }

  lemma {:induction false} FixedWidth(m: Member, items: seq<Value>, j: nat, width: nat)
    requires (m.ltype.Fix32? && width == 4) || (m.ltype.Fix64? && width == 8)
    requires j <= |items| && forall i :: 0 <= i < |items| ==> ValueOk(m.ltype, items[i], Held)
    ensures |EncItems(m, items, j)| == width * (|items| - j)
    decreases |items| - j
  {
    if j < |items| {
      FixedWidth(m, items, j + 1, width);
    }
  }

  /** The loop over packed values. */
  method EncodeItems(s: OStream, m: Member, items: seq<Value>) returns (ok: bool)
    requires s.Valid() && Packable(m.ltype) && forall i :: 0 <= i < |items| ==> ValueOk(m.ltype, items[i], Held)
    modifies s
    ensures Took(s, old(s.bytesWritten), old(s.out), EncItems(m, items, 0), AllEncodable(m, items), ok) && (ok ==> s.Valid())
    decreases m, 0
  {
    ghost var n, out, all := s.bytesWritten, s.out, EncItems(m, items, 0);
    for i := 0 to |items|
      invariant forall j :: 0 <= j < i ==> ValueOk(m.ltype, items[j], Encodable)
      invariant Upto(s, n, out, EncItems(m, items, i), all)
    {
      ghost var e, rest, before := EncValue(m.ltype, items[i]), EncItems(m, items, i + 1), s.out;
      ok := EncodeValue(s, m.ltype, items[i]);
      if !ok {
        return;
      }
      assert before + e + rest == before + (e + rest);
    }
    return true;
  }

  /** The loop over tagged values. */
  method EncodeUnpacked(s: OStream, m: Member, items: seq<Value>) returns (ok: bool)
    requires s.Valid() && !Packable(m.ltype) && forall i :: 0 <= i < |items| ==> ValueOk(m.ltype, items[i], Held)
    modifies s
    ensures Took(s, old(s.bytesWritten), old(s.out), EncItems(m, items, 0), AllEncodable(m, items), ok) && (ok ==> s.Valid())
    decreases m, 1
  {
    ghost var n, out, all := s.bytesWritten, s.out, EncItems(m, items, 0);
    for i := 0 to |items|
      invariant forall j :: 0 <= j < i ==> ValueOk(m.ltype, items[j], Encodable)
      invariant Upto(s, n, out, EncItems(m, items, i), all)
    {
      ghost var e, rest, before := EncMember(m, items[i]), EncItems(m, items, i + 1), s.out;
      ghost var tag, body := EncTag(m.tag, WireType(m.ltype)), EncValue(m.ltype, items[i]);
      assert tag + (body + rest) == e + rest;
      ok := EncodeOne(s, m, items[i]);
      if !ok {
        return;
      }
      assert before + e + rest == before + (e + rest);
    }
    return true;
  }

  /** The field encoders, by LTYPE. */
  method EncodeValue(s: OStream, t: Type, v: Value) returns (ok: bool)
    requires s.Valid() && ValueOk(t, v, Held)
    modifies s
    ensures Took(s, old(s.bytesWritten), old(s.out), EncValue(t, v), ValueOk(t, v, Encodable), ok) && (ok ==> s.Valid())
    decreases t
  {
    match t
    case Bool =>
      ok := EncodeVarint(s, if v.n != 0 then 1 else 0);
    case Signed(size) =>
      if !GoodSize(size) {
        return false;
      }
      ok := EncodeVarint(s, AsUnsigned(v.n));
    case Unsigned(size) =>
      if !GoodSize(size) {
        return false;
      }
      ok := EncodeVarint(s, v.n);
    case ZigZagged(size) =>
      if !GoodSize(size) {
        return false;
      }
      ok := EncodeSVarint(s, v.n);
    case Fix32 =>
      ok := Write(s, Fixed32(v.n));
    case Fix64 =>
      ok := Write(s, Fixed64(v.n));
    case Blob(room) =>
      if |v.b| + BYTES_OFFSET > room {
        return false;
      }
      ok := EncodeString(s, v.b);
    case Text(room) =>
      ok := EncodeString(s, v.b);
    case FixedBlob(length) =>
      ok := EncodeString(s, v.b);
    case Sub(d) =>
      ok := EncodeSubmessage(s, d, v);
  }

  /** pb_encode_submessage: count, then write the size and the fields. */
  method EncodeSubmessage(s: OStream, d: Desc, v: Value) returns (ok: bool)
    requires s.Valid() && MsgOk(d, v, Held)
    modifies s
    ensures Took(s, old(s.bytesWritten), old(s.out), Prefixed(EncFields(d, v, 0)), MsgOk(d, v, Encodable), ok) && (ok ==> s.Valid())
    decreases d, 1
  {
    ghost var out, e := s.out, EncFields(d, v, 0);
    var substream := new OStream(true, 0, []);
    ok := Encode(substream, d, v);
    if !ok {
      return;
    }
    var size := substream.bytesWritten;
    ok := EncodeVarint(s, size);
    if !ok {
      return;
    }
    if s.sizing {
      ok := Count(s, e, size);
      return;
    }
    if s.bytesWritten + size > s.maxSize {
      return false;
    }
    var writing := new OStream(false, size, s.out);
    var status := Encode(writing, d, v);
    s.bytesWritten := s.bytesWritten + writing.bytesWritten;
    s.out := writing.out;
    assert out + Varint(size) + e == out + Prefixed(e);
    if writing.bytesWritten != size {
      return false;
    }
    return status;
  }

  /** pb_get_encoded_size. */
  method GetEncodedSize(d: Desc, v: Value) returns (ok: bool, size: nat)
    requires MsgOk(d, v, Held)
    ensures ok <==> MsgOk(d, v, Encodable)
    ensures ok ==> size == |EncFields(d, v, 0)|
  {
    var stream := new OStream(true, 0, []);
    ok := Encode(stream, d, v);
    size := stream.bytesWritten;
  }
}
