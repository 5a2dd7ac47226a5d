/** What the decoder makes of the encoder's bytes. */
module ProtoRoundTrip {
  import opened Keys
  import opened Coding
  import opened Protos
  import opened ProtoReading

  // ---------- Varints ----------

  /** The bit positions at which the loop keeps bits, with their weights. */
  predicate Weight(bitpos: nat, scale: nat) {
    || (bitpos == 7 && scale == 0x80) || (bitpos == 14 && scale == 0x4000)
    || (bitpos == 21 && scale == 0x20_0000) || (bitpos == 28 && scale == 0x1000_0000)
  }

  lemma WeightIsPower(bitpos: nat, scale: nat)
    requires Weight(bitpos, scale)
    ensures scale == Power2(bitpos)
  {
    assert Power2(7) == 2 * (2 * (2 * Power2(4))) && Power2(4) == 16;
    SevenMore(7);
    SevenMore(14);
    SevenMore(21);
  }

  lemma SevenMore(n: nat)
    ensures Power2(n + 7) == 128 * Power2(n)
  {
    assert Power2(n + 2) == 4 * Power2(n);
    assert Power2(n + 4) == 4 * Power2(n + 2);
    assert Power2(n + 6) == 4 * Power2(n + 4);
  }

  /** While the bits fit, a group is added above those read before. */
  lemma GroupIsAdded(result: nat, group: byte, bitpos: nat, scale: nat)
    requires Weight(bitpos, scale) && result < scale && (group as nat % 128) * scale < TWO_32
    ensures WithGroup(result, group, bitpos) == result + (group as nat % 128) * scale
  {
    WeightIsPower(bitpos, scale);
    hide Power2, Or;
    OrAbove(result, group as nat % 128, bitpos);
  }

  lemma GroupStays(result: nat, digit: nat, scale: nat)
    requires result < scale && digit < 128
    ensures result + digit * scale < scale * 128
  {
    assert digit * scale <= 127 * scale;
  }

  lemma NextGroup(result: nat, rest: nat, scale: nat, v: nat, bitpos: nat, group: byte) returns (result': nat)
    requires Weight(bitpos, scale) && result < scale && AddsUp(result, rest, scale, v) && v < TWO_32
    requires group as nat % 128 == rest % 128
    ensures result' == WithGroup(result, group, bitpos) < scale * 128
    ensures AddsUp(result', rest / 128, scale * 128, v) && (rest < 128 ==> result' == v)
  {
    hide WithGroup;
    result' := OneGroup(result, rest, scale, v, TWO_32);
    GroupStays(result, rest % 128, scale);
    GroupIsAdded(result, group, bitpos, scale);
  }

  lemma {:induction false} RestIsRead(b: Bytes, p: nat, limit: nat, bitpos: nat, scale: nat, result: nat, rest: nat, v: nat)
    requires At(b, p, limit, Varint(rest)) && Weight(bitpos, scale) && result < scale
    requires AddsUp(result, rest, scale, v) && v < TWO_32
    ensures Varint32Rest(b, p, limit, bitpos, result) == Some(Parsed(v, p + |Varint(rest)|))
    decreases rest
  {
    hide WithGroup, AddsUp, Power2;
    FirstGroup(b, p, limit, rest, rest % 128);
    var result' := NextGroup(result, rest, scale, v, bitpos, b[p]);
    if bitpos == 28 {
      LastWeight(result, rest, v);
    }
    RestStep(b, p, limit, bitpos, result, result');
    if rest >= 128 {
      VarintTail(b, p, limit, rest);
      RestIsRead(b, p + 1, limit, bitpos + 7, scale * 128, result', rest / 128, v);
    }
  }

  lemma RestStep(b: Bytes, p: nat, limit: nat, bitpos: nat, result: nat, result': nat)
    requires p < limit <= |b| && bitpos < 32 && (bitpos == 28 ==> b[p] < 16)
    requires result' == WithGroup(result, b[p], bitpos)
    ensures Varint32Rest(b, p, limit, bitpos, result)
         == if b[p] >= 128 then Varint32Rest(b, p + 1, limit, bitpos + 7, result') else Some(Parsed(result', p + 1))
  {
  }

  lemma LastWeight(result: nat, rest: nat, v: nat)
    requires AddsUp(result, rest, 0x1000_0000, v) && v < TWO_32
    ensures rest < 16
  {
  }

  /** pb_decode_varint32 reads back what pb_encode_varint wrote of 32 bits. */
  lemma Varint32IsReadBack(b: Bytes, p: nat, limit: nat, v: nat)
    requires At(b, p, limit, Varint(v)) && v < TWO_32
    ensures ReadVarint32(b, p, limit) == Some(Parsed(v, p + |Varint(v)|))
  {
    FirstGroup(b, p, limit, v, v % 128);
    if v >= 128 {
      VarintTail(b, p, limit, v);
      assert AddsUp(v % 128, v / 128, 128, v);
      RestIsRead(b, p + 1, limit, 7, 128, v % 128, v / 128, v);
    }
  }

  // ---------- Scalars ----------

  lemma SignedIsReadBack(size: nat, n: int)
    requires GoodSize(size) && Fits(n, Span(size))
    ensures Fits(n, TWO_64) && DecSigned(size, AsUnsigned(n)) == Some(n)
  {
    if n < 0 {
      if size == 8 {
        WrapNegative(n, 8);
      } else {
        WrapNegative(n, 4);
        LowHalf(n);
      }
    }
  }

  lemma LowHalf(n: int)
    ensures (n + TWO_64) % TWO_32 == n % TWO_32
  {
    assert n + TWO_64 == n + TWO_32 * TWO_32;
  }

  /** ZigZag: pb_dec_svarint undoes pb_enc_svarint. */
  lemma ZigZagIsReadBack(size: nat, n: int)
    requires GoodSize(size) && Fits(n, Span(size))
    ensures Fits(n, TWO_64) && DecZigZagged(size, ZigZag(n)) == Some(n)
  {
  }

  /** What the three integer decoders make of the 64 bits read. */
  function DecInteger(t: Type, u: nat): Option<int>
    requires TypeOk(t) && (t.Signed? || t.Unsigned? || t.ZigZagged?) && u < TWO_64
  {
    if t.Signed? then DecSigned(t.size, u) else if t.Unsigned? then DecUnsigned(t.size, u) else DecZigZagged(t.size, u)
  }

  lemma IntegerIsReadBack(t: Type, v: Value) returns (u: nat)
    requires TypeOk(t) && (t.Signed? || t.Unsigned? || t.ZigZagged?) && ValueOk(t, v, Held)
    ensures u < TWO_64 && EncValue(t, v) == Varint(u) && DecInteger(t, u) == Some(v.n)
  {
    if t.Signed? {
      SignedIsReadBack(t.size, v.n);
      u := AsUnsigned(v.n);
    } else if t.Unsigned? {
      u := v.n;
    } else {
      ZigZagIsReadBack(t.size, v.n);
      u := ZigZag(v.n);
    }
  }

  lemma IntegerIsRead(t: Type, n: int, u: nat, b: Bytes, p: nat, limit: nat)
    requires TypeOk(t) && (t.Signed? || t.Unsigned? || t.ZigZagged?) && u < TWO_64 && At(b, p, limit, Varint(u))
    requires DecInteger(t, u) == Some(n)
    ensures DecNumber(t, b, p, limit) == Some(Parsed(Num(n), p + |Varint(u)|))
  {
    Varint64IsRead(b, p, limit, u);
  }

  lemma FixedNumber(t: Type, v: Value, e: Bytes, b: Bytes, p: nat, limit: nat)
    requires (t.Fix32? || t.Fix64?) && ValueOk(t, v, Held) && e == EncValue(t, v) && At(b, p, limit, e)
    ensures DecNumber(t, b, p, limit) == Some(Parsed(v, p + |e|))
  {
    if t.Fix32? {
      Fixed32IsRead(b, p, v.n);
    } else {
      Fixed64IsRead(b, p, v.n);
    }
  }

  /** A number reads back. */
  lemma NumberIsRead(t: Type, v: Value, b: Bytes, p: nat, limit: nat)
    requires Packable(t) && TypeOk(t) && ValueOk(t, v, Held) && At(b, p, limit, EncValue(t, v))
    ensures DecNumber(t, b, p, limit) == Some(Parsed(v, p + |EncValue(t, v)|))
  {
    hide DecSigned, DecUnsigned, DecZigZagged, DecInteger, ReadVarint32, Varint, AsUnsigned, ZigZag, Fixed32, Fixed64;
    if t.Bool? {
      Varint32IsReadBack(b, p, limit, v.n);
    } else if t.Fix32? || t.Fix64? {
      FixedNumber(t, v, EncValue(t, v), b, p, limit);
    } else {
      var u := IntegerIsReadBack(t, v);
      IntegerIsRead(t, v.n, u, b, p, limit);
    }
  }

  lemma PrefixedIsRead(b: Bytes, p: nat, limit: nat, s: Bytes) returns (start: nat)
    requires At(b, p, limit, Prefixed(s)) && |s| < TWO_32
    ensures start == p + |Varint(|s|)| && start + |s| == p + |Prefixed(s)| <= limit
    ensures ReadVarint32(b, p, limit) == Some(Parsed(|s|, start)) && At(b, start, start + |s|, s) && b[start..start + |s|] == s
  {
    start := p + |Varint(|s|)|;
    AtBoth(b, p, limit, Varint(|s|), s);
    Varint32IsReadBack(b, p, limit, |s|);
  }

  /** A string reads back, but for one that leaves no room for its terminator. */
  lemma StringIsRead(t: Type, s: Bytes, b: Bytes, p: nat, limit: nat)
    requires IsString(t) && TypeOk(t) && ValueOk(t, Raw(s), Encodable)
    requires At(b, p, limit, Prefixed(s))
    ensures DecString(t, b, p, limit) == if t.Text? && |s| == t.room then None else Some(Parsed(Raw(s), p + |Prefixed(s)|))
  {
    var start := PrefixedIsRead(b, p, limit, s);
    if t.FixedBlob? && |s| == 0 {
      assert seq(t.length, _ => 0 as byte) == s;
    }
  }

  // ---------- Packed arrays ----------

  lemma {:induction false} PackedIsRead(m: Member, items: seq<Value>, j: nat, max: nat, b: Bytes, p: nat, limit: nat)
    requires TypeOk(m.ltype) && Packable(m.ltype) && j <= |items| <= max < SIZE_LIMIT
    requires forall k :: 0 <= k < |items| ==> ValueOk(m.ltype, items[k], Held)
    requires At(b, p, limit, EncItems(m, items, j)) && p + |EncItems(m, items, j)| == limit
    ensures DecPacked(m.ltype, items[..j], max, b, p, limit) == Some(items)
    decreases |items| - j
  {
    hide *;
    PackedSplits(m, items, j, max, b, p, limit);
    if j < |items| {
      var e := EncValue(m.ltype, items[j]);
      NumberIsRead(m.ltype, items[j], b, p, limit);
      assert items[..j] + [items[j]] == items[..j + 1];
      PackedStep(m.ltype, items[..j], items[j], items[..j + 1], max, b, p, p + |e|, limit);
      PackedIsRead(m, items, j + 1, max, b, p + |e|, limit);
    }
  }

  lemma PackedSplits(m: Member, items: seq<Value>, j: nat, max: nat, b: Bytes, p: nat, limit: nat)
    requires TypeOk(m.ltype) && Packable(m.ltype) && j <= |items| <= max < SIZE_LIMIT
    requires forall k :: 0 <= k < |items| ==> ValueOk(m.ltype, items[k], Held)
    requires At(b, p, limit, EncItems(m, items, j)) && p + |EncItems(m, items, j)| == limit
    ensures j == |items| ==> DecPacked(m.ltype, items[..j], max, b, p, limit) == Some(items)
    ensures j < |items| ==>
              var n := p + |EncValue(m.ltype, items[j])|;
              p < n <= limit <= |b| && At(b, p, limit, EncValue(m.ltype, items[j])) && At(b, n, limit, EncItems(m, items, j + 1))
              && n + |EncItems(m, items, j + 1)| == limit
  {
    hide EncValue, DecNumber, ValueOk, TypeOk;
    if j == |items| {
      assert items[..j] == items;
    } else {
      AtBoth(b, p, limit, EncValue(m.ltype, items[j]), EncItems(m, items, j + 1));
      NumberIsRead(m.ltype, items[j], b, p, limit);
    }
  }

  lemma PackedStep(t: Type, items: seq<Value>, v: Value, items': seq<Value>, max: nat, b: Bytes, p: nat, next: nat, limit: nat)
    requires TypeOk(t) && Packable(t) && |items| < max < SIZE_LIMIT && p < next <= limit <= |b|
    requires (forall k :: 0 <= k < |items| ==> ValueOk(t, items[k], Held)) && ValueOk(t, v, Held)
    requires DecNumber(t, b, p, limit) == Some(Parsed(v, next)) && items' == items + [v]
    ensures DecPacked(t, items, max, b, p, limit) == DecPacked(t, items', max, b, next, limit)
  {
  }

  // ---------- Messages ----------

  lemma {:induction false} EveryLevelIsHeld(t: Type, v: Value, level: Level)
    requires ValueOk(t, v, level)
    ensures ValueOk(t, v, Held)
    decreases t
  {
    if t.Sub? {
      forall i | 0 <= i < |t.desc.fields| ensures SlotOk(t.desc.fields[i], v.slots[i], Held) {
        assert SlotOk(t.desc.fields[i], v.slots[i], level);
        SlotIsHeld(t.desc.fields[i], v.slots[i], level);
      }
    }
  }

  lemma {:induction false} SlotIsHeld(f: Field, s: Slot, level: Level)
    requires SlotOk(f, s, level)
    ensures SlotOk(f, s, Held)
    decreases f
  {
    match f.rule
    case Required => EveryLevelIsHeld(f.members[0].ltype, s.value, level);
    case Implicit =>
    case Optional =>
      if s.opt.Some? {
        EveryLevelIsHeld(f.members[0].ltype, s.opt.value, level);
      }
    case Repeated(_) =>
      forall j | 0 <= j < |s.items| ensures ValueOk(f.members[0].ltype, s.items[j], Held) {
        EveryLevelIsHeld(f.members[0].ltype, s.items[j], level);
      }
    case OneOf =>
      if s.chosen.Some? {
        EveryLevelIsHeld(f.members[s.chosen.value.member].ltype, s.chosen.value.value, level);
      }
  }

  /** A tag on the wire takes the decoder to its field. */
  lemma StepIsTaken(d: Desc, i: nat, m: nat, wire: nat, slots: seq<Slot>, seen: set<nat>, b: Bytes, p: nat, limit: nat) returns (q: nat)
    requires DescOk(d) && MsgOk(d, Msg(slots), Held) && IsPlace(d, i, m) && wire < 8
    requires At(b, p, limit, EncTag(TagAt(d, i, m), wire))
    ensures q == p + |EncTag(TagAt(d, i, m), wire)| <= limit
    ensures DecMsg(d, slots, seen, b, p, limit) ==
              match DecField(d.fields[i], m, slots[i], wire, b, q, limit)
              case None => None
              case Some(s) => DecMsg(d, slots[i := s.value], See(d, seen, i), b, s.next, limit)
  {
    hide DecField, MsgOk, ValueOk;
    var tag := TagAt(d, i, m);
    assert MemberOk(d.fields[i].members[m]);
    q := p + |EncTag(tag, wire)|;
    Varint32IsReadBack(b, p, limit, 8 * tag + wire);
    assert (8 * tag + wire) / 8 == tag && (8 * tag + wire) % 8 == wire;
    assert Find(d, tag) == Some(Place(i, m));
    FirstGroup(b, p, limit, 8 * tag + wire, (8 * tag + wire) % 128);
  }

  /** The slot that a value of member `m` makes of an untouched slot. */
  function Built(f: Field, m: nat, x: Value): Slot {
    match f.rule
    case Required => One(x)
    case Implicit => One(x)
    case Optional => Maybe(Some(x))
    case Repeated(_) => Many([x])
    case OneOf => Union(Some(Pick(m, x)))
  }

  lemma FieldOfValue(f: Field, m: nat, x: Value, wire: nat, b: Bytes, q: nat, limit: nat)
    requires FieldOk(f) && m < |f.members| && !f.rule.Repeated? && q <= limit <= |b|
    requires ValueOk(f.members[m].ltype, x, Held)
    requires TypeOk(f.members[m].ltype) && SlotOk(f, ZeroSlot(f), Held)
    ensures DecField(f, m, ZeroSlot(f), wire, b, q, limit) ==
              match DecValue(f.members[m].ltype, ZeroValue(f.members[m].ltype), b, q, limit)
              case None => None
              case Some(v) => Some(Parsed(Built(f, m, v.value), v.next))
    ensures SlotOk(f, Built(f, m, x), Held)
  {
  }

  /** The first `i` fields are read and the others untouched. */
  ghost predicate Filled(d: Desc, v: Value, i: nat, slots: seq<Slot>)
    requires DescOk(d) && v.Msg?
  {
    && |slots| == |v.slots| == |d.fields|
    && forall j :: 0 <= j < |slots| ==> slots[j] == if j < i then v.slots[j] else ZeroSlot(d.fields[j])
  }

  /** The required fields among the first `i` have been seen. */
  predicate SeenUpTo(d: Desc, seen: set<nat>, i: nat)
    requires i <= |d.fields|
  {
    forall r :: 0 <= r < RequiredCount(d, i) && r < MAX_REQUIRED ==> r in seen
  }

  ghost predicate TailOk(d: Desc, v: Value, i: nat)
    requires v.Msg? && |v.slots| == |d.fields|
  {
    forall j :: i <= j < |d.fields| ==> SlotOk(d.fields[j], v.slots[j], Decodable)
  }

  lemma ZeroIsFilled(d: Desc, v: Value)
    requires DescOk(d) && MsgOk(d, v, Held)
    ensures Msg(ZeroMsg(d).slots) == ZeroMsg(d) && Filled(d, v, 0, ZeroMsg(d).slots) && SeenUpTo(d, {}, 0)
  {
  }

  lemma MessageSplits(d: Desc, v: Value, i: nat, slots: seq<Slot>, seen: set<nat>, b: Bytes, p: nat, limit: nat)
    requires DescOk(d) && MsgOk(d, v, Held) && MsgOk(d, v, Encodable)
    requires i <= |d.fields| && MsgOk(d, Msg(slots), Held) && Filled(d, v, i, slots) && SeenUpTo(d, seen, i)
    requires At(b, p, limit, EncFields(d, v, i)) && p + |EncFields(d, v, i)| == limit
    ensures i == |d.fields| ==> TailOk(d, v, i) && DecMsg(d, slots, seen, b, p, limit) == Some(v.slots)
    ensures v.Msg? && |slots| == |v.slots| == |d.fields|
    ensures i < |d.fields| ==>
              var f, s := d.fields[i], v.slots[i];
              SlotOk(f, s, Held) && (TailOk(d, v, i) <==> SlotOk(f, s, Decodable) && TailOk(d, v, i + 1))
    ensures i < |d.fields| ==>
              var n := p + |EncSlot(d.fields[i], v.slots[i])|;
              n <= limit <= |b| && At(b, p, limit, EncSlot(d.fields[i], v.slots[i])) && At(b, n, limit, EncFields(d, v, i + 1))
              && n + |EncFields(d, v, i + 1)| == limit
  {
    hide ValueOk, SlotOk, EncSlot, DescOk, FieldOk, ZeroSlot;
    if i == |d.fields| {
      assert slots == v.slots;
    } else {
      AtBoth(b, p, limit, EncSlot(d.fields[i], v.slots[i]), EncFields(d, v, i + 1));
    }
  }

  lemma OneItem(f: Field, items: seq<Value>, wire: nat, b: Bytes, q: nat, limit: nat)
    requires FieldOk(f) && MemberOk(f.members[0]) && f.rule.Repeated? && !(wire == 2 && Packable(f.members[0].ltype))
    requires q <= limit <= |b| && SlotOk(f, Many(items), Held) && |items| < f.rule.max
    ensures DecField(f, 0, Many(items), wire, b, q, limit) ==
              match DecValue(f.members[0].ltype, ZeroValue(f.members[0].ltype), b, q, limit)
              case None => None
              case Some(v) => Some(Parsed(Many(items + [v.value]), v.next))
  {
  }

  lemma PackedItems(f: Field, items: seq<Value>, n: nat, b: Bytes, q: nat, start: nat, limit: nat)
    requires FieldOk(f) && MemberOk(f.members[0]) && f.rule.Repeated? && Packable(f.members[0].ltype)
    requires q <= limit <= |b| && ReadVarint32(b, q, limit) == Some(Parsed(n, start)) && start + n <= limit
    requires DecPacked(f.members[0].ltype, [], f.rule.max, b, start, start + n) == Some(items)
    ensures DecField(f, 0, Many([]), 2, b, q, limit) == Some(Parsed(Many(items), start + n))
  {
    hide DecPacked, DecValue, DecNumber, DecOne, ValueOk, DescOk, ZeroValue;
  }

  lemma NumbersHaveNoTerminator(t: Type, v: Value)
    requires Packable(t)
    ensures ValueOk(t, v, Decodable) <==> ValueOk(t, v, Encodable)
  {
  }

  /** A value reads back into untouched storage, or not at all when it holds a string without room for its terminator. */
  lemma {:induction false} ValueIsRead(t: Type, v: Value, b: Bytes, p: nat, limit: nat)
    requires TypeOk(t) && ValueOk(t, v, Held) && ValueOk(t, v, Encodable) && |b| < TWO_32
    requires At(b, p, limit, EncValue(t, v))
    ensures DecValue(t, ZeroValue(t), b, p, limit) ==
              if ValueOk(t, v, Decodable) then Some(Parsed(v, p + |EncValue(t, v)|)) else None
    decreases t, 0
  {
    hide DecMsg, DecNumber, DecString, EncFields, ZeroMsg, DescOk, ReadVarint32, Varint, Varint32Rest;
    if Packable(t) {
      NumberIsRead(t, v, b, p, limit);
    } else if IsString(t) {
      StringIsRead(t, v.b, b, p, limit);
    } else {
      var d := t.desc;
      var e := EncFields(d, v, 0);
      var start := PrefixedIsRead(b, p, limit, e);
      ZeroIsFilled(d, v);
      MsgIsRead(d, v, 0, ZeroMsg(d).slots, {}, b, start, start + |e|);
    }
  }

  /** One value of a field that is not an array. */
  lemma {:induction false} MemberIsRead(d: Desc, i: nat, m: nat, x: Value, slots: seq<Slot>, seen: set<nat>, b: Bytes, p: nat, limit: nat)
      returns (q: nat)
    requires DescOk(d) && MsgOk(d, Msg(slots), Held) && IsPlace(d, i, m) && !d.fields[i].rule.Repeated? && |b| < TWO_32
    requires FieldOk(d.fields[i]) && MemberOk(d.fields[i].members[m]) && slots[i] == ZeroSlot(d.fields[i])
    requires ValueOk(d.fields[i].members[m].ltype, x, Held) && ValueOk(d.fields[i].members[m].ltype, x, Encodable)
    requires At(b, p, limit, EncMember(d.fields[i].members[m], x))
    ensures q == p + |EncMember(d.fields[i].members[m], x)| <= limit
    ensures MsgOk(d, Msg(slots[i := Built(d.fields[i], m, x)]), Held)
    ensures DecMsg(d, slots, seen, b, p, limit) ==
              if ValueOk(d.fields[i].members[m].ltype, x, Decodable) then
                DecMsg(d, slots[i := Built(d.fields[i], m, x)], See(d, seen, i), b, q, limit)
              else None
    decreases d.fields[i].members[m]
  {
    hide DecMsg, DecField, DecValue, ValueOk, DescOk, EncValue, TypeOk;
    var f := d.fields[i];
    var mem := f.members[m];
    var wire := WireType(mem.ltype);
    var tag, e := EncTag(mem.tag, wire), EncValue(mem.ltype, x);
    AtBoth(b, p, limit, tag, e);
    var start := StepIsTaken(d, i, m, wire, slots, seen, b, p, limit);
    FieldOfValue(f, m, x, wire, b, start, limit);
    ValueIsRead(mem.ltype, x, b, start, limit);
    q := start + |e|;
  }

  lemma {:induction false} MsgIsRead(d: Desc, v: Value, i: nat, slots: seq<Slot>, seen: set<nat>, b: Bytes, p: nat, limit: nat)
    requires DescOk(d) && MsgOk(d, v, Held) && MsgOk(d, v, Encodable) && |b| < TWO_32
    requires i <= |d.fields| && MsgOk(d, Msg(slots), Held) && Filled(d, v, i, slots) && SeenUpTo(d, seen, i)
    requires At(b, p, limit, EncFields(d, v, i)) && p + |EncFields(d, v, i)| == limit
    ensures DecMsg(d, slots, seen, b, p, limit) == if TailOk(d, v, i) then Some(v.slots) else None
    decreases d, |d.fields| - i + 1
  {
    hide *;
    MessageSplits(d, v, i, slots, seen, b, p, limit);
    if i < |d.fields| {
      SlotIsRead(d, v, i, slots, seen, b, p, limit);
      if SlotOk(d.fields[i], v.slots[i], Decodable) {
        MsgIsRead(d, v, i + 1, slots[i := v.slots[i]], See(d, seen, i), b, p + |EncSlot(d.fields[i], v.slots[i])|, limit);
      }
    }
  }

  lemma {:induction false} SlotIsRead(d: Desc, v: Value, i: nat, slots: seq<Slot>, seen: set<nat>, b: Bytes, p: nat, limit: nat)
    requires DescOk(d) && MsgOk(d, v, Held) && MsgOk(d, v, Encodable) && |b| < TWO_32
    requires i < |d.fields| && MsgOk(d, Msg(slots), Held) && Filled(d, v, i, slots) && SeenUpTo(d, seen, i)
    requires At(b, p, limit, EncSlot(d.fields[i], v.slots[i]))
    ensures MsgOk(d, Msg(slots[i := v.slots[i]]), Held) && Filled(d, v, i + 1, slots[i := v.slots[i]])
    ensures SeenUpTo(d, See(d, seen, i), i + 1)
    ensures DecMsg(d, slots, seen, b, p, limit) ==
              if SlotOk(d.fields[i], v.slots[i], Decodable) then
                DecMsg(d, slots[i := v.slots[i]], See(d, seen, i), b, p + |EncSlot(d.fields[i], v.slots[i])|, limit)
              else None
    decreases d, 0
  {
    hide DecMsg, ValueOk, EncMember, EncArray, TypeOk;
    var f, s := d.fields[i], v.slots[i];
    assert SlotOk(f, s, Held) && SlotOk(f, s, Encodable) && FieldOk(f) && MemberOk(f.members[0]);
    match f.rule
    case Required =>
      var q := MemberIsRead(d, i, 0, s.value, slots, seen, b, p, limit);
    case Implicit =>
      if IsZero(f.members[0].ltype, s.value) {
        ZeroSlotIsDefault(f, s);
        assert slots[i := s] == slots;
      } else {
        var q := MemberIsRead(d, i, 0, s.value, slots, seen, b, p, limit);
      }
    case Optional =>
      if s.opt.None? {
        assert slots[i := s] == slots;
      } else {
        var q := MemberIsRead(d, i, 0, s.opt.value, slots, seen, b, p, limit);
      }
    case Repeated(max) =>
      ArrayIsRead(d, i, s.items, slots, seen, b, p, limit);
    case OneOf =>
      if s.chosen.None? {
        assert slots[i := s] == slots;
      } else {
        var q := MemberIsRead(d, i, s.chosen.value.member, s.chosen.value.value, slots, seen, b, p, limit);
      }
  }

  lemma {:induction false} ArrayIsRead(d: Desc, i: nat, items: seq<Value>, slots: seq<Slot>, seen: set<nat>, b: Bytes, p: nat, limit: nat)
    requires DescOk(d) && i < |d.fields| && MsgOk(d, Msg(slots), Held) && |b| < TWO_32
    requires FieldOk(d.fields[i]) && MemberOk(d.fields[i].members[0]) && d.fields[i].rule.Repeated? && slots[i] == Many([])
    requires SlotOk(d.fields[i], Many(items), Held) && SlotOk(d.fields[i], Many(items), Encodable)
    requires At(b, p, limit, EncArray(d.fields[i].members[0], items))
    ensures MsgOk(d, Msg(slots[i := Many(items)]), Held)
    ensures DecMsg(d, slots, seen, b, p, limit) ==
              if SlotOk(d.fields[i], Many(items), Decodable) then
                DecMsg(d, slots[i := Many(items)], seen, b, p + |EncArray(d.fields[i].members[0], items)|, limit)
              else None
    decreases d.fields[i].members[0], |items| + 2
  {
    hide DecMsg, DecField, DecPacked, ValueOk, EncItems, TypeOk, DescOk;
    var f := d.fields[i];
    var m := f.members[0];
    if items == [] {
      assert slots[i := Many(items)] == slots;
    } else if Packable(m.ltype) {
      var tag, e := EncTag(m.tag, 2), EncItems(m, items, 0);
      AtBoth(b, p, limit, tag, Prefixed(e));
      var q := StepIsTaken(d, i, 0, 2, slots, seen, b, p, limit);
      var start := PrefixedIsRead(b, q, limit, e);
      PackedIsRead(m, items, 0, f.rule.max, b, start, start + |e|);
      assert items[..0] == [];
      PackedItems(f, items, |e|, b, q, start, limit);
      forall k | 0 <= k < |items| ensures ValueOk(m.ltype, items[k], Decodable) {
        NumbersHaveNoTerminator(m.ltype, items[k]);
      }
    } else {
      assert slots[i := Many(items[..0])] == slots;
      ItemsAreRead(d, i, items, 0, slots, seen, b, p, limit);
    }
  }

  /** One more item of an array. */
  lemma {:induction false} ItemIsRead(d: Desc, i: nat, items: seq<Value>, j: nat, slots: seq<Slot>, seen: set<nat>, b: Bytes, p: nat, limit: nat)
      returns (q: nat)
    requires DescOk(d) && i < |d.fields| && MsgOk(d, Msg(slots), Held) && |b| < TWO_32
    requires FieldOk(d.fields[i]) && MemberOk(d.fields[i].members[0]) && d.fields[i].rule.Repeated?
    requires j < |items| && slots[i] == Many(items[..j])
    requires SlotOk(d.fields[i], Many(items), Held) && SlotOk(d.fields[i], Many(items), Encodable)
    requires At(b, p, limit, EncMember(d.fields[i].members[0], items[j]))
    ensures q == p + |EncMember(d.fields[i].members[0], items[j])| <= limit
    ensures MsgOk(d, Msg(slots[i := Many(items[..j + 1])]), Held)
    ensures DecMsg(d, slots, seen, b, p, limit) ==
              if ValueOk(d.fields[i].members[0].ltype, items[j], Decodable) then
                DecMsg(d, slots[i := Many(items[..j + 1])], seen, b, q, limit)
              else None
    decreases d.fields[i].members[0], 0
  {
    hide DecMsg, DecField, DecValue, ValueOk, EncValue, TypeOk, DescOk;
    var f := d.fields[i];
    var m := f.members[0];
    var wire := WireType(m.ltype);
    var tag, e := EncTag(m.tag, wire), EncValue(m.ltype, items[j]);
    AtBoth(b, p, limit, tag, e);
    var start := StepIsTaken(d, i, 0, wire, slots, seen, b, p, limit);
    OneItem(f, items[..j], wire, b, start, limit);
    ValueIsRead(m.ltype, items[j], b, start, limit);
    assert items[..j] + [items[j]] == items[..j + 1];
    q := start + |e|;
  }

  lemma {:induction false} ItemsAreRead(d: Desc, i: nat, items: seq<Value>, j: nat, slots: seq<Slot>, seen: set<nat>, b: Bytes, p: nat, limit: nat)
    requires DescOk(d) && i < |d.fields| && MsgOk(d, Msg(slots), Held) && |b| < TWO_32
    requires FieldOk(d.fields[i]) && MemberOk(d.fields[i].members[0]) && d.fields[i].rule.Repeated?
    requires j <= |items| && slots[i] == Many(items[..j]) && !Packable(d.fields[i].members[0].ltype)
    requires SlotOk(d.fields[i], Many(items), Held) && SlotOk(d.fields[i], Many(items), Encodable)
    requires At(b, p, limit, EncItems(d.fields[i].members[0], items, j))
    ensures MsgOk(d, Msg(slots[i := Many(items)]), Held)
    ensures DecMsg(d, slots, seen, b, p, limit) ==
              if forall k :: j <= k < |items| ==> ValueOk(d.fields[i].members[0].ltype, items[k], Decodable) then
                DecMsg(d, slots[i := Many(items)], seen, b, p + |EncItems(d.fields[i].members[0], items, j)|, limit)
              else None
    decreases d.fields[i].members[0], |items| - j + 1
  {
    hide *;
    SlotReplaced(d, slots, i, Many(items));
    ItemsSplit(d.fields[i], items, j, b, p, limit);
    var m := d.fields[i].members[0];
    if j == |items| {
      assert items[..j] == items && slots[i := Many(items)] == slots;
    } else {
      var q := ItemIsRead(d, i, items, j, slots, seen, b, p, limit);
      if ValueOk(m.ltype, items[j], Decodable) {
        var slots' := slots[i := Many(items[..j + 1])];
        assert slots'[i := Many(items)] == slots[i := Many(items)];
        ItemsAreRead(d, i, items, j + 1, slots', seen, b, q, limit);
      }
    }
  }

  lemma SlotReplaced(d: Desc, slots: seq<Slot>, i: nat, s: Slot)
    requires MsgOk(d, Msg(slots), Held) && i < |d.fields| && SlotOk(d.fields[i], s, Held)
    ensures |slots| == |d.fields| && MsgOk(d, Msg(slots[i := s]), Held)
  {
  }

  lemma ItemsSplit(f: Field, items: seq<Value>, j: nat, b: Bytes, p: nat, limit: nat)
    requires FieldOk(f) && f.rule.Repeated? && SlotOk(f, Many(items), Held) && j <= |items| && !Packable(f.members[0].ltype)
    requires At(b, p, limit, EncItems(f.members[0], items, j))
    ensures |f.members| > 0 && p <= limit <= |b|
    ensures forall k :: 0 <= k < |items| ==> ValueOk(f.members[0].ltype, items[k], Held)
    ensures j == |items| ==> EncItems(f.members[0], items, j) == []
    ensures j < |items| ==>
              var e, rest := EncMember(f.members[0], items[j]), EncItems(f.members[0], items, j + 1);
              At(b, p, limit, e) && At(b, p + |e|, limit, rest) && EncItems(f.members[0], items, j) == e + rest
  {
    if j < |items| {
      ItemThenRest(f.members[0], items, j);
      AtBoth(b, p, limit, EncMember(f.members[0], items[j]), EncItems(f.members[0], items, j + 1));
    }
  }

  lemma ItemThenRest(m: Member, items: seq<Value>, j: nat)
    requires j < |items| && !Packable(m.ltype) && forall i :: 0 <= i < |items| ==> ValueOk(m.ltype, items[i], Held)
    ensures EncItems(m, items, j) == EncMember(m, items[j]) + EncItems(m, items, j + 1)
  {
    hide EncValue, ValueOk;
    var tag, e, rest := EncTag(m.tag, WireType(m.ltype)), EncValue(m.ltype, items[j]), EncItems(m, items, j + 1);
    assert tag + (e + rest) == (tag + e) + rest;
  }

  /** pb_decode of what pb_encode wrote rebuilds the message exactly when every string that is written leaves room
      for its terminator, and fails otherwise. */
  lemma DecodeUndoesEncode(d: Desc, v: Value)
    requires DescOk(d) && MsgOk(d, v, Held) && MsgOk(d, v, Encodable) && |EncFields(d, v, 0)| < TWO_32
    ensures var e := EncFields(d, v, 0);
            DecMsg(d, ZeroMsg(d).slots, {}, e, 0, |e|) == if MsgOk(d, v, Decodable) then Some(v.slots) else None
  {
    var e := EncFields(d, v, 0);
    ZeroIsFilled(d, v);
    assert e[0..0 + |e|] == e;
    MsgIsRead(d, v, 0, ZeroMsg(d).slots, {}, e, 0, |e|);
  }
}
