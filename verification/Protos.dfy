/** Messages, their descriptors, and the bytes of a message (nanopb/pb.h, nanopb/pb_encode.c).  The wire format is
    that of "Encoding" in the Protocol Buffers documentation ("Base 128 Varints", "Signed Integers"). */
module Protos {
  import opened Keys
  import opened Coding

  // ---------- Descriptors ----------

  /** LTYPE, with data_size where it matters. */
  datatype Type =
    | Bool
    | Signed(size: nat)
    | Unsigned(size: nat)
    | ZigZagged(size: nat)
    | Fix32
    | Fix64
    | Blob(room: nat)
    | Text(room: nat)
    | FixedBlob(length: nat)
    | Sub(desc: Desc)

  /** HTYPE.  Implicit is an optional field without a has_ field (proto3); `max` is array_size. */
  datatype Rule = Required | Optional | Implicit | Repeated(max: nat) | OneOf

  datatype Member = Member(tag: nat, ltype: Type)

  /** One field, or the fields of one union, which come one after the other. */
  datatype Field = Field(rule: Rule, members: seq<Member>)

  datatype Desc = Desc(fields: seq<Field>)

  const SIZE_LIMIT: nat := 0x1_0000

  ghost predicate TypeOk(t: Type) {
    match t
    case Signed(s) => GoodSize(s)
    case Unsigned(s) => GoodSize(s)
    case ZigZagged(s) => GoodSize(s)
    case Blob(r) => r < SIZE_LIMIT
    case Text(r) => 0 < r < SIZE_LIMIT
    case FixedBlob(n) => n < SIZE_LIMIT
    case Sub(d) => DescOk(d)
    case _ => true
  }

  ghost predicate MemberOk(m: Member) {
    1 <= m.tag < SIZE_LIMIT && TypeOk(m.ltype)
  }

  predicate GoodSize(s: nat) {
    s == 1 || s == 2 || s == 4 || s == 8
  }

  ghost predicate FieldOk(f: Field) {
    && |f.members| > 0 && (f.rule.OneOf? || |f.members| == 1)
    && (f.rule.Repeated? ==> f.rule.max < SIZE_LIMIT)
    && forall m :: 0 <= m < |f.members| ==> MemberOk(f.members[m])
  }

  /** A descriptor as the generator writes it: pb_size_t is 16 bits wide and no two fields share a tag. */
  ghost predicate DescOk(d: Desc) {
    && (forall i :: 0 <= i < |d.fields| ==> FieldOk(d.fields[i]))
    && DistinctTags(d)
  }

  /** Field `i` of the descriptor has a member `m`. */
  predicate IsPlace(d: Desc, i: nat, m: nat) {
    i < |d.fields| && m < |d.fields[i].members|
  }

  function TagAt(d: Desc, i: nat, m: nat): nat
    requires IsPlace(d, i, m)
  {
    d.fields[i].members[m].tag
  }

  ghost predicate DistinctTags(d: Desc) {
    forall i, m, j, n :: IsPlace(d, i, m) && IsPlace(d, j, n) && TagAt(d, i, m) == TagAt(d, j, n) ==> i == j && m == n
  }

  // ---------- Values ----------

  datatype Value = Num(n: int) | Raw(b: Bytes) | Msg(slots: seq<Slot>)

  /** What the struct holds for a field: its value; a value with a has_ field; an array with its count; or a union
      with its which_ field.  Storage that has_ or which_ declares unset is not part of the value. */
  datatype Slot = One(value: Value) | Maybe(opt: Option<Value>) | Many(items: seq<Value>) | Union(chosen: Option<Pick>)

  datatype Pick = Pick(member: nat, value: Value)

  /** Held by a struct; accepted by the encoder; and, for strings, with room for the terminator. */
  datatype Level = Held | Encodable | Decodable

  function Span(size: nat): nat {
    if size == 1 then 0x100 else if size == 2 then 0x1_0000 else if size == 4 then TWO_32 else TWO_64
  }

  /** A signed integer of that many values. */
  predicate Fits(n: int, span: nat) {
    0 <= 2 * n + span && 2 * n < span
  }

  predicate ValueOk(t: Type, v: Value, level: Level)
    decreases t, 0
  {
    match t
    case Bool => v.Num? && (v.n == 0 || v.n == 1)
    case Signed(s) => v.Num? && Fits(v.n, Span(s)) && (level.Held? || GoodSize(s))
    case Unsigned(s) => v.Num? && 0 <= v.n < Span(s) && (level.Held? || GoodSize(s))
    case ZigZagged(s) => v.Num? && Fits(v.n, Span(s)) && (level.Held? || GoodSize(s))
    case Fix32 => v.Num? && 0 <= v.n < TWO_32
    case Fix64 => v.Num? && 0 <= v.n < TWO_64
    case Blob(r) => v.Raw? && |v.b| < SIZE_LIMIT && (level.Held? || |v.b| + BYTES_OFFSET <= r)
    case Text(r) => v.Raw? && |v.b| <= r && 0 !in v.b && (level.Decodable? ==> |v.b| < r)
    case FixedBlob(n) => v.Raw? && |v.b| == n
    case Sub(d) => MsgOk(d, v, level)
  }

  /** offsetof(pb_bytes_array_t, bytes). */
  const BYTES_OFFSET: nat := 2

  predicate SlotOk(f: Field, s: Slot, level: Level)
    decreases f, 0
  {
    && |f.members| > 0
    && match f.rule
       case Required => s.One? && ValueOk(f.members[0].ltype, s.value, level)
       case Implicit => s.One? && ValueOk(f.members[0].ltype, s.value, Held)
                        && (level.Held? || IsZero(f.members[0].ltype, s.value) || ValueOk(f.members[0].ltype, s.value, level))
       case Optional => s.Maybe? && (s.opt.Some? ==> ValueOk(f.members[0].ltype, s.opt.value, level))
       case Repeated(max) => s.Many? && |s.items| < SIZE_LIMIT && (level.Held? || |s.items| <= max)
                             && forall j :: 0 <= j < |s.items| ==> ValueOk(f.members[0].ltype, s.items[j], level)
       case OneOf => s.Union? && (s.chosen.Some? ==>
                       s.chosen.value.member < |f.members| && ValueOk(f.members[s.chosen.value.member].ltype, s.chosen.value.value, level))
  }

  predicate MsgOk(d: Desc, v: Value, level: Level)
    decreases d, 0
  {
    v.Msg? && |v.slots| == |d.fields| && forall i :: 0 <= i < |d.fields| ==> SlotOk(d.fields[i], v.slots[i], level)
  }

  // ---------- Defaults ----------

  /** pb_check_proto3_default_value, for the value of a field without a has_ field. */
  predicate IsZero(t: Type, v: Value)
    requires ValueOk(t, v, Held)
    decreases t, 1
  {
    match t
    case Blob(_) => v.b == []
    case Text(_) => v.b == []
    case FixedBlob(n) => n == 0
    case Sub(d) => assert MsgOk(d, v, Held); forall i :: 0 <= i < |d.fields| ==> SlotIsZero(d.fields[i], v.slots[i])
    case _ => v.n == 0
  }

  predicate SlotIsZero(f: Field, s: Slot)
    requires SlotOk(f, s, Held)
    decreases f, 1
  {
    match f.rule
    case Required => false
    case Implicit => IsZero(f.members[0].ltype, s.value)
    case Optional => s.opt.None?
    case Repeated(_) => s.items == []
    case OneOf => s.chosen.None?
  }

  /** pb_message_set_to_defaults. */
  function ZeroValue(t: Type): (v: Value)
    requires TypeOk(t)
    ensures ValueOk(t, v, Held)
    decreases t
  {
    match t
    case Blob(_) => Raw([])
    case Text(_) => Raw([])
    case FixedBlob(n) => Raw(seq(n, _ => 0))
    case Sub(d) => ZeroMsg(d)
    case _ => Num(0)
  }

  function ZeroSlot(f: Field): (s: Slot)
    requires FieldOk(f)
    ensures SlotOk(f, s, Held)
    decreases f
  {
    assert MemberOk(f.members[0]);
    match f.rule
    case Optional => Maybe(None)
    case Repeated(_) => Many([])
    case OneOf => Union(None)
    case _ => One(ZeroValue(f.members[0].ltype))
  }

  function ZeroMsg(d: Desc): (v: Value)
    requires DescOk(d)
    ensures MsgOk(d, v, Held)
    decreases d
  {
    Msg(seq(|d.fields|, i requires 0 <= i < |d.fields| => ZeroSlot(d.fields[i])))
  }

  /** A field left out because its value is zero reads back as that value. */
  lemma {:induction false} ZeroIsDefault(t: Type, v: Value)
    requires TypeOk(t) && ValueOk(t, v, Held) && IsZero(t, v)
    ensures v == ZeroValue(t)
    decreases t
  {
    if t.FixedBlob? {
      assert v.b == [];
    } else if t.Sub? {
      var d := t.desc;
      forall i | 0 <= i < |d.fields| ensures v.slots[i] == ZeroSlot(d.fields[i]) {
        assert SlotOk(d.fields[i], v.slots[i], Held) && SlotIsZero(d.fields[i], v.slots[i]);
        ZeroSlotIsDefault(d.fields[i], v.slots[i]);
      }
      assert v.slots == ZeroMsg(d).slots;
    }
  }

  /** Types whose default the encoder takes for zero: no byte array of a fixed length, no message with a required field. */
  predicate Omittable(t: Type)
    decreases t
  {
    match t
    case FixedBlob(n) => n == 0
    case Sub(d) => forall i :: 0 <= i < |d.fields| ==> SlotOmittable(d.fields[i])
    case _ => true
  }

  predicate SlotOmittable(f: Field)
    decreases f
  {
    match f.rule
    case Required => false
    case Implicit => |f.members| > 0 && Omittable(f.members[0].ltype)
    case _ => true
  }

  /** The encoder leaves a value out exactly if it is the default and the type is one of those. */
  lemma {:induction false} ZeroIsOmittedIff(t: Type, v: Value)
    requires TypeOk(t) && ValueOk(t, v, Held)
    ensures IsZero(t, v) <==> v == ZeroValue(t) && Omittable(t)
    decreases t
  {
    if t.Sub? {
      var d := t.desc;
      assert MsgOk(d, v, Held);
      forall i | 0 <= i < |d.fields| ensures SlotIsZero(d.fields[i], v.slots[i]) <==> v.slots[i] == ZeroSlot(d.fields[i]) && SlotOmittable(d.fields[i]) {
        assert SlotOk(d.fields[i], v.slots[i], Held);
        ZeroSlotIsOmittedIff(d.fields[i], v.slots[i]);
      }
      assert v == ZeroValue(t) <==> forall i :: 0 <= i < |d.fields| ==> v.slots[i] == ZeroSlot(d.fields[i]);
    } else if t.FixedBlob? {
      assert t.length == 0 ==> v.b == [];
    }
  }

  lemma {:induction false} ZeroSlotIsOmittedIff(f: Field, s: Slot)
    requires FieldOk(f) && SlotOk(f, s, Held)
    ensures SlotIsZero(f, s) <==> s == ZeroSlot(f) && SlotOmittable(f)
    decreases f
  {
    if f.rule.Implicit? {
      assert MemberOk(f.members[0]);
      ZeroIsOmittedIff(f.members[0].ltype, s.value);
    }
  }

  lemma {:induction false} ZeroSlotIsDefault(f: Field, s: Slot)
    requires FieldOk(f) && SlotOk(f, s, Held) && SlotIsZero(f, s)
    ensures s == ZeroSlot(f)
    decreases f
  {
    if f.rule.Implicit? {
      ZeroIsDefault(f.members[0].ltype, s.value);
    }
  }

  // ---------- Bytes ----------

  /** PB_WT_STRING and the other wire types. */
  function WireType(t: Type): nat {
    match t
    case Bool => 0
    case Signed(_) => 0
    case Unsigned(_) => 0
    case ZigZagged(_) => 0
    case Fix32 => 5
    case Fix64 => 1
    case _ => 2
  }

  predicate Packable(t: Type) {
    !(t.Blob? || t.Text? || t.FixedBlob? || t.Sub?)
  }

  function EncTag(tag: nat, wire: nat): Bytes {
    Varint(8 * tag + wire)
  }

  /** The unsigned 64-bit representation of a signed integer. */
  function AsUnsigned(n: int): (u: nat)
    requires Fits(n, TWO_64)
    ensures u < TWO_64
  {
    if n < 0 then n + TWO_64 else n
  }

  function ZigZag(n: int): (u: nat)
    requires Fits(n, TWO_64)
    ensures u < TWO_64
  {
    if n < 0 then -2 * n - 1 else 2 * n
  }

  function Prefixed(b: Bytes): Bytes {
    Varint(|b|) + b
  }

  function EncValue(t: Type, v: Value): Bytes
    requires ValueOk(t, v, Held)
    decreases t
  {
    match t
    case Bool => Varint(v.n)
    case Signed(_) => Varint(AsUnsigned(v.n))
    case Unsigned(_) => Varint(v.n)
    case ZigZagged(_) => Varint(ZigZag(v.n))
    case Fix32 => Fixed32(v.n)
    case Fix64 => Fixed64(v.n)
    case Blob(_) => Prefixed(v.b)
    case Text(_) => Prefixed(v.b)
    case FixedBlob(_) => Prefixed(v.b)
    case Sub(d) => Prefixed(EncFields(d, v, 0))
  }

  /** The values of an array from number `j` on, each with its tag unless they are packed. */
  function EncItems(m: Member, items: seq<Value>, j: nat): Bytes
    requires j <= |items| && forall i :: 0 <= i < |items| ==> ValueOk(m.ltype, items[i], Held)
    decreases m, |items| - j
  {
    if j == |items| then []
    else if Packable(m.ltype) then EncValue(m.ltype, items[j]) + EncItems(m, items, j + 1)
    else EncTag(m.tag, WireType(m.ltype)) + (EncValue(m.ltype, items[j]) + EncItems(m, items, j + 1))
  }

  function EncMember(m: Member, v: Value): Bytes
    requires ValueOk(m.ltype, v, Held)
    decreases m
  {
    EncTag(m.tag, WireType(m.ltype)) + EncValue(m.ltype, v)
  }

  function EncArray(m: Member, items: seq<Value>): Bytes
    requires forall i :: 0 <= i < |items| ==> ValueOk(m.ltype, items[i], Held)
    decreases m, |items| + 1
  {
    if items == [] then []
    else if Packable(m.ltype) then EncTag(m.tag, 2) + Prefixed(EncItems(m, items, 0))
    else EncItems(m, items, 0)
  }

  function EncSlot(f: Field, s: Slot): Bytes
    requires SlotOk(f, s, Held)
    decreases f
  {
    var m := f.members[0];
    match f.rule
    case Required => EncMember(m, s.value)
    case Implicit => if IsZero(m.ltype, s.value) then [] else EncMember(m, s.value)
    case Optional => if s.opt.None? then [] else EncMember(m, s.opt.value)
    case Repeated(_) => EncArray(m, s.items)
    case OneOf => if s.chosen.None? then [] else EncMember(f.members[s.chosen.value.member], s.chosen.value.value)
  }

  /** The fields from number `i` on. */
  function EncFields(d: Desc, v: Value, i: nat): Bytes
    requires MsgOk(d, v, Held) && i <= |d.fields|
    decreases d, |d.fields| - i
  {
    if i == |d.fields| then [] else EncSlot(d.fields[i], v.slots[i]) + EncFields(d, v, i + 1)
  }
}
