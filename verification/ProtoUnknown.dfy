/** Fields that a descriptor does not know, and what the bytes of a message tell a reader without a descriptor
    ("Message Structure" in "Encoding" of the Protocol Buffers documentation). */
module ProtoUnknown {
  import opened Keys
  import opened Coding
  import opened Protos
  import opened ProtoReading
  import opened ProtoRoundTrip

  // ---------- The four shapes of a value ----------

  /** Bytes that go on while their high bit is set. */
  predicate OneVarint(e: Bytes) {
    e != [] && e[|e| - 1] < 128 && forall i :: 0 <= i < |e| - 1 ==> e[i] >= 128
  }

  ghost predicate OneString(e: Bytes) {
    exists s :: |s| < TWO_32 && e == Prefixed(s)
  }

  /** What may stand behind a tag: a varint (0), eight bytes (1), a length and that many bytes (2), four bytes (5). */
  ghost predicate WellFormed(wire: nat, e: Bytes) {
    || (wire == 0 && OneVarint(e))
    || (wire == 1 && |e| == 8)
    || (wire == 2 && OneString(e))
    || (wire == 5 && |e| == 4)
  }

  lemma AtByte(b: Bytes, p: nat, limit: nat, e: Bytes, i: nat)
    requires At(b, p, limit, e) && i < |e|
    ensures b[p + i] == e[i]
  {
    assert b[p..p + |e|][i] == b[p + i];
  }

  lemma {:induction false} VarintIsSkipped(b: Bytes, p: nat, limit: nat, e: Bytes)
    requires At(b, p, limit, e) && OneVarint(e)
    ensures SkipVarint(b, p, limit) == Some(p + |e|)
    decreases |e|
  {
    AtByte(b, p, limit, e, 0);
    if |e| > 1 {
      assert b[p + 1..p + |e|] == b[p..p + |e|][1..];
      VarintIsSkipped(b, p + 1, limit, e[1..]);
    }
  }

  /** Skipping by the wire type ends right behind a well-formed value. */
  lemma ValueIsSkipped(b: Bytes, p: nat, limit: nat, wire: nat, e: Bytes)
    requires At(b, p, limit, e) && WellFormed(wire, e)
    ensures SkipField(b, p, limit, wire) == Some(p + |e|)
  {
    if wire == 0 {
      VarintIsSkipped(b, p, limit, e);
    } else if wire == 2 {
      var s :| |s| < TWO_32 && e == Prefixed(s);
      var start := PrefixedIsRead(b, p, limit, s);
    }
  }

  lemma {:induction false} VarintsAreWellFormed(v: nat)
    ensures OneVarint(Varint(v))
  {
    if v >= 128 {
      VarintsAreWellFormed(v / 128);
      assert Varint(v) == [(v % 128 + 128) as byte] + Varint(v / 128);
    }
  }

  /** The wire type in front of a value is that of the value's shape. */
  lemma EncodedIsWellFormed(t: Type, v: Value)
    requires ValueOk(t, v, Held) && |EncValue(t, v)| < TWO_32
    ensures WellFormed(WireType(t), EncValue(t, v))
  {
    match t
    case Bool => VarintsAreWellFormed(v.n);
    case Signed(_) => VarintsAreWellFormed(AsUnsigned(v.n));
    case Unsigned(_) => VarintsAreWellFormed(v.n);
    case ZigZagged(_) => VarintsAreWellFormed(ZigZag(v.n));
    case Fix32 =>
    case Fix64 =>
    case Sub(d) => assert EncValue(t, v) == Prefixed(EncFields(d, v, 0));
    case _ => assert EncValue(t, v) == Prefixed(v.b);
  }

  lemma TagIsRead(b: Bytes, p: nat, limit: nat, tag: nat, wire: nat) returns (q: nat)
    requires At(b, p, limit, EncTag(tag, wire)) && wire < 8 && 8 * tag + wire < TWO_32
    ensures q == p + |EncTag(tag, wire)| && p < q <= limit
    ensures ReadVarint32(b, p, limit) == Some(Parsed(8 * tag + wire, q))
    ensures (8 * tag + wire) / 8 == tag && (8 * tag + wire) % 8 == wire
  {
    q := p + |EncTag(tag, wire)|;
    Varint32IsReadBack(b, p, limit, 8 * tag + wire);
    FirstGroup(b, p, limit, 8 * tag + wire, (8 * tag + wire) % 128);
  }

  /** A reader that knows no descriptor finds the end of an encoded value: it skips by the low three bits of the tag. */
  lemma TagTellsTheEnd(m: Member, v: Value, b: Bytes, p: nat, limit: nat)
    requires MemberOk(m) && ValueOk(m.ltype, v, Held) && |EncValue(m.ltype, v)| < TWO_32
    requires At(b, p, limit, EncMember(m, v))
    ensures var key := ReadVarint32(b, p, limit);
            key.Some? && SkipField(b, key.value.next, limit, key.value.value % 8) == Some(p + |EncMember(m, v)|)
  {
    hide EncValue, WellFormed, SkipField, ReadVarint32, EncTag, ValueOk;
    var wire, e := WireType(m.ltype), EncValue(m.ltype, v);
    AtBoth(b, p, limit, EncTag(m.tag, wire), e);
    var q := TagIsRead(b, p, limit, m.tag, wire);
    EncodedIsWellFormed(m.ltype, v);
    ValueIsSkipped(b, q, limit, wire, e);
  }

  // ---------- Messages as fields on the wire ----------

  /** A field on the wire: a tag, a wire type, and a value or the fields of a submessage. */
  datatype Item = Item(tag: nat, wire: nat, body: Body)

  datatype Body = Flat(e: Bytes) | Nested(items: seq<Item>)

  function BodyBytes(body: Body): Bytes
    decreases body
  {
    match body
    case Flat(e) => e
    case Nested(items) => Prefixed(AllBytes(items))
  }

  function ItemBytes(item: Item): Bytes
    decreases item
  {
    EncTag(item.tag, item.wire) + BodyBytes(item.body)
  }

  function AllBytes(items: seq<Item>): Bytes
    decreases items
  {
    if items == [] then [] else ItemBytes(items[0]) + AllBytes(items[1..])
  }

  ghost predicate WireOk(item: Item) {
    && 1 <= item.tag && item.wire < 8 && 8 * item.tag + item.wire < TWO_32
    && WellFormed(item.wire, BodyBytes(item.body))
  }

  /** Known fields are of the wire type of their member (or packed); unknown ones are any that are well formed. */
  ghost predicate ItemOk(d: Desc, item: Item)
    decreases item
  {
    && WireOk(item)
    && match Find(d, item.tag)
       case None => true
       case Some(at) => BodyOk(d.fields[at.field].members[at.member].ltype, d.fields[at.field].rule, item.wire, item.body)
  }

  ghost predicate BodyOk(t: Type, rule: Rule, wire: nat, body: Body)
    decreases body
  {
    match body
    case Flat(_) => !t.Sub? && (wire == WireType(t) || (rule.Repeated? && Packable(t) && wire == 2))
    case Nested(items) => t.Sub? && wire == 2 && |AllBytes(items)| < TWO_32 && ItemsOk(t.desc, items)
  }

  ghost predicate ItemsOk(d: Desc, items: seq<Item>)
    decreases items
  {
    forall k :: 0 <= k < |items| ==> ItemOk(d, items[k])
  }

  ghost predicate Unknown(d: Desc, item: Item) {
    Find(d, item.tag).None?
  }

  /** The fields without the unknown ones, at every depth. */
  ghost function Known(d: Desc, items: seq<Item>): seq<Item>
    decreases items
  {
    if items == [] then []
    else
      var rest := Known(d, items[1..]);
      match Find(d, items[0].tag)
      case None => rest
      case Some(at) => [KnownItem(d.fields[at.field].members[at.member].ltype, items[0])] + rest
  }

  ghost function KnownItem(t: Type, item: Item): Item
    decreases item
  {
    if t.Sub? && item.body.Nested? then item.(body := Nested(Known(t.desc, item.body.items))) else item
  }

  // ---------- Reading the same bytes in two places ----------

  /** The next `n` bytes are the same in both streams, and both end there or the last of them ends a varint. */
  ghost predicate Window(b: Bytes, p: nat, limit: nat, b': Bytes, p': nat, limit': nat, n: nat) {
    && p + n <= limit <= |b| && p' + n <= limit' <= |b'|
    && b[p..p + n] == b'[p'..p' + n]
    && ((p + n == limit && p' + n == limit') || (n > 0 && b[p + n - 1] < 128))
  }

  lemma SameByte(b: Bytes, p: nat, b': Bytes, p': nat, n: nat, i: nat)
    requires p + n <= |b| && p' + n <= |b'| && b[p..p + n] == b'[p'..p' + n] && i < n
    ensures b[p + i] == b'[p' + i]
  {
    assert b[p..p + n][i] == b'[p'..p' + n][i];
  }

  lemma WindowGoesOn(b: Bytes, p: nat, limit: nat, b': Bytes, p': nat, limit': nat, n: nat, k: nat)
    requires Window(b, p, limit, b', p', limit', n) && k <= n && (k == n ==> p + n == limit && p' + n == limit')
    ensures Window(b, p + k, limit, b', p' + k, limit', n - k)
  {
    assert b[p + k..p + n] == b[p..p + n][k..] && b'[p' + k..p' + n] == b'[p'..p' + n][k..];
  }

  /** The next `n` bytes are one varint. */
  predicate VarintAhead(b: Bytes, p: nat, n: nat) {
    n > 0 && p + n <= |b| && b[p + n - 1] < 128 && forall i :: p <= i < p + n - 1 ==> b[i] >= 128
  }

  /** The same value read, and as many bytes; all `n` if they are one varint. */
  ghost predicate SameRead<T(!new)>(r: Option<Parsed<T>>, r': Option<Parsed<T>>, b: Bytes, p: nat, p': nat, n: nat) {
    && r.Some? == r'.Some?
    && (r.Some? ==> r.value.value == r'.value.value && r.value.next - p == r'.value.next - p' && r.value.next <= p + n)
    && (r.Some? && VarintAhead(b, p, n) ==> r.value.next == p + n)
  }

  /** One turn of the 32-bit loop: whether the group is refused, the bits so far, the next bit position. */
  predicate Refused(group: byte, bitpos: nat, result: nat) {
    if bitpos >= 32 then group % 128 != 0 && (result < TWO_32 / 2 || group != if bitpos < 63 then 0xFF else 0x01)
    else bitpos == 28 && 16 <= group < 128
  }

  function ResultAfter(group: byte, bitpos: nat, result: nat): nat {
    if bitpos >= 32 then result else WithGroup(result, group, bitpos)
  }

  function PositionAfter(bitpos: nat): nat {
    if bitpos >= 32 then (bitpos + 7) % 256 else bitpos + 7
  }

  lemma Rest32Step(b: Bytes, p: nat, limit: nat, bitpos: nat, result: nat)
    requires limit <= |b|
    ensures Varint32Rest(b, p, limit, bitpos, result) ==
              if p >= limit || Refused(b[p], bitpos, result) then None
              else if b[p] >= 128 then Varint32Rest(b, p + 1, limit, PositionAfter(bitpos), ResultAfter(b[p], bitpos, result))
              else Some(Parsed(ResultAfter(b[p], bitpos, result), p + 1))
  {
    hide WithGroup;
  }

  lemma {:induction false} Rest32Agrees(b: Bytes, p: nat, limit: nat, b': Bytes, p': nat, limit': nat, n: nat, bitpos: nat, result: nat)
    requires Window(b, p, limit, b', p', limit', n)
    ensures SameRead(Varint32Rest(b, p, limit, bitpos, result), Varint32Rest(b', p', limit', bitpos, result), b, p, p', n)
    decreases n
  {
    hide Varint32Rest, Refused, ResultAfter, PositionAfter;
    Rest32Step(b, p, limit, bitpos, result);
    Rest32Step(b', p', limit', bitpos, result);
    if n > 0 {
      SameByte(b, p, b', p', n, 0);
      if b[p] >= 128 {
        WindowGoesOn(b, p, limit, b', p', limit', n, 1);
        Rest32Agrees(b, p + 1, limit, b', p' + 1, limit', n - 1, PositionAfter(bitpos), ResultAfter(b[p], bitpos, result));
      }
    }
  }

  lemma Read32Agrees(b: Bytes, p: nat, limit: nat, b': Bytes, p': nat, limit': nat, n: nat)
    requires Window(b, p, limit, b', p', limit', n)
    ensures SameRead(ReadVarint32(b, p, limit), ReadVarint32(b', p', limit'), b, p, p', n)
  {
    hide Varint32Rest;
    if n > 0 {
      SameByte(b, p, b', p', n, 0);
    }
    if n > 0 && b[p] >= 128 {
      WindowGoesOn(b, p, limit, b', p', limit', n, 1);
      Rest32Agrees(b, p + 1, limit, b', p' + 1, limit', n - 1, 7, b[p] as nat % 128);
    }
  }

  lemma NoVarint(b: Bytes, p: nat, limit: nat, groups: nat, scale: nat, modulus: nat, result: nat)
    requires limit <= |b| && modulus > 0 && (groups == 0 || p >= limit)
    ensures VarintFrom(b, p, limit, groups, scale, modulus, result) == None
  {
  }

  lemma {:induction false} VarintAgrees(b: Bytes, p: nat, limit: nat, b': Bytes, p': nat, limit': nat, n: nat,
                                        groups: nat, scale: nat, modulus: nat, result: nat)
    requires Window(b, p, limit, b', p', limit', n) && modulus > 0
    ensures SameRead(VarintFrom(b, p, limit, groups, scale, modulus, result), VarintFrom(b', p', limit', groups, scale, modulus, result),
                     b, p, p', n)
    decreases n
  {
    if n > 0 {
      SameByte(b, p, b', p', n, 0);
    }
    hide VarintFrom;
    if n == 0 || groups == 0 {
      NoVarint(b, p, limit, groups, scale, modulus, result);
      NoVarint(b', p', limit', groups, scale, modulus, result);
    } else {
      var digit := b[p] as nat % 128;
      var result' := (result + digit * scale) % modulus;
      VarintStep(b, p, limit, groups, scale, modulus, result, digit, result');
      VarintStep(b', p', limit', groups, scale, modulus, result, digit, result');
      if b[p] >= 128 {
        WindowGoesOn(b, p, limit, b', p', limit', n, 1);
        VarintAgrees(b, p + 1, limit, b', p' + 1, limit', n - 1, groups - 1, scale * 128, modulus, result');
      }
    }
  }

  lemma FixedAgrees(b: Bytes, p: nat, b': Bytes, p': nat)
    requires p + 4 <= |b| && p' + 4 <= |b'| && b[p..p + 4] == b'[p'..p' + 4]
    ensures GetFixed32(b, p) == GetFixed32(b', p')
  {
    SameByte(b, p, b', p', 4, 0);
    SameByte(b, p, b', p', 4, 1);
    SameByte(b, p, b', p', 4, 2);
    SameByte(b, p, b', p', 4, 3);
  }

  lemma Fixed64Agrees(b: Bytes, p: nat, b': Bytes, p': nat)
    requires p + 8 <= |b| && p' + 8 <= |b'| && b[p..p + 8] == b'[p'..p' + 8]
    ensures GetFixed64(b, p) == GetFixed64(b', p')
  {
    assert b[p..p + 4] == b[p..p + 8][..4] && b'[p'..p' + 4] == b'[p'..p' + 8][..4];
    assert b[p + 4..p + 8] == b[p..p + 8][4..] && b'[p' + 4..p' + 8] == b'[p'..p' + 8][4..];
    FixedAgrees(b, p, b', p');
    FixedAgrees(b, p + 4, b', p' + 4);
  }

  predicate IsFixed(t: Type) {
    t.Fix32? || t.Fix64?
  }

  lemma NumberAgrees(t: Type, b: Bytes, p: nat, limit: nat, b': Bytes, p': nat, limit': nat, n: nat)
    requires Packable(t) && TypeOk(t) && Window(b, p, limit, b', p', limit', n)
    requires IsFixed(t) ==> p + n == limit && p' + n == limit'
    ensures var r, r' := DecNumber(t, b, p, limit), DecNumber(t, b', p', limit');
            && r.Some? == r'.Some?
            && (r.Some? ==> r.value.value == r'.value.value && r.value.next - p == r'.value.next - p')
            && (r.Some? && VarintAhead(b, p, n) && !IsFixed(t) ==> r.value.next == p + n)
  {
    hide ReadVarint32, VarintFrom, DecSigned, DecUnsigned, DecZigZagged, GetFixed32, GetFixed64;
    if t.Bool? {
      Read32Agrees(b, p, limit, b', p', limit', n);
    } else if t.Fix32? {
      if n >= 4 {
        assert b[p..p + 4] == b[p..p + n][..4] && b'[p'..p' + 4] == b'[p'..p' + n][..4];
        FixedAgrees(b, p, b', p');
      }
    } else if t.Fix64? {
      if n >= 8 {
        assert b[p..p + 8] == b[p..p + n][..8] && b'[p'..p' + 8] == b'[p'..p' + n][..8];
        Fixed64Agrees(b, p, b', p');
      }
    } else {
      VarintAgrees(b, p, limit, b', p', limit', n, 10, 1, TWO_64, 0);
    }
  }

  /** Both readings fail, or both give the same and go on at `q` and `q'`. */
  ghost predicate SameValue<T(!new)>(r: Option<Parsed<T>>, r': Option<Parsed<T>>, q: nat, q': nat) {
    r.Some? == r'.Some? && (r.Some? ==> r.value.value == r'.value.value && r.value.next == q && r'.value.next == q')
  }

  /** A number of the right wire type is read alike wherever it stands, to its end. */
  lemma NumberAlike(t: Type, e: Bytes, b: Bytes, p: nat, limit: nat, b': Bytes, p': nat, limit': nat)
    requires Packable(t) && TypeOk(t) && WellFormed(WireType(t), e) && At(b, p, limit, e) && At(b', p', limit', e)
    ensures SameValue(DecNumber(t, b, p, limit), DecNumber(t, b', p', limit'), p + |e|, p' + |e|)
  {
    if OneVarint(e) {
      forall i | p <= i < p + |e| ensures b[i] == e[i - p] {
        AtByte(b, p, limit, e, i - p);
      }
    }
    hide ReadVarint32, VarintFrom, DecSigned, DecUnsigned, DecZigZagged, GetFixed32, GetFixed64;
    if t.Fix32? {
      FixedAgrees(b, p, b', p');
    } else if t.Fix64? {
      Fixed64Agrees(b, p, b', p');
    } else {
      NumberAgrees(t, b, p, limit, b', p', limit', |e|);
    }
  }

  lemma StringAlike(t: Type, e: Bytes, b: Bytes, p: nat, limit: nat, b': Bytes, p': nat, limit': nat)
    requires IsString(t) && TypeOk(t) && OneString(e) && At(b, p, limit, e) && At(b', p', limit', e)
    ensures SameValue(DecString(t, b, p, limit), DecString(t, b', p', limit'), p + |e|, p' + |e|)
  {
    hide ReadVarint32, Varint, UpToNul;
    var s :| |s| < TWO_32 && e == Prefixed(s);
    var start := PrefixedIsRead(b, p, limit, s);
    var start' := PrefixedIsRead(b', p', limit', s);
  }

  lemma {:induction false} PackedAlike(t: Type, items: seq<Value>, max: nat, b: Bytes, p: nat, limit: nat, b': Bytes, p': nat, limit': nat)
    requires TypeOk(t) && Packable(t) && max < SIZE_LIMIT && |items| < SIZE_LIMIT
    requires forall j :: 0 <= j < |items| ==> ValueOk(t, items[j], Held)
    requires p <= limit && p' <= limit' && limit - p == limit' - p' && Window(b, p, limit, b', p', limit', limit - p)
    ensures DecPacked(t, items, max, b, p, limit) == DecPacked(t, items, max, b', p', limit')
    decreases limit - p
  {
    hide DecNumber, ValueOk;
    if p < limit && |items| < max {
      NumberAgrees(t, b, p, limit, b', p', limit', limit - p);
      var r, r' := DecNumber(t, b, p, limit), DecNumber(t, b', p', limit');
      if r.Some? {
        WindowGoesOn(b, p, limit, b', p', limit', limit - p, r.value.next - p);
        PackedAlike(t, items + [r.value.value], max, b, r.value.next, limit, b', r'.value.next, limit');
      }
    }
  }

  // ---------- Unknown fields make no difference ----------

  lemma FieldAlike(f: Field, m: nat, s: Slot, wire: nat, b: Bytes, p: nat, limit: nat, b': Bytes, p': nat, limit': nat, q: nat, q': nat)
    requires FieldOk(f) && m < |f.members| && SlotOk(f, s, Held) && p <= limit <= |b| && p' <= limit' <= |b'|
    requires MemberOk(f.members[m]) && !(f.rule.Repeated? && wire == 2 && Packable(f.members[m].ltype))
    requires forall dest {:trigger ValueOk(f.members[m].ltype, dest, Held)} :: ValueOk(f.members[m].ltype, dest, Held) ==>
               SameValue(DecValue(f.members[m].ltype, dest, b, p, limit), DecValue(f.members[m].ltype, dest, b', p', limit'), q, q')
    ensures SameValue(DecField(f, m, s, wire, b, p, limit), DecField(f, m, s, wire, b', p', limit'), q, q')
  {
    hide DecValue, ValueOk, TypeOk;
  }

  lemma PackedFieldAlike(f: Field, s: Slot, e: Bytes, b: Bytes, p: nat, limit: nat, b': Bytes, p': nat, limit': nat)
    requires FieldOk(f) && MemberOk(f.members[0]) && SlotOk(f, s, Held) && f.rule.Repeated? && Packable(f.members[0].ltype)
    requires OneString(e) && At(b, p, limit, e) && At(b', p', limit', e)
    ensures SameValue(DecField(f, 0, s, 2, b, p, limit), DecField(f, 0, s, 2, b', p', limit'), p + |e|, p' + |e|)
  {
    hide ReadVarint32, Varint, ValueOk, TypeOk, DecPacked;
    var x :| |x| < TWO_32 && e == Prefixed(x);
    var start := PrefixedIsRead(b, p, limit, x);
    var start' := PrefixedIsRead(b', p', limit', x);
    PackedAlike(f.members[0].ltype, s.items, f.rule.max, b, start, start + |x|, b', start', start' + |x|);
  }

  /** A known field that is no submessage is decoded alike wherever it stands. */
  lemma FlatAlike(t: Type, dest: Value, e: Bytes, b: Bytes, p: nat, limit: nat, b': Bytes, p': nat, limit': nat)
    requires TypeOk(t) && ValueOk(t, dest, Held) && !t.Sub? && WellFormed(WireType(t), e)
    requires At(b, p, limit, e) && At(b', p', limit', e)
    ensures SameValue(DecValue(t, dest, b, p, limit), DecValue(t, dest, b', p', limit'), p + |e|, p' + |e|)
  {
    hide DecNumber, DecString;
    if Packable(t) {
      NumberAlike(t, e, b, p, limit, b', p', limit');
    } else {
      StringAlike(t, e, b, p, limit, b', p', limit');
    }
  }

  /** An unknown field is passed over, whatever its payload. */
  lemma UnknownIsSkipped(d: Desc, slots: seq<Slot>, seen: set<nat>, item: Item, b: Bytes, p: nat, limit: nat)
    requires DescOk(d) && MsgOk(d, Msg(slots), Held) && WireOk(item) && Unknown(d, item)
    requires At(b, p, limit, ItemBytes(item))
    ensures DecMsg(d, slots, seen, b, p, limit) == DecMsg(d, slots, seen, b, p + |ItemBytes(item)|, limit)
  {
    hide DecField, SkipField, ValueOk, WellFormed, BodyBytes, EncTag, ReadVarint32;
    var e := BodyBytes(item.body);
    AtBoth(b, p, limit, EncTag(item.tag, item.wire), e);
    var q := TagIsRead(b, p, limit, item.tag, item.wire);
    ValueIsSkipped(b, q, limit, item.wire, e);
  }

  lemma {:induction false} VarintGrows(a: nat, b: nat)
    requires a <= b
    ensures |Varint(a)| <= |Varint(b)|
  {
    if b >= 128 && a >= 128 {
      VarintGrows(a / 128, b / 128);
    }
  }

  lemma {:induction false} KnownIsShorter(d: Desc, items: seq<Item>)
    ensures |AllBytes(Known(d, items))| <= |AllBytes(items)|
    decreases items
  {
    if items != [] {
      KnownIsShorter(d, items[1..]);
      var r := Find(d, items[0].tag);
      if r.Some? {
        var t := d.fields[r.value.field].members[r.value.member].ltype;
        KnownItemIsShorter(t, items[0]);
        assert Known(d, items) == [KnownItem(t, items[0])] + Known(d, items[1..]);
      }
    }
  }

  lemma {:induction false} KnownItemIsShorter(t: Type, item: Item)
    ensures |ItemBytes(KnownItem(t, item))| <= |ItemBytes(item)|
    decreases item
  {
    if t.Sub? && item.body.Nested? {
      KnownIsShorter(t.desc, item.body.items);
      VarintGrows(|AllBytes(Known(t.desc, item.body.items))|, |AllBytes(item.body.items)|);
    }
  }

  lemma {:induction false} SubmessageAlike(t: Type, dest: Value, items: seq<Item>, b: Bytes, p: nat, limit: nat, b': Bytes, p': nat, limit': nat)
    requires t.Sub? && DescOk(t.desc) && ValueOk(t, dest, Held) && ItemsOk(t.desc, items) && |AllBytes(items)| < TWO_32
    requires At(b, p, limit, Prefixed(AllBytes(items))) && At(b', p', limit', Prefixed(AllBytes(Known(t.desc, items))))
    ensures SameValue(DecValue(t, dest, b, p, limit), DecValue(t, dest, b', p', limit'),
                      p + |Prefixed(AllBytes(items))|, p' + |Prefixed(AllBytes(Known(t.desc, items)))|)
    decreases items, 1
  {
    hide DecMsg, ReadVarint32, Varint, DescOk, ItemsOk, AllBytes, Known;
    var e, e' := AllBytes(items), AllBytes(Known(t.desc, items));
    KnownIsShorter(t.desc, items);
    var start := PrefixedIsRead(b, p, limit, e);
    var start' := PrefixedIsRead(b', p', limit', e');
    assert MsgOk(t.desc, dest, Held) && Msg(dest.slots) == dest;
    UnknownMakesNoDifference(t.desc, items, dest.slots, {}, b, start, start + |e|, b', start', start' + |e'|);
  }

  /** A known field, with unknown ones inside it, is decoded like the one without them. */
  lemma {:induction false} KnownAlike(f: Field, m: nat, item: Item, s: Slot, e: Bytes, b: Bytes, p: nat, limit: nat,
                                      e': Bytes, b': Bytes, p': nat, limit': nat)
    requires FieldOk(f) && m < |f.members| && MemberOk(f.members[m]) && SlotOk(f, s, Held)
    requires WellFormed(item.wire, e) && BodyOk(f.members[m].ltype, f.rule, item.wire, item.body)
    requires e == BodyBytes(item.body) && e' == BodyBytes(KnownItem(f.members[m].ltype, item).body)
    requires At(b, p, limit, e) && At(b', p', limit', e')
    ensures SameValue(DecField(f, m, s, item.wire, b, p, limit), DecField(f, m, s, item.wire, b', p', limit'), p + |e|, p' + |e'|)
    decreases item, 0
  {
    hide *;
    match item.body
    case Nested(items) =>
      NestedBytes(f.members[m], f.rule, item, items);
      NestedKnownAlike(f, m, f.members[m].ltype, s, item.wire, items, e, b, p, limit, e', b', p', limit');
    case Flat(flat) =>
      FlatBytes(f.members[m].ltype, item, flat);
      FlatKnownAlike(f, m, s, item.wire, flat, b, p, limit, b', p', limit');
  }

  lemma NestedIsOk(m: Member, rule: Rule, wire: nat, items: seq<Item>)
    requires MemberOk(m) && BodyOk(m.ltype, rule, wire, Nested(items))
    ensures m.ltype.Sub? && TypeOk(m.ltype) && DescOk(m.ltype.desc) && !Packable(m.ltype)
    ensures wire == 2 && ItemsOk(m.ltype.desc, items) && |AllBytes(items)| < TWO_32
  {
  }

  lemma NestedBytes(m: Member, rule: Rule, item: Item, items: seq<Item>)
    requires MemberOk(m) && BodyOk(m.ltype, rule, item.wire, item.body) && item.body == Nested(items)
    ensures m.ltype.Sub? && BodyBytes(item.body) == Prefixed(AllBytes(items))
    ensures BodyBytes(KnownItem(m.ltype, item).body) == Prefixed(AllBytes(Known(m.ltype.desc, items)))
  {
  }

  lemma FlatBytes(t: Type, item: Item, e: Bytes)
    requires item.body == Flat(e)
    ensures BodyBytes(item.body) == e == BodyBytes(KnownItem(t, item).body)
  {
  }

  lemma {:induction false} NestedKnownAlike(f: Field, m: nat, t: Type, s: Slot, wire: nat, items: seq<Item>,
                                            e: Bytes, b: Bytes, p: nat, limit: nat, e': Bytes, b': Bytes, p': nat, limit': nat)
    requires FieldOk(f) && m < |f.members| && MemberOk(f.members[m]) && SlotOk(f, s, Held)
    requires t == f.members[m].ltype && BodyOk(t, f.rule, wire, Nested(items))
    requires e == Prefixed(AllBytes(items)) && e' == Prefixed(AllBytes(Known(t.desc, items)))
    requires At(b, p, limit, e) && At(b', p', limit', e')
    ensures SameValue(DecField(f, m, s, wire, b, p, limit), DecField(f, m, s, wire, b', p', limit'), p + |e|, p' + |e'|)
    decreases items, 2
  {
    hide *;
    NestedIsOk(f.members[m], f.rule, wire, items);
    InBounds(b, p, limit, e);
    InBounds(b', p', limit', e');
    forall dest | ValueOk(t, dest, Held)
      ensures SameValue(DecValue(t, dest, b, p, limit), DecValue(t, dest, b', p', limit'), p + |e|, p' + |e'|)
    {
      SubmessageAlike(t, dest, items, b, p, limit, b', p', limit');
    }
    FieldAlike(f, m, s, wire, b, p, limit, b', p', limit', p + |e|, p' + |e'|);
  }

  lemma InBounds(b: Bytes, p: nat, limit: nat, e: Bytes)
    requires At(b, p, limit, e)
    ensures p <= p + |e| <= limit <= |b|
  {
  }

  lemma FlatKnownAlike(f: Field, m: nat, s: Slot, wire: nat, e: Bytes, b: Bytes, p: nat, limit: nat, b': Bytes, p': nat, limit': nat)
    requires FieldOk(f) && m < |f.members| && MemberOk(f.members[m]) && SlotOk(f, s, Held) && WellFormed(wire, e)
    requires BodyOk(f.members[m].ltype, f.rule, wire, Flat(e))
    requires At(b, p, limit, e) && At(b', p', limit', e)
    ensures SameValue(DecField(f, m, s, wire, b, p, limit), DecField(f, m, s, wire, b', p', limit'), p + |e|, p' + |e|)
  {
    var t := f.members[m].ltype;
    hide DecField, DecValue, ValueOk, SlotOk;
    if f.rule.Repeated? && wire == 2 && Packable(t) {
      PackedFieldAlike(f, s, e, b, p, limit, b', p', limit');
    } else {
      forall dest | ValueOk(t, dest, Held)
        ensures SameValue(DecValue(t, dest, b, p, limit), DecValue(t, dest, b', p', limit'), p + |e|, p' + |e|)
      {
        FlatAlike(t, dest, e, b, p, limit, b', p', limit');
      }
      FieldAlike(f, m, s, wire, b, p, limit, b', p', limit', p + |e|, p' + |e|);
    }
  }

  lemma ItemThenItems(items: seq<Item>, b: Bytes, p: nat, limit: nat) returns (q: nat, r: nat)
    requires items != [] && At(b, p, limit, AllBytes(items))
    ensures q == p + |EncTag(items[0].tag, items[0].wire)| && r == p + |ItemBytes(items[0])| == q + |BodyBytes(items[0].body)| <= limit
    ensures At(b, p, limit, ItemBytes(items[0])) && At(b, p, limit, EncTag(items[0].tag, items[0].wire))
    ensures At(b, q, limit, BodyBytes(items[0].body)) && At(b, r, limit, AllBytes(items[1..]))
    ensures |AllBytes(items)| == |ItemBytes(items[0])| + |AllBytes(items[1..])|
  {
    hide EncTag, BodyBytes;
    AtBoth(b, p, limit, ItemBytes(items[0]), AllBytes(items[1..]));
    AtBoth(b, p, limit, EncTag(items[0].tag, items[0].wire), BodyBytes(items[0].body));
    q := p + |EncTag(items[0].tag, items[0].wire)|;
    r := p + |ItemBytes(items[0])|;
  }

  /** Whatever unknown fields stand among those of a message and, at any depth, of its submessages: the decoder makes
      of the bytes what it makes of them without those fields. */
  lemma {:induction false} UnknownMakesNoDifference(d: Desc, items: seq<Item>, slots: seq<Slot>, seen: set<nat>, b: Bytes, p: nat, limit: nat,
                                                    b': Bytes, p': nat, limit': nat)
    requires DescOk(d) && MsgOk(d, Msg(slots), Held) && ItemsOk(d, items)
    requires At(b, p, limit, AllBytes(items)) && p + |AllBytes(items)| == limit
    requires At(b', p', limit', AllBytes(Known(d, items))) && p' + |AllBytes(Known(d, items))| == limit'
    ensures DecMsg(d, slots, seen, b, p, limit) == DecMsg(d, slots, seen, b', p', limit')
    decreases items, 0
  {
    hide DecMsg, DecField, DecValue, ValueOk, MsgOk, SlotOk, DescOk, FieldOk, BodyOk, WellFormed;
    if items == [] {
      NothingMore(d, slots, seen, b, p, limit, b', p', limit');
    } else {
      var item := items[0];
      assert ItemOk(d, item);
      var q, r := ItemThenItems(items, b, p, limit);
      assert ItemsOk(d, items[1..]);
      var found := Find(d, item.tag);
      if found.None? {
        UnknownIsSkipped(d, slots, seen, item, b, p, limit);
        UnknownMakesNoDifference(d, items[1..], slots, seen, b, r, limit, b', p', limit');
      } else {
        var at := found.value;
        var t := d.fields[at.field].members[at.member].ltype;
        var known := Known(d, items);
        assert known[0] == KnownItem(t, item) && known[1..] == Known(d, items[1..]);
        var q', r' := ItemThenItems(known, b', p', limit');
        PlaceIsOk(d, slots, at);
        KnownAlike(d.fields[at.field], at.member, item, slots[at.field], BodyBytes(item.body), b, q, limit,
                   BodyBytes(known[0].body), b', q', limit');
        KnownStep(d, slots, seen, item.tag, item.wire, at, b, p, q, limit);
        KnownStep(d, slots, seen, item.tag, item.wire, at, b', p', q', limit');
        var s := DecField(d.fields[at.field], at.member, slots[at.field], item.wire, b, q, limit);
        if s.Some? {
          SlotReplaced(d, slots, at.field, s.value.value);
          UnknownMakesNoDifference(d, items[1..], slots[at.field := s.value.value], See(d, seen, at.field), b, r, limit, b', r', limit');
        }
      }
    }
  }

  lemma NothingMore(d: Desc, slots: seq<Slot>, seen: set<nat>, b: Bytes, p: nat, limit: nat, b': Bytes, p': nat, limit': nat)
    requires DescOk(d) && MsgOk(d, Msg(slots), Held) && p == limit <= |b| && p' == limit' <= |b'|
    ensures DecMsg(d, slots, seen, b, p, limit) == DecMsg(d, slots, seen, b', p', limit')
  {
  }

  lemma PlaceIsOk(d: Desc, slots: seq<Slot>, at: Place)
    requires DescOk(d) && MsgOk(d, Msg(slots), Held) && IsPlace(d, at.field, at.member)
    ensures FieldOk(d.fields[at.field]) && |slots| == |d.fields| && SlotOk(d.fields[at.field], slots[at.field], Held)
    ensures MemberOk(d.fields[at.field].members[at.member])
  {
  }

  lemma KnownStep(d: Desc, slots: seq<Slot>, seen: set<nat>, tag: nat, wire: nat, at: Place, b: Bytes, p: nat, q: nat, limit: nat)
    requires DescOk(d) && MsgOk(d, Msg(slots), Held) && IsPlace(d, at.field, at.member) && TagAt(d, at.field, at.member) == tag && wire < 8
    requires At(b, p, limit, EncTag(tag, wire)) && q == p + |EncTag(tag, wire)| <= limit
    requires FieldOk(d.fields[at.field]) && |slots| == |d.fields| && SlotOk(d.fields[at.field], slots[at.field], Held)
    ensures DecMsg(d, slots, seen, b, p, limit) ==
              match DecField(d.fields[at.field], at.member, slots[at.field], wire, b, q, limit)
              case None => None
              case Some(s) => DecMsg(d, slots[at.field := s.value], See(d, seen, at.field), b, s.next, limit)
  {
    hide *;
    var q' := StepIsTaken(d, at.field, at.member, wire, slots, seen, b, p, limit);
  }

  // ---------- The fields of an encoded message ----------

  function BodyOf(t: Type, v: Value): Body
    requires ValueOk(t, v, Held)
    decreases t
  {
    if t.Sub? then Nested(ItemsOf(t.desc, v, 0)) else Flat(EncValue(t, v))
  }

  function ItemOf(m: Member, v: Value): Item
    requires ValueOk(m.ltype, v, Held)
    decreases m, 0
  {
    Item(m.tag, WireType(m.ltype), BodyOf(m.ltype, v))
  }

  function ItemsFrom(m: Member, items: seq<Value>, j: nat): seq<Item>
    requires j <= |items| && forall i :: 0 <= i < |items| ==> ValueOk(m.ltype, items[i], Held)
    decreases m, |items| - j + 1
  {
    if j == |items| then [] else [ItemOf(m, items[j])] + ItemsFrom(m, items, j + 1)
  }

  function SlotItems(f: Field, s: Slot): seq<Item>
    requires SlotOk(f, s, Held)
    decreases f
  {
    var m := f.members[0];
    match f.rule
    case Required => [ItemOf(m, s.value)]
    case Implicit => if IsZero(m.ltype, s.value) then [] else [ItemOf(m, s.value)]
    case Optional => if s.opt.None? then [] else [ItemOf(m, s.opt.value)]
    case Repeated(_) =>
      if s.items == [] then []
      else if Packable(m.ltype) then [Item(m.tag, 2, Flat(Prefixed(EncItems(m, s.items, 0))))]
      else ItemsFrom(m, s.items, 0)
    case OneOf => if s.chosen.None? then [] else [ItemOf(f.members[s.chosen.value.member], s.chosen.value.value)]
  }

  /** The fields that the encoder writes for a message, from field `i` of the descriptor on. */
  function ItemsOf(d: Desc, v: Value, i: nat): seq<Item>
    requires MsgOk(d, v, Held) && i <= |d.fields|
    decreases d, |d.fields| - i
  {
    if i == |d.fields| then [] else SlotItems(d.fields[i], v.slots[i]) + ItemsOf(d, v, i + 1)
  }

  /** The items are well formed, known to the descriptor at every depth, and make up the bytes. */
  ghost predicate Describes(d: Desc, items: seq<Item>, e: Bytes) {
    AllBytes(items) == e && ItemsOk(d, items) && Known(d, items) == items
  }

  lemma {:induction false} BytesOfBoth(a: seq<Item>, b: seq<Item>)
    ensures AllBytes(a + b) == AllBytes(a) + AllBytes(b)
    decreases |a|
  {
    if a == [] {
      assert a + b == b;
    } else {
      assert (a + b)[1..] == a[1..] + b;
      BytesOfBoth(a[1..], b);
      assert ItemBytes(a[0]) + (AllBytes(a[1..]) + AllBytes(b)) == (ItemBytes(a[0]) + AllBytes(a[1..])) + AllBytes(b);
    }
  }

  lemma {:induction false} KnownOfBoth(d: Desc, a: seq<Item>, b: seq<Item>)
    ensures Known(d, a + b) == Known(d, a) + Known(d, b)
    decreases |a|
  {
    if a == [] {
      assert a + b == b;
    } else {
      assert (a + b)[1..] == a[1..] + b;
      KnownOfBoth(d, a[1..], b);
    }
  }

  lemma DescribesBoth(d: Desc, a: seq<Item>, x: Bytes, b: seq<Item>, y: Bytes)
    requires Describes(d, a, x) && Describes(d, b, y)
    ensures Describes(d, a + b, x + y)
  {
    BytesOfBoth(a, b);
    KnownOfBoth(d, a, b);
  }

  lemma DescribesOne(d: Desc, item: Item, at: Place)
    requires ItemOk(d, item) && Find(d, item.tag) == Some(at)
    requires KnownItem(d.fields[at.field].members[at.member].ltype, item) == item
    ensures Describes(d, [item], ItemBytes(item))
  {
    assert [item][1..] == [];
    assert ItemBytes(item) + [] == ItemBytes(item);
    assert Known(d, [item]) == [item];
  }

  lemma FoundByTag(d: Desc, at: Place)
    requires DescOk(d) && IsPlace(d, at.field, at.member)
    ensures Find(d, TagAt(d, at.field, at.member)) == Some(at)
    ensures MemberOk(d.fields[at.field].members[at.member])
  {
    assert FieldOk(d.fields[at.field]);
  }

  lemma {:induction false} ValueBody(t: Type, v: Value)
    requires TypeOk(t) && ValueOk(t, v, Held) && |EncValue(t, v)| < TWO_32
    ensures BodyBytes(BodyOf(t, v)) == EncValue(t, v)
    ensures forall rule :: BodyOk(t, rule, WireType(t), BodyOf(t, v))
    ensures t.Sub? ==> Known(t.desc, ItemsOf(t.desc, v, 0)) == ItemsOf(t.desc, v, 0)
    decreases t
  {
    if t.Sub? {
      FieldsDescribed(t.desc, v, 0);
    }
  }

  /** One value behind its tag. */
  lemma {:induction false} ValueDescribed(d: Desc, at: Place, m: Member, v: Value)
    requires DescOk(d) && IsPlace(d, at.field, at.member) && d.fields[at.field].members[at.member] == m
    requires ValueOk(m.ltype, v, Held) && |EncMember(m, v)| < TWO_32
    ensures Describes(d, [ItemOf(m, v)], EncMember(m, v))
    decreases m, 0
  {
    hide EncValue, BodyBytes, WellFormed, Known, ItemsOk, DescOk;
    FoundByTag(d, at);
    ValueBody(m.ltype, v);
    EncodedIsWellFormed(m.ltype, v);
    DescribesOne(d, ItemOf(m, v), at);
  }

  lemma {:induction false} ArrayDescribed(d: Desc, i: nat, m: Member, items: seq<Value>, j: nat)
    requires DescOk(d) && IsPlace(d, i, 0) && d.fields[i].members[0] == m && !Packable(m.ltype)
    requires j <= |items| && forall k :: 0 <= k < |items| ==> ValueOk(m.ltype, items[k], Held)
    requires |EncItems(m, items, j)| < TWO_32
    ensures Describes(d, ItemsFrom(m, items, j), EncItems(m, items, j))
    decreases m, |items| - j + 1
  {
    hide EncValue, ValueOk, DescOk;
    if j < |items| {
      ItemThenRest(m, items, j);
      ValueDescribed(d, Place(i, 0), m, items[j]);
      ArrayDescribed(d, i, m, items, j + 1);
      DescribesBoth(d, [ItemOf(m, items[j])], EncMember(m, items[j]), ItemsFrom(m, items, j + 1), EncItems(m, items, j + 1));
    }
  }

  lemma PackedDescribed(d: Desc, i: nat, m: Member, items: seq<Value>)
    requires DescOk(d) && IsPlace(d, i, 0) && d.fields[i].members[0] == m && d.fields[i].rule.Repeated? && Packable(m.ltype)
    requires forall k :: 0 <= k < |items| ==> ValueOk(m.ltype, items[k], Held)
    requires |EncItems(m, items, 0)| < TWO_32
    ensures var e := Prefixed(EncItems(m, items, 0)); Describes(d, [Item(m.tag, 2, Flat(e))], EncTag(m.tag, 2) + e)
  {
    FoundByTag(d, Place(i, 0));
    DescribesOne(d, Item(m.tag, 2, Flat(Prefixed(EncItems(m, items, 0)))), Place(i, 0));
  }

  lemma {:induction false} SlotDescribed(d: Desc, i: nat, s: Slot)
    requires DescOk(d) && i < |d.fields| && SlotOk(d.fields[i], s, Held) && |EncSlot(d.fields[i], s)| < TWO_32
    ensures Describes(d, SlotItems(d.fields[i], s), EncSlot(d.fields[i], s))
    decreases d.fields[i]
  {
    hide EncMember, EncItems, EncTag, DescOk, ValueOk;
    var f := d.fields[i];
    var m := f.members[0];
    assert Describes(d, [], []);
    match f.rule
    case Required => ValueDescribed(d, Place(i, 0), m, s.value);
    case Implicit =>
      if !IsZero(m.ltype, s.value) {
        ValueDescribed(d, Place(i, 0), m, s.value);
      }
    case Optional =>
      if s.opt.Some? {
        ValueDescribed(d, Place(i, 0), m, s.opt.value);
      }
    case Repeated(_) =>
      if s.items != [] {
        if Packable(m.ltype) {
          PackedDescribed(d, i, m, s.items);
        } else {
          ArrayDescribed(d, i, m, s.items, 0);
        }
      }
    case OneOf =>
      if s.chosen.Some? {
        var k := s.chosen.value.member;
        ValueDescribed(d, Place(i, k), f.members[k], s.chosen.value.value);
      }
  }

  /** An encoded message is a row of fields that its descriptor knows. */
  lemma {:induction false} FieldsDescribed(d: Desc, v: Value, i: nat)
    requires DescOk(d) && MsgOk(d, v, Held) && i <= |d.fields| && |EncFields(d, v, i)| < TWO_32
    ensures Describes(d, ItemsOf(d, v, i), EncFields(d, v, i))
    decreases d, |d.fields| - i
  {
    hide EncSlot, SlotItems, Describes, DescOk, ValueOk;
    if i < |d.fields| {
      SlotDescribed(d, i, v.slots[i]);
      FieldsDescribed(d, v, i + 1);
      DescribesBoth(d, SlotItems(d.fields[i], v.slots[i]), EncSlot(d.fields[i], v.slots[i]), ItemsOf(d, v, i + 1), EncFields(d, v, i + 1));
    } else {
      NoneDescribed(d);
    }
  }

  lemma NoneDescribed(d: Desc)
    ensures Describes(d, [], [])
  {
  }

  // ---------- Unknown fields in an encoded message ----------

  /** An encoded message into which unknown fields have been put, anywhere among its fields and among those of its
      submessages, decodes to what was encoded (or fails for a string without room for its terminator). */
  lemma UnknownFieldsAreSkipped(d: Desc, v: Value, items: seq<Item>)
    requires DescOk(d) && MsgOk(d, v, Held) && MsgOk(d, v, Encodable)
    requires ItemsOk(d, items) && Known(d, items) == ItemsOf(d, v, 0) && |EncFields(d, v, 0)| < TWO_32
    ensures var b := AllBytes(items);
            DecMsg(d, ZeroMsg(d).slots, {}, b, 0, |b|) == if MsgOk(d, v, Decodable) then Some(v.slots) else None
  {
    var b, e := AllBytes(items), EncFields(d, v, 0);
    FieldsDescribed(d, v, 0);
    assert b[0..0 + |b|] == b && e[0..0 + |e|] == e;
    assert Msg(ZeroMsg(d).slots) == ZeroMsg(d);
    hide *;
    DecodeUndoesEncode(d, v);
    WholeAlike(d, items, v, b, e);
  }

  lemma WholeAlike(d: Desc, items: seq<Item>, v: Value, b: Bytes, e: Bytes)
    requires DescOk(d) && ItemsOk(d, items) && b == AllBytes(items) && e == AllBytes(Known(d, items))
    ensures DecMsg(d, ZeroMsg(d).slots, {}, b, 0, |b|) == DecMsg(d, ZeroMsg(d).slots, {}, e, 0, |e|)
  {
    assert b[0..0 + |b|] == b && e[0..0 + |e|] == e;
    assert Msg(ZeroMsg(d).slots) == ZeroMsg(d);
    UnknownMakesNoDifference(d, items, ZeroMsg(d).slots, {}, b, 0, |b|, e, 0, |e|);
  }

  lemma InsertedIsUnknown(d: Desc, before: seq<Item>, u: Item, after: seq<Item>)
    requires ItemsOk(d, before + after) && Known(d, before + after) == before + after && WireOk(u) && Unknown(d, u)
    ensures ItemsOk(d, before + [u] + after) && Known(d, before + [u] + after) == before + after
  {
    var items := before + [u] + after;
    forall k | 0 <= k < |items| ensures ItemOk(d, items[k]) {
      assert k < |before| ==> items[k] == (before + after)[k];
      assert k > |before| ==> items[k] == (before + after)[k - 1];
    }
    KnownOfBoth(d, before + [u], after);
    KnownOfBoth(d, before, [u]);
    KnownOfBoth(d, before, after);
  }

  /** One unknown field before, between or behind the fields of an encoded message, on the bytes. */
  lemma OneUnknownField(d: Desc, v: Value, k: nat, tag: nat, wire: nat, e: Bytes)
    requires DescOk(d) && MsgOk(d, v, Held) && MsgOk(d, v, Encodable) && |EncFields(d, v, 0)| < TWO_32
    requires k <= |ItemsOf(d, v, 0)|
    requires 1 <= tag && 8 * tag + wire < TWO_32 && wire < 8 && WellFormed(wire, e)
    requires forall i, m :: IsPlace(d, i, m) ==> TagAt(d, i, m) != tag
    ensures var front, back := AllBytes(ItemsOf(d, v, 0)[..k]), AllBytes(ItemsOf(d, v, 0)[k..]);
            var b := front + (EncTag(tag, wire) + e) + back;
            && front + back == EncFields(d, v, 0)
            && DecMsg(d, ZeroMsg(d).slots, {}, b, 0, |b|) == DecMsg(d, ZeroMsg(d).slots, {}, front + back, 0, |front + back|)
  {
    var all := ItemsOf(d, v, 0);
    var u := Item(tag, wire, Flat(e));
    FieldsDescribed(d, v, 0);
    assert all[..k] + all[k..] == all;
    assert Unknown(d, u);
    hide ItemsOf, DecMsg, ItemOk, WellFormed, DescOk, MsgOk, EncTag, EncFields;
    InsertedIsUnknown(d, all[..k], u, all[k..]);
    BytesOfBoth(all[..k], all[k..]);
    BytesOfBoth(all[..k] + [u], all[k..]);
    BytesOfBoth(all[..k], [u]);
    assert [u][1..] == [] && ItemBytes(u) + [] == EncTag(tag, wire) + e;
    WholeAlike(d, all[..k] + [u] + all[k..], v, AllBytes(all[..k] + [u] + all[k..]), AllBytes(all));
  }

  // ---------- A reader without a descriptor ----------

  lemma {:induction false} ItemsAreSkipped(d: Desc, items: seq<Item>, slots: seq<Slot>, seen: set<nat>, b: Bytes, p: nat, limit: nat)
    requires DescOk(d) && MsgOk(d, Msg(slots), Held)
    requires forall k :: 0 <= k < |items| ==> WireOk(items[k]) && Unknown(d, items[k])
    requires At(b, p, limit, AllBytes(items))
    ensures DecMsg(d, slots, seen, b, p, limit) == DecMsg(d, slots, seen, b, p + |AllBytes(items)|, limit)
    decreases |items|
  {
    hide DecMsg, WireOk, DescOk, MsgOk;
    if items != [] {
      var q, r := ItemThenItems(items, b, p, limit);
      UnknownIsSkipped(d, slots, seen, items[0], b, p, limit);
      ItemsAreSkipped(d, items[1..], slots, seen, b, r, limit);
    }
  }

  lemma NothingIsRequired(b: Bytes, limit: nat)
    requires limit <= |b|
    ensures DescOk(Desc([])) && MsgOk(Desc([]), Msg([]), Held) && DecMsg(Desc([]), [], {}, b, limit, limit) == Some([])
  {
  }

  /** A reader that knows no field at all takes an encoded message exactly to its end, whatever follows. */
  lemma MessageTellsItsEnd(d: Desc, v: Value, b: Bytes, p: nat, limit: nat)
    requires DescOk(d) && MsgOk(d, v, Held) && |EncFields(d, v, 0)| < TWO_32 && At(b, p, limit, EncFields(d, v, 0))
    ensures DescOk(Desc([])) && MsgOk(Desc([]), Msg([]), Held)
    ensures DecMsg(Desc([]), [], {}, b, p, limit) == DecMsg(Desc([]), [], {}, b, p + |EncFields(d, v, 0)|, limit)
    ensures p + |EncFields(d, v, 0)| == limit ==> DecMsg(Desc([]), [], {}, b, p, limit) == Some([])
  {
    hide DecMsg, ItemsOf, WireOk;
    FieldsDescribed(d, v, 0);
    var items := ItemsOf(d, v, 0);
    forall k | 0 <= k < |items| ensures WireOk(items[k]) && Unknown(Desc([]), items[k]) {
      assert ItemOk(d, items[k]);
    }
    ItemsAreSkipped(Desc([]), items, [], {}, b, p, limit);
    NothingIsRequired(b, limit);
  }

  // ---------- Required fields, and arrays that are not packed ----------

  lemma {:induction false} RequiredCountGrows(d: Desc, j: nat, i: nat)
    requires j < i <= |d.fields|
    ensures RequiredCount(d, j) + (if d.fields[j].rule.Required? then 1 else 0) <= RequiredCount(d, i)
    decreases i
  {
    if j + 1 < i {
      RequiredCountGrows(d, j, i - 1);
    }
  }

  lemma OthersAreSeen(d: Desc, i: nat, j: nat, seen: set<nat>)
    requires i < |d.fields| && j < |d.fields| && i != j && d.fields[i].rule.Required? && RequiredCount(d, i) !in seen
    ensures RequiredCount(d, i) !in See(d, seen, j)
  {
    if j < i {
      RequiredCountGrows(d, j, i);
    } else {
      RequiredCountGrows(d, i, j);
    }
  }

  lemma NotFinished(d: Desc, i: nat, slots: seq<Slot>, seen: set<nat>, b: Bytes, p: nat)
    requires DescOk(d) && MsgOk(d, Msg(slots), Held) && p <= |b|
    requires i < |d.fields| && d.fields[i].rule.Required? && RequiredCount(d, i) < MAX_REQUIRED && RequiredCount(d, i) !in seen
    ensures DecMsg(d, slots, seen, b, p, p) == None
  {
    RequiredCountGrows(d, i, |d.fields|);
  }

  lemma OtherField(d: Desc, i: nat, at: Place)
    requires DescOk(d) && IsPlace(d, i, 0) && d.fields[i].rule.Required? && IsPlace(d, at.field, at.member)
    requires TagAt(d, at.field, at.member) != TagAt(d, i, 0)
    ensures at.field != i
  {
    assert FieldOk(d.fields[i]);
  }

  /** What a known field leaves for the fields behind it. */
  lemma KnownGoesOn(f: Field, m: nat, item: Item, s: Slot, e: Bytes, b: Bytes, p: nat, limit: nat)
    requires FieldOk(f) && m < |f.members| && MemberOk(f.members[m]) && SlotOk(f, s, Held)
    requires WellFormed(item.wire, e) && BodyOk(f.members[m].ltype, f.rule, item.wire, item.body) && e == BodyBytes(item.body)
    requires At(b, p, limit, e)
    ensures var r := DecField(f, m, s, item.wire, b, p, limit); r.Some? ==> r.value.next == p + |e|
  {
    var e' := BodyBytes(KnownItem(f.members[m].ltype, item).body);
    assert e'[0..0 + |e'|] == e';
    hide *;
    KnownAlike(f, m, item, s, e, b, p, limit, e', e', 0, |e'|);
  }

  /** A message in which a required field does not occur is refused (of the first 64 required fields). */
  lemma {:induction false} MissingIsRefused(d: Desc, i: nat, items: seq<Item>, slots: seq<Slot>, seen: set<nat>, b: Bytes, p: nat, limit: nat)
    requires DescOk(d) && MsgOk(d, Msg(slots), Held) && ItemsOk(d, items)
    requires IsPlace(d, i, 0) && d.fields[i].rule.Required? && RequiredCount(d, i) < 64 && RequiredCount(d, i) !in seen
    requires forall k :: 0 <= k < |items| ==> items[k].tag != TagAt(d, i, 0)
    requires At(b, p, limit, AllBytes(items)) && p + |AllBytes(items)| == limit
    ensures DecMsg(d, slots, seen, b, p, limit) == None
    decreases |items|
  {
    hide DecMsg, DecField, DecValue, ValueOk, MsgOk, SlotOk, DescOk, FieldOk, BodyOk, WellFormed, See;
    if items == [] {
      NotFinished(d, i, slots, seen, b, p);
    } else {
      var item := items[0];
      assert ItemOk(d, item);
      var q, r := ItemThenItems(items, b, p, limit);
      assert ItemsOk(d, items[1..]);
      var found := Find(d, item.tag);
      if found.None? {
        UnknownIsSkipped(d, slots, seen, item, b, p, limit);
        MissingIsRefused(d, i, items[1..], slots, seen, b, r, limit);
      } else {
        var at := found.value;
        OtherField(d, i, at);
        PlaceIsOk(d, slots, at);
        KnownStep(d, slots, seen, item.tag, item.wire, at, b, p, q, limit);
        KnownGoesOn(d.fields[at.field], at.member, item, slots[at.field], BodyBytes(item.body), b, q, limit);
        var s := DecField(d.fields[at.field], at.member, slots[at.field], item.wire, b, q, limit);
        if s.Some? {
          SlotReplaced(d, slots, at.field, s.value.value);
          OthersAreSeen(d, i, at.field, seen);
          MissingIsRefused(d, i, items[1..], slots[at.field := s.value.value], See(d, seen, at.field), b, r, limit);
        }
      }
    }
  }

  /** An array with a tag before each of its values, packable or not. */
  function Tagged(m: Member, items: seq<Value>, j: nat): Bytes
    requires j <= |items| && forall i :: 0 <= i < |items| ==> ValueOk(m.ltype, items[i], Held)
    decreases |items| - j
  {
    if j == |items| then [] else EncMember(m, items[j]) + Tagged(m, items, j + 1)
  }

  lemma TaggedSplits(m: Member, items: seq<Value>, j: nat, b: Bytes, p: nat, limit: nat)
    requires j < |items| && forall i :: 0 <= i < |items| ==> ValueOk(m.ltype, items[i], Held)
    requires At(b, p, limit, Tagged(m, items, j))
    ensures At(b, p, limit, EncMember(m, items[j])) && At(b, p + |EncMember(m, items[j])|, limit, Tagged(m, items, j + 1))
    ensures |Tagged(m, items, j)| == |EncMember(m, items[j])| + |Tagged(m, items, j + 1)|
  {
    AtBoth(b, p, limit, EncMember(m, items[j]), Tagged(m, items, j + 1));
  }

  lemma ArrayFacts(f: Field, items: seq<Value>)
    requires FieldOk(f) && f.rule.Repeated? && SlotOk(f, Many(items), Held) && SlotOk(f, Many(items), Encodable)
    ensures forall k :: 0 <= k < |items| ==> ValueOk(f.members[0].ltype, items[k], Held) && ValueOk(f.members[0].ltype, items[k], Encodable)
  {
  }

  lemma {:induction false} UnpackedIsRead(d: Desc, i: nat, f: Field, m: Member, items: seq<Value>, j: nat, slots: seq<Slot>, seen: set<nat>,
                                          b: Bytes, p: nat, limit: nat)
    requires DescOk(d) && i < |d.fields| && MsgOk(d, Msg(slots), Held) && |b| < TWO_32 && f == d.fields[i]
    requires FieldOk(f) && |f.members| > 0 && m == f.members[0] && MemberOk(m) && TypeOk(m.ltype) && f.rule.Repeated? && Packable(m.ltype)
    requires j <= |items| && |slots| == |d.fields| && slots[i] == Many(items[..j])
    requires SlotOk(f, Many(items), Held) && SlotOk(f, Many(items), Encodable)
    requires forall k :: 0 <= k < |items| ==> ValueOk(m.ltype, items[k], Held)
    requires At(b, p, limit, Tagged(m, items, j))
    ensures MsgOk(d, Msg(slots[i := Many(items)]), Held) && p + |Tagged(m, items, j)| <= limit
    ensures DecMsg(d, slots, seen, b, p, limit) == DecMsg(d, slots[i := Many(items)], seen, b, p + |Tagged(m, items, j)|, limit)
    decreases |items| - j
  {
    hide *;
    SlotReplaced(d, slots, i, Many(items));
    if j == |items| {
      AllTagged(m, items);
      InBounds(b, p, limit, Tagged(m, items, j));
      assert items[..j] == items && slots[i := Many(items)] == slots;
    } else {
      TaggedSplits(m, items, j, b, p, limit);
      var q := ItemIsRead(d, i, items, j, slots, seen, b, p, limit);
      NumberIsDecodable(m.ltype, items[j]);
      var slots' := slots[i := Many(items[..j + 1])];
      assert slots'[i := Many(items)] == slots[i := Many(items)];
      UnpackedIsRead(d, i, f, m, items, j + 1, slots', seen, b, q, limit);
    }
  }

  lemma AllTagged(m: Member, items: seq<Value>)
    requires forall i :: 0 <= i < |items| ==> ValueOk(m.ltype, items[i], Held)
    ensures Tagged(m, items, |items|) == []
  {
  }

  lemma NumberIsDecodable(t: Type, v: Value)
    requires Packable(t) && TypeOk(t) && ValueOk(t, v, Held)
    ensures ValueOk(t, v, Decodable)
  {
    NumbersHaveNoTerminator(t, v);
  }

  /** The decoder takes an array of numbers packed or value by value, whichever the sender chose. */
  lemma PackedOrNot(d: Desc, i: nat, items: seq<Value>, slots: seq<Slot>, seen: set<nat>, b: Bytes, p: nat, limit: nat,
                    b': Bytes, p': nat, limit': nat)
    requires DescOk(d) && i < |d.fields| && MsgOk(d, Msg(slots), Held) && |b| < TWO_32 && |b'| < TWO_32
    requires FieldOk(d.fields[i]) && MemberOk(d.fields[i].members[0]) && d.fields[i].rule.Repeated? && Packable(d.fields[i].members[0].ltype)
    requires slots[i] == Many([])
    requires SlotOk(d.fields[i], Many(items), Held) && SlotOk(d.fields[i], Many(items), Encodable)
    requires forall k :: 0 <= k < |items| ==> ValueOk(d.fields[i].members[0].ltype, items[k], Held)
    requires At(b, p, limit, EncArray(d.fields[i].members[0], items)) && At(b', p', limit', Tagged(d.fields[i].members[0], items, 0))
    ensures MsgOk(d, Msg(slots[i := Many(items)]), Held)
    ensures DecMsg(d, slots, seen, b, p, limit) ==
              DecMsg(d, slots[i := Many(items)], seen, b, p + |EncArray(d.fields[i].members[0], items)|, limit)
    ensures p' + |Tagged(d.fields[i].members[0], items, 0)| <= limit'
    ensures DecMsg(d, slots, seen, b', p', limit') ==
              DecMsg(d, slots[i := Many(items)], seen, b', p' + |Tagged(d.fields[i].members[0], items, 0)|, limit')
  {
    hide *;
    assert items[..0] == [];
    ArrayIsDecodable(d.fields[i], items);
    ArrayIsRead(d, i, items, slots, seen, b, p, limit);
    PackableField(d.fields[i]);
    SlotReplaced(d, slots, i, Many(items));
    UnpackedIsRead(d, i, d.fields[i], d.fields[i].members[0], items, 0, slots, seen, b', p', limit');
  }

  lemma PackableField(f: Field)
    requires FieldOk(f)
    ensures |f.members| > 0 && MemberOk(f.members[0]) && TypeOk(f.members[0].ltype)
  {
    assert MemberOk(f.members[0]);
  }

  lemma ArrayIsDecodable(f: Field, items: seq<Value>)
    requires FieldOk(f) && MemberOk(f.members[0]) && f.rule.Repeated? && Packable(f.members[0].ltype) && SlotOk(f, Many(items), Encodable)
    ensures SlotOk(f, Many(items), Decodable)
  {
    forall j | 0 <= j < |items| ensures ValueOk(f.members[0].ltype, items[j], Decodable) {
      EveryLevelIsHeld(f.members[0].ltype, items[j], Encodable);
      NumbersHaveNoTerminator(f.members[0].ltype, items[j]);
    }
  }

  // ---------- Bytes written down elsewhere ----------

  /** The examples of the documentation: 150 in field 1, and the text "testing" in field 2. */
  lemma DocumentedBytes()
    ensures EncMember(Member(1, Signed(4)), Num(150)) == [0x08, 0x96, 0x01]
    ensures EncMember(Member(2, Text(16)), Raw([0x74, 0x65, 0x73, 0x74, 0x69, 0x6e, 0x67]))
         == [0x12, 0x07, 0x74, 0x65, 0x73, 0x74, 0x69, 0x6e, 0x67]
  {
    VarintUnfolds(150);
    VarintUnfolds(1);
    VarintUnfolds(8);
    VarintUnfolds(0x12);
    VarintUnfolds(7);
  }

  lemma FixedExamples()
    ensures EncMember(Member(1, Fix32), Num(1)) == [0x0D, 1, 0, 0, 0]
    ensures EncMember(Member(1, Fix64), Num(2)) == [0x09, 2, 0, 0, 0, 0, 0, 0, 0]
  {
    VarintUnfolds(0x0D);
    VarintUnfolds(9);
    FixedBytes();
  }

  lemma FixedBytes()
    ensures Fixed32(1) == [1, 0, 0, 0] && Fixed64(2) == [2, 0, 0, 0, 0, 0, 0, 0]
  {
  }

  /** The table of signed integers and their ZigZag forms. */
  lemma ZigZagExamples()
    ensures ZigZag(0) == 0 && ZigZag(-1) == 1 && ZigZag(1) == 2 && ZigZag(-2) == 3
    ensures ZigZag(0x7fff_ffff) == 0xffff_fffe && ZigZag(-0x8000_0000) == 0xffff_ffff
  {
  }

  /** The packed array 3, 270, 86942 in field 4. */
  lemma PackedExample()
    ensures EncArray(Member(4, Signed(4)), [Num(3), Num(270), Num(86942)]) == [0x22, 0x06, 0x03, 0x8E, 0x02, 0x9E, 0xA7, 0x05]
  {
    var m, items := Member(4, Signed(4)), [Num(3), Num(270), Num(86942)];
    VarintUnfolds(3);
    VarintUnfolds(270);
    VarintUnfolds(2);
    VarintUnfolds(86942);
    VarintUnfolds(679);
    VarintUnfolds(5);
    assert EncItems(m, items, 3) == [];
    assert EncItems(m, items, 2) == [0x9E, 0xA7, 0x05];
    assert EncItems(m, items, 1) == [0x8E, 0x02, 0x9E, 0xA7, 0x05];
    assert EncItems(m, items, 0) == [0x03, 0x8E, 0x02, 0x9E, 0xA7, 0x05];
    VarintUnfolds(6);
    VarintUnfolds(0x22);
  }
}
