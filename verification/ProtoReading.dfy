/** What the decoder makes of bytes (nanopb/pb_decode.c).  A stream is a stretch of bytes: from `p` up to `limit`. */
module ProtoReading {
  import opened Keys
  import opened Coding
  import opened Protos

  // ---------- Varints, tags ----------

  /** Bitwise or. */
  function Or(a: nat, b: nat): nat {
    if a == 0 then b
    else if b == 0 then a
    else 2 * Or(a / 2, b / 2) + if a % 2 == 1 || b % 2 == 1 then 1 else 0
  }

  /** Bits above all bits of `a` are added. */
  lemma {:induction false} OrAbove(a: nat, digit: nat, k: nat)
    requires a < Power2(k)
    ensures Or(a, digit * Power2(k)) == a + digit * Power2(k)
  {
    if k > 0 {
      OrAbove(a / 2, digit, k - 1);
      assert digit * Power2(k) == 2 * (digit * Power2(k - 1));
    }
  }

  /** Seven more bits in a 32-bit word, at bit `bitpos`; what does not fit is lost. */
  function WithGroup(result: nat, group: byte, bitpos: nat): nat {
    Or(result, (group as nat % 128) * Power2(bitpos) % TWO_32)
  }

  /** pb_decode_varint32's loop, at bit `bitpos`: bytes past the 32nd bit may only repeat zero or sign bits.
      The position is kept in eight bits, so from the 38th byte on it wraps around. */
  function Varint32Rest(b: Bytes, p: nat, limit: nat, bitpos: nat, result: nat): (r: Option<Parsed<nat>>)
    requires limit <= |b|
    ensures r.Some? ==> p < r.value.next <= limit
    decreases limit - p
  {
    if p >= limit then None
    else
      var group := b[p];
      if bitpos >= 32 then
        if group % 128 != 0 && (result < TWO_32 / 2 || group != if bitpos < 63 then 0xFF else 0x01) then None
        else if group >= 128 then Varint32Rest(b, p + 1, limit, (bitpos + 7) % 256, result)
        else Some(Parsed(result, p + 1))
      else
        var result' := WithGroup(result, group, bitpos);
        if group >= 128 then Varint32Rest(b, p + 1, limit, bitpos + 7, result')
        else if bitpos == 28 && group >= 16 then None
        else Some(Parsed(result', p + 1))
  }

  function ReadVarint32(b: Bytes, p: nat, limit: nat): (r: Option<Parsed<nat>>)
    requires limit <= |b|
    ensures r.Some? ==> p < r.value.next <= limit
  {
    if p >= limit then None
    else if b[p] < 128 then Some(Parsed(b[p] as nat, p + 1))
    else Varint32Rest(b, p + 1, limit, 7, b[p] as nat % 128)
  }

  /** pb_skip_varint. */
  function SkipVarint(b: Bytes, p: nat, limit: nat): (r: Option<nat>)
    requires limit <= |b|
    ensures r.Some? ==> p < r.value <= limit
    decreases limit - p
  {
    if p >= limit then None else if b[p] >= 128 then SkipVarint(b, p + 1, limit) else Some(p + 1)
  }

  /** A length, and that many bytes. */
  function GetString(b: Bytes, p: nat, limit: nat): (r: Option<Parsed<nat>>)
    requires limit <= |b|
    ensures r.Some? ==> p < r.value.next && r.value.next + r.value.value <= limit
  {
    match ReadVarint32(b, p, limit)
    case None => None
    case Some(size) => if limit - size.next < size.value then None else Some(size)
  }

  /** pb_skip_field: where the field after this one begins. */
  function SkipField(b: Bytes, p: nat, limit: nat, wire: nat): (r: Option<nat>)
    requires limit <= |b|
    ensures r.Some? ==> p < r.value <= limit
  {
    if wire == 0 then SkipVarint(b, p, limit)
    else if wire == 1 then if p + 8 <= limit then Some(p + 8) else None
    else if wire == 2 then match GetString(b, p, limit) case None => None case Some(s) => Some(s.next + s.value)
    else if wire == 5 then if p + 4 <= limit then Some(p + 4) else None
    else None
  }

  // ---------- Scalars ----------

  /** A cast to an unsigned integer of `size` bytes. */
  function Wrap(n: int, size: nat): (u: nat)
    requires GoodSize(size)
    ensures u < Span(size) && (u == n <==> 0 <= n < Span(size))
  {
    if size == 1 then n % 0x100 else if size == 2 then n % 0x1_0000 else if size == 4 then n % TWO_32 else n % TWO_64
  }

  /** A cast to a signed integer of `size` bytes. */
  function Cast(n: int, size: nat): (c: int)
    requires GoodSize(size) && 0 <= n + TWO_64 && n < TWO_64
    ensures Fits(c, Span(size)) && (c == n <==> Fits(n, Span(size)))
  {
    var u := Wrap(n, size);
    CastIs(n, size, u);
    if 2 * u < Span(size) then u else u - Span(size)
  }

  lemma CastIs(n: int, size: nat, u: nat)
    requires GoodSize(size) && u == Wrap(n, size)
    ensures Fits(n, Span(size)) ==> n == if 2 * u < Span(size) then u else u - Span(size)
  {
    if Fits(n, Span(size)) && n < 0 {
      WrapNegative(n, size);
    }
  }

  lemma WrapNegative(n: int, size: nat)
    requires GoodSize(size) && n < 0 <= n + Span(size)
    ensures Wrap(n, size) == n + Span(size)
  {
    assert (n + 0x100) % 0x100 == n % 0x100;
    assert (n + 0x1_0000) % 0x1_0000 == n % 0x1_0000;
    assert (n + TWO_32) % TWO_32 == n % TWO_32;
    assert (n + TWO_64) % TWO_64 == n % TWO_64;
  }

  function UpToNul(b: Bytes): (s: Bytes)
    ensures s <= b && 0 !in s && (0 !in b ==> s == b) && (0 in b ==> |s| < |b| && b[|s|] == 0)
  {
    if b == [] || b[0] == 0 then [] else [b[0]] + UpToNul(b[1..])
  }

  /** pb_dec_varint: a field narrower than 64 bits takes the low 32 bits as signed. */
  function DecSigned(size: nat, value: nat): (n: Option<int>)
    requires GoodSize(size) && value < TWO_64
    ensures n.Some? ==> Fits(n.value, Span(size))
  {
    var svalue := Cast(value, if size == 8 then 8 else 4);
    if Cast(svalue, size) != svalue then None else Some(svalue)
  }

  /** pb_dec_svarint. */
  function DecZigZagged(size: nat, value: nat): (n: Option<int>)
    requires GoodSize(size) && value < TWO_64
    ensures n.Some? ==> Fits(n.value, Span(size))
  {
    var svalue := if value % 2 == 1 then -(value / 2) - 1 else value / 2;
    if Cast(svalue, size) != svalue then None else Some(svalue)
  }

  /** pb_dec_uvarint. */
  function DecUnsigned(size: nat, value: nat): (n: Option<int>)
    requires GoodSize(size) && value < TWO_64
    ensures n.Some? ==> 0 <= n.value < Span(size)
  {
    if Wrap(value, size) != value then None else Some(value)
  }

  function AsNum(n: Option<int>, next: nat): Option<Parsed<Value>> {
    if n.None? then None else Some(Parsed(Num(n.value), next))
  }

  lemma VarintBounds(b: Bytes, p: nat, limit: nat, groups: nat, scale: nat, result: nat)
    requires limit <= |b| && result < TWO_64
    ensures var r := VarintFrom(b, p, limit, groups, scale, TWO_64, result);
            r.Some? ==> p < r.value.next <= limit && r.value.value < TWO_64
    decreases groups
  {
  }

  /** The field decoders for numbers, by LTYPE. */
  function DecNumber(t: Type, b: Bytes, p: nat, limit: nat): (r: Option<Parsed<Value>>)
    requires limit <= |b| && Packable(t) && TypeOk(t)
    ensures r.Some? ==> p < r.value.next <= limit && ValueOk(t, r.value.value, Held)
  {
    VarintBounds(b, p, limit, 10, 1, 0);
    if t.Bool? then
      match ReadVarint32(b, p, limit)
      case None => None
      case Some(v) => AsNum(Some(if v.value != 0 then 1 else 0), v.next)
    else if t.Fix32? then if limit < p + 4 then None else AsNum(Some(GetFixed32(b, p)), p + 4)
    else if t.Fix64? then if limit < p + 8 then None else AsNum(Some(GetFixed64(b, p)), p + 8)
    else
      match GetVarint64(b, p, limit)
      case None => None
      case Some(v) =>
        AsNum(if t.Signed? then DecSigned(t.size, v.value)
              else if t.Unsigned? then DecUnsigned(t.size, v.value)
              else DecZigZagged(t.size, v.value), v.next)
  }

  predicate IsString(t: Type) {
    t.Blob? || t.Text? || t.FixedBlob?
  }

  /** The field decoders for strings, by LTYPE. */
  function DecString(t: Type, b: Bytes, p: nat, limit: nat): (r: Option<Parsed<Value>>)
    requires limit <= |b| && IsString(t) && TypeOk(t)
    ensures r.Some? ==> p < r.value.next <= limit && ValueOk(t, r.value.value, Held)
  {
    match ReadVarint32(b, p, limit)
    case None => None
    case Some(size) =>
      var end := size.next + size.value;
      match t
      case Text(room) =>
        if size.value + 1 > room || end > limit then None else Some(Parsed(Raw(UpToNul(b[size.next..end])), end))
      case FixedBlob(n) =>
        if size.value == 0 then Some(Parsed(Raw(seq(n, _ => 0)), size.next))
        else if size.value != n || end > limit then None
        else Some(Parsed(Raw(b[size.next..end]), end))
      case Blob(room) =>
        if size.value >= SIZE_LIMIT || size.value + BYTES_OFFSET > room || end > limit then None
        else Some(Parsed(Raw(b[size.next..end]), end))
  }

  // ---------- Fields and messages ----------

  datatype Place = Place(field: nat, member: nat)

  /** The field with a tag. */
  ghost function Find(d: Desc, tag: nat): (r: Option<Place>)
    ensures r.Some? ==> IsPlace(d, r.value.field, r.value.member) && TagAt(d, r.value.field, r.value.member) == tag
    ensures r.None? ==> forall i, m :: IsPlace(d, i, m) ==> TagAt(d, i, m) != tag
  {
    if exists i, m :: IsPlace(d, i, m) && TagAt(d, i, m) == tag then
      var i, m :| IsPlace(d, i, m) && TagAt(d, i, m) == tag;
      Some(Place(i, m))
    else None
  }

  /** How many of the first `n` fields are required. */
  function RequiredCount(d: Desc, n: nat): nat
    requires n <= |d.fields|
  {
    if n == 0 then 0 else RequiredCount(d, n - 1) + if d.fields[n - 1].rule.Required? then 1 else 0
  }

  /** PB_MAX_REQUIRED_FIELDS: only so many required fields are checked. */
  const MAX_REQUIRED: nat := 64

  function See(d: Desc, seen: set<nat>, i: nat): set<nat>
    requires i < |d.fields|
  {
    if d.fields[i].rule.Required? && RequiredCount(d, i) < MAX_REQUIRED then seen + {RequiredCount(d, i)} else seen
  }

  predicate AllSeen(d: Desc, seen: set<nat>) {
    forall r :: 0 <= r < RequiredCount(d, |d.fields|) && r < MAX_REQUIRED ==> r in seen
  }

  function Finished(d: Desc, slots: seq<Slot>, seen: set<nat>): Option<seq<Slot>> {
    if AllSeen(d, seen) then Some(slots) else None
  }

  /** pb_decode_noinit: the slots after the fields from `p` on; a zero tag ends the message. */
  ghost function DecMsg(d: Desc, slots: seq<Slot>, seen: set<nat>, b: Bytes, p: nat, limit: nat): (r: Option<seq<Slot>>)
    requires DescOk(d) && MsgOk(d, Msg(slots), Held) && p <= limit <= |b|
    ensures r.Some? ==> MsgOk(d, Msg(r.value), Held)
    decreases d, limit - p
  {
    if p == limit then Finished(d, slots, seen)
    else
      match ReadVarint32(b, p, limit)
      case None => None
      case Some(key) =>
        if key.value == 0 then Finished(d, slots, seen)
        else
          match Find(d, key.value / 8)
          case None =>
            (match SkipField(b, key.next, limit, key.value % 8)
             case None => None
             case Some(next) => DecMsg(d, slots, seen, b, next, limit))
          case Some(at) =>
            (match DecField(d.fields[at.field], at.member, slots[at.field], key.value % 8, b, key.next, limit)
             case None => None
             case Some(s) =>
               DecMsg(d, slots[at.field := s.value], See(d, seen, at.field), b, s.next, limit))
  }

  /** decode_static_field. */
  ghost function DecField(f: Field, member: nat, s: Slot, wire: nat, b: Bytes, p: nat, limit: nat): (r: Option<Parsed<Slot>>)
    requires FieldOk(f) && member < |f.members| && SlotOk(f, s, Held) && p <= limit <= |b|
    ensures r.Some? ==> p < r.value.next <= limit && SlotOk(f, r.value.value, Held)
    decreases f
  {
    assert MemberOk(f.members[member]);
    var t := f.members[member].ltype;
    match f.rule
    case Required => DecOne(t, s.value, b, p, limit)
    case Implicit => DecOne(t, s.value, b, p, limit)
    case Optional =>
      (match DecValue(t, if s.opt.Some? then s.opt.value else ZeroValue(t), b, p, limit)
       case None => None
       case Some(v) => Some(Parsed(Maybe(Some(v.value)), v.next)))
    case Repeated(max) =>
      if wire == 2 && Packable(t) then
        match GetString(b, p, limit)
        case None => None
        case Some(size) =>
          match DecPacked(t, s.items, max, b, size.next, size.next + size.value)
          case None => None
          case Some(items) => Some(Parsed(Many(items), size.next + size.value))
      else if |s.items| >= max then None
      else
        (match DecValue(t, ZeroValue(t), b, p, limit)
         case None => None
         case Some(v) => Some(Parsed(Many(s.items + [v.value]), v.next)))
    case OneOf =>
      var dest := if s.chosen.Some? && s.chosen.value.member == member then s.chosen.value.value else ZeroValue(t);
      match DecValue(t, dest, b, p, limit)
      case None => None
      case Some(v) => Some(Parsed(Union(Some(Pick(member, v.value))), v.next))
  }

  ghost function DecOne(t: Type, v: Value, b: Bytes, p: nat, limit: nat): (r: Option<Parsed<Slot>>)
    requires TypeOk(t) && ValueOk(t, v, Held) && p <= limit <= |b|
    ensures r.Some? ==> p < r.value.next <= limit && r.value.value.One? && ValueOk(t, r.value.value.value, Held)
    decreases t, 1
  {
    match DecValue(t, v, b, p, limit)
    case None => None
    case Some(v) => Some(Parsed(One(v.value), v.next))
  }

  /** A packed array: what is left when the array is full is an error. */
  ghost function DecPacked(t: Type, items: seq<Value>, max: nat, b: Bytes, p: nat, limit: nat): (r: Option<seq<Value>>)
    requires TypeOk(t) && Packable(t) && max < SIZE_LIMIT && |items| < SIZE_LIMIT && p <= limit <= |b|
    requires forall j :: 0 <= j < |items| ==> ValueOk(t, items[j], Held)
    ensures r.Some? ==> |r.value| < SIZE_LIMIT && forall j :: 0 <= j < |r.value| ==> ValueOk(t, r.value[j], Held)
    decreases limit - p
  {
    if p == limit then Some(items)
    else if |items| >= max then None
    else
      match DecNumber(t, b, p, limit)
      case None => None
      case Some(v) => DecPacked(t, items + [v.value], max, b, v.next, limit)
  }

  /** The field decoders.  A submessage is decoded into what is there. */
  ghost function DecValue(t: Type, dest: Value, b: Bytes, p: nat, limit: nat): (r: Option<Parsed<Value>>)
    requires TypeOk(t) && ValueOk(t, dest, Held) && p <= limit <= |b|
    ensures r.Some? ==> p < r.value.next <= limit && ValueOk(t, r.value.value, Held)
    decreases t, 0
  {
    if Packable(t) then DecNumber(t, b, p, limit)
    else if IsString(t) then DecString(t, b, p, limit)
    else
      match GetString(b, p, limit)
      case None => None
      case Some(size) =>
        assert MsgOk(t.desc, dest, Held) && Msg(dest.slots) == dest;
        match DecMsg(t.desc, dest.slots, {}, b, size.next, size.next + size.value)
        case None => None
        case Some(slots) => Some(Parsed(Msg(slots), size.next + size.value))
  }
}
