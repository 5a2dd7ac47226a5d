/** The decoder on its streams (nanopb/pb_decode.c), and the field iterator (nanopb/pb_common.c). */
module ProtoDecoder {
  import opened Keys
  import opened Coding
  import opened Protos
  import opened ProtoReading

  // ---------- Field iterator ----------

  /** pb_field_iter_t: steps through the fields, the members of a union one by one, and wraps around. */
  class FieldIter {
    const d: Desc
    var field: nat
    var member: nat
    var requiredIndex: nat

    ghost predicate Valid()
      reads this
    {
      && (forall i :: 0 <= i < |d.fields| ==> FieldOk(d.fields[i]))
      && if d.fields == [] then field == member == requiredIndex == 0
         else IsPlace(d, field, member) && requiredIndex == RequiredCount(d, field)
    }

    constructor (d: Desc)
      requires forall i :: 0 <= i < |d.fields| ==> FieldOk(d.fields[i])
      ensures Valid() && this.d == d
    {
      this.d, field, member, requiredIndex := d, 0, 0, 0;
    }

    /** pb_field_iter_next: false when it wraps around. */
    method Next() returns (more: bool)
      requires Valid()
      modifies this
      ensures Valid()
      ensures !more ==> field == 0 && member == 0
      ensures !more ==> forall i, m :: IsPlace(d, i, m) ==> !Before(old(field), old(member), i, m)
      ensures more ==> IsPlace(d, old(field), old(member)) && Before(old(field), old(member), field, member)
      ensures more ==> forall i, m :: IsPlace(d, i, m) && Before(old(field), old(member), i, m) ==> !Before(i, m, field, member)
    {
      if d.fields == [] {
        return false;
      }
      if member + 1 < |d.fields[field].members| {
        member := member + 1;
        return true;
      }
      if field + 1 == |d.fields| {
        field, member, requiredIndex := 0, 0, 0;
        return false;
      }
      if d.fields[field].rule.Required? {
        requiredIndex := requiredIndex + 1;
      }
      field, member := field + 1, 0;
      return true;
    }

    /** pb_field_iter_find: all the way around from where it stands. */
    method Find(tag: nat) returns (found: bool)
      requires Valid()
      modifies this
      ensures Valid()
      ensures found ==> IsPlace(d, field, member) && TagAt(d, field, member) == tag
      ensures !found ==> forall i, m :: IsPlace(d, i, m) ==> TagAt(d, i, m) != tag
    {
      var startField, startMember := field, member;
      if d.fields == [] {
        return false;
      }
      var wrapped := false;
      while true
        invariant Valid() && IsPlace(d, field, member)
        invariant wrapped ==> Before(field, member, startField, startMember)
        invariant !wrapped ==> !Before(field, member, startField, startMember)
        invariant forall i, m :: IsPlace(d, i, m) && Passed(startField, startMember, field, member, wrapped, i, m) ==> TagAt(d, i, m) != tag
        decreases !wrapped, |d.fields| - field, |d.fields[field].members| - member
      {
        if d.fields[field].members[member].tag == tag {
          return true;
        }
        var more := Next();
        if field == startField && member == startMember {
          return false;
        }
        wrapped := wrapped || !more;
      }
    }
  }

  predicate Before(i: nat, m: nat, j: nat, n: nat) {
    i < j || (i == j && m < n)
  }

  /** Going around from the start, the iterator has passed this place. */
  predicate Passed(startField: nat, startMember: nat, field: nat, member: nat, wrapped: bool, i: nat, m: nat) {
    if wrapped then !Before(i, m, startField, startMember) || Before(i, m, field, member)
    else !Before(i, m, startField, startMember) && Before(i, m, field, member)
  }

  // ---------- Streams ----------

  /** pb_istream_t over a buffer. */
  class IStream {
    const data: Bytes
    var state: nat
    var bytesLeft: nat

    predicate Valid()
      reads this
    {
      state + bytesLeft <= |data|
    }

    constructor (data: Bytes, state: nat, bytesLeft: nat)
      requires state + bytesLeft <= |data|
      ensures Valid() && this.data == data && this.state == state && this.bytesLeft == bytesLeft
    {
      this.data, this.state, this.bytesLeft := data, state, bytesLeft;
    }
  }

  /** A stream that ended at `limit` now stands at `next`. */
  ghost predicate MovedTo(s: IStream, next: nat, limit: nat)
    reads s
  {
    s.Valid() && s.state == next && s.state + s.bytesLeft == limit
  }

  /** pb_readbyte. */
  method ReadByte(s: IStream) returns (ok: bool, b: byte)
    requires s.Valid()
    modifies s
    ensures ok <==> old(s.bytesLeft) > 0
    ensures ok ==> b == s.data[old(s.state)] && MovedTo(s, old(s.state) + 1, old(s.state + s.bytesLeft))
  {
    if s.bytesLeft == 0 {
      return false, 0;
    }
    b := s.data[s.state];
    s.state := s.state + 1;
    s.bytesLeft := s.bytesLeft - 1;
    ok := true;
  }

  /** pb_read. */
  method Read(s: IStream, count: nat) returns (ok: bool, b: Bytes)
    requires s.Valid()
    modifies s
    ensures ok <==> count <= old(s.bytesLeft)
    ensures ok ==> b == s.data[old(s.state)..old(s.state) + count]
    ensures ok ==> MovedTo(s, old(s.state) + count, old(s.state + s.bytesLeft))
  {
    if count == 0 {
      return true, [];
    }
    if s.bytesLeft < count {
      return false, [];
    }
    b := s.data[s.state..s.state + count];
    s.state := s.state + count;
    s.bytesLeft := s.bytesLeft - count;
    ok := true;
  }

  /** The method's result is that of the reading function. */
  ghost predicate Reads<T>(s: IStream, limit: nat, r: Option<Parsed<T>>, ok: bool, value: T)
    reads s
  {
    (ok <==> r.Some?) && (ok ==> value == r.value.value && MovedTo(s, r.value.next, limit))
  }

  /** pb_decode_varint32. */
  method DecodeVarint32(s: IStream) returns (ok: bool, value: nat)
    requires s.Valid()
    modifies s
    ensures Reads(s, old(s.state + s.bytesLeft), ReadVarint32(s.data, old(s.state), old(s.state + s.bytesLeft)), ok, value)
  {
    hide WithGroup;
    ghost var limit, start := s.state + s.bytesLeft, s.state;
    var b;
    ok, b := ReadByte(s);
    if !ok {
      return false, 0;
    }
    if b < 128 {
      return true, b as nat;
    }
    var bitpos: nat, result: nat := 7, b as nat % 128;
    while true
      invariant MovedTo(s, s.state, limit)
      invariant ReadVarint32(s.data, start, limit) == Varint32Rest(s.data, s.state, limit, bitpos, result)
      decreases s.bytesLeft
    {
      ok, b := ReadByte(s);
      if !ok {
        return false, 0;
      }
      if bitpos >= 32 {
        var signExtension := if bitpos < 63 then 0xFF else 0x01;
        if b % 128 != 0 && (result < TWO_32 / 2 || b != signExtension) {
          return false, 0;
        }
      } else {
        result := WithGroup(result, b, bitpos);
      }
      bitpos := (bitpos + 7) % 256;
      if b < 128 {
        break;
      }
    }
    if bitpos == 35 && b >= 16 {
      return false, 0;
    }
    return true, result;
  }

  /** pb_decode_varint. */
  method DecodeVarint(s: IStream) returns (ok: bool, value: nat)
    requires s.Valid()
    modifies s
    ensures Reads(s, old(s.state + s.bytesLeft), GetVarint64(s.data, old(s.state), old(s.state + s.bytesLeft)), ok, value)
  {
    ghost var limit, start := s.state + s.bytesLeft, s.state;
    var groups: nat, scale: nat, result: nat := 0, 1, 0;
    while true
      invariant MovedTo(s, s.state, limit) && groups <= 10
      invariant GetVarint64(s.data, start, limit) == VarintFrom(s.data, s.state, limit, 10 - groups, scale, TWO_64, result)
      decreases 10 - groups
    {
      if 7 * groups >= 64 {
        return false, 0;
      }
      var b;
      ok, b := ReadByte(s);
      if !ok {
        return false, 0;
      }
      result := (result + (b as nat % 128) * scale) % TWO_64;
      groups, scale := groups + 1, scale * 128;
      if b < 128 {
        break;
      }
    }
    return true, result;
  }

  method DoSkipVarint(s: IStream) returns (ok: bool)
    requires s.Valid()
    modifies s
    ensures var r := SkipVarint(s.data, old(s.state), old(s.state + s.bytesLeft));
            (ok <==> r.Some?) && (ok ==> MovedTo(s, r.value, old(s.state + s.bytesLeft)))
  {
    ghost var limit, start := s.state + s.bytesLeft, s.state;
    while true
      invariant MovedTo(s, s.state, limit)
      invariant SkipVarint(s.data, start, limit) == SkipVarint(s.data, s.state, limit)
      decreases s.bytesLeft
    {
      var b;
      ok, b := ReadByte(s);
      if !ok {
        return false;
      }
      if b < 128 {
        return true;
      }
    }
  }

  /** pb_skip_field. */
  method DoSkipField(s: IStream, wire: nat) returns (ok: bool)
    requires s.Valid()
    modifies s
    ensures var r := SkipField(s.data, old(s.state), old(s.state + s.bytesLeft), wire);
            (ok <==> r.Some?) && (ok ==> MovedTo(s, r.value, old(s.state + s.bytesLeft)))
  {
    var skipped;
    if wire == 0 {
      ok := DoSkipVarint(s);
    } else if wire == 1 {
      ok, skipped := Read(s, 8);
    } else if wire == 2 {
      var size;
      ok, size := DecodeVarint32(s);
      if ok {
        ok, skipped := Read(s, size);
      }
    } else if wire == 5 {
      ok, skipped := Read(s, 4);
    } else {
      ok := false;
    }
  }

  // ---------- Field decoders ----------

  /** pb_dec_varint, pb_dec_uvarint and pb_dec_svarint. */
  method DecodeInteger(s: IStream, t: Type) returns (ok: bool, value: Value)
    requires s.Valid() && TypeOk(t) && (t.Signed? || t.Unsigned? || t.ZigZagged?)
    modifies s
    ensures Reads(s, old(s.state + s.bytesLeft), DecNumber(t, s.data, old(s.state), old(s.state + s.bytesLeft)), ok, value)
  {
    VarintBounds(s.data, s.state, s.state + s.bytesLeft, 10, 1, 0);
    hide DecSigned, DecUnsigned, DecZigZagged, ReadVarint32, VarintFrom, ValueOk, Varint32Rest;
    value := Num(0);
    var n;
    ok, n := DecodeVarint(s);
    if ok {
      var r := if t.Signed? then DecSigned(t.size, n) else if t.Unsigned? then DecUnsigned(t.size, n) else DecZigZagged(t.size, n);
      if r.None? {
        return false, value;
      }
      value := Num(r.value);
    }
  }

  method DecodeNumber(s: IStream, t: Type) returns (ok: bool, value: Value)
    requires s.Valid() && Packable(t) && TypeOk(t)
    modifies s
    ensures Reads(s, old(s.state + s.bytesLeft), DecNumber(t, s.data, old(s.state), old(s.state + s.bytesLeft)), ok, value)
  {
    hide DecSigned, DecUnsigned, DecZigZagged, ReadVarint32, VarintFrom, Varint32Rest, GetVarint64, ValueOk;
    value := Num(0);
    var bytes, n;
    if t.Bool? {
      ok, n := DecodeVarint32(s);
      value := Num(if n != 0 then 1 else 0);
    } else if t.Fix32? {
      ok, bytes := Read(s, 4);
      if ok {
        value := Num(GetFixed32(bytes, 0));
      }
    } else if t.Fix64? {
      ok, bytes := Read(s, 8);
      if ok {
        value := Num(GetFixed64(bytes, 0));
      }
    } else {
      ok, value := DecodeInteger(s, t);
    }
  }

  method DecodeString(s: IStream, t: Type) returns (ok: bool, value: Value)
    requires s.Valid() && IsString(t) && TypeOk(t)
    modifies s
    ensures Reads(s, old(s.state + s.bytesLeft), DecString(t, s.data, old(s.state), old(s.state + s.bytesLeft)), ok, value)
  {
    hide ReadVarint32;
    value := Raw([]);
    var size, bytes;
    ok, size := DecodeVarint32(s);
    if !ok {
      return;
    }
    if t.Text? {
      if size + 1 > t.room {
        return false, value;
      }
      ok, bytes := Read(s, size);
      value := Raw(UpToNul(bytes));
    } else if t.FixedBlob? {
      if size == 0 {
        return true, Raw(seq(t.length, _ => 0));
      }
      if size != t.length {
        return false, value;
      }
      ok, bytes := Read(s, t.length);
      value := Raw(bytes);
    } else {
      if size >= SIZE_LIMIT || size + BYTES_OFFSET > t.room {
        return false, value;
      }
      ok, bytes := Read(s, size);
      value := Raw(bytes);
    }
  }

  // ---------- Messages ----------

  /** pb_make_string_substream. */
  method MakeStringSubstream(s: IStream) returns (ok: bool, sub: IStream?)
    requires s.Valid()
    modifies s
    ensures ok ==> sub != null && fresh(sub)
    ensures var r := GetString(s.data, old(s.state), old(s.state + s.bytesLeft));
            (ok <==> r.Some?) &&
            (ok ==> sub.data == s.data && MovedTo(sub, r.value.next, r.value.next + r.value.value)
                    && s.state == r.value.next && r.value.next + r.value.value + s.bytesLeft == old(s.state + s.bytesLeft))
  {
    sub := null;
    var size;
    ok, size := DecodeVarint32(s);
    if !ok {
      return;
    }
    if s.bytesLeft < size {
      return false, null;
    }
    sub := new IStream(s.data, s.state, size);
    s.bytesLeft := s.bytesLeft - size;
  }

  /** pb_close_string_substream: what the substream left is skipped. */
  method CloseStringSubstream(s: IStream, sub: IStream) returns (ok: bool)
    requires sub != s && sub.Valid() && sub.data == s.data && sub.state + sub.bytesLeft + s.bytesLeft <= |s.data|
    modifies s, sub
    ensures ok && MovedTo(s, old(sub.state + sub.bytesLeft), old(sub.state + sub.bytesLeft + s.bytesLeft))
  {
    if sub.bytesLeft != 0 {
      var skipped;
      ok, skipped := Read(sub, sub.bytesLeft);
      if !ok {
        return;
      }
    }
    s.state := sub.state;
    return true;
  }

  /** The loop over a packed array. */
  method DecodePacked(sub: IStream, t: Type, items0: seq<Value>, max: nat) returns (ok: bool, items: seq<Value>)
    requires sub.Valid() && TypeOk(t) && Packable(t) && max < SIZE_LIMIT && |items0| < SIZE_LIMIT
    requires forall j :: 0 <= j < |items0| ==> ValueOk(t, items0[j], Held)
    modifies sub
    ensures var r := DecPacked(t, items0, max, sub.data, old(sub.state), old(sub.state + sub.bytesLeft));
            (ok <==> r.Some?) && (ok ==> items == r.value && MovedTo(sub, old(sub.state + sub.bytesLeft), old(sub.state + sub.bytesLeft)))
  {
    hide DecNumber, ValueOk, TypeOk, Packable;
    ghost var start, limit := sub.state, sub.state + sub.bytesLeft;
    items := items0;
    while sub.bytesLeft > 0 && |items| < max
      invariant MovedTo(sub, sub.state, limit) && |items| < SIZE_LIMIT
      invariant forall j :: 0 <= j < |items| ==> ValueOk(t, items[j], Held)
      invariant DecPacked(t, items0, max, sub.data, start, limit) == DecPacked(t, items, max, sub.data, sub.state, limit)
      decreases sub.bytesLeft
    {
      var v;
      ok, v := DecodeNumber(sub, t);
      if !ok {
        return;
      }
      items := items + [v];
    }
    ok := sub.bytesLeft == 0;
  }

  /** The field decoders, by LTYPE; `dest` is what the destination holds. */
  method DecodeValue(s: IStream, t: Type, dest: Value) returns (ok: bool, value: Value)
    requires s.Valid() && TypeOk(t) && ValueOk(t, dest, Held)
    modifies s
    ensures Reads(s, old(s.state + s.bytesLeft), DecValue(t, dest, s.data, old(s.state), old(s.state + s.bytesLeft)), ok, value)
    decreases t
  {
    if Packable(t) {
      ok, value := DecodeNumber(s, t);
    } else if IsString(t) {
      ok, value := DecodeString(s, t);
    } else {
      assert MsgOk(t.desc, dest, Held) && Msg(dest.slots) == dest;
      ok, value := DecodeSubmessage(s, t.desc, dest);
    }
  }

  /** pb_dec_submessage. */
  method DecodeSubmessage(s: IStream, d: Desc, dest: Value) returns (ok: bool, value: Value)
    requires s.Valid() && DescOk(d) && MsgOk(d, dest, Held)
    modifies s
    ensures Reads(s, old(s.state + s.bytesLeft), DecValue(Sub(d), dest, s.data, old(s.state), old(s.state + s.bytesLeft)), ok, value)
    decreases d, 1
  {
    value := dest;
    var sub;
    ok, sub := MakeStringSubstream(s);
    if !ok {
      return;
    }
    var slots;
    var status;
    status, slots := DecodeNoinit(sub, d, dest.slots);
    if !status {
      return false, value;
    }
    ok := CloseStringSubstream(s, sub);
    value := Msg(slots);
  }

  /** decode_static_field. */
  method DecodeStaticField(s: IStream, f: Field, member: nat, slot: Slot, wire: nat) returns (ok: bool, slot': Slot)
    requires s.Valid() && FieldOk(f) && member < |f.members| && SlotOk(f, slot, Held)
    modifies s
    ensures Reads(s, old(s.state + s.bytesLeft), DecField(f, member, slot, wire, s.data, old(s.state), old(s.state + s.bytesLeft)), ok, slot')
    decreases f
  {
    slot' := slot;
    assert MemberOk(f.members[member]);
    var t := f.members[member].ltype;
    var v;
    match f.rule
    case Required =>
      ok, v := DecodeValue(s, t, slot.value);
      slot' := One(v);
    case Implicit =>
      ok, v := DecodeValue(s, t, slot.value);
      slot' := One(v);
    case Optional =>
      ok, v := DecodeValue(s, t, if slot.opt.Some? then slot.opt.value else ZeroValue(t));
      slot' := Maybe(Some(v));
    case Repeated(max) =>
      if wire == 2 && Packable(t) {
        var sub, items;
        ok, sub := MakeStringSubstream(s);
        if !ok {
          return;
        }
        ok, items := DecodePacked(sub, t, slot.items, max);
        if !ok {
          return;
        }
        ok := CloseStringSubstream(s, sub);
        slot' := Many(items);
      } else {
        if |slot.items| >= max {
          return false, slot;
        }
        ok, v := DecodeValue(s, t, ZeroValue(t));
        slot' := Many(slot.items + [v]);
      }
    case OneOf =>
      ok, v := DecodeValue(s, t, if slot.chosen.Some? && slot.chosen.value.member == member then slot.chosen.value.value else ZeroValue(t));
      slot' := Union(Some(Pick(member, v)));
  }

  /** pb_decode_tag. */
  method DecodeTag(s: IStream) returns (ok: bool, wire: nat, tag: nat, eof: bool)
    requires s.Valid() && s.bytesLeft > 0
    modifies s
    ensures var r := ReadVarint32(s.data, old(s.state), old(s.state + s.bytesLeft));
            && (eof <==> r.Some? && r.value.value == 0)
            && (eof ==> MovedTo(s, r.value.next, old(s.state + s.bytesLeft)))
            && (ok <==> r.Some? && r.value.value != 0)
            && (ok ==> tag == r.value.value / 8 && wire == r.value.value % 8 && MovedTo(s, r.value.next, old(s.state + s.bytesLeft)))
  {
    wire, tag, eof := 0, 0, false;
    var temp;
    ok, temp := DecodeVarint32(s);
    if !ok {
      return;
    }
    if temp == 0 {
      return false, 0, 0, true;
    }
    return true, temp % 8, temp / 8, false;
  }

  /** Whether every required field was seen, as far as the bits go: the iterator is run on to its last field to
      count them. */
  method RequiredFieldsSeen(iter: FieldIter, seen: set<nat>) returns (ok: bool)
    requires iter.Valid()
    modifies iter
    ensures ok <==> AllSeen(iter.d, seen)
  {
    if iter.d.fields == [] {
      return true;
    }
    var count, lastRequired := iter.requiredIndex, iter.d.fields[iter.field].rule.Required?;
    ghost var lastField, lastMember := iter.field, iter.member;
    var more := iter.Next();
    while more
      invariant iter.Valid() && IsPlace(iter.d, lastField, lastMember)
      invariant count == RequiredCount(iter.d, lastField) && lastRequired == iter.d.fields[lastField].rule.Required?
      invariant more ==> IsPlace(iter.d, iter.field, iter.member) && Before(lastField, lastMember, iter.field, iter.member)
      invariant !more ==> forall i, m :: IsPlace(iter.d, i, m) ==> !Before(lastField, lastMember, i, m)
      decreases more, |iter.d.fields| - iter.field, if more then |iter.d.fields[iter.field].members| - iter.member else 0
    {
      count, lastRequired := iter.requiredIndex, iter.d.fields[iter.field].rule.Required?;
      lastField, lastMember := iter.field, iter.member;
      more := iter.Next();
    }
    LastFieldIsLast(iter.d, lastField, lastMember);
    if lastRequired {
      count := count + 1;
    }
    if count > MAX_REQUIRED {
      count := MAX_REQUIRED;
    }
    for r := 0 to count
      invariant forall k :: 0 <= k < r ==> k in seen
    {
      if r !in seen {
        return false;
      }
    }
    return true;
  }

  lemma LastFieldIsLast(d: Desc, i: nat, m: nat)
    requires (forall k :: 0 <= k < |d.fields| ==> FieldOk(d.fields[k])) && IsPlace(d, i, m)
    requires forall j, n :: IsPlace(d, j, n) ==> !Before(i, m, j, n)
    ensures i + 1 == |d.fields|
  {
    if i + 1 < |d.fields| {
      assert FieldOk(d.fields[i + 1]) && IsPlace(d, i + 1, 0);
    }
  }

  lemma NoField(d: Desc, slots: seq<Slot>, seen: set<nat>, b: Bytes, p: nat, limit: nat)
    requires DescOk(d) && MsgOk(d, Msg(slots), Held) && p <= limit <= |b|
    ensures p == limit ==> DecMsg(d, slots, seen, b, p, limit) == Finished(d, slots, seen)
    ensures p < limit ==>
              match ReadVarint32(b, p, limit)
              case None => DecMsg(d, slots, seen, b, p, limit) == None
              case Some(key) => key.value == 0 ==> DecMsg(d, slots, seen, b, p, limit) == Finished(d, slots, seen)
  {
    hide DecField, ValueOk, SkipField, Finished;
  }

  lemma Finishes(d: Desc, slots: seq<Slot>, seen: set<nat>)
    ensures Finished(d, slots, seen) == if AllSeen(d, seen) then Some(slots) else None
  {
  }

  lemma UnknownField(d: Desc, slots: seq<Slot>, seen: set<nat>, b: Bytes, p: nat, limit: nat, key: Parsed<nat>)
    requires DescOk(d) && MsgOk(d, Msg(slots), Held) && p < limit <= |b|
    requires ReadVarint32(b, p, limit) == Some(key) && key.value != 0
    requires forall i, m :: IsPlace(d, i, m) ==> TagAt(d, i, m) != key.value / 8
    ensures DecMsg(d, slots, seen, b, p, limit) ==
              match SkipField(b, key.next, limit, key.value % 8)
              case None => None
              case Some(next) => DecMsg(d, slots, seen, b, next, limit)
  {
    hide DecField, ValueOk, SkipField;
  }

  lemma KnownField(d: Desc, slots: seq<Slot>, seen: set<nat>, b: Bytes, p: nat, limit: nat, key: Parsed<nat>, i: nat, m: nat)
    requires DescOk(d) && MsgOk(d, Msg(slots), Held) && p < limit <= |b|
    requires ReadVarint32(b, p, limit) == Some(key) && key.value != 0
    requires IsPlace(d, i, m) && TagAt(d, i, m) == key.value / 8
    ensures FieldOk(d.fields[i]) && |slots| == |d.fields| && SlotOk(d.fields[i], slots[i], Held)
    ensures key.next <= limit
    ensures DecMsg(d, slots, seen, b, p, limit) ==
              match DecField(d.fields[i], m, slots[i], key.value % 8, b, key.next, limit)
              case None => None
              case Some(s) => DecMsg(d, slots[i := s.value], See(d, seen, i), b, s.next, limit)
  {
    hide DecField, ValueOk, SkipField;
    assert Find(d, key.value / 8) == Some(Place(i, m));
  }

  lemma SlotReplaced(d: Desc, slots: seq<Slot>, i: nat, s: Slot)
    requires MsgOk(d, Msg(slots), Held) && i < |d.fields| && SlotOk(d.fields[i], s, Held)
    ensures |slots| == |d.fields| && MsgOk(d, Msg(slots[i := s]), Held)
  {
  }

  /** pb_decode_noinit. */
  method DecodeNoinit(s: IStream, d: Desc, slots0: seq<Slot>) returns (ok: bool, slots: seq<Slot>)
    requires s.Valid() && DescOk(d) && MsgOk(d, Msg(slots0), Held)
    modifies s
    ensures var r := DecMsg(d, slots0, {}, s.data, old(s.state), old(s.state + s.bytesLeft));
            (ok <==> r.Some?) && (ok ==> slots == r.value && MovedTo(s, s.state, old(s.state + s.bytesLeft)))
    decreases d, 0
  {
    hide DecMsg, DecField, ReadVarint32, SkipField, SlotOk, MsgOk, FieldOk, Finished, AllSeen;
    ghost var start, limit := s.state, s.state + s.bytesLeft;
    slots := slots0;
    var seen: set<nat> := {};
    var iter := new FieldIter(d);
    ghost var terminated := false;
    while s.bytesLeft > 0
      invariant MovedTo(s, s.state, limit) && iter.Valid() && iter.d == d && fresh(iter)
      invariant MsgOk(d, Msg(slots), Held) && !terminated
      invariant DecMsg(d, slots0, {}, s.data, start, limit) == DecMsg(d, slots, seen, s.data, s.state, limit)
      decreases s.bytesLeft
    {
      ghost var p, slots1, seen1 := s.state, slots, seen;
      ghost var key := ReadVarint32(s.data, p, limit);
      var wire, tag, eof;
      NoField(d, slots1, seen1, s.data, p, limit);
      ok, wire, tag, eof := DecodeTag(s);
      if !ok {
        if eof {
          terminated := true;
          break;
        }
        return;
      }
      var found := iter.Find(tag);
      if !found {
        UnknownField(d, slots1, seen1, s.data, p, limit, key.value);
        ok := DoSkipField(s, wire);
        if !ok {
          return;
        }
      } else {
        KnownField(d, slots1, seen1, s.data, p, limit, key.value, iter.field, iter.member);
        var f := d.fields[iter.field];
        if f.rule.Required? && iter.requiredIndex < MAX_REQUIRED {
          seen := seen + {iter.requiredIndex};
        }
        var slot;
        ok, slot := DecodeStaticField(s, f, iter.member, slots[iter.field], wire);
        if !ok {
          return;
        }
        SlotReplaced(d, slots1, iter.field, slot);
        slots := slots[iter.field := slot];
      }
    }
    if !terminated {
      NoField(d, slots, seen, s.data, s.state, limit);
    }
    Finishes(d, slots, seen);
    ok := RequiredFieldsSeen(iter, seen);
  }

  /** pb_decode. */
  method Decode(data: Bytes, d: Desc) returns (ok: bool, value: Value)
    requires DescOk(d)
    ensures var r := DecMsg(d, ZeroMsg(d).slots, {}, data, 0, |data|);
            (ok <==> r.Some?) && (ok ==> value == Msg(r.value))
  {
    var s := new IStream(data, 0, |data|);
    var zero := ZeroMsg(d);
    assert Msg(zero.slots) == zero;
    var slots;
    ok, slots := DecodeNoinit(s, d, zero.slots);
    value := Msg(slots);
  }
}
