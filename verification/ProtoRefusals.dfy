/** What the decoder refuses: values that do not fit their fields, and fields it cannot pass (nanopb/pb_decode.c). */
module ProtoRefusals {
  import opened Keys
  import opened Coding
  import opened Protos
  import opened ProtoReading
  import opened ProtoRoundTrip
  import opened ProtoUnknown

  // ---------- Numbers ----------

  /** An unsigned field takes exactly the values that fit it. */
  lemma UnsignedIff(size: nat, value: nat, n: int)
    requires GoodSize(size) && value < TWO_64
    ensures DecUnsigned(size, value) == Some(n) <==> n == value < Span(size)
  {
  }

  /** A ZigZag field takes a value exactly if it is the form of a number that fits. */
  lemma ZigZagIff(size: nat, value: nat, n: int)
    requires GoodSize(size) && value < TWO_64
    ensures DecZigZagged(size, value) == Some(n) <==> Fits(n, Span(size)) && value == if n < 0 then -2 * n - 1 else 2 * n
  {
    if Fits(n, Span(size)) {
      ZigZagIsReadBack(size, n);
    }
  }

  /** The signed number that `value` stands for in a word of that many values. */
  function Signed(value: nat, span: nat): int
    requires span > 0
  {
    if 2 * (value % span) < span then value % span else value % span - span
  }

  /** A signed field takes the low 32 bits, or all 64 for a field of eight bytes, and refuses what does not fit then. */
  lemma SignedIff(size: nat, value: nat, n: int)
    requires GoodSize(size) && value < TWO_64
    ensures DecSigned(size, value) == Some(n) <==> n == Signed(value, if size == 8 then TWO_64 else TWO_32) && Fits(n, Span(size))
  {
    assert value % TWO_64 == value;
  }

  // ---------- Varints of more than 32 bits ----------

  /** Behind the 35th bit every group must repeat the sign. */
  lemma SignGroup(b: Bytes, p: nat, limit: nat, bitpos: nat, result: nat)
    requires 35 <= bitpos <= 63 && result < TWO_32 && p < limit <= |b|
    ensures var group, sign := b[p], if bitpos < 63 then 0xFF else 0x01;
            Varint32Rest(b, p, limit, bitpos, result) ==
              if group % 128 != 0 && (result < 0x8000_0000 || group != sign) then None
              else if group >= 128 then Varint32Rest(b, p + 1, limit, bitpos + 7, result) else Some(Parsed(result, p + 1))
  {
  }

  /** Groups of seven bits, each all zeros or all ones, and then a one. */
  predicate SignGroups(rest: nat, groups: nat) {
    if groups == 0 then rest == 1 else (rest % 128 == 0 || rest % 128 == 127) && SignGroups(rest / 128, groups - 1)
  }

  /** The bits behind the 35th are taken for the sign or refused. */
  lemma {:induction false} HighBits(b: Bytes, p: nat, limit: nat, bitpos: nat, rest: nat, result: nat, room: nat, groups: nat)
    requires At(b, p, limit, Varint(rest)) && result < TWO_32 && 0 < rest < room
    requires (bitpos == 35 && room == 0x2000_0000 && groups == 4) || (bitpos == 42 && room == 0x40_0000 && groups == 3)
          || (bitpos == 49 && room == 0x8000 && groups == 2) || (bitpos == 56 && room == 0x100 && groups == 1)
          || (bitpos == 63 && room == 2 && groups == 0)
    ensures Varint32Rest(b, p, limit, bitpos, result)
         == if result >= 0x8000_0000 && SignGroups(rest, groups) then Some(Parsed(result, p + |Varint(rest)|)) else None
    decreases rest
  {
    hide Varint32Rest;
    FirstGroup(b, p, limit, rest, rest % 128);
    SignGroup(b, p, limit, bitpos, result);
    if rest >= 128 {
      VarintTail(b, p, limit, rest);
      HighBits(b, p + 1, limit, bitpos + 7, rest / 128, result, room / 128, groups - 1);
    } else {
      EndsEarly(rest, groups);
    }
  }

  lemma {:induction false} EndsEarly(rest: nat, groups: nat)
    requires 0 < rest < 128
    ensures SignGroups(rest, groups) <==> groups == 0 && rest == 1
  {
    if groups > 0 {
      assert rest / 128 == 0;
      NeverEnds(groups - 1);
    }
  }

  lemma {:induction false} NeverEnds(groups: nat)
    ensures !SignGroups(0, groups)
  {
    if groups > 0 {
      NeverEnds(groups - 1);
    }
  }

  /** What is read of the first five groups. */
  lemma {:induction false} LowBits(b: Bytes, p: nat, limit: nat, bitpos: nat, scale: nat, result: nat, rest: nat, v: nat)
    requires At(b, p, limit, Varint(rest)) && Weight(bitpos, scale) && result < scale && result + rest * scale == v
    requires v >= 0x8_0000_0000
    ensures var high := v / 0x8_0000_0000; exists q: nat ::
      && At(b, q, limit, Varint(high)) && q + |Varint(high)| == p + |Varint(rest)|
      && Varint32Rest(b, p, limit, bitpos, result) == Varint32Rest(b, q, limit, 35, v % TWO_32)
    decreases rest
  {
    hide Varint32Rest, WithGroup;
    RestIsLarge(result, rest, scale, bitpos, v);
    FirstGroup(b, p, limit, rest, rest % 128);
    VarintTail(b, p, limit, rest);
    LowStep(b, p, limit, bitpos, result);
    if bitpos < 28 {
      var result' := WithGroup(result, b[p], bitpos);
      LowGroup(result, rest, scale, bitpos, b[p], v);
      LowBits(b, p + 1, limit, bitpos + 7, scale * 128, result', rest / 128, v);
    } else {
      LastLowGroup(result, rest, b[p], v);
    }
  }

  lemma RestIsLarge(result: nat, rest: nat, scale: nat, bitpos: nat, v: nat)
    requires Weight(bitpos, scale) && result < scale && result + rest * scale == v && v >= 0x8_0000_0000
    ensures rest >= 128
  {
    assert rest < 128 ==> rest * scale <= 127 * scale;
  }

  lemma LowStep(b: Bytes, p: nat, limit: nat, bitpos: nat, result: nat)
    requires p < limit <= |b| && bitpos < 32 && b[p] >= 128
    ensures Varint32Rest(b, p, limit, bitpos, result) == Varint32Rest(b, p + 1, limit, bitpos + 7, WithGroup(result, b[p], bitpos))
  {
    hide WithGroup;
  }

  lemma LowGroup(result: nat, rest: nat, scale: nat, bitpos: nat, group: byte, v: nat)
    requires Weight(bitpos, scale) && bitpos < 28 && result < scale && result + rest * scale == v && group as nat % 128 == rest % 128
    ensures WithGroup(result, group, bitpos) < scale * 128 && WithGroup(result, group, bitpos) + rest / 128 * (scale * 128) == v
  {
    hide WithGroup;
    assert (rest % 128) * scale <= 127 * scale;
    GroupIsAdded(result, group, bitpos, scale);
    ScaleGroups(rest, scale);
  }

  /** Of the fifth group the lowest four bits fit, and the others are lost. */
  lemma LastLowGroup(result: nat, rest: nat, group: byte, v: nat)
    requires result < 0x1000_0000 && result + rest * 0x1000_0000 == v && group as nat % 128 == rest % 128
    ensures WithGroup(result, group, 28) == v % TWO_32 && rest / 128 == v / 0x8_0000_0000
  {
    WeightIsPower(28, 0x1000_0000);
    var digit := rest % 128;
    assert digit * 0x1000_0000 % TWO_32 == (digit % 16) * 0x1000_0000;
    hide Power2, Or;
    OrAbove(result, digit % 16, 28);
  }

  lemma FirstStep(b: Bytes, p: nat, limit: nat, v: nat)
    requires At(b, p, limit, Varint(v)) && v >= 128
    ensures At(b, p + 1, limit, Varint(v / 128)) && |Varint(v)| == |Varint(v / 128)| + 1
    ensures ReadVarint32(b, p, limit) == Varint32Rest(b, p + 1, limit, 7, v % 128)
  {
    hide Varint32Rest;
    FirstGroup(b, p, limit, v, v % 128);
    VarintTail(b, p, limit, v);
  }

  lemma LargeIff(b: Bytes, p: nat, limit: nat, v: nat)
    requires At(b, p, limit, Varint(v / 128)) && 0x8_0000_0000 <= v < TWO_64
    ensures Varint32Rest(b, p, limit, 7, v % 128) ==
              if SignGroups(v / 0x8_0000_0000, 4) && v % TWO_32 >= 0x8000_0000 then Some(Parsed(v % TWO_32, p + |Varint(v / 128)|)) else None
  {
    hide Varint32Rest, Varint, SignGroups;
    assert v % 128 + (v / 128) * 128 == v;
    LowBits(b, p, limit, 7, 128, v % 128, v / 128, v);
    var high := v / 0x8_0000_0000;
    var q: nat :| At(b, q, limit, Varint(high)) && q + |Varint(high)| == p + |Varint(v / 128)|
      && Varint32Rest(b, p, limit, 7, v % 128) == Varint32Rest(b, q, limit, 35, v % TWO_32);
    HighBits(b, q, limit, 35, high, v % TWO_32, 0x2000_0000, 4);
  }

  /** pb_decode_varint32 on any varint of 64 bits.  A value of 32 bits is read.  A larger one is cut to 32 bits if its
      32nd bit is set, its groups of seven bits from the 36th bit to the 63rd are all zeros or all ones each, and its 64th
      bit is set: so a negative number is read, and also some that are none.  All others are refused. */
  lemma Varint32Iff(b: Bytes, p: nat, limit: nat, v: nat)
    requires At(b, p, limit, Varint(v)) && v < TWO_64
    ensures ReadVarint32(b, p, limit) ==
              if v < TWO_32 || (SignGroups(v / 0x8_0000_0000, 4) && v % TWO_32 >= 0x8000_0000)
              then Some(Parsed(v % TWO_32, p + |Varint(v)|)) else None
  {
    hide Varint32Rest, ReadVarint32, Varint;
    NeverEnds(4);
    if v < TWO_32 {
      Varint32IsReadBack(b, p, limit, v);
    } else {
      FirstStep(b, p, limit, v);
      if v < 0x8_0000_0000 {
        assert v % 128 + (v / 128) * 128 == v;
        MiddleBits(b, p + 1, limit, 7, 128, v % 128, v / 128, v);
      } else {
        LargeIff(b, p + 1, limit, v);
      }
    }
  }

  /** A number that is none passes for one: zeros in bits 36 to 42 of a negative number are not noticed. */
  lemma Varint32TakesMore()
    ensures ReadVarint32([0xFF, 0xFF, 0xFF, 0xFF, 0xFF, 0x80, 0xFF, 0xFF, 0xFF, 0x01], 0, 10) == Some(Parsed(0xFFFF_FFFF, 10))
  {
    var b: Bytes := [0xFF, 0xFF, 0xFF, 0xFF, 0xFF, 0x80, 0xFF, 0xFF, 0xFF, 0x01];
    var v := 0xFFFF_FC07_FFFF_FFFF;
    VarintUnfolds(v);
    VarintUnfolds(v / 0x80);
    VarintUnfolds(v / 0x4000);
    VarintUnfolds(v / 0x20_0000);
    VarintUnfolds(v / 0x1000_0000);
    VarintUnfolds(v / 0x8_0000_0000);
    VarintUnfolds(v / 0x400_0000_0000);
    VarintUnfolds(v / 0x2_0000_0000_0000);
    VarintUnfolds(v / 0x100_0000_0000_0000);
    VarintUnfolds(v / 0x8000_0000_0000_0000);
    assert Varint(v) == b;
    assert SignGroups(v / 0x8_0000_0000, 4);
    Varint32Iff(b, 0, 10, v);
  }

  /** A fifth group that is the last and too large. */
  lemma {:induction false} MiddleBits(b: Bytes, p: nat, limit: nat, bitpos: nat, scale: nat, result: nat, rest: nat, v: nat)
    requires At(b, p, limit, Varint(rest)) && Weight(bitpos, scale) && result < scale && result + rest * scale == v
    requires TWO_32 <= v < 0x8_0000_0000
    ensures Varint32Rest(b, p, limit, bitpos, result) == None
    decreases rest
  {
    hide Varint32Rest, WithGroup;
    FirstGroup(b, p, limit, rest, rest % 128);
    if bitpos < 28 {
      MiddleIsLarge(result, rest, scale, bitpos, v);
      VarintTail(b, p, limit, rest);
      LowStep(b, p, limit, bitpos, result);
      LowGroup(result, rest, scale, bitpos, b[p], v);
      MiddleBits(b, p + 1, limit, bitpos + 7, scale * 128, WithGroup(result, b[p], bitpos), rest / 128, v);
    } else {
      LastIsRefused(b, p, limit, result);
    }
  }

  lemma MiddleIsLarge(result: nat, rest: nat, scale: nat, bitpos: nat, v: nat)
    requires Weight(bitpos, scale) && bitpos < 28 && result < scale && result + rest * scale == v && v >= TWO_32
    ensures rest >= 128
  {
    assert rest < 128 ==> rest * scale <= 127 * scale;
  }

  lemma LastIsRefused(b: Bytes, p: nat, limit: nat, result: nat)
    requires p < limit <= |b| && 16 <= b[p] < 128
    ensures Varint32Rest(b, p, limit, 28, result) == None
  {
    hide WithGroup;
  }

  // ---------- Strings and arrays ----------

  /** Text is taken if it leaves room for the terminator, up to the first NUL; bytes if they fit behind their size; an
      array of a fixed length if it has that length, or is empty and then stands for zeros. */
  lemma StringIff(t: Type, s: Bytes, b: Bytes, p: nat, limit: nat)
    requires IsString(t) && TypeOk(t) && |s| < TWO_32 && At(b, p, limit, Prefixed(s))
    ensures var r, next := DecString(t, b, p, limit), p + |Prefixed(s)|;
            match t
            case Text(room) => r == if |s| < room then Some(Parsed(Raw(UpToNul(s)), next)) else None
            case Blob(room) => r == if |s| < 0x1_0000 && |s| + 2 <= room then Some(Parsed(Raw(s), next)) else None
            case FixedBlob(n) => r == if |s| == n then Some(Parsed(Raw(s), next))
                                      else if |s| == 0 then Some(Parsed(Raw(seq(n, _ => 0)), next)) else None
  {
    hide ReadVarint32, Varint, UpToNul, ValueOk, TypeOk;
    var start := PrefixedIsRead(b, p, limit, s);
    assert start + |s| == p + |Prefixed(s)| <= limit;
    hide Prefixed, At;
    if t.FixedBlob? && |s| == 0 && t.length == 0 {
      assert seq(0, _ => 0 as byte) == s;
    }
  }

  /** One value too many for an array is refused, in packed form ... */
  lemma {:induction false} PackedIsFull(m: Member, items: seq<Value>, j: nat, max: nat, b: Bytes, p: nat, limit: nat)
    requires TypeOk(m.ltype) && Packable(m.ltype) && j <= max < |items| && max < SIZE_LIMIT
    requires forall k :: 0 <= k < |items| ==> ValueOk(m.ltype, items[k], Held)
    requires At(b, p, limit, EncItems(m, items, j)) && p + |EncItems(m, items, j)| == limit
    ensures DecPacked(m.ltype, items[..j], max, b, p, limit) == None
    decreases max - j
  {
    hide ValueOk, TypeOk, DecNumber, EncValue;
    var e, back := EncValue(m.ltype, items[j]), EncItems(m, items, j + 1);
    AtBoth(b, p, limit, e, back);
    NumberIsRead(m.ltype, items[j], b, p, limit);
    if j < max {
      assert items[..j] + [items[j]] == items[..j + 1];
      PackedIsFull(m, items, j + 1, max, b, p + |e|, limit);
    }
  }

  /** ... and value by value. */
  lemma FullArray(f: Field, items: seq<Value>, wire: nat, b: Bytes, p: nat, limit: nat)
    requires FieldOk(f) && |f.members| > 0 && f.rule.Repeated? && SlotOk(f, Many(items), Held) && p <= limit <= |b|
    requires |items| >= f.rule.max && !(wire == 2 && Packable(f.members[0].ltype))
    ensures DecField(f, 0, Many(items), wire, b, p, limit) == None
  {
  }

  // ---------- Fields that cannot be passed ----------

  /** An unknown field of one of the deprecated or undefined wire types is refused. */
  lemma UndefinedWireIsRefused(d: Desc, slots: seq<Slot>, seen: set<nat>, tag: nat, wire: nat, b: Bytes, p: nat, limit: nat)
    requires DescOk(d) && MsgOk(d, Msg(slots), Held) && 1 <= tag && 8 * tag + wire < TWO_32
    requires wire == 3 || wire == 4 || wire == 6 || wire == 7
    requires At(b, p, limit, EncTag(tag, wire)) && forall i, m :: IsPlace(d, i, m) ==> TagAt(d, i, m) != tag
    ensures DecMsg(d, slots, seen, b, p, limit) == None
  {
    hide DecField, ValueOk, EncTag, ReadVarint32;
    var q := ProtoUnknown.TagIsRead(b, p, limit, tag, wire);
    assert Find(d, tag).None?;
  }

  /** So is one whose value is cut off by the end of the message. */
  lemma CutValueIsRefused(b: Bytes, p: nat, limit: nat, wire: nat, e: Bytes, n: nat)
    requires WellFormed(wire, e) && n < |e| && p + n == limit <= |b| && b[p..limit] == e[..n]
    ensures SkipField(b, p, limit, wire) == None
  {
    if wire == 0 {
      CutVarint(b, p, limit, e, n);
    } else if wire == 2 {
      CutString(b, p, limit, e, n);
    }
  }

  lemma {:induction false} CutVarint(b: Bytes, p: nat, limit: nat, e: Bytes, n: nat)
    requires OneVarint(e) && n < |e| && p + n == limit <= |b| && b[p..limit] == e[..n]
    ensures SkipVarint(b, p, limit) == None
    decreases n
  {
    if n > 0 {
      assert b[p..limit][0] == e[0];
      assert b[p + 1..limit] == b[p..limit][1..] && e[..n][1..] == e[1..][..n - 1];
      CutVarint(b, p + 1, limit, e[1..], n - 1);
    }
  }

  lemma CutString(b: Bytes, p: nat, limit: nat, e: Bytes, n: nat)
    requires OneString(e) && n < |e| && p + n == limit <= |b| && b[p..limit] == e[..n]
    ensures GetString(b, p, limit) == None
  {
    var s :| |s| < TWO_32 && e == Prefixed(s);
    var head := Varint(|s|);
    if n >= |head| {
      assert b[p..p + |head|] == b[p..limit][..|head|] == head;
      Varint32IsReadBack(b, p, limit, |s|);
    } else {
      assert e[..n] == head[..n];
      VarintsAreWellFormed(|s|);
      NoEndInside(b, p, limit, head, n);
    }
  }

  lemma NoEndInside(b: Bytes, p: nat, limit: nat, head: Bytes, n: nat)
    requires OneVarint(head) && n < |head| && p + n == limit <= |b| && b[p..limit] == head[..n]
    ensures ReadVarint32(b, p, limit) == None
  {
    forall i | p <= i < limit ensures b[i] >= 128 {
      assert b[i] == b[p..limit][i - p];
    }
    if p < limit {
      NoEnd(b, p + 1, limit, 7, b[p] as nat % 128);
    }
  }

  lemma {:induction false} NoEnd(b: Bytes, p: nat, limit: nat, bitpos: nat, result: nat)
    requires p <= limit <= |b| && forall i :: p <= i < limit ==> b[i] >= 128
    ensures Varint32Rest(b, p, limit, bitpos, result) == None
    decreases limit - p
  {
    hide Varint32Rest, Refused, ResultAfter, PositionAfter;
    Rest32Step(b, p, limit, bitpos, result);
    if p < limit {
      NoEnd(b, p + 1, limit, PositionAfter(bitpos), ResultAfter(b[p], bitpos, result));
    }
  }
}
