/** Varints, fixed-width integers and length-prefixed strings (util/coding.h, util/coding.cc). */
module Coding {
  import opened Keys

  const TWO_32: nat := 0x1_0000_0000
  const TWO_64: nat := 0x1_0000_0000_0000_0000

  // ---------- Varints ----------

  /** Base 128, least significant group first; the high bit says that more follows. */
  function Varint(v: nat): Bytes {
    if v < 128 then [v as byte] else [(v % 128 + 128) as byte] + Varint(v / 128)
  }

  /** EncodeVarint64's loop. */
  method EncodeVarint64(v: nat) returns (dst: Bytes)
    requires v < TWO_64
    ensures dst == Varint(v)
  {
    dst := [];
    var rest := v;
    while rest >= 128
      invariant dst + Varint(rest) == Varint(v)
    {
      dst := dst + [(rest % 128 + 128) as byte];
      rest := rest / 128;
    }
    dst := dst + [rest as byte];
  }

  /** EncodeVarint32, written out for each length; `v | 128` kept to a byte. */
  function EncodeVarint32(v: nat): Bytes
    requires v < TWO_32
  {
    if v < 0x80 then [v as byte]
    else if v < 0x4000 then [More(v), (v / 0x80) as byte]
    else if v < 0x20_0000 then [More(v), More(v / 0x80), (v / 0x4000) as byte]
    else if v < 0x1000_0000 then [More(v), More(v / 0x80), More(v / 0x4000), (v / 0x20_0000) as byte]
    else [More(v), More(v / 0x80), More(v / 0x4000), More(v / 0x20_0000), (v / 0x1000_0000) as byte]
  }

  function More(v: nat): byte {
    (v % 128 + 128) as byte
  }

  lemma VarintUnfolds(v: nat)
    ensures v < 128 ==> Varint(v) == [v as byte]
    ensures v >= 128 ==> Varint(v) == [More(v)] + Varint(v / 128)
  {
  }

  lemma EncodeVarint32IsVarint(v: nat)
    requires v < TWO_32
    ensures EncodeVarint32(v) == Varint(v)
  {
    var v1 := v / 0x80;
    var v2 := v1 / 0x80;
    var v3 := v2 / 0x80;
    var v4 := v3 / 0x80;
    assert v2 == v / 0x4000 && v3 == v / 0x20_0000 && v4 == v / 0x1000_0000;
    VarintUnfolds(v4);
    VarintUnfolds(v3);
    VarintUnfolds(v2);
    VarintUnfolds(v1);
    VarintUnfolds(v);
  }

  /** A value, and where the bytes after it begin. */
  datatype Parsed<+T> = Parsed(value: T, next: nat)

  /** The decoding loop, `groups` groups before its limit: `result` so far, the next group counting `scale`;
      an unsigned integer below `modulus` keeps what fits. */
  function VarintFrom(b: Bytes, p: nat, limit: nat, groups: nat, scale: nat, modulus: nat, result: nat): Option<Parsed<nat>>
    requires limit <= |b| && modulus > 0
    decreases groups
  {
    if groups == 0 || p >= limit then None
    else
      var result' := (result + (b[p] as nat % 128) * scale) % modulus;
      if b[p] >= 128 then VarintFrom(b, p + 1, limit, groups - 1, scale * 128, modulus, result')
      else Some(Parsed(result', p + 1))
  }

  function GetVarint32(b: Bytes, p: nat, limit: nat): Option<Parsed<nat>>
    requires limit <= |b|
  {
    VarintFrom(b, p, limit, 5, 1, TWO_32, 0)
  }

  function GetVarint64(b: Bytes, p: nat, limit: nat): Option<Parsed<nat>>
    requires limit <= |b|
  {
    VarintFrom(b, p, limit, 10, 1, TWO_64, 0)
  }

  /** GetVarint32PtrFallback, and GetVarint64Ptr likewise: shifts 0, 7, ... up to `lastShift`. */
  method GetVarintPtr(b: Bytes, p0: nat, limit: nat, groups: nat, modulus: nat) returns (r: Option<Parsed<nat>>)
    requires limit <= |b| && modulus > 0
    ensures r == VarintFrom(b, p0, limit, groups, 1, modulus, 0)
  {
    var p: nat, shift: nat, scale: nat, result: nat := p0, 0, 1, 0;
    while shift < groups && p < limit
      invariant shift <= groups
      invariant VarintFrom(b, p0, limit, groups, 1, modulus, 0) == VarintFrom(b, p, limit, groups - shift, scale, modulus, result)
    {
      var group := b[p];
      p := p + 1;
      result := (result + (group as nat % 128) * scale) % modulus;
      if group < 128 {
        return Some(Parsed(result, p));
      }
      shift, scale := shift + 1, scale * 128;
    }
    r := None;
  }

  /** `part` stands in `b` at offset `p`, before `limit`. */
  ghost predicate At(b: Bytes, p: nat, limit: nat, part: Bytes) {
    p + |part| <= limit <= |b| && b[p..p + |part|] == part
  }

  /** How many groups a value takes. */
  lemma {:induction false} VarintLength(v: nat, groups: nat, bound: nat)
    requires groups > 0 && v < bound && bound == Power128(groups)
    ensures 0 < |Varint(v)| <= groups
    decreases groups
  {
    if v >= 128 {
      VarintLength(v / 128, groups - 1, Power128(groups - 1));
    }
  }

  function Power2(n: nat): (r: nat)
    ensures r > 0
  {
    if n == 0 then 1 else 2 * Power2(n - 1)
  }

  function Power128(n: nat): nat {
    if n == 0 then 1 else 128 * Power128(n - 1)
  }

  lemma ScaleGroups(v: nat, scale: nat)
    ensures (v % 128) * scale + (v / 128) * (scale * 128) == v * scale
  {
    assert v == v % 128 + (v / 128) * 128;
    assert v * scale == (v % 128 + (v / 128) * 128) * scale;
  }

  /** The value read so far and the value still encoded make up `t`. */
  ghost predicate AddsUp(result: nat, v: nat, scale: nat, t: nat) {
    result + v * scale == t
  }

  lemma OneGroup(result: nat, v: nat, scale: nat, t: nat, modulus: nat) returns (result': nat)
    requires AddsUp(result, v, scale, t) && t < modulus
    ensures result' == (result + (v % 128) * scale) % modulus == result + (v % 128) * scale
    ensures v < 128 ==> result' == t
    ensures AddsUp(result', v / 128, scale * 128, t)
  {
    ScaleGroups(v, scale);
    var low, high := (v % 128) * scale, (v / 128) * (scale * 128);
    SumFits(result, low, high, v * scale, t, modulus);
    result' := result + low;
  }

  lemma SumFits(result: nat, low: nat, high: nat, sum: nat, t: nat, modulus: nat)
    requires low + high == sum && result + sum == t && t < modulus
    ensures (result + low) % modulus == result + low
  {
    SmallMod(result + low, modulus);
  }

  lemma SmallMod(x: nat, modulus: nat)
    requires x < modulus
    ensures x % modulus == x
  {
  }

  lemma {:induction false} VarintIsRead(b: Bytes, p: nat, limit: nat, groups: nat, scale: nat, modulus: nat,
                                        result: nat, v: nat, t: nat)
    requires At(b, p, limit, Varint(v)) && |Varint(v)| <= groups && modulus > 0
    requires AddsUp(result, v, scale, t) && t < modulus
    ensures VarintFrom(b, p, limit, groups, scale, modulus, result) == Some(Parsed(t, p + |Varint(v)|))
    decreases groups
  {
    var digit := v % 128;
    FirstGroup(b, p, limit, v, digit);
    var result' := OneGroup(result, v, scale, t, modulus);
    if v >= 128 {
      VarintTail(b, p, limit, v);
      VarintIsRead(b, p + 1, limit, groups - 1, scale * 128, modulus, result', v / 128, t);
    }
    VarintStep(b, p, limit, groups, scale, modulus, result, digit, result');
  }

  lemma FirstGroup(b: Bytes, p: nat, limit: nat, v: nat, digit: nat)
    requires At(b, p, limit, Varint(v)) && digit == v % 128
    ensures p < limit && b[p] as nat % 128 == digit && (b[p] >= 128 <==> v >= 128)
  {
    assert b[p] == b[p..p + |Varint(v)|][0];
  }

  lemma VarintStep(b: Bytes, p: nat, limit: nat, groups: nat, scale: nat, modulus: nat, result: nat, digit: nat, result': nat)
    requires p < limit <= |b| && groups > 0 && modulus > 0 && b[p] as nat % 128 == digit
    requires result' == (result + digit * scale) % modulus
    ensures VarintFrom(b, p, limit, groups, scale, modulus, result)
         == if b[p] >= 128 then VarintFrom(b, p + 1, limit, groups - 1, scale * 128, modulus, result')
            else Some(Parsed(result', p + 1))
  {
  }

  lemma VarintTail(b: Bytes, p: nat, limit: nat, v: nat)
    requires At(b, p, limit, Varint(v)) && v >= 128
    ensures At(b, p + 1, limit, Varint(v / 128)) && |Varint(v)| == |Varint(v / 128)| + 1
  {
    assert b[p..p + |Varint(v)|][1..] == b[p + 1..p + |Varint(v)|];
  }

  lemma Varint32IsRead(b: Bytes, p: nat, limit: nat, v: nat)
    requires v < TWO_32 && At(b, p, limit, Varint(v))
    ensures GetVarint32(b, p, limit) == Some(Parsed(v, p + |Varint(v)|))
    ensures |Varint(v)| <= 5
  {
    EncodeVarint32IsVarint(v);
    VarintIsRead(b, p, limit, 5, 1, TWO_32, 0, v, v);
  }

  lemma Varint64IsRead(b: Bytes, p: nat, limit: nat, v: nat)
    requires v < TWO_64 && At(b, p, limit, Varint(v))
    ensures GetVarint64(b, p, limit) == Some(Parsed(v, p + |Varint(v)|))
  {
    assert Power128(10) == 128 * 128 * 128 * 128 * 128 * 128 * 128 * 128 * 128 * 128;
    VarintLength(v, 10, Power128(10));
    VarintIsRead(b, p, limit, 10, 1, TWO_64, 0, v, v);
  }

  // ---------- Fixed-width integers ----------

  function Fixed32(v: nat): (b: Bytes)
    ensures |b| == 4
  {
    [(v % 256) as byte, (v / 0x100 % 256) as byte, (v / 0x1_0000 % 256) as byte, (v / 0x100_0000 % 256) as byte]
  }

  function GetFixed32(b: Bytes, p: nat): nat
    requires p + 4 <= |b|
  {
    b[p] as nat + 0x100 * b[p + 1] as nat + 0x1_0000 * b[p + 2] as nat + 0x100_0000 * b[p + 3] as nat
  }

  lemma Fixed32IsRead(b: Bytes, p: nat, v: nat)
    requires v < TWO_32 && At(b, p, |b|, Fixed32(v))
    ensures GetFixed32(b, p) == v
  {
    var f := b[p..p + 4];
    assert b[p] == f[0] && b[p + 1] == f[1] && b[p + 2] == f[2] && b[p + 3] == f[3];
    Digits(v);
  }

  lemma Digits(v: nat)
    requires v < TWO_32
    ensures v % 256 + 0x100 * (v / 0x100 % 256) + 0x1_0000 * (v / 0x1_0000 % 256) + 0x100_0000 * (v / 0x100_0000 % 256) == v
  {
    var v1 := v / 0x100;
    var v2 := v1 / 0x100;
    var v3 := v2 / 0x100;
    assert v2 == v / 0x1_0000 && v3 == v / 0x100_0000;
  }

  function Fixed64(v: nat): (b: Bytes)
    ensures |b| == 8
  {
    Fixed32(v % TWO_32) + Fixed32(v / TWO_32 % TWO_32)
  }

  function GetFixed64(b: Bytes, p: nat): nat
    requires p + 8 <= |b|
  {
    GetFixed32(b, p) + TWO_32 * GetFixed32(b, p + 4)
  }

  lemma Fixed64IsRead(b: Bytes, p: nat, v: nat)
    requires v < TWO_64 && At(b, p, |b|, Fixed64(v))
    ensures GetFixed64(b, p) == v
  {
    var low, high := v % TWO_32, v / TWO_32 % TWO_32;
    assert high == v / TWO_32;
    AtBoth(b, p, |b|, Fixed32(low), Fixed32(high));
    Fixed32IsRead(b, p, low);
    Fixed32IsRead(b, p + 4, high);
  }

  // ---------- Length-prefixed strings ----------

  function LengthPrefixed(s: Bytes): Bytes
    requires |s| < TWO_32
  {
    Varint(|s|) + s
  }

  function GetLengthPrefixedSlice(b: Bytes, p: nat, limit: nat): Option<Parsed<Bytes>>
    requires limit <= |b|
  {
    match GetVarint32(b, p, limit)
    case None => None
    case Some(len) =>
      if len.next + len.value <= limit then Some(Parsed(b[len.next..len.next + len.value], len.next + len.value)) else None
  }

  /** What is read from a prefix is read from the whole. */
  lemma {:induction false} VarintStable(b: Bytes, c: nat, p: nat, groups: nat, scale: nat, modulus: nat, result: nat)
    requires c <= |b| && modulus > 0
    ensures var r := VarintFrom(b[..c], p, c, groups, scale, modulus, result);
      r.Some? ==> VarintFrom(b, p, |b|, groups, scale, modulus, result) == r
    decreases groups
  {
    if groups > 0 && p < c && b[p] >= 128 {
      VarintStable(b, c, p + 1, groups - 1, scale * 128, modulus, (result + (b[p] as nat % 128) * scale) % modulus);
    }
  }

  lemma SliceStable(b: Bytes, c: nat, p: nat)
    requires c <= |b|
    ensures var r := GetLengthPrefixedSlice(b[..c], p, c);
      r.Some? ==> GetLengthPrefixedSlice(b, p, |b|) == r
  {
    VarintStable(b, c, p, 5, 1, TWO_32, 0);
    var r := GetLengthPrefixedSlice(b[..c], p, c);
    if r.Some? {
      var len := GetVarint32(b[..c], p, c).value;
      assert b[..c][len.next..len.next + len.value] == b[len.next..len.next + len.value];
    }
  }

  /** Two parts side by side. */
  lemma AtBoth(b: Bytes, p: nat, limit: nat, first: Bytes, second: Bytes)
    ensures At(b, p, limit, first + second) <==> At(b, p, limit, first) && At(b, p + |first|, limit, second)
  {
    if At(b, p, limit, first + second) {
      var whole := b[p..p + |first + second|];
      assert whole[..|first|] == first && whole[|first|..] == second;
      assert b[p..p + |first|] == whole[..|first|];
      assert b[p + |first|..p + |first| + |second|] == whole[|first|..];
    }
    if At(b, p, limit, first) && At(b, p + |first|, limit, second) {
      assert b[p..p + |first| + |second|] == b[p..p + |first|] + b[p + |first|..p + |first| + |second|];
    }
  }

  lemma FiveParts(b: Bytes, p: nat, limit: nat, a1: Bytes, a2: Bytes, a3: Bytes, a4: Bytes, a5: Bytes)
      returns (p1: nat, p2: nat, p3: nat, p4: nat)
    requires At(b, p, limit, a1 + (a2 + (a3 + (a4 + a5))))
    ensures p1 == p + |a1| && p2 == p1 + |a2| && p3 == p2 + |a3| && p4 == p3 + |a4|
    ensures At(b, p, limit, a1) && At(b, p1, limit, a2) && At(b, p2, limit, a3) && At(b, p3, limit, a4) && At(b, p4, limit, a5)
    ensures p + |a1 + (a2 + (a3 + (a4 + a5)))| == p4 + |a5| <= limit
  {
    p1 := p + |a1|;
    p2 := p1 + |a2|;
    p3 := p2 + |a3|;
    p4 := p3 + |a4|;
    AtBoth(b, p, limit, a1, a2 + (a3 + (a4 + a5)));
    AtBoth(b, p1, limit, a2, a3 + (a4 + a5));
    AtBoth(b, p2, limit, a3, a4 + a5);
    AtBoth(b, p3, limit, a4, a5);
  }

  lemma LengthPrefixedIsRead(b: Bytes, p: nat, limit: nat, s: Bytes)
    requires |s| < TWO_32 && At(b, p, limit, LengthPrefixed(s))
    ensures GetLengthPrefixedSlice(b, p, limit) == Some(Parsed(s, p + |LengthPrefixed(s)|))
  {
    AtBoth(b, p, limit, Varint(|s|), s);
    Varint32IsRead(b, p, limit, |s|);
  }

  // ---------- Strings one after the other ----------

  function Join(parts: seq<Bytes>): Bytes {
    if parts == [] then [] else Join(parts[..|parts| - 1]) + parts[|parts| - 1]
  }

  lemma JoinSnoc(parts: seq<Bytes>, x: Bytes)
    ensures Join(parts + [x]) == Join(parts) + x
  {
    assert (parts + [x])[..|parts|] == parts;
  }

  lemma Regrouped(a: Bytes, b: Bytes, c: Bytes)
    ensures (a + b) + c == a + (b + c)
  {
  }

  lemma {:induction false} JoinConcat(a: seq<Bytes>, b: seq<Bytes>)
    ensures Join(a + b) == Join(a) + Join(b)
    decreases |b|
  {
    if b == [] {
      assert a + b == a;
    } else {
      var init, x := b[..|b| - 1], b[|b| - 1];
      JoinConcat(a, init);
      JoinSnoc(a + init, x);
      JoinSnoc(init, x);
      Regrouped(Join(a), Join(init), x);
      assert init + [x] == b && (a + init) + [x] == a + b;
    }
  }

  lemma JoinFirst(parts: seq<Bytes>, x: Bytes)
    ensures Join([x] + parts) == x + Join(parts)
  {
    JoinConcat([x], parts);
    JoinSnoc([], x);
    assert [] + [x] == [x];
  }
}
