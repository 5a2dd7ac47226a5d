/** CRC32C: the definition, one bit at a time, and the table-driven, four-stride computation that
    equals it (util/crc32c.cc, util/crc32c.h; section 12.1 of RFC 3720).

    `m` is the CRC's register throughout: `IsCrc(m)` says so without unfolding what it does. */
module Crc32c {
  import opened Registers

  type word = bv32
  type octet = bv8

  const POLYNOMIAL: word := 0x82f63b78
  const XOR: word := 0xffffffff

  // ---------- The definition ----------

  /** One bit of movement, polynomial 0x1EDC6F41 reflected. */
  function Bit(l: word): word {
    (l >> 1) ^ (if l & 1 == 1 then POLYNOMIAL else 0)
  }

  function Exclusive(a: word, b: word): word { a ^ b }

  function CrcRegister(): Register<word> { Register(Bit, Exclusive) }

  /** The register after `data`: each byte is xored in and moved through, bit by bit. */
  function Bytes(m: Register<word>, l: word, data: seq<octet>): word {
    if data == [] then l else ByteStep(m, Bytes(m, l, data[..|data| - 1]), data[|data| - 1] as word)
  }

  function CrcBy(m: Register<word>, crc: word, data: seq<octet>): word {
    Bytes(m, crc ^ XOR, data) ^ XOR
  }

  /** The CRC32C of `data` appended to a string whose CRC32C is `crc`. */
  function Crc(crc: word, data: seq<octet>): word {
    CrcBy(CrcRegister(), crc, data)
  }

  ghost predicate Agree(m: Register<word>, a: word, b: word) {
    m.step(a) == Bit(a) && m.xor(a, b) == a ^ b
  }

  ghost predicate IsCrc(m: Register<word>) {
    Linear(m) && forall a, b :: Agree(m, a, b)
  }

  // ---------- The CRC's register is linear ----------

  lemma ShiftXor(a: word, b: word)
    ensures (a ^ b) >> 1 == (a >> 1) ^ (b >> 1)
  {
  }

  lemma LowBit(a: word, b: word)
    ensures (a ^ b) & 1 == (a & 1) ^ (b & 1)
    ensures a & 1 == 0 || a & 1 == 1
  {
  }

  lemma XorThrough(x: word, y: word, p: word)
    ensures (x ^ p) ^ (y ^ p) == x ^ y
    ensures (x ^ p) ^ y == (x ^ y) ^ p
    ensures x ^ (y ^ p) == (x ^ y) ^ p
  {
  }

  lemma BitIsLinear(a: word, b: word)
    ensures Bit(a ^ b) == Bit(a) ^ Bit(b)
  {
    ShiftXor(a, b);
    LowBit(a, b);
    LowBit(b, a);
    XorThrough(a >> 1, b >> 1, POLYNOMIAL);
  }

  lemma BitForgetsNothing(a: word, b: word)
    ensures Bit(a) == Bit(b) ==> a == b
  {
  }

  lemma XorLaws(a: word, b: word, c: word)
    ensures (a ^ b) ^ c == a ^ (b ^ c)
    ensures a ^ b == b ^ a
    ensures a ^ b == a ^ c ==> b == c
  {
  }

  lemma Applied(a: word, b: word)
    ensures CrcRegister().xor(a, b) == a ^ b
  {
  }

  lemma StepsAre(a: word, b: word, c: word, x: word, y: word, z: word)
    requires Bit(a) == x && Bit(b) == y && Bit(c) == z
    ensures CrcRegister().step(a) == x && CrcRegister().step(b) == y && CrcRegister().step(c) == z
  {
  }

  lemma BitsAre(a: word, b: word, c: word) returns (x: word, y: word, z: word)
    requires c == a ^ b
    ensures Bit(a) == x && Bit(b) == y && Bit(c) == z && z == x ^ y
  {
    BitIsLinear(a, b);
    x, y, z := Bit(a), Bit(b), Bit(c);
  }

  lemma StepsOf(a: word, b: word, c: word) returns (x: word, y: word, z: word)
    requires c == a ^ b
    ensures CrcRegister().step(a) == x && CrcRegister().step(b) == y && CrcRegister().step(c) == z && z == x ^ y
  {
    x, y, z := BitsAre(a, b, c);
    StepsAre(a, b, c, x, y, z);
  }

  lemma StepLaw(a: word, b: word)
    ensures StepsApart(CrcRegister(), a, b)
  {
    var x, y, z := StepsOf(a, b, a ^ b);
    Applied(a, b);
    Applied(x, y);
  }

  lemma MemoryLaw(a: word, b: word)
    ensures Remembers(CrcRegister(), a, b)
  {
    BitForgetsNothing(a, b);
  }

  lemma CommuteLaw(a: word, b: word)
    ensures Commutes(CrcRegister(), a, b)
  {
    XorLaws(a, b, b);
  }

  lemma AssociateLaw(a: word, b: word, c: word)
    ensures Associates(CrcRegister(), a, b, c)
  {
    var m := CrcRegister();
    var p, q := a ^ b, b ^ c;
    assert p ^ c == a ^ q by {
      XorLaws(a, b, c);
    }
    assert m.xor(a, b) == p && m.xor(b, c) == q && m.xor(p, c) == p ^ c && m.xor(a, q) == a ^ q by {
      Applied(a, b);
      Applied(b, c);
      Applied(p, c);
      Applied(a, q);
    }
  }

  lemma CancelLaw(a: word, b: word, c: word)
    ensures Cancels(CrcRegister(), a, b, c)
  {
    XorLaws(a, b, c);
  }

  lemma CrcRegisterIsCrc()
    ensures IsCrc(CrcRegister())
  {
    var m := CrcRegister();
    forall a, b ensures StepsApart(m, a, b) && Remembers(m, a, b) && Commutes(m, a, b) && Agree(m, a, b) {
      StepLaw(a, b);
      MemoryLaw(a, b);
      CommuteLaw(a, b);
    }
    forall a, b, c ensures Associates(m, a, b, c) && Cancels(m, a, b, c) {
      AssociateLaw(a, b, c);
      CancelLaw(a, b, c);
    }
  }

  // ---------- Bits that only fall through ----------

  ghost predicate Falls(l: word, half: word) {
    l & 1 == 0 && half == l >> 1
  }

  lemma LowBitsClear(l: word)
    requires l & 0xff == 0
    ensures Falls(l, l >> 1) && Falls(l >> 1, l >> 2) && Falls(l >> 2, l >> 3) && Falls(l >> 3, l >> 4)
    ensures Falls(l >> 4, l >> 5) && Falls(l >> 5, l >> 6) && Falls(l >> 6, l >> 7) && Falls(l >> 7, l >> 8)
  {
  }

  lemma FallsThrough(m: Register<word>, l: word, half: word)
    requires IsCrc(m) && Falls(l, half)
    ensures m.step(l) == half
  {
    assert Agree(m, l, l);
  }

  /** With an empty low byte, eight bits of movement is a plain shift. */
  lemma ClearByteFalls(m: Register<word>, n: nat, l: word, high: word)
    requires IsCrc(m) && l & 0xff == 0 && high == l >> 8
    ensures Shift(m, n + 8, l) == Shift(m, n, high)
  {
    LowBitsClear(l);
    FallsThrough(m, l, l >> 1);
    FallsThrough(m, l >> 1, l >> 2);
    FallsThrough(m, l >> 2, l >> 3);
    FallsThrough(m, l >> 3, l >> 4);
    FallsThrough(m, l >> 4, l >> 5);
    FallsThrough(m, l >> 5, l >> 6);
    FallsThrough(m, l >> 6, l >> 7);
    FallsThrough(m, l >> 7, high);
    EightSteps(m, n, l, l >> 1, l >> 2, l >> 3, l >> 4, l >> 5, l >> 6, l >> 7, high);
  }

  lemma LanesFall(b: octet)
    ensures ((b as word) << 8) & 0xff == 0 && ((b as word) << 8) >> 8 == b as word
    ensures ((b as word) << 16) & 0xff == 0 && ((b as word) << 16) >> 8 == (b as word) << 8
    ensures ((b as word) << 24) & 0xff == 0 && ((b as word) << 24) >> 8 == (b as word) << 16
  {
  }

  lemma LaneArrives(m: Register<word>, b: octet)
    requires IsCrc(m)
    ensures Shift(m, 8, (b as word) << 8) == b as word
    ensures Shift(m, 16, (b as word) << 16) == b as word
    ensures Shift(m, 24, (b as word) << 24) == b as word
  {
    LanesFall(b);
    var b0, b1, b2, b3 := b as word, (b as word) << 8, (b as word) << 16, (b as word) << 24;
    ClearByteFalls(m, 0, b1, b0);
    ClearByteFalls(m, 8, b2, b1);
    ClearByteFalls(m, 16, b3, b2);
    assert Shift(m, 0, b0) == b0;
  }

  // ---------- Tables ----------

  /** kByteExtensionTable and kStrideExtensionTable0 .. 3, indexed by a byte. */
  datatype Tables = Tables(byteTable: word -> word, stride0: word -> word, stride1: word -> word,
                           stride2: word -> word, stride3: word -> word)
  {
    ghost predicate Entry(m: Register<word>, c: word) {
      c & 0xff == c ==>
        && byteTable(c) == Shift(m, 8, c)
        && stride3(c) == Shift(m, 128, c)
        && stride2(c) == Shift(m, 128, c << 8)
        && stride1(c) == Shift(m, 128, c << 16)
        && stride0(c) == Shift(m, 128, c << 24)
    }

    /** Each entry is the advance of one byte: by one byte, or by 16 from one of a word's four lanes. */
    ghost predicate Valid(m: Register<word>) {
      forall c :: Entry(m, c)
    }
  }

  lemma Xor(m: Register<word>, a: word, b: word, c: word)
    requires IsCrc(m) && c == a ^ b
    ensures m.xor(a, b) == c
  {
    assert Agree(m, a, b);
  }

  lemma SplitLowByte(l: word, b: octet)
    ensures ((l & 0xff) ^ (b as word)) ^ (l & 0xffffff00) == l ^ (b as word)
  {
  }

  lemma HighBytes(l: word)
    ensures (l & 0xffffff00) & 0xff == 0 && (l & 0xffffff00) >> 8 == l >> 8
  {
  }

  lemma IsByte(l: word, b: octet)
    ensures ((l & 0xff) ^ (b as word)) & 0xff == (l & 0xff) ^ (b as word)
  {
  }

  ghost predicate IsSplit(l: word, b: word, low: word, high: word, rest: word) {
    low & 0xff == low && high & 0xff == 0 && rest == high >> 8 && l ^ b == low ^ high
  }

  lemma Split(l: word, b: octet, low: word, rest: word) returns (high: word)
    requires low == (l & 0xff) ^ (b as word) && rest == l >> 8
    ensures IsSplit(l, b as word, low, high, rest)
  {
    IsByte(l, b);
    SplitLowByte(l, b);
    HighBytes(l);
    high := l & 0xffffff00;
  }

  lemma TableStep(t: Tables, m: Register<word>, l: word, b: word, low: word, high: word, rest: word)
    requires IsCrc(m) && t.Valid(m) && IsSplit(l, b, low, high, rest)
    ensures ByteStep(m, l, b) == m.xor(t.byteTable(low), rest)
  {
    assert t.Entry(m, low);
    var lx := l ^ b;
    Xor(m, l, b, lx);
    Xor(m, low, high, lx);
    ShiftIsLinear(m, 8, low, high);
    ClearByteFalls(m, 0, high, rest);
    assert Shift(m, 0, rest) == rest;
  }

  /** STEP1. */
  method Step1(t: Tables, m: Register<word>, l: word, b: octet) returns (r: word)
    requires IsCrc(m) && t.Valid(m)
    ensures r == ByteStep(m, l, b as word)
  {
    var c := (l & 0xff) ^ (b as word);
    var advanced, rest := t.byteTable(c), l >> 8;
    ghost var high := Split(l, b, c, rest);
    TableStep(t, m, l, b as word, c, high, rest);
    r := m.xor(advanced, rest);
  }

  // ---------- Words ----------

  /** DecodeFixed32. */
  function LittleEndian(b0: octet, b1: octet, b2: octet, b3: octet): word {
    (b0 as word) | ((b1 as word) << 8) | ((b2 as word) << 16) | ((b3 as word) << 24)
  }

  function ReadUint32LE(data: seq<octet>, p: nat): word
    requires p + 4 <= |data|
  {
    LittleEndian(data[p], data[p + 1], data[p + 2], data[p + 3])
  }

  lemma OrIsXor(b0: octet, b1: octet, b2: octet, b3: octet)
    ensures LittleEndian(b0, b1, b2, b3)
         == (((b0 as word) ^ ((b1 as word) << 8)) ^ ((b2 as word) << 16)) ^ ((b3 as word) << 24)
  {
  }

  lemma XorOfLanes(m: Register<word>, a0: word, a1: word, a2: word, a3: word, x: word, y: word, w: word)
    requires IsCrc(m) && x == a0 ^ a1 && y == x ^ a2 && w == y ^ a3
    ensures w == m.xor(m.xor(m.xor(a0, a1), a2), a3)
  {
    assert m.xor(a0, a1) == x by {
      Xor(m, a0, a1, x);
    }
    assert m.xor(x, a2) == y by {
      Xor(m, x, a2, y);
    }
    assert m.xor(y, a3) == w by {
      Xor(m, y, a3, w);
    }
  }

  /** The four bytes of a word, and where each of them sits in it. */
  ghost predicate Loaded(m: Register<word>, w: word, c0: word, c1: word, c2: word, c3: word, a1: word, a2: word, a3: word) {
    && Shift(m, 8, a1) == c1 && Shift(m, 16, a2) == c2 && Shift(m, 24, a3) == c3
    && w == m.xor(m.xor(m.xor(c0, a1), a2), a3)
  }

  lemma LoadedLanes(m: Register<word>, b1: octet, b2: octet, b3: octet)
    requires IsCrc(m)
    ensures Shift(m, 8, (b1 as word) << 8) == b1 as word
    ensures Shift(m, 16, (b2 as word) << 16) == b2 as word
    ensures Shift(m, 24, (b3 as word) << 24) == b3 as word
  {
    LaneArrives(m, b1);
    LaneArrives(m, b2);
    LaneArrives(m, b3);
  }

  lemma XorOf(a: word, b: word) returns (x: word)
    ensures x == a ^ b
  {
    x := a ^ b;
  }

  lemma XorParts(a0: word, a1: word, a2: word, a3: word, x: word, y: word, w: word)
    requires w == ((a0 ^ a1) ^ a2) ^ a3 && x == a0 ^ a1 && y == x ^ a2
    ensures w == y ^ a3
  {
  }

  lemma LanesAreXor(m: Register<word>, a0: word, a1: word, a2: word, a3: word, w: word)
    requires IsCrc(m) && w == ((a0 ^ a1) ^ a2) ^ a3
    ensures w == m.xor(m.xor(m.xor(a0, a1), a2), a3)
  {
    var x := XorOf(a0, a1);
    var y := XorOf(x, a2);
    XorParts(a0, a1, a2, a3, x, y, w);
    XorOfLanes(m, a0, a1, a2, a3, x, y, w);
  }

  lemma OrParts(b0: octet, b1: octet, b2: octet, b3: octet, w: word)
      returns (a0: word, a1: word, a2: word, a3: word)
    requires w == LittleEndian(b0, b1, b2, b3)
    ensures a0 == b0 as word && a1 == (b1 as word) << 8 && a2 == (b2 as word) << 16 && a3 == (b3 as word) << 24
    ensures w == ((a0 ^ a1) ^ a2) ^ a3
  {
    OrIsXor(b0, b1, b2, b3);
    a0, a1, a2, a3 := b0 as word, (b1 as word) << 8, (b2 as word) << 16, (b3 as word) << 24;
  }

  lemma LittleEndianIsXor(m: Register<word>, b0: octet, b1: octet, b2: octet, b3: octet, w: word)
      returns (a1: word, a2: word, a3: word)
    requires IsCrc(m) && w == LittleEndian(b0, b1, b2, b3)
    ensures a1 == (b1 as word) << 8 && a2 == (b2 as word) << 16 && a3 == (b3 as word) << 24
    ensures w == m.xor(m.xor(m.xor(b0 as word, a1), a2), a3)
  {
    var a0;
    a0, a1, a2, a3 := OrParts(b0, b1, b2, b3, w);
    LanesAreXor(m, a0, a1, a2, a3, w);
  }

  lemma LoadLanes(m: Register<word>, b0: octet, b1: octet, b2: octet, b3: octet, w: word)
      returns (a1: word, a2: word, a3: word)
    requires IsCrc(m) && w == LittleEndian(b0, b1, b2, b3)
    ensures Loaded(m, w, b0 as word, b1 as word, b2 as word, b3 as word, a1, a2, a3)
  {
    a1, a2, a3 := LittleEndianIsXor(m, b0, b1, b2, b3, w);
    LoadedLanes(m, b1, b2, b3);
  }

  function FourByteSteps(m: Register<word>, l: word, c0: word, c1: word, c2: word, c3: word): word {
    ByteStep(m, ByteStep(m, ByteStep(m, ByteStep(m, l, c0), c1), c2), c3)
  }

  /** A little-endian word absorbs its four bytes at once. */
  lemma WordStepIsFourByteSteps(m: Register<word>, l: word, b0: octet, b1: octet, b2: octet, b3: octet, w: word)
    requires IsCrc(m) && w == LittleEndian(b0, b1, b2, b3)
    ensures FourByteSteps(m, l, b0 as word, b1 as word, b2 as word, b3 as word) == WordStep(m, l, w)
  {
    var a1, a2, a3 := LoadLanes(m, b0, b1, b2, b3, w);
    FourBytesAreAWord(m, l, b0 as word, b1 as word, b2 as word, b3 as word, a1, a2, a3);
  }

  lemma SplitZero(w: word, c: word, rest: word) returns (high: word)
    requires c == w & 0xff && rest == w >> 8
    ensures IsSplit(w, 0, c, high, rest)
  {
    high := Split(w, 0, c, rest);
  }

  lemma ZeroStep(m: Register<word>, w: word)
    requires IsCrc(m)
    ensures ByteStep(m, w, 0) == Shift(m, 8, w)
  {
    Xor(m, w, 0, w);
  }

  /** The body of STEP4W's loop. */
  method MoveByte(t: Tables, m: Register<word>, w: word) returns (r: word)
    requires IsCrc(m) && t.Valid(m)
    ensures r == Shift(m, 8, w)
  {
    var c, rest := w & 0xff, w >> 8;
    ghost var high := SplitZero(w, c, rest);
    TableStep(t, m, w, 0, c, high, rest);
    ZeroStep(m, w);
    var advanced := t.byteTable(c);
    r := m.xor(rest, advanced);
    assert Commutes(m, advanced, rest);
  }

  /** The loop of STEP4W. */
  method MoveFourBytes(t: Tables, m: Register<word>, w: word) returns (r: word)
    requires IsCrc(m) && t.Valid(m)
    ensures r == Shift(m, 32, w)
  {
    r := w;
    var i := 0;
    while i < 4
      invariant 0 <= i <= 4
      invariant r == Shift(m, 8 * i, w)
    {
      r := MoveByte(t, m, r);
      ShiftAdds(m, 8, 8 * i, w);
      i := i + 1;
    }
  }

  /** STEP4W: four bytes already loaded into `w`. */
  method Step4W(t: Tables, m: Register<word>, l: word, w: word) returns (r: word)
    requires IsCrc(m) && t.Valid(m)
    ensures r == WordStep(m, l, w)
  {
    r := m.xor(w, l);
    assert Commutes(m, w, l);
    r := MoveFourBytes(t, m, r);
  }

  ghost predicate InLanes(t: Tables, m: Register<word>, c: word, a0: word, a1: word, a2: word, a3: word,
                          l1: word, l2: word, l3: word)
  {
    && t.stride3(a0) == Shift(m, 128, a0) && t.stride2(a1) == Shift(m, 128, l1)
    && t.stride1(a2) == Shift(m, 128, l2) && t.stride0(a3) == Shift(m, 128, l3)
    && c == m.xor(m.xor(m.xor(a0, l1), l2), l3)
  }

  lemma LanesJoin(c: word, a0: word, l1: word, l2: word, l3: word)
    requires a0 == c & 0xff && l1 == ((c >> 8) & 0xff) << 8 && l2 == ((c >> 16) & 0xff) << 16 && l3 == (c >> 24) << 24
    ensures c == ((a0 ^ l1) ^ l2) ^ l3
  {
  }

  lemma LanesAreBytes(c: word, a0: word, a1: word, a2: word, a3: word)
    requires a0 == c & 0xff && a1 == (c >> 8) & 0xff && a2 == (c >> 16) & 0xff && a3 == c >> 24
    ensures a0 & 0xff == a0 && a1 & 0xff == a1 && a2 & 0xff == a2 && a3 & 0xff == a3
  {
  }

  lemma LaneParts(c: word, a0: word, a1: word, a2: word, a3: word) returns (l1: word, l2: word, l3: word)
    requires a0 == c & 0xff && a1 == (c >> 8) & 0xff && a2 == (c >> 16) & 0xff && a3 == c >> 24
    ensures l1 == a1 << 8 && l2 == a2 << 16 && l3 == a3 << 24
    ensures c == ((a0 ^ l1) ^ l2) ^ l3
  {
    l1, l2, l3 := ((c >> 8) & 0xff) << 8, ((c >> 16) & 0xff) << 16, (c >> 24) << 24;
    LanesJoin(c, a0, l1, l2, l3);
  }

  lemma Lanes(t: Tables, m: Register<word>, c: word, a0: word, a1: word, a2: word, a3: word)
      returns (l1: word, l2: word, l3: word)
    requires IsCrc(m) && t.Valid(m)
    requires a0 == c & 0xff && a1 == (c >> 8) & 0xff && a2 == (c >> 16) & 0xff && a3 == c >> 24
    ensures InLanes(t, m, c, a0, a1, a2, a3, l1, l2, l3)
  {
    l1, l2, l3 := LaneParts(c, a0, a1, a2, a3);
    LanesAreXor(m, a0, l1, l2, l3, c);
    LanesAreBytes(c, a0, a1, a2, a3);
    assert t.Entry(m, a0);
    assert t.Entry(m, a1);
    assert t.Entry(m, a2);
    assert t.Entry(m, a3);
  }

  /** The four stride tables together advance a word by 16 bytes. */
  lemma StrideTablesAdvance(t: Tables, m: Register<word>, c: word, a0: word, a1: word, a2: word, a3: word,
                            l1: word, l2: word, l3: word)
    requires IsCrc(m) && InLanes(t, m, c, a0, a1, a2, a3, l1, l2, l3)
    ensures Shift(m, 128, c) == m.xor(m.xor(m.xor(t.stride3(a0), t.stride2(a1)), t.stride1(a2)), t.stride0(a3))
  {
    ShiftIsLinear(m, 128, m.xor(m.xor(a0, l1), l2), l3);
    ShiftIsLinear(m, 128, m.xor(a0, l1), l2);
    ShiftIsLinear(m, 128, a0, l1);
  }

  /** STEP4. */
  method Step4(t: Tables, m: Register<word>, crc: word, w: word) returns (r: word)
    requires IsCrc(m) && t.Valid(m)
    ensures r == m.xor(w, Shift(m, 128, crc))
  {
    var a0, a1, a2, a3 := crc & 0xff, (crc >> 8) & 0xff, (crc >> 16) & 0xff, crc >> 24;
    ghost var l1, l2, l3 := Lanes(t, m, crc, a0, a1, a2, a3);
    StrideTablesAdvance(t, m, crc, a0, a1, a2, a3, l1, l2, l3);
    var s3, s2, s1, s0 := t.stride3(a0), t.stride2(a1), t.stride1(a2), t.stride0(a3);
    r := m.xor(m.xor(m.xor(m.xor(w, s3), s2), s1), s0);
    XorRight(m, w, s3, s2, s1, s0);
  }

  // ---------- Extend ----------

  lemma OneMoreByte(m: Register<word>, l: word, data: seq<octet>, p: nat)
    requires p < |data|
    ensures Bytes(m, l, data[..p + 1]) == ByteStep(m, Bytes(m, l, data[..p]), data[p] as word)
  {
    assert data[..p + 1][..p] == data[..p];
  }

  lemma OneMoreWord(m: Register<word>, l: word, data: seq<octet>, p: nat)
    requires IsCrc(m) && p + 4 <= |data|
    ensures Bytes(m, l, data[..p + 4]) == WordStep(m, Bytes(m, l, data[..p]), ReadUint32LE(data, p))
  {
    OneMoreByte(m, l, data, p);
    OneMoreByte(m, l, data, p + 1);
    OneMoreByte(m, l, data, p + 2);
    OneMoreByte(m, l, data, p + 3);
    WordStepIsFourByteSteps(m, Bytes(m, l, data[..p]), data[p], data[p + 1], data[p + 2], data[p + 3], ReadUint32LE(data, p));
  }

  /** The register after the first `p` bytes, held in four strides. */
  ghost predicate InStrides(m: Register<word>, l: word, data: seq<octet>, p: nat, c0: word, c1: word, c2: word, c3: word)
    requires p <= |data|
  {
    Combined(m, c0, c1, c2, c3) == Bytes(m, l, data[..p])
  }

  /** One STEP4: the advanced stride becomes the youngest. */
  method Stride(t: Tables, m: Register<word>, ghost l: word, data: seq<octet>, p: nat,
                c0: word, ghost c1: word, ghost c2: word, ghost c3: word) returns (r: word)
    requires IsCrc(m) && t.Valid(m)
    requires p + 4 <= |data| && InStrides(m, l, data, p, c0, c1, c2, c3)
    ensures InStrides(m, l, data, p + 4, c1, c2, c3, r)
  {
    var w := ReadUint32LE(data, p);
    r := Step4(t, m, c0, w);
    StrideAdvances(m, c0, c1, c2, c3, w);
    OneMoreWord(m, l, data, p);
  }

  /** The first swath, loaded into the strides. */
  method LoadStrides(m: Register<word>, ghost start: word, l: word, data: seq<octet>, p: nat)
      returns (c0: word, c1: word, c2: word, c3: word)
    requires IsCrc(m) && p + 16 <= |data| && l == Bytes(m, start, data[..p])
    ensures InStrides(m, start, data, p + 16, c0, c1, c2, c3)
  {
    var w := ReadUint32LE(data, p);
    c0 := m.xor(w, l);
    assert Commutes(m, w, l);
    c1 := ReadUint32LE(data, p + 4);
    c2 := ReadUint32LE(data, p + 8);
    c3 := ReadUint32LE(data, p + 12);
    OneMoreWord(m, start, data, p);
    OneMoreWord(m, start, data, p + 4);
    OneMoreWord(m, start, data, p + 8);
    OneMoreWord(m, start, data, p + 12);
    StridesAreWordSteps(m, l, w, c1, c2, c3);
  }

  /** The strides, put together again into one register. */
  method CombineStrides(t: Tables, m: Register<word>, c0: word, c1: word, c2: word, c3: word) returns (l: word)
    requires IsCrc(m) && t.Valid(m)
    ensures l == Combined(m, c0, c1, c2, c3)
  {
    l := 0;
    l := Step4W(t, m, l, c0);
    l := Step4W(t, m, l, c1);
    l := Step4W(t, m, l, c2);
    l := Step4W(t, m, l, c3);
    XorZero(m, c0);
    StridesAreWordSteps(m, 0, c0, c1, c2, c3);
  }

  lemma XorZero(m: Register<word>, c: word)
    requires IsCrc(m)
    ensures m.xor(0, c) == c
  {
    Xor(m, 0, c, c);
  }

  /** The smallest address at or after `p` that is a multiple of 4. */
  function RoundUp4(p: nat): nat {
    (p + 3) / 4 * 4
  }

  /** STEP16. */
  method Step16(t: Tables, m: Register<word>, ghost start: word, data: seq<octet>, p: nat,
                c0: word, c1: word, c2: word, c3: word) returns (r0: word, r1: word, r2: word, r3: word)
    requires IsCrc(m) && t.Valid(m)
    requires p + 16 <= |data| && InStrides(m, start, data, p, c0, c1, c2, c3)
    ensures InStrides(m, start, data, p + 16, r0, r1, r2, r3)
  {
    r0 := Stride(t, m, start, data, p, c0, c1, c2, c3);
    r1 := Stride(t, m, start, data, p + 4, c1, c2, c3, r0);
    r2 := Stride(t, m, start, data, p + 8, c2, c3, r0, r1);
    r3 := Stride(t, m, start, data, p + 12, c3, r0, r1, r2);
  }

  /** Single words, the strides taking turns. */
  method Words(t: Tables, m: Register<word>, ghost start: word, data: seq<octet>, from: nat,
               c0: word, c1: word, c2: word, c3: word) returns (l: word, p: nat)
    requires IsCrc(m) && t.Valid(m)
    requires from <= |data| && InStrides(m, start, data, from, c0, c1, c2, c3)
    ensures p <= |data| && l == Bytes(m, start, data[..p])
  {
    p := from;
    var crc0, crc1, crc2, crc3 := c0, c1, c2, c3;
    while |data| - p >= 4
      invariant p <= |data| && InStrides(m, start, data, p, crc0, crc1, crc2, crc3)
    {
      crc0 := Stride(t, m, start, data, p, crc0, crc1, crc2, crc3);
      var tmp := crc0;
      crc0 := crc1;
      crc1 := crc2;
      crc2 := crc3;
      crc3 := tmp;
      p := p + 4;
    }
    l := CombineStrides(t, m, crc0, crc1, crc2, crc3);
  }

  /** The swaths, 16 bytes at a time, then what is left of whole words. */
  method Swaths(t: Tables, m: Register<word>, ghost start: word, l: word, data: seq<octet>, from: nat)
      returns (r: word, p: nat)
    requires IsCrc(m) && t.Valid(m)
    requires from + 16 <= |data| && l == Bytes(m, start, data[..from])
    ensures p <= |data| && r == Bytes(m, start, data[..p])
  {
    p := from;
    var crc0, crc1, crc2, crc3 := LoadStrides(m, start, l, data, p);
    p := p + 16;
    while |data| - p >= 16
      invariant p <= |data| && InStrides(m, start, data, p, crc0, crc1, crc2, crc3)
    {
      crc0, crc1, crc2, crc3 := Step16(t, m, start, data, p, crc0, crc1, crc2, crc3);
      p := p + 16;
    }
    r, p := Words(t, m, start, data, p, crc0, crc1, crc2, crc3);
  }

  /** The whole computation on the register, for data that starts at `address`. */
  method Move(t: Tables, m: Register<word>, start: word, data: seq<octet>, address: nat) returns (l: word)
    requires IsCrc(m) && t.Valid(m)
    ensures l == Bytes(m, start, data)
  {
    l := start;
    var p, x := 0, RoundUp4(address) - address;
    if x <= |data| {
      while p != x
        invariant p <= x && l == Bytes(m, start, data[..p])
        decreases x - p
      {
        l := Step1(t, m, l, data[p]);
        OneMoreByte(m, start, data, p);
        p := p + 1;
      }
    }
    if |data| - p >= 16 {
      l, p := Swaths(t, m, start, l, data, p);
    }
    while p != |data|
      invariant p <= |data| && l == Bytes(m, start, data[..p])
      decreases |data| - p
    {
      l := Step1(t, m, l, data[p]);
      OneMoreByte(m, start, data, p);
      p := p + 1;
    }
    assert data[..p] == data;
  }

  /** `crc32c::Extend`, wherever the data lies in memory. */
  method Extend(t: Tables, crc: word, data: seq<octet>, address: nat) returns (r: word)
    requires t.Valid(CrcRegister())
    ensures r == Crc(crc, data)
  {
    CrcRegisterIsCrc();
    var l := Move(t, CrcRegister(), crc ^ XOR, data, address);
    r := l ^ XOR;
  }

  // ---------- What the checksum is for ----------

  lemma {:induction false} BytesOfConcat(m: Register<word>, l: word, a: seq<octet>, b: seq<octet>)
    ensures Bytes(m, l, a + b) == Bytes(m, Bytes(m, l, a), b)
  {
    if b == [] {
      assert a + b == a;
    } else {
      var n := |a + b| - 1;
      assert (a + b)[..n] == a + b[..|b| - 1];
      BytesOfConcat(m, l, a, b[..|b| - 1]);
    }
  }

  lemma XorTwice(c: word)
    ensures (c ^ XOR) ^ XOR == c
  {
  }

  lemma RegisterExtends(m: Register<word>, l: word, a: seq<octet>, b: seq<octet>, c: word, k: word)
    requires c == Bytes(m, l, a) ^ XOR && k == c ^ XOR
    ensures Bytes(m, k, b) == Bytes(m, l, a + b)
  {
    BytesOfConcat(m, l, a, b);
    XorTwice(Bytes(m, l, a));
  }

  lemma CrcIs(m: Register<word>, x: word, b: seq<octet>, p: word, l: word, r: word)
    requires p == x ^ XOR && l == Bytes(m, p, b) && r == l ^ XOR
    ensures CrcBy(m, x, b) == r
  {
  }

  lemma SameRegister(m: Register<word>, x: word, y: word, p: word, q: word, b: seq<octet>, c: seq<octet>)
    requires p == x ^ XOR && q == y ^ XOR && Bytes(m, p, b) == Bytes(m, q, c)
    ensures CrcBy(m, x, b) == CrcBy(m, y, c)
  {
    var l := Bytes(m, p, b);
    var r := XorOf(l, XOR);
    CrcIs(m, x, b, p, l, r);
    CrcIs(m, y, c, q, l, r);
  }

  lemma CrcByExtends(m: Register<word>, crc: word, a: seq<octet>, b: seq<octet>, both: word)
    requires both == CrcBy(m, crc, a)
    ensures CrcBy(m, both, b) == CrcBy(m, crc, a + b)
  {
    RegisterExtends(m, crc ^ XOR, a, b, both, both ^ XOR);
    SameRegister(m, both, crc, both ^ XOR, crc ^ XOR, b, a + b);
  }

  /** The checksum of a string can be extended piece by piece. */
  lemma CrcExtends(crc: word, a: seq<octet>, b: seq<octet>)
    ensures Crc(Crc(crc, a), b) == Crc(crc, a + b)
  {
    CrcByExtends(CrcRegister(), crc, a, b, Crc(crc, a));
  }

  lemma {:induction false} BytesForgetNothing(m: Register<word>, l: word, k: word, data: seq<octet>)
    requires IsCrc(m) && Bytes(m, l, data) == Bytes(m, k, data)
    ensures l == k
  {
    if data != [] {
      var n := |data| - 1;
      var b, x, y := data[n] as word, Bytes(m, l, data[..n]), Bytes(m, k, data[..n]);
      ShiftForgetsNothing(m, 8, m.xor(x, b), m.xor(y, b));
      assert Commutes(m, x, b) && Commutes(m, y, b);
      assert Cancels(m, b, x, y);
      BytesForgetNothing(m, l, k, data[..n]);
    }
  }

  lemma WordsForgetNothing(m: Register<word>, l: word, v: word, w: word)
    requires IsCrc(m) && WordStep(m, l, v) == WordStep(m, l, w)
    ensures v == w
  {
    ShiftForgetsNothing(m, 32, m.xor(l, v), m.xor(l, w));
    assert Cancels(m, l, v, w);
  }

  lemma BytesOfFour(m: Register<word>, l: word, four: seq<octet>, w: word)
    requires IsCrc(m) && |four| == 4 && w == ReadUint32LE(four, 0)
    ensures Bytes(m, l, four) == WordStep(m, l, w)
  {
    OneMoreWord(m, l, four, 0);
    assert four[..4] == four && four[..0] == [];
  }

  lemma BytesOfThree(m: Register<word>, l: word, a: seq<octet>, v: seq<octet>, b: seq<octet>)
    ensures Bytes(m, l, a + v + b) == Bytes(m, Bytes(m, Bytes(m, l, a), v), b)
  {
    BytesOfConcat(m, l, a + v, b);
    BytesOfConcat(m, l, a, v);
  }

  lemma LittleEndianTellsBytesApart(v: seq<octet>, w: seq<octet>)
    requires |v| == 4 && |w| == 4 && ReadUint32LE(v, 0) == ReadUint32LE(w, 0)
    ensures v == w
  {
  }

  lemma FourForgetNothing(m: Register<word>, l: word, v: seq<octet>, w: seq<octet>)
    requires IsCrc(m) && |v| == 4 && |w| == 4 && Bytes(m, l, v) == Bytes(m, l, w)
    ensures v == w
  {
    var x, y := ReadUint32LE(v, 0), ReadUint32LE(w, 0);
    BytesOfFour(m, l, v, x);
    BytesOfFour(m, l, w, y);
    WordsForgetNothing(m, l, x, y);
    LittleEndianTellsBytesApart(v, w);
  }

  lemma MovedBurst(m: Register<word>, l: word, a: seq<octet>, v: seq<octet>, w: seq<octet>, b: seq<octet>)
    requires IsCrc(m) && |v| == 4 && |w| == 4 && Bytes(m, l, a + v + b) == Bytes(m, l, a + w + b)
    ensures v == w
  {
    BytesOfThree(m, l, a, v, b);
    BytesOfThree(m, l, a, w, b);
    var from := Bytes(m, l, a);
    BytesForgetNothing(m, Bytes(m, from, v), Bytes(m, from, w), b);
    FourForgetNothing(m, from, v, w);
  }

  lemma XorIsInjective(a: word, b: word)
    requires a ^ XOR == b ^ XOR
    ensures a == b
  {
  }

  /** Damage confined to four neighbouring bytes always shows. */
  lemma BurstsAreDetected(crc: word, a: seq<octet>, v: seq<octet>, w: seq<octet>, b: seq<octet>)
    requires |v| == 4 && |w| == 4 && v != w
    ensures Crc(crc, a + v + b) != Crc(crc, a + w + b)
  {
    if Crc(crc, a + v + b) == Crc(crc, a + w + b) {
      var m := CrcRegister();
      CrcRegisterIsCrc();
      XorIsInjective(Bytes(m, crc ^ XOR, a + v + b), Bytes(m, crc ^ XOR, a + w + b));
      MovedBurst(m, crc ^ XOR, a, v, w, b);
    }
  }

  // ---------- Masking (util/crc32c.h) ----------

  const MASK_DELTA: word := 0xa282ead8

  /** A checksum as it is stored, so that it is not itself mistaken for data to be checksummed. */
  function Mask(crc: word): word {
    ((crc >> 15) | (crc << 17)) + MASK_DELTA
  }

  function Unmask(masked: word): word {
    var rot := masked - MASK_DELTA;
    (rot >> 17) | (rot << 15)
  }

  lemma Added(x: word, d: word)
    ensures (x + d) - d == x && (x - d) + d == x
  {
  }

  lemma RotatedRight(c: word, rot: word)
    requires rot == (c >> 15) | (c << 17)
    ensures (rot >> 17) | (rot << 15) == c
  {
  }

  lemma RotatedLeft(rot: word, c: word)
    requires c == (rot >> 17) | (rot << 15)
    ensures (c >> 15) | (c << 17) == rot
  {
  }

  lemma MaskUndone(crc: word)
    ensures Unmask(Mask(crc)) == crc
  {
    var rot := (crc >> 15) | (crc << 17);
    Added(rot, MASK_DELTA);
    RotatedRight(crc, rot);
  }

  lemma UnmaskUndone(masked: word)
    ensures Mask(Unmask(masked)) == masked
  {
    var rot := masked - MASK_DELTA;
    Added(masked, MASK_DELTA);
    RotatedLeft(rot, Unmask(masked));
  }

  // ---------- Known values ----------

  function EightBits(l: word): word {
    Bit(Bit(Bit(Bit(Bit(Bit(Bit(Bit(l))))))))
  }

  lemma ByteStepIs(l: word, b: word, x: word)
    requires x == l ^ b
    ensures ByteStep(CrcRegister(), l, b) == EightBits(x)
  {
    var m := CrcRegister();
    assert Shift(m, 1, x) == Bit(x);
    assert Shift(m, 2, x) == Bit(Bit(x));
    assert Shift(m, 4, x) == Bit(Bit(Bit(Bit(x))));
    assert Shift(m, 6, x) == Bit(Bit(Bit(Bit(Bit(Bit(x))))));
  }

  /** The register after some bytes of a string. */
  ghost predicate At(data: seq<octet>, n: nat, l: word) {
    n <= |data| && Bytes(CrcRegister(), XOR, data[..n]) == l
  }

  lemma BytesSnoc(m: Register<word>, l: word, data: seq<octet>, b: octet)
    ensures Bytes(m, l, data + [b]) == ByteStep(m, Bytes(m, l, data), b as word)
  {
    assert (data + [b])[..|data|] == data;
  }

  lemma OneByteMore(data: seq<octet>, n: nat, b: octet, w: word, l: word, x: word, l': word)
    requires At(data, n, l) && n < |data| && data[n] == b && w == b as word
    requires x == l ^ w && EightBits(x) == l'
    ensures At(data, n + 1, l')
  {
    hide EightBits, ByteStep, Bytes, Bit;
    assert data[..n + 1] == data[..n] + [b];
    BytesSnoc(CrcRegister(), XOR, data[..n], b);
    ByteStepIs(l, w, x);
  }

  lemma EightBitsOf()
    ensures EightBits(0xffffffab) == 0x3b3de162
    ensures EightBits(0x3b3de107) == 0xd4f1590a
    ensures EightBits(0xd4f15979) == 0x09fe7e98
    ensures EightBits(0x09fe7eec) == 0xae7a99b4
    ensures EightBits(0xae7a99f7) == 0x270a7107
    ensures EightBits(0x270a7155) == 0x64f3c4be
    ensures EightBits(0x64f3c4fd) == 0x4c22d062
    ensures EightBits(0x4c22d020) == 0x20f1ac0e
    ensures EightBits(0x20f1ac7b) == 0xe8310e9a
    ensures EightBits(0xe8310efc) == 0xbec591ab
    ensures EightBits(0xbec591cd) == 0x7c1baf86
    ensures EightBits(0x7c1bafe3) == 0xf01c4041
    ensures EightBits(0xf01c4033) == 0x2343a605
  {
  }

  /** The value that the source expects of a hardware implementation for "TestCRCBuffer". */
  lemma TestBufferValue(data: seq<octet>)
    requires data == [0x54, 0x65, 0x73, 0x74, 0x43, 0x52, 0x43, 0x42, 0x75, 0x66, 0x66, 0x65, 0x72]
    ensures Crc(0, data) == 0xdcbc59fa
  {
    EightBitsOf();
    hide EightBits, Bytes, Bit;
    FirstHalf(data);
    OneByteMore(data, 7, 0x42, 0x42, 0x4c22d062, 0x4c22d020, 0x20f1ac0e);
    OneByteMore(data, 8, 0x75, 0x75, 0x20f1ac0e, 0x20f1ac7b, 0xe8310e9a);
    OneByteMore(data, 9, 0x66, 0x66, 0xe8310e9a, 0xe8310efc, 0xbec591ab);
    OneByteMore(data, 10, 0x66, 0x66, 0xbec591ab, 0xbec591cd, 0x7c1baf86);
    OneByteMore(data, 11, 0x65, 0x65, 0x7c1baf86, 0x7c1bafe3, 0xf01c4041);
    OneByteMore(data, 12, 0x72, 0x72, 0xf01c4041, 0xf01c4033, 0x2343a605);
    assert data[..13] == data;
  }

  lemma FirstHalf(data: seq<octet>)
    requires |data| == 13 && data[..7] == [0x54, 0x65, 0x73, 0x74, 0x43, 0x52, 0x43]
    ensures At(data, 7, 0x4c22d062)
  {
    EightBitsOf();
    hide EightBits, Bytes, Bit;
    NothingYet(data);
    assert forall i :: 0 <= i < 7 ==> data[i] == data[..7][i];
    OneByteMore(data, 0, 0x54, 0x54, 0xffffffff, 0xffffffab, 0x3b3de162);
    OneByteMore(data, 1, 0x65, 0x65, 0x3b3de162, 0x3b3de107, 0xd4f1590a);
    OneByteMore(data, 2, 0x73, 0x73, 0xd4f1590a, 0xd4f15979, 0x09fe7e98);
    OneByteMore(data, 3, 0x74, 0x74, 0x09fe7e98, 0x09fe7eec, 0xae7a99b4);
    OneByteMore(data, 4, 0x43, 0x43, 0xae7a99b4, 0xae7a99f7, 0x270a7107);
    OneByteMore(data, 5, 0x52, 0x52, 0x270a7107, 0x270a7155, 0x64f3c4be);
    OneByteMore(data, 6, 0x43, 0x43, 0x64f3c4be, 0x64f3c4fd, 0x4c22d062);
  }

  /** The rotation by 15 bits and the constant of masked checksums. */
  lemma MaskValues()
    ensures Mask(0) == 0xa282ead8 && Mask(1) == 0xa284ead8 && Mask(0x8000) == 0xa282ead9
  {
  }

  lemma NothingYet(data: seq<octet>)
    ensures At(data, 0, 0xffffffff)
  {
    assert data[..0] == [];
  }
}
