/** A shift register that moves linearly: what the strided checksum needs to know of CRC32C's,
    and all it needs (util/crc32c.cc). Words are of any type that has an exclusive or. */
module Registers {

  datatype Register<!W> = Register(step: W -> W, xor: (W, W) -> W)

  ghost predicate StepsApart<W>(m: Register<W>, a: W, b: W) {
    m.step(m.xor(a, b)) == m.xor(m.step(a), m.step(b))
  }

  ghost predicate Commutes<W>(m: Register<W>, a: W, b: W) {
    m.xor(a, b) == m.xor(b, a)
  }

  ghost predicate Associates<W>(m: Register<W>, a: W, b: W, c: W) {
    m.xor(m.xor(a, b), c) == m.xor(a, m.xor(b, c))
  }

  ghost predicate Cancels<W>(m: Register<W>, a: W, b: W, c: W) {
    m.xor(a, b) == m.xor(a, c) ==> b == c
  }

  ghost predicate Remembers<W>(m: Register<W>, a: W, b: W) {
    m.step(a) == m.step(b) ==> a == b
  }

  /** `xor` is an exclusive or, and a step distributes over it and forgets nothing. */
  ghost predicate Linear<W(!new)>(m: Register<W>) {
    && (forall a, b :: StepsApart(m, a, b))
    && (forall a, b :: Commutes(m, a, b))
    && (forall a, b, c :: Associates(m, a, b, c))
    && (forall a, b, c :: Cancels(m, a, b, c))
    && (forall a, b :: Remembers(m, a, b))
  }

  /** `n` steps. */
  function Shift<W>(m: Register<W>, n: nat, l: W): W
    decreases n
  {
    if n == 0 then l else m.step(Shift(m, n - 1, l))
  }

  lemma {:induction false} ShiftIsLinear<W(!new)>(m: Register<W>, n: nat, a: W, b: W)
    requires Linear(m)
    ensures Shift(m, n, m.xor(a, b)) == m.xor(Shift(m, n, a), Shift(m, n, b))
    decreases n
  {
    if n > 0 {
      ShiftIsLinear(m, n - 1, a, b);
      assert StepsApart(m, Shift(m, n - 1, a), Shift(m, n - 1, b));
    }
  }

  lemma {:induction false} ShiftAdds<W>(m: Register<W>, j: nat, n: nat, l: W)
    ensures Shift(m, j + n, l) == Shift(m, j, Shift(m, n, l))
    decreases j
  {
    if j > 0 {
      ShiftAdds(m, j - 1, n, l);
    }
  }

  lemma {:induction false} ShiftForgetsNothing<W(!new)>(m: Register<W>, n: nat, a: W, b: W)
    requires Linear(m)
    requires Shift(m, n, a) == Shift(m, n, b)
    ensures a == b
    decreases n
  {
    if n > 0 {
      assert Remembers(m, Shift(m, n - 1, a), Shift(m, n - 1, b));
      ShiftForgetsNothing(m, n - 1, a, b);
    }
  }

  lemma OneStep<W>(m: Register<W>, n: nat, l: W, next: W)
    requires m.step(l) == next
    ensures Shift(m, n + 1, l) == Shift(m, n, next)
  {
    ShiftAdds(m, n, 1, l);
    assert Shift(m, 1, l) == m.step(Shift(m, 0, l));
  }

  lemma EightSteps<W>(m: Register<W>, n: nat, l0: W, l1: W, l2: W, l3: W, l4: W, l5: W, l6: W, l7: W, l8: W)
    requires m.step(l0) == l1 && m.step(l1) == l2 && m.step(l2) == l3 && m.step(l3) == l4
    requires m.step(l4) == l5 && m.step(l5) == l6 && m.step(l6) == l7 && m.step(l7) == l8
    ensures Shift(m, n + 8, l0) == Shift(m, n, l8)
  {
    OneStep(m, n + 7, l0, l1);
    OneStep(m, n + 6, l1, l2);
    OneStep(m, n + 5, l2, l3);
    OneStep(m, n + 4, l3, l4);
    OneStep(m, n + 3, l4, l5);
    OneStep(m, n + 2, l5, l6);
    OneStep(m, n + 1, l6, l7);
    OneStep(m, n, l7, l8);
  }

  // ---------- Several bytes at once ----------

  /** What arrives after `n` steps might as well have been there, `n` steps further back, from the start. */
  lemma Absorb<W(!new)>(m: Register<W>, n: nat, l: W, late: W, early: W)
    requires Linear(m) && Shift(m, n, early) == late
    ensures m.xor(Shift(m, n, l), late) == Shift(m, n, m.xor(l, early))
  {
    ShiftIsLinear(m, n, l, early);
  }

  function ByteStep<W>(m: Register<W>, l: W, b: W): W {
    Shift(m, 8, m.xor(l, b))
  }

  /** Absorbing one more byte in front of the word absorbed so far. */
  lemma AbsorbByte<W(!new)>(m: Register<W>, n: nat, l: W, word: W, b: W, lane: W)
    requires Linear(m) && Shift(m, n, lane) == b
    ensures ByteStep(m, Shift(m, n, m.xor(l, word)), b) == Shift(m, 8 + n, m.xor(l, m.xor(word, lane)))
  {
    Absorb(m, n, m.xor(l, word), b, lane);
    assert Associates(m, l, word, lane);
    ShiftAdds(m, 8, n, m.xor(l, m.xor(word, lane)));
  }

  /** Four byte steps are one word step: xor the little-endian word in, move 32 bits. */
  lemma FourBytesAreAWord<W(!new)>(m: Register<W>, l: W, b0: W, b1: W, b2: W, b3: W, lane1: W, lane2: W, lane3: W)
    requires Linear(m)
    requires Shift(m, 8, lane1) == b1 && Shift(m, 16, lane2) == b2 && Shift(m, 24, lane3) == b3
    ensures ByteStep(m, ByteStep(m, ByteStep(m, ByteStep(m, l, b0), b1), b2), b3)
         == Shift(m, 32, m.xor(l, m.xor(m.xor(m.xor(b0, lane1), lane2), lane3)))
  {
    AbsorbByte(m, 8, l, b0, b1, lane1);
    AbsorbByte(m, 16, l, m.xor(b0, lane1), b2, lane2);
    AbsorbByte(m, 24, l, m.xor(m.xor(b0, lane1), lane2), b3, lane3);
  }

  // ---------- Four strides ----------

  /** The register that four strides stand for, the oldest stride first. */
  function Combined<W>(m: Register<W>, c0: W, c1: W, c2: W, c3: W): W {
    m.xor(m.xor(m.xor(Shift(m, 128, c0), Shift(m, 96, c1)), Shift(m, 64, c2)), Shift(m, 32, c3))
  }

  lemma Rearranged<W(!new)>(m: Register<W>, p: W, q: W, r: W, s: W, t: W)
    requires Linear(m)
    ensures m.xor(m.xor(m.xor(m.xor(p, q), r), s), t) == m.xor(m.xor(m.xor(q, r), s), m.xor(t, p))
  {
    var qr := m.xor(q, r);
    var qrs := m.xor(qr, s);
    assert Associates(m, p, q, r);
    assert Associates(m, p, qr, s);
    assert Associates(m, p, qrs, t);
    assert Commutes(m, p, m.xor(qrs, t));
    assert Associates(m, qrs, t, p);
  }

  lemma CombinedMoves<W(!new)>(m: Register<W>, c0: W, c1: W, c2: W, c3: W)
    requires Linear(m)
    ensures Shift(m, 32, Combined(m, c0, c1, c2, c3))
         == m.xor(m.xor(m.xor(Shift(m, 160, c0), Shift(m, 128, c1)), Shift(m, 96, c2)), Shift(m, 64, c3))
  {
    var s0, s1, s2, s3 := Shift(m, 128, c0), Shift(m, 96, c1), Shift(m, 64, c2), Shift(m, 32, c3);
    ShiftIsLinear(m, 32, s0, s1);
    ShiftIsLinear(m, 32, m.xor(s0, s1), s2);
    ShiftIsLinear(m, 32, m.xor(m.xor(s0, s1), s2), s3);
    ShiftAdds(m, 32, 128, c0);
    ShiftAdds(m, 32, 96, c1);
    ShiftAdds(m, 32, 64, c2);
    ShiftAdds(m, 32, 32, c3);
  }

  /** Advancing the oldest stride by 128 bits over the next word makes it the youngest. */
  lemma StrideAdvances<W(!new)>(m: Register<W>, c0: W, c1: W, c2: W, c3: W, w: W)
    requires Linear(m)
    ensures Combined(m, c1, c2, c3, m.xor(w, Shift(m, 128, c0)))
         == Shift(m, 32, m.xor(Combined(m, c0, c1, c2, c3), w))
  {
    ShiftIsLinear(m, 32, w, Shift(m, 128, c0));
    ShiftAdds(m, 32, 128, c0);
    ShiftIsLinear(m, 32, Combined(m, c0, c1, c2, c3), w);
    CombinedMoves(m, c0, c1, c2, c3);
    Rearranged(m, Shift(m, 160, c0), Shift(m, 128, c1), Shift(m, 96, c2), Shift(m, 64, c3), Shift(m, 32, w));
  }

  lemma XorRight<W(!new)>(m: Register<W>, w: W, a: W, b: W, c: W, d: W)
    requires Linear(m)
    ensures m.xor(m.xor(m.xor(m.xor(w, a), b), c), d) == m.xor(w, m.xor(m.xor(m.xor(a, b), c), d))
  {
    assert Associates(m, w, a, b);
    assert Associates(m, w, m.xor(a, b), c);
    assert Associates(m, w, m.xor(m.xor(a, b), c), d);
  }

  function WordStep<W>(m: Register<W>, l: W, w: W): W {
    Shift(m, 32, m.xor(l, w))
  }

  /** Loading four words into four strides, the register into the first; read the other way round,
      how four strides come together again in the end. */
  lemma StridesAreWordSteps<W(!new)>(m: Register<W>, l: W, w0: W, w1: W, w2: W, w3: W)
    requires Linear(m)
    ensures WordStep(m, WordStep(m, WordStep(m, WordStep(m, l, w0), w1), w2), w3)
         == Combined(m, m.xor(l, w0), w1, w2, w3)
  {
    var c0 := m.xor(l, w0);
    ShiftIsLinear(m, 32, Shift(m, 32, c0), w1);
    ShiftAdds(m, 32, 32, c0);
    var s1 := m.xor(Shift(m, 64, c0), Shift(m, 32, w1));
    ShiftIsLinear(m, 32, s1, w2);
    ShiftIsLinear(m, 32, Shift(m, 64, c0), Shift(m, 32, w1));
    ShiftAdds(m, 32, 64, c0);
    ShiftAdds(m, 32, 32, w1);
    TwoMore(m, m.xor(Shift(m, 96, c0), Shift(m, 64, w1)), w2, w3);
    ShiftIsLinear(m, 32, Shift(m, 96, c0), Shift(m, 64, w1));
    ShiftAdds(m, 32, 96, c0);
    ShiftAdds(m, 32, 64, w1);
  }

  lemma TwoMore<W(!new)>(m: Register<W>, s: W, w2: W, w3: W)
    requires Linear(m)
    ensures WordStep(m, m.xor(s, Shift(m, 32, w2)), w3)
         == m.xor(m.xor(Shift(m, 32, s), Shift(m, 64, w2)), Shift(m, 32, w3))
  {
    ShiftIsLinear(m, 32, m.xor(s, Shift(m, 32, w2)), w3);
    ShiftIsLinear(m, 32, s, Shift(m, 32, w2));
    ShiftAdds(m, 32, 32, w2);
  }
}
