/** The bloom filter (util/bloom.cc).  The hash is a parameter: any function of the key. */
module Blooms {
  import opened Keys
  import opened Coding

  type Hash = Bytes -> nat

  // ---------- Bits ----------

  predicate Bit(b: nat, i: nat) {
    if i == 0 then b % 2 == 1 else Bit(b / 2, i - 1)
  }

  /** Bit `i` set in a word of `width` bits. */
  function WithBit(b: nat, i: nat, width: nat): (r: nat)
    requires i < width && b < Power2(width)
    ensures r < Power2(width)
  {
    if i == 0 then b / 2 * 2 + 1 else 2 * WithBit(b / 2, i - 1, width - 1) + b % 2
  }

  lemma {:induction false} WithBitSetsOne(b: nat, i: nat, width: nat, j: nat)
    requires i < width && b < Power2(width)
    ensures Bit(WithBit(b, i, width), j) <==> j == i || Bit(b, j)
  {
    if i > 0 && j > 0 {
      WithBitSetsOne(b / 2, i - 1, width - 1, j - 1);
    }
  }

  lemma {:induction false} ZeroHasNoBits(i: nat)
    ensures !Bit(0, i)
  {
    if i > 0 {
      ZeroHasNoBits(i - 1);
    }
  }

  function SetBit(b: byte, i: nat): byte
    requires i < 8
  {
    assert Power2(8) == 2 * (2 * (2 * (2 * Power2(4)))) && Power2(4) == 16;
    WithBit(b as nat, i, 8) as byte
  }

  predicate BitAt(a: Bytes, pos: nat)
    requires pos < 8 * |a|
  {
    Bit(a[pos / 8] as nat, pos % 8)
  }

  lemma SetBitAt(a: Bytes, pos: nat, q: nat)
    requires pos < 8 * |a| && q < 8 * |a|
    ensures BitAt(a[pos / 8 := SetBit(a[pos / 8], pos % 8)], q) <==> q == pos || BitAt(a, q)
  {
    if q / 8 == pos / 8 {
      assert Power2(8) == 2 * (2 * (2 * (2 * Power2(4)))) && Power2(4) == 16;
      WithBitSetsOne(a[pos / 8] as nat, pos % 8, 8, q % 8);
    }
  }

  // ---------- Probes ----------

  /** The hash rotated right by 17 bits. */
  function Delta(h: nat): nat {
    h / 0x2_0000 + (h % 0x2_0000) * 0x8000
  }

  /** The hash value of probe `j`: double hashing, in 32 bits. */
  function Probe(h: nat, j: nat): nat {
    if j == 0 then h % TWO_32 else (Probe(h, j - 1) + Delta(h % TWO_32)) % TWO_32
  }

  /** Where probe `j` of `key` looks in an array of `bits` bits. */
  function Position(hash: Hash, key: Bytes, bits: nat, j: nat): (p: nat)
    requires bits > 0
    ensures p < bits
  {
    Probe(hash(key), j) % bits
  }

  /** Some probe of some key looks at `pos`. */
  ghost predicate Probed(hash: Hash, keys: seq<Bytes>, bits: nat, k: nat, pos: nat)
    requires bits > 0
  {
    exists i, j :: 0 <= i < |keys| && 0 <= j < k && Position(hash, keys[i], bits, j) == pos
  }

  // ---------- Filters ----------

  const MAX_PROBES: nat := 30

  /** k_: bits_per_key * ln 2, rounded down, between 1 and 30. */
  function ProbeCount(bitsPerKey: nat): (k: nat)
    ensures 1 <= k <= MAX_PROBES
  {
    var k := (bitsPerKey as real * 0.69).Floor;
    if k < 1 then 1 else if k > 30 then 30 else k
  }

  function ArrayBytes(n: nat, bitsPerKey: nat): (bytes: nat)
    ensures bytes >= 8
  {
    var bits := n * bitsPerKey;
    ((if bits < 64 then 64 else bits) + 7) / 8
  }

  /** `f` is the filter of `keys`: its set bits are exactly the positions probed. */
  ghost predicate IsFilter(hash: Hash, bitsPerKey: nat, keys: seq<Bytes>, f: Bytes) {
    var bytes := ArrayBytes(|keys|, bitsPerKey);
    && |f| == bytes + 1 && f[bytes] as nat == ProbeCount(bitsPerKey)
    && forall pos {:trigger BitAt(f, pos)} :: 0 <= pos < 8 * bytes ==>
         (BitAt(f, pos) <==> Probed(hash, keys, 8 * bytes, ProbeCount(bitsPerKey), pos))
  }

  /** Probe `j` of `key` finds its bit set. */
  predicate ProbeHits(hash: Hash, f: Bytes, key: Bytes, j: nat)
    requires |f| >= 2
  {
    BitAt(f, Position(hash, key, 8 * (|f| - 1), j))
  }

  /** What a filter answers for a key. */
  ghost predicate Matches(hash: Hash, f: Bytes, key: Bytes) {
    && |f| >= 2
    && var k := f[|f| - 1] as nat;
       k > MAX_PROBES || forall j :: 0 <= j < k ==> ProbeHits(hash, f, key, j)
  }

  /** No false negatives; and a key that matches without having been added is one each of whose
      probes is also a probe of an added key. */
  lemma FilterAnswers(hash: Hash, bitsPerKey: nat, keys: seq<Bytes>, f: Bytes, key: Bytes)
    requires IsFilter(hash, bitsPerKey, keys, f)
    ensures key in keys ==> Matches(hash, f, key)
    ensures var bits := 8 * (|f| - 1); var k := ProbeCount(bitsPerKey);
            Matches(hash, f, key) <==> forall j :: 0 <= j < k ==> Probed(hash, keys, bits, k, Position(hash, key, bits, j))
  {
    var bits := 8 * (|f| - 1);
    var k := ProbeCount(bitsPerKey);
    forall j | 0 <= j < k
      ensures ProbeHits(hash, f, key, j) <==> Probed(hash, keys, bits, k, Position(hash, key, bits, j))
    {
      var pos := Position(hash, key, bits, j);
      assert 0 <= pos < bits;
    }
  }

  /** BloomFilterPolicy::CreateFilter: appends the filter of `keys` to `dst`. */
  method CreateFilter(hash: Hash, bitsPerKey: nat, keys: seq<Bytes>, dst: Bytes) returns (r: Bytes)
    ensures dst <= r && IsFilter(hash, bitsPerKey, keys, r[|dst|..])
  {
    var k := ProbeCount(bitsPerKey);
    var bits := |keys| * bitsPerKey;
    if bits < 64 {
      bits := 64;
    }
    var bytes := (bits + 7) / 8;
    bits := bytes * 8;
    var a := seq(bytes, _ => 0 as byte);
    forall pos | 0 <= pos < bits ensures !BitAt(a, pos) {
      ZeroHasNoBits(pos % 8);
    }
    for i := 0 to |keys|
      invariant |a| == bytes
      invariant forall pos {:trigger BitAt(a, pos)} :: 0 <= pos < bits ==> (BitAt(a, pos) <==> Probed(hash, keys[..i], bits, k, pos))
    {
      ghost var a0 := a;
      a := AddKey(hash, keys[i], a, k);
      forall pos | 0 <= pos < bits ensures BitAt(a, pos) <==> Probed(hash, keys[..i + 1], bits, k, pos) {
        ProbedSnoc(hash, keys[..i], keys[i], bits, k, pos);
        assert keys[..i] + [keys[i]] == keys[..i + 1];
        assert BitAt(a0, pos) <==> Probed(hash, keys[..i], bits, k, pos);
      }
    }
    assert keys[..|keys|] == keys;
    ghost var f := a + [k as byte];
    r := dst + (a + [k as byte]);
    assert r[|dst|..] == f;
    forall pos | 0 <= pos < bits ensures BitAt(f, pos) <==> BitAt(a, pos) {
    }
  }

  ghost predicate ProbedBy(hash: Hash, key: Bytes, bits: nat, k: nat, pos: nat)
    requires bits > 0
  {
    exists j :: 0 <= j < k && Position(hash, key, bits, j) == pos
  }

  lemma ProbedSnoc(hash: Hash, keys: seq<Bytes>, key: Bytes, bits: nat, k: nat, pos: nat)
    requires bits > 0
    ensures Probed(hash, keys + [key], bits, k, pos) <==> Probed(hash, keys, bits, k, pos) || ProbedBy(hash, key, bits, k, pos)
  {
    var all := keys + [key];
    if Probed(hash, all, bits, k, pos) {
      var i, j :| 0 <= i < |all| && 0 <= j < k && Position(hash, all[i], bits, j) == pos;
      if i < |keys| {
        assert all[i] == keys[i];
      }
    }
    if Probed(hash, keys, bits, k, pos) {
      var i, j :| 0 <= i < |keys| && 0 <= j < k && Position(hash, keys[i], bits, j) == pos;
      assert all[i] == keys[i];
    }
    if ProbedBy(hash, key, bits, k, pos) {
      var j :| 0 <= j < k && Position(hash, key, bits, j) == pos;
      assert all[|keys|] == key;
    }
  }

  /** The inner loop of CreateFilter: sets the bits that one key probes. */
  method AddKey(hash: Hash, key: Bytes, a0: Bytes, k: nat) returns (a: Bytes)
    requires |a0| > 0
    ensures |a| == |a0|
    ensures forall pos {:trigger BitAt(a, pos)} :: 0 <= pos < 8 * |a| ==>
              (BitAt(a, pos) <==> BitAt(a0, pos) || ProbedBy(hash, key, 8 * |a0|, k, pos))
  {
    a := a0;
    ghost var bits := 8 * |a0|;
    var h := hash(key) % TWO_32;
    var delta := Delta(h);
    for j := 0 to k
      invariant |a| == |a0| && h == Probe(hash(key), j)
      invariant forall pos {:trigger BitAt(a, pos)} :: 0 <= pos < bits ==>
                  (BitAt(a, pos) <==> BitAt(a0, pos) || ProbedBy(hash, key, bits, j, pos))
    {
      var bitpos := h % (8 * |a|);
      ghost var before := a;
      a := a[bitpos / 8 := SetBit(a[bitpos / 8], bitpos % 8)];
      assert bitpos == Position(hash, key, bits, j);
      forall pos | 0 <= pos < bits ensures BitAt(a, pos) <==> BitAt(a0, pos) || ProbedBy(hash, key, bits, j + 1, pos) {
        SetBitAt(before, bitpos, pos);
        ProbedByNext(hash, key, bits, j, pos);
      }
      h := (h + delta) % TWO_32;
    }
  }

  lemma ProbedByNext(hash: Hash, key: Bytes, bits: nat, j: nat, pos: nat)
    requires bits > 0
    ensures ProbedBy(hash, key, bits, j + 1, pos) <==> ProbedBy(hash, key, bits, j, pos) || pos == Position(hash, key, bits, j)
  {
  }

  /** BloomFilterPolicy::KeyMayMatch. */
  method KeyMayMatch(hash: Hash, key: Bytes, f: Bytes) returns (r: bool)
    ensures r <==> Matches(hash, f, key)
  {
    if |f| < 2 {
      return false;
    }
    var bits := (|f| - 1) * 8;
    var k := f[|f| - 1] as nat;
    if k > MAX_PROBES {
      return true;
    }
    var h := hash(key) % TWO_32;
    var delta := Delta(h);
    for j := 0 to k
      invariant h == Probe(hash(key), j)
      invariant forall i :: 0 <= i < j ==> ProbeHits(hash, f, key, i)
    {
      var bitpos := h % bits;
      assert bitpos == Position(hash, key, bits, j);
      if !Bit(f[bitpos / 8] as nat, bitpos % 8) {
        assert !ProbeHits(hash, f, key, j);
        return false;
      }
      h := (h + delta) % TWO_32;
    }
    return true;
  }
}
