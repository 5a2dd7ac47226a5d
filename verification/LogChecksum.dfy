/** The checksum in the log's headers: the masked CRC32C of a fragment's type and payload
    (db/log_writer.cc, db/log_reader.cc, util/coding.h). */
module LogChecksum {
  import Keys
  import opened Crc32c

  function Octets(x: Keys.Bytes): (o: seq<octet>)
    ensures |o| == |x|
  {
    seq(|x|, i requires 0 <= i < |x| => x[i] as octet)
  }

  function Lane(w: word): Keys.byte {
    ((w & 0xff) as octet) as Keys.byte
  }

  function EncodeFixed32(w: word): (b: Keys.Bytes)
    ensures |b| == 4
  {
    [Lane(w), Lane(w >> 8), Lane(w >> 16), Lane(w >> 24)]
  }

  function DecodeFixed32(b: Keys.Bytes): word
    requires |b| == 4
  {
    LittleEndian(b[0] as octet, b[1] as octet, b[2] as octet, b[3] as octet)
  }

  lemma LaneIsOctet(w: word)
    ensures Lane(w) as octet == (w & 0xff) as octet
  {
  }

  lemma OctetsOfWord(w: word)
    ensures LittleEndian((w & 0xff) as octet, ((w >> 8) & 0xff) as octet, ((w >> 16) & 0xff) as octet, ((w >> 24) & 0xff) as octet) == w
  {
  }

  lemma FixedRoundTrip(w: word)
    ensures DecodeFixed32(EncodeFixed32(w)) == w
  {
    LaneIsOctet(w);
    LaneIsOctet(w >> 8);
    LaneIsOctet(w >> 16);
    LaneIsOctet(w >> 24);
    OctetsOfWord(w);
  }

  lemma LanesOfLittleEndian(b0: octet, b1: octet, b2: octet, b3: octet)
    ensures var w := LittleEndian(b0, b1, b2, b3);
      && (w & 0xff) as octet == b0 && ((w >> 8) & 0xff) as octet == b1
      && ((w >> 16) & 0xff) as octet == b2 && ((w >> 24) & 0xff) as octet == b3
  {
  }

  lemma NextOctet(x: octet)
    requires x < 255
    ensures (x + 1) as int == x as int + 1
  {
  }

  lemma {:induction false} OctetOf(i: nat) returns (x: octet)
    requires i < 256
    ensures x as int == i
  {
    if i == 0 {
      x := 0;
    } else {
      x := OctetOf(i - 1);
      NextOctet(x);
      x := x + 1;
    }
  }

  lemma IntOfOctet(x: octet)
    ensures (x as int) as octet == x
  {
  }

  lemma ByteRoundTrip(b: Keys.byte)
    ensures (b as octet) as Keys.byte == b
  {
    var x := OctetOf(b as nat);
    IntOfOctet(x);
  }

  lemma FixedOfDecoded(b: Keys.Bytes)
    requires |b| == 4
    ensures EncodeFixed32(DecodeFixed32(b)) == b
  {
    LanesOfLittleEndian(b[0] as octet, b[1] as octet, b[2] as octet, b[3] as octet);
    ByteRoundTrip(b[0]);
    ByteRoundTrip(b[1]);
    ByteRoundTrip(b[2]);
    ByteRoundTrip(b[3]);
  }

  function Stored(crc: word): Keys.Bytes {
    EncodeFixed32(Mask(crc))
  }

  /** What a header holds: over the type byte and the payload. */
  function StoredCrc(x: Keys.Bytes): (b: Keys.Bytes)
    ensures |b| == 4
  {
    Stored(Crc(0, Octets(x)))
  }

  lemma StoredTellsApart(a: word, b: word)
    requires Stored(a) == Stored(b)
    ensures a == b
  {
    FixedRoundTrip(Mask(a));
    FixedRoundTrip(Mask(b));
    MaskUndone(a);
    MaskUndone(b);
  }

  /** EmitPhysicalRecord extends the ready-made checksum of the type byte by the payload. */
  lemma WriterStoresCrc(t: Keys.byte, payload: Keys.Bytes)
    ensures Stored(Crc(Crc(0, Octets([t])), Octets(payload))) == StoredCrc([t] + payload)
  {
    assert Octets([t] + payload) == Octets([t]) + Octets(payload);
    CrcExtends(0, Octets([t]), Octets(payload));
  }

  lemma UnmaskedIs(h: Keys.Bytes, crc: word)
    requires |h| == 4
    ensures Unmask(DecodeFixed32(h)) == crc <==> Stored(crc) == h
  {
    var masked := DecodeFixed32(h);
    FixedOfDecoded(h);
    UnmaskUndone(masked);
    FixedRoundTrip(Mask(crc));
    MaskUndone(crc);
  }

  /** ReadPhysicalRecord's test, on unmasked checksums, passes for exactly the stored bytes. */
  lemma ReaderTestsStoredCrc(h: Keys.Bytes, x: Keys.Bytes)
    requires |h| == 4
    ensures Unmask(DecodeFixed32(h)) == Crc(0, Octets(x)) <==> StoredCrc(x) == h
  {
    UnmaskedIs(h, Crc(0, Octets(x)));
  }

  lemma OctetsOfThree(a: Keys.Bytes, v: Keys.Bytes, b: Keys.Bytes)
    ensures Octets(a + v + b) == Octets(a) + Octets(v) + Octets(b)
  {
  }

  lemma CrcsDiffer(a: Keys.Bytes, v: Keys.Bytes, w: Keys.Bytes, b: Keys.Bytes)
    requires |v| == 4 && |w| == 4 && v != w
    ensures Crc(0, Octets(a + v + b)) != Crc(0, Octets(a + w + b))
  {
    OctetsOfThree(a, v, b);
    OctetsOfThree(a, w, b);
    OctetsTellApart(v, w);
    BurstsAreDetected(0, Octets(a), Octets(v), Octets(w), Octets(b));
  }

  lemma StoredDiffer(x: Keys.Bytes, y: Keys.Bytes)
    requires Crc(0, Octets(x)) != Crc(0, Octets(y))
    ensures StoredCrc(x) != StoredCrc(y)
  {
    if StoredCrc(x) == StoredCrc(y) {
      StoredTellsApart(Crc(0, Octets(x)), Crc(0, Octets(y)));
    }
  }

  /** Damage to a fragment's type or payload that stays within four neighbouring bytes does not go unseen. */
  lemma DamageIsSeen(a: Keys.Bytes, v: Keys.Bytes, w: Keys.Bytes, b: Keys.Bytes)
    requires |v| == 4 && |w| == 4 && v != w
    ensures StoredCrc(a + v + b) != StoredCrc(a + w + b)
  {
    CrcsDiffer(a, v, w, b);
    StoredDiffer(a + v + b, a + w + b);
  }

  lemma OctetsTellApart(v: Keys.Bytes, w: Keys.Bytes)
    requires |v| == |w| && v != w
    ensures Octets(v) != Octets(w)
  {
    var i :| 0 <= i < |v| && v[i] != w[i];
    ByteRoundTrip(v[i]);
    ByteRoundTrip(w[i]);
    assert Octets(v)[i] != Octets(w)[i];
  }
}
