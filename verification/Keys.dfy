/** Internal keys and their order (db/dbformat.h, db/dbformat.cc, util/comparator.cc).

    A user key is represented by its rank in the user comparator's order.  Every countable
    total order embeds into the reals, so a `real` rank loses nothing; for the default
    bytewise comparator the embedding is `Rank`, and `RankIsOrderEmbedding` proves it. */
module Keys {

  newtype byte = x: int | 0 <= x < 256
  type Bytes = seq<byte>
  type UserKey = real

  datatype Option<+T> = None | Some(value: T)

  datatype Kind = Deletion | Value

  /** kMaxSequenceNumber: 2^56 - 1. */
  const MAX_SEQUENCE: nat := 0xFF_FFFF_FFFF_FFFF

  datatype IKey = IKey(user: UserKey, sn: nat, kind: Kind)

  datatype Entry = Entry(key: IKey, value: Bytes)

  /** PackSequenceAndType: the kind sits in the low eight bits. */
  function Tag(k: IKey): nat {
    k.sn * 256 + if k.kind.Value? then 1 else 0
  }

  /** InternalKeyComparator::Compare: user key ascending, then tag descending. */
  function Compare(a: IKey, b: IKey): int {
    if a.user < b.user then -1
    else if a.user > b.user then 1
    else if Tag(a) > Tag(b) then -1
    else if Tag(a) < Tag(b) then 1
    else 0
  }

  predicate Less(a: IKey, b: IKey) {
    a.user < b.user || (a.user == b.user && Tag(a) > Tag(b))
  }

  predicate AtMost(a: IKey, b: IKey) {
    !Less(b, a)
  }

  /** The internal comparator is a strict total order in which a newer version of a user key
      comes first. */
  lemma CompareIsTotalOrder(a: IKey, b: IKey, c: IKey)
    ensures Less(a, b) <==> Compare(a, b) < 0
    ensures Compare(a, b) == 0 <==> a == b
    ensures Compare(a, b) == -Compare(b, a)
    ensures Less(a, b) && Less(b, c) ==> Less(a, c)
    ensures a.user == b.user && a.sn > b.sn ==> Less(a, b)
  {
  }

  /** The key `Get` seeks to: kValueTypeForSeek is the larger of the two kinds, so the entries
      of `u` at or after it are exactly those with sequence number at most `s`. */
  function LookupKey(u: UserKey, s: nat): IKey {
    IKey(u, s, Value)
  }

  lemma LookupKeySplits(k: IKey, u: UserKey, s: nat)
    ensures Less(k, LookupKey(u, s)) <==> k.user < u || (k.user == u && k.sn > s)
  {
  }

  predicate Sorted(es: seq<Entry>) {
    forall i, j :: 0 <= i < j < |es| ==> Less(es[i].key, es[j].key)
  }

  lemma SortedAppend(es: seq<Entry>, e: Entry)
    requires Sorted(es)
    requires es != [] ==> Less(es[|es| - 1].key, e.key)
    ensures Sorted(es + [e])
  {
  }

  /** Where a seek lands: the first entry at or after `key`. */
  function SeekIndex(es: seq<Entry>, key: IKey): (i: nat)
    ensures i <= |es|
    ensures forall j :: 0 <= j < i ==> Less(es[j].key, key)
    ensures i < |es| ==> AtMost(key, es[i].key)
  {
    if es == [] || !Less(es[0].key, key) then 0 else 1 + SeekIndex(es[1..], key)
  }

  // ---------- The bytewise comparator embeds into the reals ----------

  /** BytewiseComparator: memcmp on the common prefix, then the shorter string first. */
  predicate BytewiseLess(a: Bytes, b: Bytes) {
    if b == [] then false
    else if a == [] then true
    else if a[0] != b[0] then a[0] < b[0]
    else BytewiseLess(a[1..], b[1..])
  }

  function Rank(a: Bytes): (r: real)
    ensures 0.0 <= r < 1.0
  {
    if a == [] then 0.0 else (a[0] as real + 1.0 + Rank(a[1..])) / 257.0
  }

  lemma {:induction false} RankIsOrderEmbedding(a: Bytes, b: Bytes)
    ensures BytewiseLess(a, b) <==> Rank(a) < Rank(b)
    ensures a == b <==> Rank(a) == Rank(b)
  {
    if a != [] && b != [] {
      RankIsOrderEmbedding(a[1..], b[1..]);
      assert a == [a[0]] + a[1..] && b == [b[0]] + b[1..];
      if a[0] < b[0] {
        assert a[0] as real + 1.0 <= b[0] as real;
      } else if b[0] < a[0] {
        assert b[0] as real + 1.0 <= a[0] as real;
      }
    }
  }
}
