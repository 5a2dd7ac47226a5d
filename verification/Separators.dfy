/** Shortened keys for the index of a table (util/comparator.cc, db/dbformat.cc). */
module Separators {
  import opened Keys

  /** An internal key with its user key spelled out. */
  datatype ByteKey = ByteKey(user: Bytes, sn: nat, kind: Kind)

  function Lift(k: ByteKey): IKey {
    IKey(Rank(k.user), k.sn, k.kind)
  }

  /** `d` is where the two strings first differ, or the end of the shorter one. */
  predicate FirstDifference(a: Bytes, b: Bytes, d: nat) {
    && d <= |a| && d <= |b| && a[..d] == b[..d]
    && (d < |a| && d < |b| ==> a[d] != b[d])
  }

  lemma PrefixAgrees(a: Bytes, b: Bytes, d: nat, i: nat)
    requires i < d && d <= |a| && d <= |b| && a[..d] == b[..d]
    ensures a[i] == b[i]
  {
    assert a[i] == a[..d][i] == b[..d][i];
  }

  lemma DifferenceUnique(a: Bytes, b: Bytes, d: nat, e: nat)
    requires FirstDifference(a, b, d) && FirstDifference(a, b, e)
    ensures d == e
  {
    if d < e {
      PrefixAgrees(a, b, e, d);
    } else if e < d {
      PrefixAgrees(a, b, d, e);
    }
  }

  lemma {:induction false} DifferenceDecides(a: Bytes, b: Bytes, d: nat)
    requires d < |a| && d < |b| && a[..d] == b[..d] && a[d] < b[d]
    ensures BytewiseLess(a, b)
  {
    if d > 0 {
      assert a[0] == a[..d][0] == b[..d][0] == b[0];
      assert a[1..][..d - 1] == a[..d][1..] == b[..d][1..] == b[1..][..d - 1];
      DifferenceDecides(a[1..], b[1..], d - 1);
    }
  }

  /** No string as short as a common prefix lies strictly between the two. */
  lemma {:induction false} NothingShorterBetween(a: Bytes, b: Bytes, d: nat, t: Bytes)
    requires d <= |a| && d <= |b| && a[..d] == b[..d] && |t| <= d
    ensures !(BytewiseLess(a, t) && BytewiseLess(t, b))
  {
    if t != [] {
      assert a[0] == a[..d][0] == b[..d][0] == b[0];
      if t[0] == a[0] {
        assert a[1..][..d - 1] == a[..d][1..] == b[..d][1..] == b[1..][..d - 1];
        NothingShorterBetween(a[1..], b[1..], d - 1, t[1..]);
      }
    }
  }

  /** BytewiseComparatorImpl::FindShortestSeparator: what comes out, if it is not `start` itself,
      lies strictly between the two, and nothing shorter does. */
  method FindShortestSeparator(start: Bytes, limit: Bytes) returns (r: Bytes)
    ensures r == start || (BytewiseLess(start, r) && BytewiseLess(r, limit) && |r| <= |start|)
    ensures r != start ==> forall t :: BytewiseLess(start, t) && BytewiseLess(t, limit) ==> |r| <= |t|
    ensures forall d: nat :: FirstDifference(start, limit, d) && d < |start| && d < |limit| && start[d] as int + 1 < limit[d] as int ==>
              |r| == d + 1
  {
    var minLength := if |start| < |limit| then |start| else |limit|;
    var diff := 0;
    while diff < minLength && start[diff] == limit[diff]
      invariant diff <= minLength && start[..diff] == limit[..diff]
    {
      diff := diff + 1;
    }
    forall d: nat | FirstDifference(start, limit, d) ensures d == diff {
      DifferenceUnique(start, limit, d, diff);
    }
    r := start;
    if diff < minLength {
      if start[diff] < 255 && start[diff] + 1 < limit[diff] {
        r := start[..diff] + [start[diff] + 1];
        assert r[..diff] == start[..diff];
        DifferenceDecides(start, r, diff);
        DifferenceDecides(r, limit, diff);
        forall t | BytewiseLess(start, t) && BytewiseLess(t, limit) ensures |r| <= |t| {
          if |t| <= diff {
            NothingShorterBetween(start, limit, diff, t);
          }
        }
      }
    }
  }

  predicate AllOnes(a: Bytes) {
    forall i :: 0 <= i < |a| ==> a[i] == 255
  }

  lemma {:induction false} NothingShortAfterOnes(a: Bytes, d: nat, t: Bytes)
    requires d <= |a| && AllOnes(a[..d]) && |t| <= d
    ensures !BytewiseLess(a, t)
  {
    if t != [] {
      assert a[0] == a[..d][0];
      if t[0] == a[0] {
        assert a[1..][..d - 1] == a[..d][1..];
        NothingShortAfterOnes(a[1..], d - 1, t[1..]);
      }
    }
  }

  /** BytewiseComparatorImpl::FindShortSuccessor: a string after `key` as short as any, or `key`
      when it is a run of 0xff. */
  method FindShortSuccessor(key: Bytes) returns (r: Bytes)
    ensures r == key <==> AllOnes(key)
    ensures r != key ==> BytewiseLess(key, r) && |r| <= |key|
    ensures r != key ==> forall t :: BytewiseLess(key, t) ==> |r| <= |t|
  {
    for i := 0 to |key|
      invariant AllOnes(key[..i])
    {
      if key[i] != 255 {
        r := key[..i] + [key[i] + 1];
        assert r[..i] == key[..i] && r[i] != key[i];
        DifferenceDecides(key, r, i);
        forall t | BytewiseLess(key, t) ensures |r| <= |t| {
          if |t| <= i {
            NothingShortAfterOnes(key, i, t);
          }
        }
        return;
      }
      assert key[..i + 1] == key[..i] + [key[i]];
    }
    assert key[..|key|] == key;
    r := key;
  }

  /** `sep` is the last key of a block, or has a user key of its own between that of the block's
      last entry and that of the next entry, with the number that sorts first. */
  predicate Separates(sep: IKey, last: IKey, next: Option<IKey>) {
    || sep == last
    || (last.user < sep.user && sep.sn == MAX_SEQUENCE && sep.kind.Value? && (next.Some? ==> sep.user < next.value.user))
  }

  /** InternalKeyComparator::FindShortestSeparator. */
  method ShortestSeparator(start: ByteKey, limit: ByteKey) returns (r: ByteKey)
    ensures Separates(Lift(r), Lift(start), Some(Lift(limit)))
    ensures Less(Lift(start), Lift(limit)) ==> AtMost(Lift(start), Lift(r)) && Less(Lift(r), Lift(limit))
    ensures |r.user| <= |start.user|
  {
    var tmp := FindShortestSeparator(start.user, limit.user);
    RankIsOrderEmbedding(start.user, tmp);
    RankIsOrderEmbedding(tmp, limit.user);
    r := start;
    if |tmp| < |start.user| && BytewiseLess(start.user, tmp) {
      r := ByteKey(tmp, MAX_SEQUENCE, Value);
    }
  }

  /** InternalKeyComparator::FindShortSuccessor. */
  method ShortSuccessor(key: ByteKey) returns (r: ByteKey)
    ensures Separates(Lift(r), Lift(key), None)
    ensures |r.user| <= |key.user|
  {
    var tmp := FindShortSuccessor(key.user);
    RankIsOrderEmbedding(key.user, tmp);
    r := key;
    if |tmp| < |key.user| && BytewiseLess(key.user, tmp) {
      r := ByteKey(tmp, MAX_SEQUENCE, Value);
    }
  }
}
