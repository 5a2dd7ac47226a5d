/** The cache's hash table (util/cache.cc: HandleTable): an array of buckets, each a chain of handles linked
    by `next_hash`.  Handles are known by number; `info` tells their keys and hashes, which never change. */
module HandleTables {
  import opened Keys

  const NIL: int := -1

  datatype Info = Info(key: Bytes, hash: nat)

  predicate PowerOfTwo(n: nat) {
    n == 1 || (n > 0 && n % 2 == 0 && PowerOfTwo(n / 2))
  }

  /** From pointer `p` the chain runs through exactly `c`. */
  ghost predicate Chain(nextHash: map<nat, int>, p: int, c: seq<nat>)
    decreases |c|
  {
    if c == [] then p == NIL else p == c[0] && c[0] in nextHash && Chain(nextHash, nextHash[c[0]], c[1..])
  }

  ghost predicate NoRepeats(c: seq<nat>) {
    forall i, j :: 0 <= i < j < |c| ==> c[i] != c[j]
  }

  lemma {:induction false} ChainUntouched(nextHash: map<nat, int>, p: int, c: seq<nat>, nextHash': map<nat, int>)
    requires Chain(nextHash, p, c)
    requires forall h :: h in c && h in nextHash ==> h in nextHash' && nextHash'[h] == nextHash[h]
    ensures Chain(nextHash', p, c)
    decreases |c|
  {
    if c != [] {
      ChainUntouched(nextHash, nextHash[c[0]], c[1..], nextHash');
    }
  }

  /** Where the chain stands after `k` handles. */
  lemma {:induction false} ChainAt(nextHash: map<nat, int>, p: int, c: seq<nat>, k: nat)
    requires Chain(nextHash, p, c) && k < |c|
    ensures c[k] in nextHash && Chain(nextHash, nextHash[c[k]], c[k + 1..]) && Chain(nextHash, c[k], c[k..])
    decreases |c|
  {
    if k > 0 {
      ChainAt(nextHash, nextHash[c[0]], c[1..], k - 1);
      assert c[1..][k..] == c[k + 1..] && c[1..][k - 1..] == c[k..];
    }
  }

  /** Writing pointer `v` into the slot behind the first `k` handles joins them to the chain at `v`. */
  lemma {:induction false} WriteSlot(nextHash: map<nat, int>, p: int, c: seq<nat>, k: nat, v: int, tail: seq<nat>)
    requires 0 < k <= |c| && Chain(nextHash, p, c) && NoRepeats(c)
    requires Chain(nextHash, v, tail) && forall h :: h in tail ==> h !in c[..k]
    ensures Chain(nextHash[c[k - 1] := v], p, c[..k] + tail)
    decreases |c|
  {
    var nh := nextHash[c[k - 1] := v];
    var joined := c[..k] + tail;
    if k == 1 {
      ChainUntouched(nextHash, v, tail, nh);
      assert joined[1..] == tail;
    } else {
      assert forall h :: h in tail ==> h !in c[1..][..k - 1];
      WriteSlot(nextHash, nextHash[c[0]], c[1..], k - 1, v, tail);
      assert c[1..][..k - 1] + tail == joined[1..];
      assert c[1..][k - 2] == c[k - 1] && c[0] != c[k - 1];
    }
  }

  predicate Matches(info: seq<Info>, h: nat, key: Bytes, hash: nat) {
    h < |info| && info[h].hash == hash && info[h].key == key
  }

  ghost predicate BucketOk(info: seq<Info>, list: seq<int>, nextHash: map<nat, int>, c: seq<nat>, b: nat)
    requires b < |list|
  {
    && Chain(nextHash, list[b], c) && NoRepeats(c)
    && (forall h :: h in c ==> h < |info| && info[h].hash % |list| == b)
    && (forall h, g :: h in c && g in c && info[h] == info[g] ==> h == g)
  }

  ghost predicate TableOk(info: seq<Info>, list: seq<int>, nextHash: map<nat, int>, chains: seq<seq<nat>>) {
    && |list| == |chains| && |list| > 0
    && forall b {:trigger BucketOk(info, list, nextHash, chains[b], b)} :: 0 <= b < |list| ==>
         BucketOk(info, list, nextHash, chains[b], b)
  }

  /** Handle `h` is in the table: it is in the bucket of its hash. */
  ghost predicate Holds(info: seq<Info>, chains: seq<seq<nat>>, h: nat) {
    |chains| > 0 && h < |info| && h in chains[info[h].hash % |chains|]
  }

  /** A new chain in bucket `b`, the others as they were. */
  lemma ReplaceBucket(info: seq<Info>, list: seq<int>, nextHash: map<nat, int>, chains: seq<seq<nat>>,
                      b: nat, p: int, nextHash': map<nat, int>, c: seq<nat>)
    requires TableOk(info, list, nextHash, chains) && b < |list|
    requires forall h :: h in nextHash && h < |info| && info[h].hash % |list| != b ==> h in nextHash' && nextHash'[h] == nextHash[h]
    requires BucketOk(info, list[b := p], nextHash', c, b)
    ensures TableOk(info, list[b := p], nextHash', chains[b := c])
  {
    var list', chains' := list[b := p], chains[b := c];
    forall a | 0 <= a < |list| ensures BucketOk(info, list', nextHash', chains'[a], a) {
      if a != b {
        assert BucketOk(info, list, nextHash, chains[a], a);
        ChainUntouched(nextHash, list[a], chains[a], nextHash');
      }
    }
  }

  /** Where a bucket's chain is cut behind its first `k` handles and led on to `tail`. */
  ghost predicate Tail(info: seq<Info>, nextHash: map<nat, int>, c: seq<nat>, k: nat, v: int, tail: seq<nat>) {
    && k <= |c| && Chain(nextHash, v, tail) && NoRepeats(tail)
    && (forall h :: h in tail ==> h < |info| && h !in c[..k])
    && (forall h, g :: h in tail && g in tail && info[h] == info[g] ==> h == g)
    && (forall h, g :: h in tail && g in c[..k] && g < |info| ==> info[h] != info[g])
  }

  lemma JoinApart(a: seq<nat>, b: seq<nat>)
    requires NoRepeats(a) && NoRepeats(b) && forall h :: h in b ==> h !in a
    ensures NoRepeats(a + b)
  {
    var c := a + b;
    forall i, j | 0 <= i < j < |c| ensures c[i] != c[j] {
      if i < |a| <= j {
        assert c[i] in a && c[j] in b;
      }
    }
  }

  lemma SpliceBucket(info: seq<Info>, list: seq<int>, nextHash: map<nat, int>, c: seq<nat>, b: nat,
                     k: nat, v: int, tail: seq<nat>)
    requires b < |list| && BucketOk(info, list, nextHash, c, b) && Tail(info, nextHash, c, k, v, tail)
    requires forall h :: h in tail ==> info[h].hash % |list| == b
    ensures k == 0 ==> BucketOk(info, list[b := v], nextHash, c[..k] + tail, b)
    ensures k > 0 ==> BucketOk(info, list, nextHash[c[k - 1] := v], c[..k] + tail, b)
  {
    var front := c[..k];
    assert forall h :: h in front ==> h in c;
    JoinApart(front, tail);
    if k > 0 {
      WriteSlot(nextHash, list[b], c, k, v, tail);
    } else {
      assert front + tail == tail;
    }
  }

  class HandleTable {
    var list: seq<int>
    var nextHash: map<nat, int>
    var elems: nat
    ghost var chains: seq<seq<nat>>

    ghost predicate Valid(info: seq<Info>)
      reads this
    {
      && TableOk(info, list, nextHash, chains) && PowerOfTwo(|list|)
      && elems == |Members(info)|
    }

    ghost function Members(info: seq<Info>): set<nat>
      reads this
    {
      set h | 0 <= h < |info| && Holds(info, chains, h)
    }

    constructor ()
      ensures forall info :: Valid(info) && Members(info) == {}
    {
      list := seq(4, _ => NIL);
      nextHash := map[];
      elems := 0;
      chains := seq(4, _ => []);
      new;
      assert PowerOfTwo(2) && PowerOfTwo(4);
      forall info: seq<Info> ensures Valid(info) && Members(info) == {} {
        forall b | 0 <= b < 4 ensures BucketOk(info, list, nextHash, chains[b], b) {
        }
      }
    }

    /** FindPointer: the slot (behind `before`, or the bucket itself) whose pointer `at` leads to the matching
        handle, or the last slot; it is `k` handles down the chain.  The bucket is the remainder of
        the hash, lengths being powers of two. */
    method FindPointer(info: seq<Info>, key: Bytes, hash: nat) returns (before: int, at: int, ghost k: nat)
      requires Valid(info)
      ensures var c := chains[hash % |list|];
        && k <= |c| && at == (if k < |c| then c[k] else NIL) && before == (if k > 0 then c[k - 1] else NIL)
        && (forall i :: 0 <= i < k ==> !Matches(info, c[i], key, hash))
        && (k < |c| ==> Matches(info, c[k], key, hash))
    {
      var b := hash % |list|;
      ghost var c := chains[b];
      assert BucketOk(info, list, nextHash, c, b);
      before, at, k := NIL, list[b], 0;
      assert c[0..] == c;
      while at != NIL && !Matches(info, at, key, hash)
        invariant k <= |c| && Chain(nextHash, at, c[k..]) && before == (if k > 0 then c[k - 1] else NIL)
        invariant forall i :: 0 <= i < k ==> !Matches(info, c[i], key, hash)
        decreases |c| - k
      {
        assert c[k..][0] == c[k] && c[k..][1..] == c[k + 1..];
        before := at;
        at := nextHash[at];
        k := k + 1;
      }
      assert k < |c| ==> c[k..][0] == c[k];
    }

    /** Handles found at their bucket and nowhere else. */
    lemma HoldsIsInBucket(info: seq<Info>, b: nat, h: nat)
      requires Valid(info) && b < |list| && h in chains[b]
      ensures h < |info| && info[h].hash % |list| == b && Holds(info, chains, h)
    {
      assert BucketOk(info, list, nextHash, chains[b], b);
    }

    /** Handles in the table have different keys. */
    lemma KeysDiffer(info: seq<Info>, h: nat, g: nat)
      requires Valid(info) && h in Members(info) && g in Members(info) && info[h] == info[g]
      ensures h == g
    {
      var b := info[h].hash % |list|;
      assert BucketOk(info, list, nextHash, chains[b], b);
    }

    /** A handle that is not in the table yet changes nothing. */
    lemma MoreInfo(info: seq<Info>, x: Info)
      requires Valid(info)
      ensures Valid(info + [x]) && Members(info + [x]) == Members(info)
    {
      forall b | 0 <= b < |list| ensures BucketOk(info + [x], list, nextHash, chains[b], b) {
        assert BucketOk(info, list, nextHash, chains[b], b);
      }
      forall h | h in Members(info + [x]) ensures h in Members(info) {
        var b := (info + [x])[h].hash % |list|;
        assert BucketOk(info, list, nextHash, chains[b], b);
      }
      assert Members(info + [x]) == Members(info);
    }

    method Lookup(info: seq<Info>, key: Bytes, hash: nat) returns (r: int)
      requires Valid(info)
      ensures r == NIL ==> forall h :: Holds(info, chains, h) ==> !Matches(info, h, key, hash)
      ensures r != NIL ==> r >= 0 && Holds(info, chains, r) && Matches(info, r, key, hash)
    {
      var before;
      ghost var k;
      before, r, k := FindPointer(info, key, hash);
    }

    /** Stores a handle into a slot: a bucket's head, or the successor field of the handle before. */
    method SetSlot(b: nat, before: int, v: int)
      requires b < |list| && (before == NIL || before >= 0)
      modifies this`list, this`nextHash
      ensures before == NIL ==> list == old(list)[b := v] && nextHash == old(nextHash)
      ensures before != NIL ==> list == old(list) && nextHash == old(nextHash)[before := v]
    {
      if before == NIL {
        list := list[b := v];
      } else {
        nextHash := nextHash[before := v];
      }
    }

    /** Link `h` into its bucket, in place of a handle with the same key and hash if there is one. */
    method Link(info: seq<Info>, h: nat) returns (replaced: int)
      requires Valid(info) && h < |info| && !Holds(info, chains, h)
      modifies this`list, this`nextHash, this`chains
      ensures TableOk(info, list, nextHash, chains) && |list| == old(|list|)
      ensures replaced != NIL ==> replaced >= 0 && replaced != h && old(Holds(info, chains, replaced)) && info[replaced] == info[h]
      ensures forall g :: Holds(info, chains, g) <==> g == h || (old(Holds(info, chains, g)) && g != replaced)
    {
      var b := info[h].hash % |list|;
      ghost var c, l0, nh0, ch0 := chains[b], list, nextHash, chains;
      assert BucketOk(info, list, nextHash, c, b);
      var before;
      ghost var k;
      before, replaced, k := FindPointer(info, info[h].key, info[h].hash);
      if k < |c| {
        ChainAt(nextHash, list[b], c, k);
      }
      var rest := if replaced == NIL then NIL else nextHash[replaced];
      nextHash := nextHash[h := rest];
      ghost var tail := LinkTail(info, list, nh0, c, b, k, h, nextHash);
      SpliceBucket(info, list, nextHash, c, b, k, h, tail);
      SetSlot(b, before, h);
      chains := chains[b := c[..k] + tail];
      assert list == l0[b := list[b]];
      ReplaceBucket(info, l0, nh0, ch0, b, list[b], nextHash, c[..k] + tail);
      TailMembers(c, k, tail);
    }

    /** HandleTable::Insert, of a handle that is not in the table: it takes the place of the handle with its
        key, which is returned. */
    method Insert(info: seq<Info>, h: nat) returns (replaced: int)
      requires Valid(info) && h < |info| && !Holds(info, chains, h)
      modifies this
      ensures Valid(info)
      ensures replaced != NIL ==>
        replaced >= 0 && replaced != h && replaced in old(Members(info)) && info[replaced] == info[h]
      ensures Members(info) == old(Members(info)) + {h} - (if replaced >= 0 then {replaced as nat} else {})
      ensures replaced == NIL || replaced >= 0
    {
      ghost var before := Members(info);
      replaced := Link(info, h);
      Replaced(info, before, h, replaced);
      if replaced == NIL {
        elems := elems + 1;
        if elems > |list| {
          Resize(info);
        }
      } else {
        SameCount(before, h, replaced);
      }
    }

    /** HandleTable::Remove. */
    method Remove(info: seq<Info>, key: Bytes, hash: nat) returns (result: int)
      requires Valid(info)
      modifies this
      ensures Valid(info)
      ensures result == NIL ==> forall h :: h in old(Members(info)) ==> !Matches(info, h, key, hash)
      ensures result != NIL ==> result >= 0 && result in old(Members(info)) && Matches(info, result, key, hash)
      ensures Members(info) == old(Members(info)) - (if result >= 0 then {result as nat} else {})
    {
      var b := hash % |list|;
      ghost var c, l0, nh0, ch0 := chains[b], list, nextHash, chains;
      ghost var before := Members(info);
      assert BucketOk(info, list, nextHash, c, b);
      var slot;
      ghost var k;
      slot, result, k := FindPointer(info, key, hash);
      if result != NIL {
        HoldsIsInBucket(info, b, result);
        ChainAt(nextHash, list[b], c, k);
        UnlinkTail(info, list, nextHash, c, b, k);
        SpliceBucket(info, list, nextHash, c, b, k, nextHash[result], c[k + 1..]);
        SetSlot(b, slot, nextHash[result]);
        chains := chains[b := c[..k] + c[k + 1..]];
        assert list == l0[b := list[b]];
        ReplaceBucket(info, l0, nh0, ch0, b, list[b], nextHash, c[..k] + c[k + 1..]);
        TailMembers(c, k, c[k + 1..]);
        OneLess(info, before, result);
        elems := elems - 1;
      } else {
        NoMatch(info, b, key, hash);
      }
    }

    lemma Replaced(info: seq<Info>, before: set<nat>, h: nat, replaced: int)
      requires h < |info| && replaced != h
      requires forall g: nat :: g < |info| ==> (Holds(info, chains, g) <==> g == h || (g in before && g != replaced))
      requires forall g :: g in before ==> 0 <= g < |info|
      ensures Members(info) == before + {h} - (if replaced >= 0 then {replaced as nat} else {})
    {
    }

    lemma OneLess(info: seq<Info>, before: set<nat>, h: nat)
      requires h in before && forall g: nat :: g < |info| ==> (Holds(info, chains, g) <==> g in before && g != h)
      requires forall g :: g in before ==> 0 <= g < |info|
      ensures Members(info) == before - {h}
    {
    }

    lemma NoMatch(info: seq<Info>, b: nat, key: Bytes, hash: nat)
      requires Valid(info) && b == hash % |list|
      requires forall i :: 0 <= i < |chains[b]| ==> !Matches(info, chains[b][i], key, hash)
      ensures forall h :: h in Members(info) ==> !Matches(info, h, key, hash)
    {
    }

    /** More buckets, the same handles. */
    method Resize(info: seq<Info>)
      requires TableOk(info, list, nextHash, chains)
      modifies this`list, this`nextHash, this`chains
      ensures TableOk(info, list, nextHash, chains) && PowerOfTwo(|list|)
      ensures Members(info) == old(Members(info))
    {
      var newLength := 4;
      assert PowerOfTwo(2);
      while newLength < elems
        invariant newLength > 0 && PowerOfTwo(newLength)
        decreases elems - newLength
      {
        newLength := newLength * 2;
      }
      ghost var all := Members(info);
      var newList: seq<int> := seq(newLength, _ => NIL);
      ghost var newChains: seq<seq<nat>> := seq(newLength, _ => []);
      EmptyTable(info, list, nextHash, newList, chains, newChains);
      var i := 0;
      while i < |list|
        invariant i <= |list| && |newList| == newLength && |newChains| == newLength
        invariant HalfMoved(info, list, nextHash, chains, i, [], newList, newChains)
        invariant list == old(list) && chains == old(chains)
      {
        newList, newChains := MoveBucket(info, i, newList, newChains);
        i := i + 1;
      }
      list, chains := newList, newChains;
      assert Members(info) == all;
    }

    /** Move the chain of bucket `i`, one handle after the other, each to the front of its new bucket. */
    method MoveBucket(info: seq<Info>, i: nat, newList0: seq<int>, ghost newChains0: seq<seq<nat>>)
        returns (newList: seq<int>, ghost newChains: seq<seq<nat>>)
      requires i < |list| && |newList0| == |newChains0| > 0
      requires HalfMoved(info, list, nextHash, chains, i, [], newList0, newChains0)
      modifies this`nextHash
      ensures |newList| == |newList0| && |newChains| == |newChains0|
      ensures HalfMoved(info, list, nextHash, chains, i + 1, [], newList, newChains)
    {
      newList, newChains := newList0, newChains0;
      ghost var rest := chains[i];
      StartBucket(info, list, nextHash, chains, i, newList, newChains);
      var h := list[i];
      while h != NIL
        invariant |newList| == |newList0| && |newChains| == |newChains0|
        invariant Chain(nextHash, h, rest) && HalfMoved(info, list, nextHash, chains, i + 1, rest, newList, newChains)
        decreases |rest|
      {
        assert h in rest;
        var b := info[h].hash % |newList|;
        MoveOne(info, list, nextHash, chains, i, rest, newList, newChains, h, b);
        var next := nextHash[h];
        nextHash := nextHash[h := newList[b]];
        newList := newList[b := h];
        newChains := newChains[b := [h as nat] + newChains[b]];
        rest := rest[1..];
        h := next;
      }
    }
  }

  lemma SameCount(members: set<nat>, h: nat, g: nat)
    requires g in members && h !in members
    ensures |members + {h} - {g}| == |members|
  {
    assert members + {h} - {g} == members - {g} + {h};
  }

  lemma UnlinkTail(info: seq<Info>, list: seq<int>, nextHash: map<nat, int>, c: seq<nat>, b: nat, k: nat)
    requires b < |list| && BucketOk(info, list, nextHash, c, b) && k < |c| && c[k] in nextHash
    ensures Tail(info, nextHash, c, k, nextHash[c[k]], c[k + 1..])
    ensures forall g :: g in c[k + 1..] ==> info[g].hash % |list| == b
  {
    ChainAt(nextHash, list[b], c, k);
    RestMembers(c, k);
    var front, tail := c[..k], c[k + 1..];
    forall h: nat | h in tail ensures h in c && h !in front && h < |info| && info[h].hash % |list| == b {
    }
    forall g: nat | g in front ensures g in c {
      var i :| 0 <= i < k && c[i] == g;
    }
    forall h: nat, g: nat | h in tail && g in front ensures info[h] != info[g] {
      assert h in c && g in c && h != g;
    }
  }

  // ---------- Resizing ----------

  /** The handles still waiting in the bucket before bucket `i`. */
  ghost predicate Waiting(info: seq<Info>, length: nat, chains: seq<seq<nat>>, i: nat, rest: seq<nat>, newChains: seq<seq<nat>>)
    requires length > 0
  {
    && NoRepeats(rest)
    && (forall h: nat :: h in rest ==>
          h < |info| && info[h].hash % length == i - 1 && Holds(info, chains, h) && !Holds(info, newChains, h))
    && (forall h: nat, g: nat :: h in rest && g in rest && h < |info| && g < |info| && info[h] == info[g] ==> h == g)
    && (forall h: nat, g: nat :: Holds(info, newChains, h) && g in rest && g < |info| ==> info[h] != info[g])
  }

  /** The new table holds what was in the buckets before bucket `i`, but for `rest`. */
  ghost predicate Conserved(info: seq<Info>, length: nat, chains: seq<seq<nat>>, i: nat, rest: seq<nat>, newChains: seq<seq<nat>>)
    requires length > 0
  {
    && (forall h: nat :: Holds(info, newChains, h) ==> Holds(info, chains, h) && info[h].hash % length < i)
    && (forall h: nat :: Holds(info, chains, h) && info[h].hash % length < i ==> h in rest || Holds(info, newChains, h))
  }

  ghost predicate BucketsFrom(info: seq<Info>, list: seq<int>, nextHash: map<nat, int>, chains: seq<seq<nat>>, i: nat) {
    && |list| == |chains| && i <= |list|
    && forall b {:trigger BucketOk(info, list, nextHash, chains[b], b)} :: i <= b < |list| ==>
         BucketOk(info, list, nextHash, chains[b], b)
  }

  /** Buckets below `i` have been moved to the new table, but for `rest` (of the last of them). */
  ghost predicate HalfMoved(info: seq<Info>, list: seq<int>, nextHash: map<nat, int>, chains: seq<seq<nat>>, i: nat,
                            rest: seq<nat>, newList: seq<int>, newChains: seq<seq<nat>>)
  {
    && |list| > 0
    && BucketsFrom(info, list, nextHash, chains, i)
    && TableOk(info, newList, nextHash, newChains)
    && Waiting(info, |list|, chains, i, rest, newChains)
    && Conserved(info, |list|, chains, i, rest, newChains)
  }

  lemma EmptyTable(info: seq<Info>, list: seq<int>, nextHash: map<nat, int>, newList: seq<int>,
                   chains: seq<seq<nat>>, newChains: seq<seq<nat>>)
    requires TableOk(info, list, nextHash, chains)
    requires |newList| == |newChains| > 0 && (forall b :: 0 <= b < |newList| ==> newList[b] == NIL && newChains[b] == [])
    ensures HalfMoved(info, list, nextHash, chains, 0, [], newList, newChains)
  {
    forall b | 0 <= b < |newList| ensures BucketOk(info, newList, nextHash, newChains[b], b) {
    }
  }

  lemma StartBucket(info: seq<Info>, list: seq<int>, nextHash: map<nat, int>, chains: seq<seq<nat>>, i: nat,
                    newList: seq<int>, newChains: seq<seq<nat>>)
    requires i < |list| && HalfMoved(info, list, nextHash, chains, i, [], newList, newChains)
    ensures HalfMoved(info, list, nextHash, chains, i + 1, chains[i], newList, newChains)
    ensures Chain(nextHash, list[i], chains[i])
  {
    assert BucketOk(info, list, nextHash, chains[i], i);
  }

  /** The pushed handle leads the chain of its new bucket. */
  lemma PushFront(info: seq<Info>, newList: seq<int>, nextHash: map<nat, int>, newChains: seq<seq<nat>>, h: nat, b: nat)
    requires TableOk(info, newList, nextHash, newChains) && h < |info| && !Holds(info, newChains, h)
    requires b == info[h].hash % |newList|
    requires forall g: nat :: Holds(info, newChains, g) ==> info[g] != info[h]
    ensures TableOk(info, newList[b := h], nextHash[h := newList[b]], newChains[b := [h] + newChains[b]])
    ensures forall g :: Holds(info, newChains[b := [h] + newChains[b]], g) <==> g == h || Holds(info, newChains, g)
  {
    var c, nh' := newChains[b], nextHash[h := newList[b]];
    assert BucketOk(info, newList, nextHash, c, b);
    ChainUntouched(nextHash, newList[b], c, nh');
    assert ([h] + c)[1..] == c;
    JoinApart([h], c);
    forall g | g in c ensures info[g] != info[h] {
      assert Holds(info, newChains, g);
    }
    assert BucketOk(info, newList[b := h], nh', [h] + c, b);
    ReplaceBucket(info, newList, nextHash, newChains, b, h, nh', [h] + c);
  }

  lemma MoveOne(info: seq<Info>, list: seq<int>, nextHash: map<nat, int>, chains: seq<seq<nat>>, i: nat, rest: seq<nat>,
                newList: seq<int>, newChains: seq<seq<nat>>, h: nat, b: nat)
    requires i < |list| && rest != [] && h == rest[0] && |newList| > 0
    requires HalfMoved(info, list, nextHash, chains, i + 1, rest, newList, newChains)
    requires Chain(nextHash, h, rest) && h < |info| && b == info[h].hash % |newList|
    ensures h in nextHash && Chain(nextHash[h := newList[b]], nextHash[h], rest[1..])
    ensures HalfMoved(info, list, nextHash[h := newList[b]], chains, i + 1, rest[1..],
                      newList[b := h], newChains[b := [h] + newChains[b]])
  {
    assert h in rest;
    PushFront(info, newList, nextHash, newChains, h, b);
    ChainUntouched(nextHash, nextHash[h], rest[1..], nextHash[h := newList[b]]);
    LaterBuckets(info, list, nextHash, chains, i, h, newList[b]);
    OneLessWaiting(info, |list|, chains, i + 1, rest, newChains, h, newChains[b := [h] + newChains[b]]);
  }

  lemma LaterBuckets(info: seq<Info>, list: seq<int>, nextHash: map<nat, int>, chains: seq<seq<nat>>, i: nat, h: nat, v: int)
    requires i < |list| && BucketsFrom(info, list, nextHash, chains, i + 1) && h < |info| && info[h].hash % |list| == i
    ensures BucketsFrom(info, list, nextHash[h := v], chains, i + 1)
  {
    forall a | i + 1 <= a < |list| ensures BucketOk(info, list, nextHash[h := v], chains[a], a) {
      assert BucketOk(info, list, nextHash, chains[a], a);
      ChainUntouched(nextHash, list[a], chains[a], nextHash[h := v]);
    }
  }

  lemma OneLessWaiting(info: seq<Info>, length: nat, chains: seq<seq<nat>>, i: nat, rest: seq<nat>,
                       newChains: seq<seq<nat>>, h: nat, newChains': seq<seq<nat>>)
    requires length > 0 && i > 0 && rest != [] && h == rest[0]
    requires Waiting(info, length, chains, i, rest, newChains) && Conserved(info, length, chains, i, rest, newChains)
    requires forall g: nat :: Holds(info, newChains', g) <==> g == h || Holds(info, newChains, g)
    ensures Waiting(info, length, chains, i, rest[1..], newChains') && Conserved(info, length, chains, i, rest[1..], newChains')
  {
    assert h in rest;
    forall g | g in rest ensures g == h || g in rest[1..] {
      var k :| 0 <= k < |rest| && rest[k] == g;
      assert k > 0 ==> rest[1..][k - 1] == g;
    }
    forall g | g in rest[1..] ensures g in rest && g != h {
      var k :| 0 <= k < |rest[1..]| && rest[1..][k] == g;
      assert rest[k + 1] == g;
    }
  }

  /** The chain from `h` on, once it points where the matching handle did. */
  lemma LinkTail(info: seq<Info>, list: seq<int>, nextHash: map<nat, int>, c: seq<nat>, b: nat, k: nat, h: nat,
                 nextHash': map<nat, int>) returns (tail: seq<nat>)
    requires b < |list| && BucketOk(info, list, nextHash, c, b) && k <= |c| && h < |info| && h !in c
    requires forall i :: 0 <= i < k ==> !Matches(info, c[i], info[h].key, info[h].hash)
    requires k < |c| ==> Matches(info, c[k], info[h].key, info[h].hash) && c[k] in nextHash
    requires nextHash' == nextHash[h := if k < |c| then nextHash[c[k]] else NIL] && info[h].hash % |list| == b
    ensures tail == [h] + if k < |c| then c[k + 1..] else []
    ensures BucketOk(info, list, nextHash', c, b) && Tail(info, nextHash', c, k, h, tail)
    ensures forall g :: g in tail ==> info[g].hash % |list| == b
  {
    var rest := if k < |c| then c[k + 1..] else [];
    tail := [h] + rest;
    ChainUntouched(nextHash, list[b], c, nextHash');
    if k < |c| {
      ChainAt(nextHash', list[b], c, k);
    }
    assert tail[1..] == rest;
    RestMembers(c, k);
    forall g | g in rest ensures g in c && g != h && info[g] != info[h] {
      assert g != c[k];
    }
    JoinApart([h], rest);
  }

  lemma RestMembers(c: seq<nat>, k: nat)
    requires NoRepeats(c) && k <= |c|
    ensures forall g :: g in c[..k] ==> g in c && (k < |c| ==> g != c[k])
    ensures k < |c| ==> NoRepeats(c[k + 1..]) && forall g :: g in c[k + 1..] ==> g in c && g != c[k] && g !in c[..k]
    ensures forall g :: g in c ==> g in c[..k] || (k < |c| && (g == c[k] || g in c[k + 1..]))
  {
    forall g | g in c ensures g in c[..k] || (k < |c| && (g == c[k] || g in c[k + 1..])) {
      var i :| 0 <= i < |c| && c[i] == g;
      assert i < k ==> c[..k][i] == g;
      assert k < i ==> c[k + 1..][i - k - 1] == g;
    }
  }

  lemma TailMembers(c: seq<nat>, k: nat, tail: seq<nat>)
    requires NoRepeats(c) && k <= |c|
    ensures forall g :: g in c[..k] + tail <==> g in c[..k] || g in tail
    ensures forall g :: g in c ==> g in c[..k] || (k < |c| && (g == c[k] || g in c[k + 1..]))
    ensures forall g :: g in c[..k] ==> g in c && (k < |c| ==> g != c[k])
    ensures k < |c| ==> forall g :: g in c[k + 1..] ==> g in c && g != c[k]
  {
    RestMembers(c, k);
  }
}
