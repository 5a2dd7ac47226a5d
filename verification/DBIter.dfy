/** The user-visible iterator: one entry per live user key at a snapshot, in either direction
    (db/db_iter.cc), driving a MergingIterator. */
module DBIter {
  import opened Keys
  import opened Reads
  import opened Cursors

  // ---------- The positions a user can stand on ----------

  predicate Seen(all: seq<Entry>, s: nat, i: int)
    requires 0 <= i < |all|
  {
    all[i].key.sn <= s
  }

  /** Entry `i` is the newest visible entry of its user key, and it is a value. */
  predicate IsLive(all: seq<Entry>, s: nat, i: int)
    requires 0 <= i < |all|
  {
    && Seen(all, s, i) && all[i].key.kind.Value?
    && forall j :: 0 <= j < i && all[j].key.user == all[i].key.user ==> !Seen(all, s, j)
  }

  /** The first live position at or after `from`, or |all|. */
  function NextLive(all: seq<Entry>, s: nat, from: nat): (r: nat)
    requires from <= |all|
    ensures from <= r <= |all|
    ensures r < |all| ==> IsLive(all, s, r)
    ensures forall i :: from <= i < r ==> !IsLive(all, s, i)
    decreases |all| - from
  {
    if from == |all| || IsLive(all, s, from) then from else NextLive(all, s, from + 1)
  }

  /** The last live position at or before `upTo`, or -1. */
  function PrevLive(all: seq<Entry>, s: nat, upTo: int): (r: int)
    requires -1 <= upTo < |all|
    ensures -1 <= r <= upTo
    ensures r >= 0 ==> IsLive(all, s, r)
    ensures forall i :: r < i <= upTo ==> !IsLive(all, s, i)
    decreases upTo
  {
    if upTo == -1 || IsLive(all, s, upTo) then upTo else PrevLive(all, s, upTo - 1)
  }

  /** The live positions are exactly the keys a read at the snapshot finds, with their values. */
  lemma LiveIsReadable(all: seq<Entry>, s: nat, u: UserKey, v: Bytes)
    requires Sorted(all) && Distinct(EntrySet(all))
    ensures Read(EntrySet(all), u, s) == Found(v) <==>
            exists i :: 0 <= i < |all| && IsLive(all, s, i) && all[i].key.user == u && all[i].value == v
  {
    var E := EntrySet(all);
    if Read(E, u, s) == Found(v) {
      var e :| Hit(E, u, s, e) && e.key.kind.Value?;
      ReadAtHit(E, u, s, e);
      var i :| 0 <= i < |all| && all[i] == e;
      HitIsFirstSeen(all, s, i);
      assert IsLive(all, s, i);
    }
    if i :| 0 <= i < |all| && IsLive(all, s, i) && all[i].key.user == u && all[i].value == v {
      FirstSeenIsHit(all, s, i);
      ReadAtHit(E, u, s, all[i]);
    }
  }

  lemma HitIsFirstSeen(all: seq<Entry>, s: nat, i: nat)
    requires Sorted(all) && Distinct(EntrySet(all)) && i < |all|
    requires Hit(EntrySet(all), all[i].key.user, s, all[i])
    ensures forall j :: 0 <= j < i && all[j].key.user == all[i].key.user ==> !Seen(all, s, j)
  {
    forall j | 0 <= j < i && all[j].key.user == all[i].key.user ensures !Seen(all, s, j) {
      assert all[j] in EntrySet(all) && all[i] in EntrySet(all);
      assert Less(all[j].key, all[i].key);
    }
  }

  lemma FirstSeenIsHit(all: seq<Entry>, s: nat, i: nat)
    requires Sorted(all) && i < |all| && IsLive(all, s, i)
    ensures Hit(EntrySet(all), all[i].key.user, s, all[i])
  {
    forall f | f in EntrySet(all) && Visible(f, all[i].key.user, s) ensures f.key.sn <= all[i].key.sn {
      var j :| 0 <= j < |all| && all[j] == f;
      assert j > i ==> Less(all[i].key, all[j].key);
    }
  }

  /** Live positions come in strictly increasing user-key order. */
  lemma LiveKeysAscend(all: seq<Entry>, s: nat, i: nat, j: nat)
    requires Sorted(all) && i < j < |all| && IsLive(all, s, i) && IsLive(all, s, j)
    ensures all[i].key.user < all[j].key.user
  {
    assert Less(all[i].key, all[j].key);
  }

  /** A step back undoes a step forward, and the other way round. */
  lemma PrevUndoesNext(all: seq<Entry>, s: nat, at: nat)
    requires at < |all| && IsLive(all, s, at)
    ensures NextLive(all, s, at + 1) < |all| ==> PrevLive(all, s, NextLive(all, s, at + 1) - 1) == at
    ensures PrevLive(all, s, at - 1) >= 0 ==> NextLive(all, s, PrevLive(all, s, at - 1) + 1) == at
  {
    var next := NextLive(all, s, at + 1);
    PrevLiveIs(all, s, next - 1, at);
    NextUndoesPrev(all, s, at);
  }

  lemma NextUndoesPrev(all: seq<Entry>, s: nat, at: nat)
    requires at < |all| && IsLive(all, s, at)
    ensures PrevLive(all, s, at - 1) >= 0 ==> NextLive(all, s, PrevLive(all, s, at - 1) + 1) == at
  {
    var prev := PrevLive(all, s, at - 1);
    if prev >= 0 {
      NextLiveIs(all, s, prev + 1, at);
    }
  }

  // ---------- The scans ----------

  /** FindNextUserEntry at position `p`, looking past position `base`: an entry from here on is
      hidden exactly when its key is at or below `skip`. */
  ghost predicate SkipState(all: seq<Entry>, s: nat, p: nat, base: int, skipping: bool, skip: Option<UserKey>) {
    && p <= |all| && -1 <= base < |all| && (skipping ==> skip.Some?)
    && (forall i, j :: 0 <= j < p <= i < |all| && all[j].key.user == all[i].key.user && Seen(all, s, j) ==>
          skipping && all[i].key.user <= skip.value)
    && (skipping ==> forall i :: p <= i < |all| && Seen(all, s, i) ==>
          skip.value <= all[i].key.user && (all[i].key.user <= skip.value && i > base ==> !IsLive(all, s, i)))
    && (p <= base ==> skipping && all[base].key.user <= skip.value && forall i :: p <= i < base ==> !Seen(all, s, i))
  }

  lemma SkipPastUnseen(all: seq<Entry>, s: nat, p: nat, base: int, skipping: bool, skip: Option<UserKey>)
    requires Sorted(all) && SkipState(all, s, p, base, skipping, skip) && p < |all| && !Seen(all, s, p)
    ensures SkipState(all, s, p + 1, base, skipping, skip) && !IsLive(all, s, p)
  {
  }

  lemma SkipPastMarker(all: seq<Entry>, s: nat, p: nat, base: int, skipping: bool, skip: Option<UserKey>)
    requires Sorted(all) && SkipState(all, s, p, base, skipping, skip) && p < |all| && Seen(all, s, p)
    requires all[p].key.kind.Deletion?
    ensures SkipState(all, s, p + 1, base, true, Some(all[p].key.user)) && !IsLive(all, s, p)
  {
    forall i | p < i < |all| ensures all[p].key.user <= all[i].key.user {
      assert Less(all[p].key, all[i].key);
    }
  }

  lemma SkipPastHidden(all: seq<Entry>, s: nat, p: nat, base: int, skip: UserKey)
    requires Sorted(all) && SkipState(all, s, p, base, true, Some(skip)) && p < |all| && Seen(all, s, p)
    requires all[p].key.user <= skip
    ensures SkipState(all, s, p + 1, base, true, Some(skip)) && (p > base ==> !IsLive(all, s, p))
  {
  }

  lemma NotHiddenIsLive(all: seq<Entry>, s: nat, p: nat, base: int, skipping: bool, skip: Option<UserKey>)
    requires SkipState(all, s, p, base, skipping, skip) && p < |all| && Seen(all, s, p)
    requires all[p].key.kind.Value? && !(skipping && all[p].key.user <= skip.value)
    ensures IsLive(all, s, p) && p > base
  {
  }

  /** FindPrevUserEntry, having scanned (p, top]: `candidate` is the newest seen entry of its key
      in that stretch and no live entry lies above it; -1 when the last key seen was deleted. */
  ghost predicate ScanState(all: seq<Entry>, s: nat, p: int, top: int, candidate: int) {
    && -1 <= p <= top < |all|
    && (candidate == -1 || p < candidate <= top)
    && (forall i :: candidate < i <= top && p < i ==> !IsLive(all, s, i))
    && (candidate >= 0 ==>
          && Seen(all, s, candidate) && all[candidate].key.kind.Value?
          && forall i :: p < i < candidate ==> !Seen(all, s, i))
  }

  lemma ScanPastUnseen(all: seq<Entry>, s: nat, p: int, top: int, candidate: int)
    requires ScanState(all, s, p, top, candidate) && p >= 0 && !Seen(all, s, p)
    ensures ScanState(all, s, p - 1, top, candidate)
  {
  }

  /** A seen entry of the candidate's key, or any seen entry when there is no candidate, takes
      over: it hides what was seen of its key so far. */
  lemma ScanTakesOver(all: seq<Entry>, s: nat, p: int, top: int, candidate: int)
    requires Sorted(all) && ScanState(all, s, p, top, candidate) && p >= 0 && Seen(all, s, p)
    requires candidate >= 0 ==> all[p].key.user == all[candidate].key.user
    ensures ScanState(all, s, p - 1, top, if all[p].key.kind.Value? then p else -1)
  {
    if candidate >= 0 {
      forall i | p < i <= candidate ensures !IsLive(all, s, i) {
        assert AtMost(all[i].key, all[candidate].key) && Less(all[p].key, all[i].key);
      }
    }
  }

  lemma ScanEnds(all: seq<Entry>, s: nat, p: int, top: int, candidate: int)
    requires Sorted(all) && ScanState(all, s, p, top, candidate)
    requires candidate >= 0 ==> p == -1 || all[p].key.user < all[candidate].key.user
    requires candidate == -1 ==> p == -1
    ensures candidate == PrevLive(all, s, top)
  {
    if candidate >= 0 {
      forall j | 0 <= j <= p ensures all[j].key.user < all[candidate].key.user {
        assert j < p ==> Less(all[j].key, all[p].key);
      }
      assert IsLive(all, s, candidate);
    }
  }

  lemma NextLiveIs(all: seq<Entry>, s: nat, from: nat, p: nat)
    requires from <= p <= |all| && (p < |all| ==> IsLive(all, s, p))
    requires forall i :: from <= i < p ==> !IsLive(all, s, i)
    ensures NextLive(all, s, from) == p
  {
  }

  // ---------- The iterator ----------

  /** Moving backward, the inner cursor is before the current key with only unseen entries in
      between. */
  ghost predicate Behind(all: seq<Entry>, s: nat, p: int, at: int) {
    && -1 <= p < at < |all|
    && (forall i :: p < i < at ==> !Seen(all, s, i))
    && (p >= 0 ==> all[p].key.user < all[at].key.user)
  }

  lemma BehindSkips(all: seq<Entry>, s: nat, p: int, at: int)
    requires Sorted(all) && Behind(all, s, p, at) && IsLive(all, s, at)
    ensures SkipState(all, s, p + 1, at, true, Some(all[at].key.user))
  {
    forall i, j | 0 <= j < p + 1 <= i < |all| && all[j].key.user == all[i].key.user && Seen(all, s, j)
      ensures all[i].key.user <= all[at].key.user
    {
      assert p >= 0 && (j < p ==> Less(all[j].key, all[p].key));
    }
    forall i | p + 1 <= i < |all| && Seen(all, s, i)
      ensures all[at].key.user <= all[i].key.user
      ensures all[i].key.user <= all[at].key.user && i > at ==> !IsLive(all, s, i)
    {
      assert i > at ==> Less(all[at].key, all[i].key);
    }
  }

  /** Standing on a live entry, going forward hides the rest of its key. */
  lemma OnLiveSkips(all: seq<Entry>, s: nat, at: nat)
    requires Sorted(all) && at < |all| && IsLive(all, s, at)
    ensures SkipState(all, s, at, at, true, Some(all[at].key.user))
  {
    forall i | at < i < |all| ensures all[at].key.user <= all[i].key.user {
      assert Less(all[at].key, all[i].key);
    }
  }

  /** Where Seek lands, nothing before can hide anything. */
  lemma SeekSkips(all: seq<Entry>, s: nat, u: UserKey)
    requires Sorted(all)
    ensures var p := SeekIndex(all, LookupKey(u, s));
            SkipState(all, s, p, p - 1, false, None)
    ensures forall i :: 0 <= i < |all| && IsLive(all, s, i) ==>
              (i < SeekIndex(all, LookupKey(u, s)) <==> all[i].key.user < u)
  {
    var p := SeekIndex(all, LookupKey(u, s));
    forall i | p <= i < |all| ensures AtMost(LookupKey(u, s), all[i].key) {
      assert p < i ==> Less(all[p].key, all[i].key);
    }
  }

  class DBIterator {
    const iter: MergingIterator
    const sequence: nat
    var savedKey: Option<UserKey>
    var savedValue: Bytes
    var direction: Direction
    var valid: bool
    /** The live position the iterator stands on while it is valid. */
    ghost var at: int

    ghost predicate Ok()
      reads this, iter, iter.children
    {
      && iter.Ok()
      && (valid ==> 0 <= at < |iter.all| && IsLive(iter.all, sequence, at))
      && (valid && direction == Forward ==> iter.pos == at)
      && (valid && direction == Reverse ==>
            && savedKey == Some(iter.all[at].key.user) && savedValue == iter.all[at].value
            && Behind(iter.all, sequence, iter.pos, at))
    }

    constructor (iter: MergingIterator, sequence: nat)
      requires iter.Ok()
      ensures Ok() && !valid && this.iter == iter && this.sequence == sequence
    {
      this.iter, this.sequence := iter, sequence;
      savedKey, savedValue := None, [];
      direction, valid := Forward, false;
      at := -1;
    }

    function Key(): UserKey
      requires Ok() && valid
      reads this, iter, iter.children
      ensures Key() == iter.all[at].key.user
    {
      if direction == Forward then iter.Current().key.user else savedKey.value
    }

    function Value(): Bytes
      requires Ok() && valid
      reads this, iter, iter.children
      ensures Value() == iter.all[at].value
    {
      if direction == Forward then iter.Current().value else savedValue
    }

    /** FindNextUserEntry has come to position `p` and found nothing live past `base`. */
    ghost predicate Searching(p: int, base: int, skipping: bool)
      reads this`savedKey
    {
      && 0 <= p && SkipState(iter.all, sequence, p, base, skipping, savedKey)
      && forall i :: base < i < p ==> !IsLive(iter.all, sequence, i)
    }

    /** One round of FindNextUserEntry: look at the inner cursor's entry.  `savedKey` doubles as
        the key to skip. */
    method VisitForward(skipping: bool, ghost base: int) returns (found: bool, skipping': bool)
      requires iter.Ok() && iter.Valid() && Searching(iter.pos, base, skipping)
      modifies this`savedKey
      ensures found ==> iter.pos == NextLive(iter.all, sequence, base + 1)
      ensures !found ==> Searching(iter.pos + 1, base, skipping')
    {
      var ikey := iter.Current().key;
      found, skipping' := false, skipping;
      if ikey.sn <= sequence {
        match ikey.kind
        case Deletion =>
          SkipPastMarker(iter.all, sequence, iter.pos, base, skipping, savedKey);
          savedKey := Some(ikey.user);
          skipping' := true;
        case Value =>
          if skipping && ikey.user <= savedKey.value {
            SkipPastHidden(iter.all, sequence, iter.pos, base, savedKey.value);
          } else {
            NotHiddenIsLive(iter.all, sequence, iter.pos, base, skipping, savedKey);
            NextLiveIs(iter.all, sequence, base + 1, iter.pos);
            savedKey := None;
            found := true;
          }
      } else {
        SkipPastUnseen(iter.all, sequence, iter.pos, base, skipping, savedKey);
      }
    }

    /** FindNextUserEntry. */
    method FindNextUserEntry(skipping0: bool, ghost base: int)
      requires iter.Ok() && iter.Valid() && direction == Forward
      requires Searching(iter.pos, base, skipping0)
      modifies this, iter, iter.children
      ensures Ok() && direction == Forward
      ensures at == NextLive(iter.all, sequence, base + 1) && valid == (at < |iter.all|)
    {
      var skipping := skipping0;
      while iter.Valid()
        invariant iter.Ok() && direction == Forward && Searching(iter.pos, base, skipping)
        decreases |iter.all| - iter.pos
      {
        var found;
        found, skipping := VisitForward(skipping, base);
        if found {
          valid := true;
          at := iter.pos;
          return;
        }
        Advance(base, skipping);
      }
      NextLiveIs(iter.all, sequence, base + 1, |iter.all|);
      savedKey := None;
      valid := false;
      at := |iter.all|;
    }

    method Advance(ghost base: int, ghost skipping: bool)
      requires iter.Ok() && iter.Valid() && Searching(iter.pos + 1, base, skipping)
      modifies iter, iter.children
      ensures iter.Ok() && iter.pos == old(iter.pos) + 1 && Searching(iter.pos, base, skipping)
    {
      iter.Next();
    }

    method Next()
      requires Ok() && valid
      modifies this, iter, iter.children
      ensures Ok() && direction == Forward
      ensures at == NextLive(iter.all, sequence, old(at) + 1) && valid == (at < |iter.all|)
    {
      if direction == Reverse {
        TurnForward();
      } else {
        OnLiveSkips(iter.all, sequence, at);
        savedKey := Some(iter.Current().key.user);
      }
      FindNextUserEntry(true, at);
    }

    /** The first part of Next, after moving backward: the inner cursor steps onto the entries of the
        current key, or unseen ones before them. */
    method TurnForward()
      requires Ok() && valid && direction == Reverse
      modifies this`direction, iter, iter.children
      ensures iter.Ok() && iter.Valid() && direction == Forward && Searching(iter.pos, at, true)
    {
      direction := Forward;
      BehindSkips(iter.all, sequence, iter.pos, at);
      if !iter.Valid() {
        iter.SeekToFirst();
      } else {
        iter.Next();
      }
    }

    /** `candidate` is what the backward scan has saved so far. */
    ghost predicate Saved(valueType: Kind, candidate: int)
      reads this
    {
      && (valueType.Value? <==> candidate >= 0) && candidate < |iter.all|
      && (candidate >= 0 ==>
            savedKey == Some(iter.all[candidate].key.user) && savedValue == iter.all[candidate].value)
    }

    /** One round of FindPrevUserEntry: stop at a smaller key once a value is saved. */
    method VisitBackward(valueType: Kind, ghost top: int, ghost candidate: int)
      returns (stop: bool, valueType': Kind, ghost candidate': int)
      requires iter.Ok() && iter.Valid()
      requires ScanState(iter.all, sequence, iter.pos, top, candidate) && Saved(valueType, candidate)
      modifies this`savedKey, this`savedValue
      ensures Saved(valueType', candidate')
      ensures stop ==> candidate' == candidate >= 0 && iter.all[iter.pos].key.user < iter.all[candidate].key.user
      ensures !stop ==> ScanState(iter.all, sequence, iter.pos - 1, top, candidate')
    {
      var e := iter.Current();
      stop, valueType', candidate' := false, valueType, candidate;
      assert candidate >= 0 ==> Less(e.key, iter.all[candidate].key);
      if e.key.sn <= sequence {
        if !valueType.Deletion? && e.key.user < savedKey.value {
          stop := true;
          return;
        }
        ScanTakesOver(iter.all, sequence, iter.pos, top, candidate);
        valueType' := e.key.kind;
        if valueType'.Deletion? {
          savedKey, savedValue := None, [];
          candidate' := -1;
        } else {
          savedKey, savedValue := Some(e.key.user), e.value;
          candidate' := iter.pos;
        }
      } else {
        ScanPastUnseen(iter.all, sequence, iter.pos, top, candidate);
      }
    }

    method Retreat(ghost top: int, ghost candidate: int)
      requires iter.Ok() && iter.Valid() && ScanState(iter.all, sequence, iter.pos - 1, top, candidate)
      modifies iter, iter.children
      ensures iter.Ok() && iter.pos == old(iter.pos) - 1 && ScanState(iter.all, sequence, iter.pos, top, candidate)
    {
      iter.Prev();
    }

    /** FindPrevUserEntry. */
    method FindPrevUserEntry()
      requires iter.Ok() && direction == Reverse && iter.pos < |iter.all|
      modifies this, iter, iter.children
      ensures Ok() && at == PrevLive(iter.all, sequence, old(iter.pos)) && valid == (at >= 0)
    {
      ghost var top := iter.pos;
      ghost var candidate := -1;
      var valueType := Deletion;
      while iter.Valid()
        invariant iter.Ok() && direction == Reverse && iter.pos <= top
        invariant ScanState(iter.all, sequence, iter.pos, top, candidate) && Saved(valueType, candidate)
        decreases iter.pos
      {
        var stop;
        stop, valueType, candidate := VisitBackward(valueType, top, candidate);
        if stop { break; }
        Retreat(top, candidate);
      }
      ScanEnds(iter.all, sequence, iter.pos, top, candidate);
      at := candidate;
      valid := !valueType.Deletion?;
      if !valid {
        savedKey, savedValue := None, [];
        direction := Forward;
      }
    }

    /** The first half of a turn from forward to backward: step back until the key changes. */
    method LeaveCurrentKey() returns (stopped: bool)
      requires Ok() && valid && direction == Forward
      modifies this`savedKey, iter, iter.children
      ensures iter.Ok() && -1 <= iter.pos < at && stopped == iter.Valid()
      ensures forall i :: iter.pos < i < at ==> !Seen(iter.all, sequence, i)
    {
      savedKey := Some(iter.Current().key.user);
      while true
        invariant iter.Ok() && iter.Valid() && 0 <= iter.pos <= at < |iter.all|
        invariant savedKey == Some(iter.all[at].key.user)
        invariant forall i :: iter.pos <= i < at ==> iter.all[i].key.user >= iter.all[at].key.user
        decreases iter.pos
      {
        iter.Prev();
        if !iter.Valid() || iter.Current().key.user < savedKey.value {
          StretchHasNoLive(iter.all, sequence, iter.pos, at);
          return iter.Valid();
        }
      }
    }

    method Prev()
      requires Ok() && valid
      modifies this, iter, iter.children
      ensures Ok() && at == PrevLive(iter.all, sequence, old(at) - 1) && valid == (at >= 0)
    {
      if direction == Forward {
        var stopped := LeaveCurrentKey();
        PrevLiveSkips(iter.all, sequence, iter.pos, at - 1);
        if !stopped {
          valid := false;
          savedKey, savedValue := None, [];
          at := -1;
          return;
        }
        direction := Reverse;
      } else {
        PrevLiveSkips(iter.all, sequence, iter.pos, at - 1);
      }
      FindPrevUserEntry();
    }

    method Seek(target: UserKey)
      requires Ok()
      modifies this, iter, iter.children
      ensures Ok() && direction == Forward
      ensures at == NextLive(iter.all, sequence, SeekIndex(iter.all, LookupKey(target, sequence)))
      ensures valid == (at < |iter.all|)
    {
      direction := Forward;
      savedKey, savedValue := None, [];
      iter.Seek(LookupKey(target, sequence));
      SeekSkips(iter.all, sequence, target);
      if iter.Valid() {
        FindNextUserEntry(false, iter.pos - 1);
      } else {
        valid := false;
        at := |iter.all|;
      }
    }

    method SeekToFirst()
      requires Ok()
      modifies this, iter, iter.children
      ensures Ok() && direction == Forward
      ensures at == NextLive(iter.all, sequence, 0) && valid == (at < |iter.all|)
    {
      direction := Forward;
      savedValue := [];
      iter.SeekToFirst();
      if iter.Valid() {
        FindNextUserEntry(false, -1);
      } else {
        valid := false;
        at := |iter.all|;
      }
    }

    method SeekToLast()
      requires Ok()
      modifies this, iter, iter.children
      ensures Ok() && at == PrevLive(iter.all, sequence, |iter.all| - 1) && valid == (at >= 0)
    {
      direction := Reverse;
      savedValue := [];
      iter.SeekToLast();
      FindPrevUserEntry();
    }
  }

  /** Between the last entry of a smaller key and a live entry there is nothing seen. */
  lemma StretchHasNoLive(all: seq<Entry>, s: nat, p: int, at: int)
    requires Sorted(all) && -1 <= p < at < |all| && IsLive(all, s, at)
    requires forall i :: p < i < at ==> all[i].key.user >= all[at].key.user
    ensures forall i :: p < i < at ==> !Seen(all, s, i)
  {
    forall i | p < i < at ensures !Seen(all, s, i) {
      assert Less(all[i].key, all[at].key);
    }
  }

  lemma PrevLiveIs(all: seq<Entry>, s: nat, upTo: int, r: int)
    requires -1 <= r <= upTo < |all| && (r >= 0 ==> IsLive(all, s, r))
    requires forall i :: r < i <= upTo ==> !IsLive(all, s, i)
    ensures PrevLive(all, s, upTo) == r
  {
  }

  lemma PrevLiveSkips(all: seq<Entry>, s: nat, p: int, upTo: int)
    requires -1 <= p <= upTo < |all| && forall i :: p < i <= upTo ==> !Seen(all, s, i)
    ensures PrevLive(all, s, upTo) == PrevLive(all, s, p)
  {
    PrevLiveIs(all, s, upTo, PrevLive(all, s, p));
  }
}
