/** The drop rule of a compaction and what it preserves (db/db_impl.cc, DoCompactionWork). */
module DropRule {
  import opened Keys
  import opened Reads
  import opened Versions

  // ---------- The rule, as the loop applies it to the merged input ----------

  /** No file deeper than `level + 1` has `u` in its range. */
  predicate BaseLevel(v: Version, level: nat, u: UserKey) {
    forall l :: level + 2 <= l < |v.files| ==> forall i :: 0 <= i < |v.files[l]| ==>
      !(v.files[l][i].smallest.user <= u <= v.files[l][i].largest.user)
  }

  /** Rule (A): the entry before this one is for the same key and already old enough for every
      live snapshot. */
  predicate Hidden(es: seq<Entry>, i: nat, m: nat)
    requires i < |es|
  {
    i > 0 && es[i - 1].key.user == es[i].key.user && es[i - 1].key.sn <= m
  }

  predicate Dropped(es: seq<Entry>, i: nat, m: nat, v: Version, level: nat)
    requires i < |es|
  {
    || Hidden(es, i, m)
    || (es[i].key.kind.Deletion? && es[i].key.sn <= m && BaseLevel(v, level, es[i].key.user))
  }

  /** The entries among the first `n` that the loop writes out. */
  function Kept(es: seq<Entry>, n: nat, m: nat, v: Version, level: nat): seq<Entry>
    requires n <= |es|
  {
    if n == 0 then []
    else Kept(es, n - 1, m, v, level) + if Dropped(es, n - 1, m, v, level) then [] else [es[n - 1]]
  }

  lemma {:induction false} KeptMembers(es: seq<Entry>, n: nat, m: nat, v: Version, level: nat)
    requires n <= |es|
    ensures forall e :: e in Kept(es, n, m, v, level) <==>
      exists i :: 0 <= i < n && es[i] == e && !Dropped(es, i, m, v, level)
  {
    if n > 0 {
      KeptMembers(es, n - 1, m, v, level);
    }
  }

  lemma {:induction false} KeptIsSorted(es: seq<Entry>, n: nat, m: nat, v: Version, level: nat)
    requires n <= |es| && Sorted(es)
    ensures Sorted(Kept(es, n, m, v, level))
    ensures forall e :: e in Kept(es, n, m, v, level) ==> e in es[..n]
  {
    if n > 0 {
      KeptIsSorted(es, n - 1, m, v, level);
      assert es[..n] == es[..n - 1] + [es[n - 1]];
      var k := Kept(es, n - 1, m, v, level);
      forall i | 0 <= i < |k| ensures Less(k[i].key, es[n - 1].key) {
        assert k[i] in es[..n - 1];
      }
    }
  }

  // ---------- The same rule on sets ----------

  /** An entry survives when it is too new for the oldest snapshot, or is the newest of its key
      at that snapshot and not a marker with nothing below it. */
  ghost predicate Survives(I: set<Entry>, e: Entry, m: nat, base: bool) {
    && e in I
    && (e.key.sn > m || (Hit(I, e.key.user, m, e) && !(e.key.kind.Deletion? && base)))
  }

  lemma NewestAtSnapshotIsNotHidden(es: seq<Entry>, i: nat, m: nat)
    requires Sorted(es) && Distinct(EntrySet(es)) && i < |es| && es[i].key.sn <= m
    ensures Hidden(es, i, m) <==> !Hit(EntrySet(es), es[i].key.user, m, es[i])
  {
    var e := es[i];
    assert e in EntrySet(es);
    if Hidden(es, i, m) {
      assert es[i - 1] in EntrySet(es) && es[i] in EntrySet(es);
      assert Less(es[i - 1].key, e.key);
    } else {
      forall f | f in EntrySet(es) && Visible(f, e.key.user, m) ensures f.key.sn <= e.key.sn {
        var j :| 0 <= j < |es| && es[j] == f;
      }
    }
  }

  /** The positional rule of the loop and the rule on sets keep the same entries. */
  lemma KeptAreSurvivors(es: seq<Entry>, m: nat, v: Version, level: nat)
    requires Sorted(es) && Distinct(EntrySet(es))
    ensures forall e :: e in Kept(es, |es|, m, v, level) <==>
      Survives(EntrySet(es), e, m, BaseLevel(v, level, e.key.user))
  {
    KeptMembers(es, |es|, m, v, level);
    forall i | 0 <= i < |es|
      ensures !Dropped(es, i, m, v, level) <==>
              Survives(EntrySet(es), es[i], m, BaseLevel(v, level, es[i].key.user))
    {
      assert es[i] in EntrySet(es);
      if es[i].key.sn <= m {
        NewestAtSnapshotIsNotHidden(es, i, m);
      } else if i > 0 {
        assert Less(es[i - 1].key, es[i].key);
      }
    }
  }

  // ---------- What the rule preserves ----------

  ghost function Survivors(I: set<Entry>, m: nat, base: UserKey -> bool): set<Entry> {
    set e | e in I && Survives(I, e, m, base(e.key.user))
  }

  /** `h` is a deletion marker the compaction drops, and it decides reads at snapshot `m`. */
  ghost predicate DropsDecidingMarker(K: set<Entry>, I: set<Entry>, m: nat, base: UserKey -> bool, h: Entry) {
    && Hit(I, h.key.user, m, h) && h.key.kind.Deletion? && base(h.key.user)
    && forall k :: k in K && Visible(k, h.key.user, m) ==> k.key.sn < h.key.sn
  }

  /** No dropped marker covers a stored value that the compaction leaves in place. */
  ghost predicate NoValueUncovered(K: set<Entry>, I: set<Entry>, m: nat, base: UserKey -> bool) {
    forall h, k :: DropsDecidingMarker(K, I, m, base, h) && Hit(K, h.key.user, m, k) ==> k.key.kind.Deletion?
  }

  lemma ReadAfterDrop(K: set<Entry>, I: set<Entry>, m: nat, base: UserKey -> bool, u: UserKey, s: nat)
    requires Distinct(K + I) && NoValueUncovered(K, I, m, base) && s >= m
    ensures Read(K + Survivors(I, m, base), u, s) == Read(K + I, u, s)
  {
    var E, E' := K + I, K + Survivors(I, m, base);
    assert E' <= E;
    if SomeVisible(E, u, s) {
      var seed :| seed in E && Visible(seed, u, s);
      var h := HitExists(E, u, s, seed);
      ReadAtHit(E, u, s, h);
      if h in E' {
        assert Hit(E', u, s, h);
        ReadAtHit(E', u, s, h);
      } else {
        assert Hit(I, u, m, h);
        ReadBelowDroppedMarker(K, I, m, base, u, s, h);
      }
    } else {
      ReadWithoutHit(E, u, s);
      ReadWithoutHit(E', u, s);
    }
  }

  lemma ReadBelowDroppedMarker(K: set<Entry>, I: set<Entry>, m: nat, base: UserKey -> bool, u: UserKey, s: nat, h: Entry)
    requires Distinct(K + I) && NoValueUncovered(K, I, m, base) && s >= m
    requires Hit(K + I, u, s, h) && Hit(I, u, m, h) && h !in K + Survivors(I, m, base)
    ensures h.key.kind.Deletion? && Read(K + Survivors(I, m, base), u, s) == NotFound
  {
    var E' := K + Survivors(I, m, base);
    assert DropsDecidingMarker(K, I, m, base, h);
    forall x | x in E' && Visible(x, u, s) ensures x in K && x.key.sn < h.key.sn {
      assert x in K + I;
      if x in I && x.key.sn <= m {
        assert Visible(x, u, m);
      }
    }
    if SomeVisible(E', u, s) {
      var seed :| seed in E' && Visible(seed, u, s);
      var k := HitExists(E', u, s, seed);
      assert Hit(K, u, m, k);
      ReadAtHit(E', u, s, k);
    } else {
      ReadWithoutHit(E', u, s);
    }
  }

  lemma UncoveredValueIsSeen(K: set<Entry>, I: set<Entry>, m: nat, base: UserKey -> bool, h: Entry, k: Entry)
    requires Distinct(K + I)
    requires DropsDecidingMarker(K, I, m, base, h) && Hit(K, h.key.user, m, k) && k.key.kind.Value?
    ensures Read(K + I, h.key.user, m) == NotFound
    ensures Read(K + Survivors(I, m, base), h.key.user, m) == Found(k.value)
  {
    var u := h.key.user;
    var E' := K + Survivors(I, m, base);
    assert Hit(K + I, u, m, h);
    ReadAtHit(K + I, u, m, h);
    assert forall x :: x in I && Hit(I, u, m, x) ==> x in K + I && x.key.sn == h.key.sn;
    assert Hit(E', u, m, k);
    assert E' <= K + I;
    ReadAtHit(E', u, m, k);
  }

  /** Exactly when the drop rule is safe: every read at the oldest snapshot or later is kept if
      and only if no dropped marker covers a value that stays behind. */
  lemma DropRuleIsSafeIff(K: set<Entry>, I: set<Entry>, m: nat, base: UserKey -> bool)
    requires Distinct(K + I)
    ensures (forall u, s :: s >= m ==> Read(K + Survivors(I, m, base), u, s) == Read(K + I, u, s))
       <==> NoValueUncovered(K, I, m, base)
  {
    if NoValueUncovered(K, I, m, base) {
      forall u, s | s >= m ensures Read(K + Survivors(I, m, base), u, s) == Read(K + I, u, s) {
        ReadAfterDrop(K, I, m, base, u, s);
      }
    } else {
      var h, k :| DropsDecidingMarker(K, I, m, base, h) && Hit(K, h.key.user, m, k) && k.key.kind.Value?;
      UncoveredValueIsSeen(K, I, m, base, h, k);
      assert Read(K + Survivors(I, m, base), h.key.user, m) != Read(K + I, h.key.user, m);
    }
  }
}
