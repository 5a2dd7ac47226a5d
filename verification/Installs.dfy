/** Installing a compaction: the version after it is well formed, reads through it at every
    live snapshot are unchanged, and the one case in which they are not
    (db/db_impl.cc, InstallCompactionResults; db/version_set.cc, SetupOtherInputs). */
module Installs {
  import opened Keys
  import opened Reads
  import opened Versions
  import opened Inputs
  import opened DropRule

  ghost function SetEntries(files: set<File>): set<Entry> {
    set f, e | f in files && e in f.entries :: e
  }

  /** AddInputDeletions followed by adding the outputs to `level + 1`. */
  ghost function Installed(ls: Levels, level: nat, in0: set<File>, in1: set<File>, outs: set<File>): Levels
    requires |ls| == NUM_LEVELS && level + 1 < NUM_LEVELS
  {
    ls[level := ls[level] - in0][level + 1 := (ls[level + 1] - in1) + outs]
  }

  /** What the outputs of a compaction look like: tables with disjoint ranges that hold nothing
      but input entries. */
  ghost predicate GoodOutputs(in0: set<File>, in1: set<File>, outs: set<File>) {
    && (forall f :: f in outs ==> f.Ok())
    && (forall f, g :: f in outs && g in outs && f != g ==> Apart(f, g))
    && SetEntries(outs) <= SetEntries(in0 + in1)
  }

  ghost predicate Compactable(ls: Levels, level: nat, in0: set<File>, in1: set<File>) {
    && WellFormed(ls) && Distinct(Entries(ls)) && level + 1 < NUM_LEVELS
    && Selected(ls, level, in0, in1)
  }

  /** A file of `level + 1` that is not an input lies entirely on one side of all inputs. */
  lemma BesideInputs(ls: Levels, level: nat, in0: set<File>, in1: set<File>, h: File)
    requires Compactable(ls, level, in0, in1) && h in ls[level + 1] && h !in in1
    ensures (forall e :: e in SetEntries(in0 + in1) ==> Less(h.largest, e.key))
         || (forall e :: e in SetEntries(in0 + in1) ==> Less(e.key, h.smallest))
  {
    var smallest, largest :| Hull(in0, smallest, largest) && in1 == Meeting(ls[level + 1], smallest, largest);
    OkIsOrdered(h);
    if h.largest.user < smallest.user {
      forall g, e | g in in0 + in1 && e in g.entries ensures Less(h.largest, e.key) {
        RightOf(ls, level, in0, in1, smallest, largest, h, g, e);
      }
    } else {
      forall g, e | g in in0 + in1 && e in g.entries ensures Less(e.key, h.smallest) {
        LeftOf(ls, level, in0, in1, smallest, largest, h, g, e);
      }
    }
  }

  lemma RightOf(ls: Levels, level: nat, in0: set<File>, in1: set<File>, smallest: IKey, largest: IKey,
                h: File, g: File, e: Entry)
    requires WellFormed(ls) && level + 1 < NUM_LEVELS && in0 <= ls[level] && Hull(in0, smallest, largest)
    requires in1 == Meeting(ls[level + 1], smallest, largest)
    requires h in ls[level + 1] && h !in in1 && h.largest.user < smallest.user
    requires g in in0 + in1 && e in g.entries
    ensures Less(h.largest, e.key)
  {
    EntryWithin(g, e);
    OkIsOrdered(h);
    if g in in1 {
      assert Apart(g, h);
    }
  }

  lemma LeftOf(ls: Levels, level: nat, in0: set<File>, in1: set<File>, smallest: IKey, largest: IKey,
               h: File, g: File, e: Entry)
    requires WellFormed(ls) && level + 1 < NUM_LEVELS && in0 <= ls[level] && Hull(in0, smallest, largest)
    requires in1 == Meeting(ls[level + 1], smallest, largest)
    requires h in ls[level + 1] && h !in in1 && h.largest.user >= smallest.user
    requires g in in0 + in1 && e in g.entries
    ensures Less(e.key, h.smallest)
  {
    EntryWithin(g, e);
    OkIsOrdered(h);
    if g in in1 {
      assert Apart(g, h);
    }
  }

  // ---------- The installed version is well formed ----------

  lemma OutputIsApart(ls: Levels, level: nat, in0: set<File>, in1: set<File>, outs: set<File>, h: File, o: File)
    requires Compactable(ls, level, in0, in1) && GoodOutputs(in0, in1, outs)
    requires h in ls[level + 1] && h !in in1 && o in outs
    ensures Apart(h, o) && Apart(o, h)
  {
    BesideInputs(ls, level, in0, in1, h);
    var first, last := o.entries[0], o.entries[|o.entries| - 1];
    assert first in o.entries && last in o.entries;
    assert first in SetEntries(outs) && last in SetEntries(outs);
  }

  lemma InstalledIsApart(ls: Levels, level: nat, in0: set<File>, in1: set<File>, outs: set<File>)
    requires Compactable(ls, level, in0, in1) && GoodOutputs(in0, in1, outs)
    ensures LevelsApart(Installed(ls, level, in0, in1, outs))
  {
    var ls' := Installed(ls, level, in0, in1, outs);
    forall l, f, g | 1 <= l < NUM_LEVELS && f in ls'[l] && g in ls'[l] && f != g ensures Apart(f, g) {
      if l == level + 1 {
        if f in outs && g !in outs {
          OutputIsApart(ls, level, in0, in1, outs, g, f);
        } else if f !in outs && g in outs {
          OutputIsApart(ls, level, in0, in1, outs, f, g);
        }
      }
    }
  }

  /** An output entry comes from an input, so it keeps the input's place in the age order. */
  lemma OutputAge(ls: Levels, level: nat, in0: set<File>, in1: set<File>, outs: set<File>, o: File, l: nat, f: File)
    requires Compactable(ls, level, in0, in1) && GoodOutputs(in0, in1, outs) && o in outs
    requires l < NUM_LEVELS && f in ls[l] && (l == level ==> f !in in0)
    ensures l <= level ==> NewerFile(f, o)
    ensures l > level + 1 ==> NewerFile(o, f)
  {
    forall x | x in o.entries
      ensures l <= level ==> forall y :: y in f.entries && y.key.user == x.key.user ==> y.key.sn > x.key.sn
      ensures l > level + 1 ==> forall y :: y in f.entries && y.key.user == x.key.user ==> x.key.sn > y.key.sn
    {
      assert x in SetEntries(outs);
      var g: File :| g in in0 + in1 && x in g.entries;
      var lg := if g in in0 then level else level + 1;
      assert g in ls[lg];
      if l < lg && !(l == level && lg == level) {
        assert NewerFile(f, g);
      } else if l > lg {
        assert l > level + 1 ==> NewerFile(g, f);
      }
    }
  }

  lemma InstalledIsLayered(ls: Levels, level: nat, in0: set<File>, in1: set<File>, outs: set<File>)
    requires Compactable(ls, level, in0, in1) && GoodOutputs(in0, in1, outs)
    ensures Layered(Installed(ls, level, in0, in1, outs))
  {
    var ls' := Installed(ls, level, in0, in1, outs);
    forall l, k, f, g | 0 <= l < k < NUM_LEVELS && f in ls'[l] && g in ls'[k] ensures NewerFile(f, g) {
      if k == level + 1 && g in outs {
        assert f in ls[l];
        OutputAge(ls, level, in0, in1, outs, g, l, f);
      } else if l == level + 1 && f in outs {
        assert g in ls[k];
        OutputAge(ls, level, in0, in1, outs, f, k, g);
      } else {
        assert f in ls[l] && g in ls[k];
      }
    }
  }

  /** Compaction keeps every structural invariant of a version: sorted disjoint levels, and
      newer entries in shallower places. */
  lemma InstalledIsWellFormed(ls: Levels, level: nat, in0: set<File>, in1: set<File>, outs: set<File>)
    requires Compactable(ls, level, in0, in1) && GoodOutputs(in0, in1, outs)
    ensures WellFormed(Installed(ls, level, in0, in1, outs))
  {
    InstalledIsApart(ls, level, in0, in1, outs);
    InstalledIsLayered(ls, level, in0, in1, outs);
  }

  // ---------- Reads through the installed version ----------

  /** The entries the compaction does not touch. */
  ghost function Untouched(ls: Levels, level: nat, in0: set<File>, in1: set<File>): set<Entry>
    requires |ls| == NUM_LEVELS && level + 1 < NUM_LEVELS
  {
    Entries(Installed(ls, level, in0, in1, {}))
  }

  lemma EntriesSplit(ls: Levels, level: nat, in0: set<File>, in1: set<File>, outs: set<File>)
    requires |ls| == NUM_LEVELS && level + 1 < NUM_LEVELS && in0 <= ls[level] && in1 <= ls[level + 1]
    ensures Entries(ls) == Untouched(ls, level, in0, in1) + SetEntries(in0 + in1)
    ensures Entries(Installed(ls, level, in0, in1, outs)) == Untouched(ls, level, in0, in1) + SetEntries(outs)
  {
    var bare := Installed(ls, level, in0, in1, {});
    var ls' := Installed(ls, level, in0, in1, outs);
    forall e | e in Entries(ls) ensures e in Entries(bare) + SetEntries(in0 + in1) {
      var l: nat, f: File :| l < |ls| && f in ls[l] && e in f.entries;
      assert f in bare[l] || f in in0 + in1;
    }
    forall e | e in Entries(bare) ensures e in Entries(ls) && e in Entries(ls') {
      var l: nat, f: File :| l < |bare| && f in bare[l] && e in f.entries;
      assert f in ls[l] && f in ls'[l];
    }
    forall e | e in SetEntries(in0 + in1) ensures e in Entries(ls) {
      var f: File :| f in in0 + in1 && e in f.entries;
      assert f in ls[level] || f in ls[level + 1];
    }
    forall e | e in SetEntries(outs) ensures e in Entries(ls') {
      var f: File :| f in outs && e in f.entries;
      assert f in ls'[level + 1];
    }
    forall e | e in Entries(ls') ensures e in Entries(bare) + SetEntries(outs) {
      var l: nat, f: File :| l < |ls'| && f in ls'[l] && e in f.entries;
      assert f in bare[l] || f in outs;
    }
  }

  /** The base-level test as a property of the level sets. */
  ghost predicate BaseForKey(ls: Levels, level: nat, u: UserKey)
    requires |ls| == NUM_LEVELS
  {
    forall l, f :: level + 2 <= l < NUM_LEVELS && f in ls[l] ==> !(f.smallest.user <= u <= f.largest.user)
  }

  /** No file of `level + 1` left out of the inputs continues the last user key of an input of
      that level.  Input selection checks this for `level` (AddBoundaryInputs), not for
      `level + 1`. */
  ghost predicate NoUpperBoundary(ls: Levels, level: nat, in1: set<File>)
    requires |ls| == NUM_LEVELS && level + 1 < NUM_LEVELS
  {
    forall h, g :: h in ls[level + 1] && h !in in1 && g in in1 ==> !IsBoundary(h, g.largest)
  }

  /** Nothing that stays behind is older than an input entry of a key with no deeper data. */
  lemma NothingOlderUntouched(ls: Levels, level: nat, in0: set<File>, in1: set<File>, t: Entry, k: Entry)
    requires Compactable(ls, level, in0, in1) && NoUpperBoundary(ls, level, in1)
    requires t in SetEntries(in0 + in1) && BaseForKey(ls, level, t.key.user)
    requires k in Untouched(ls, level, in0, in1) && k.key.user == t.key.user
    ensures k.key.sn >= t.key.sn
  {
    var bare := Installed(ls, level, in0, in1, {});
    var l: nat, h: File :| l < |bare| && h in bare[l] && k in h.entries;
    var g: File :| g in in0 + in1 && t in g.entries;
    assert h in ls[l];
    if l <= level {
      var lg := if g in in0 then level else level + 1;
      assert l < lg || h !in in0;
      assert NewerFile(h, g);
    } else if l == level + 1 {
      UpperFileIsNotOlder(ls, level, in0, in1, h, g, t, k);
    } else {
      EntryWithin(h, k);
    }
  }

  lemma UpperFileIsNotOlder(ls: Levels, level: nat, in0: set<File>, in1: set<File>, h: File, g: File, t: Entry, k: Entry)
    requires Compactable(ls, level, in0, in1) && NoUpperBoundary(ls, level, in1)
    requires h in ls[level + 1] && h !in in1 && g in in0 + in1 && k in h.entries && t in g.entries
    requires k.key.user == t.key.user
    ensures k.key.sn >= t.key.sn
  {
    var smallest, largest :| Hull(in0, smallest, largest) && in1 == Meeting(ls[level + 1], smallest, largest);
    EntryWithin(h, k);
    EntryWithin(g, t);
    assert g in in0 ==> h.Overlaps(Some(smallest.user), Some(largest.user));
    assert g in in1 && Apart(h, g);
  }

  ghost function BaseTest(ls: Levels, level: nat): UserKey -> bool
    requires |ls| == NUM_LEVELS
  {
    u => BaseForKey(ls, level, u)
  }

  /** The boundary check on both levels makes every dropped marker harmless. */
  lemma BoundaryCheckSuffices(ls: Levels, level: nat, in0: set<File>, in1: set<File>, m: nat, base: UserKey -> bool)
    requires Compactable(ls, level, in0, in1) && NoUpperBoundary(ls, level, in1)
    requires forall u :: base(u) <==> BaseForKey(ls, level, u)
    ensures NoValueUncovered(Untouched(ls, level, in0, in1), SetEntries(in0 + in1), m, base)
  {
    var K, I := Untouched(ls, level, in0, in1), SetEntries(in0 + in1);
    forall h, k | DropsDecidingMarker(K, I, m, base, h) && k in K ensures !Visible(k, h.key.user, m) {
      if Visible(k, h.key.user, m) {
        NothingOlderUntouched(ls, level, in0, in1, h, k);
      }
    }
  }

  /** A compaction whose inputs pass the boundary check on both levels changes no read at the
      oldest snapshot or later. */
  lemma CompactionPreservesReads(ls: Levels, level: nat, in0: set<File>, in1: set<File>, outs: set<File>, m: nat,
                                 base: UserKey -> bool)
    requires Compactable(ls, level, in0, in1) && NoUpperBoundary(ls, level, in1)
    requires forall u :: base(u) <==> BaseForKey(ls, level, u)
    requires SetEntries(outs) == Survivors(SetEntries(in0 + in1), m, base)
    ensures forall u, s :: s >= m ==>
      Read(Entries(Installed(ls, level, in0, in1, outs)), u, s) == Read(Entries(ls), u, s)
  {
    BoundaryCheckSuffices(ls, level, in0, in1, m, base);
    CompactionPreservesReadsIff(ls, level, in0, in1, outs, m, base);
  }

  /** Without the check on `level + 1`: reads are kept exactly when no dropped marker covers a
      value that stays behind. */
  lemma CompactionPreservesReadsIff(ls: Levels, level: nat, in0: set<File>, in1: set<File>, outs: set<File>, m: nat,
                                    base: UserKey -> bool)
    requires Compactable(ls, level, in0, in1)
    requires SetEntries(outs) == Survivors(SetEntries(in0 + in1), m, base)
    ensures (forall u, s :: s >= m ==>
               Read(Entries(Installed(ls, level, in0, in1, outs)), u, s) == Read(Entries(ls), u, s))
       <==> NoValueUncovered(Untouched(ls, level, in0, in1), SetEntries(in0 + in1), m, base)
  {
    EntriesSplit(ls, level, in0, in1, outs);
    DropRuleIsSafeIff(Untouched(ls, level, in0, in1), SetEntries(in0 + in1), m, base);
  }

  // ---------- The check on `level + 1` is needed ----------

  const RecentPut := Entry(IKey(0.5, 30, Value), [1])
  const OldPut := Entry(IKey(0.0, 5, Value), [2])
  const Marker := Entry(IKey(1.0, 10, Deletion), [])
  const CoveredPut := Entry(IKey(1.0, 4, Value), [3])

  const Upper := File(9, 1, RecentPut.key, RecentPut.key, [RecentPut])
  const Straddling := File(7, 1, OldPut.key, Marker.key, [OldPut, Marker])
  const Continuation := File(8, 1, CoveredPut.key, CoveredPut.key, [CoveredPut])

  /** Level 2 holds the versions of one user key in two files; a level-1 input meets only the
      first of them. */
  const Straddled: Levels := [{}, {Upper}, {Straddling, Continuation}, {}, {}, {}, {}]

  lemma StraddledIsWellFormed()
    ensures WellFormed(Straddled)
  {
    forall l, f | 0 <= l < NUM_LEVELS && f in Straddled[l] ensures f.Ok() {
      assert f == Upper || f == Straddling || f == Continuation;
    }
    assert Less(Straddling.largest, Continuation.smallest);
    assert NewerFile(Upper, Straddling) && NewerFile(Upper, Continuation);
  }

  lemma StraddledEntries()
    ensures Untouched(Straddled, 1, {Upper}, {Straddling}) == {CoveredPut}
    ensures SetEntries({Upper} + {Straddling}) == {RecentPut, OldPut, Marker}
    ensures Entries(Straddled) == {RecentPut, OldPut, Marker, CoveredPut}
    ensures Distinct(Entries(Straddled))
  {
    var bare := Installed(Straddled, 1, {Upper}, {Straddling}, {});
    assert Continuation in bare[2] && CoveredPut in Continuation.entries;
    assert Upper in {Upper} + {Straddling} && Straddling in {Upper} + {Straddling};
    assert RecentPut in Upper.entries && OldPut in Straddling.entries && Marker in Straddling.entries;
    EntriesSplit(Straddled, 1, {Upper}, {Straddling}, {});
  }

  lemma StraddledIsCompactable()
    ensures Compactable(Straddled, 1, {Upper}, {Straddling})
    ensures !NoUpperBoundary(Straddled, 1, {Straddling})
  {
    StraddledIsWellFormed();
    StraddledEntries();
    assert Hull({Upper}, RecentPut.key, RecentPut.key);
    assert {Straddling} == Meeting(Straddled[2], RecentPut.key, RecentPut.key);
    assert Selected(Straddled, 1, {Upper}, {Straddling});
    assert Continuation in Straddled[2] && IsBoundary(Continuation, Straddling.largest);
  }

  lemma MarkerIsDropped(K: set<Entry>, I: set<Entry>, base: UserKey -> bool)
    requires K == {CoveredPut} && I == {RecentPut, OldPut, Marker} && base(1.0)
    ensures DropsDecidingMarker(K, I, 30, base, Marker) && Hit(K, 1.0, 30, CoveredPut)
  {
  }

  lemma NothingDeeper(u: UserKey)
    ensures BaseForKey(Straddled, 1, u)
  {
  }

  lemma DroppedMarkerUncovers(ls: Levels, level: nat, in0: set<File>, in1: set<File>, outs: set<File>, m: nat,
                              base: UserKey -> bool, h: Entry, k: Entry)
    requires Compactable(ls, level, in0, in1)
    requires SetEntries(outs) == Survivors(SetEntries(in0 + in1), m, base)
    requires DropsDecidingMarker(Untouched(ls, level, in0, in1), SetEntries(in0 + in1), m, base, h)
    requires Hit(Untouched(ls, level, in0, in1), h.key.user, m, k) && k.key.kind.Value?
    ensures Read(Entries(ls), h.key.user, m) == NotFound
    ensures Read(Entries(Installed(ls, level, in0, in1, outs)), h.key.user, m) == Found(k.value)
  {
    EntriesSplit(ls, level, in0, in1, outs);
    UncoveredValueIsSeen(Untouched(ls, level, in0, in1), SetEntries(in0 + in1), m, base, h, k);
  }

  /** A well-formed version and a legal selection whose compaction brings a deleted key back:
      the marker at 10 is dropped because no level below 2 has the key, while the value at 4
      sits in a level-2 file that the selection leaves out. */
  lemma UpperBoundaryMatters(outs: set<File>, base: UserKey -> bool)
    requires forall u :: base(u) <==> BaseForKey(Straddled, 1, u)
    requires SetEntries(outs) == Survivors(SetEntries({Upper} + {Straddling}), 30, base)
    ensures Compactable(Straddled, 1, {Upper}, {Straddling})
    ensures !NoUpperBoundary(Straddled, 1, {Straddling})
    ensures Read(Entries(Straddled), 1.0, 30) == NotFound
    ensures Read(Entries(Installed(Straddled, 1, {Upper}, {Straddling}, outs)), 1.0, 30) == Found([3])
  {
    StraddledIsCompactable();
    StraddledEntries();
    var K, I := Untouched(Straddled, 1, {Upper}, {Straddling}), SetEntries({Upper} + {Straddling});
    NothingDeeper(1.0);
    MarkerIsDropped(K, I, base);
    DroppedMarkerUncovers(Straddled, 1, {Upper}, {Straddling}, outs, 30, base, Marker, CoveredPut);
  }
}
