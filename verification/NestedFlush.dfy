/** A memtable flush while a compaction runs (db/db_impl.cc, DoCompactionWork and CompactMemTable;
    db/version_set.cc, PickLevelForMemTableOutput): when the selection stays good, and exactly when
    the outputs still fit into their level. */
module NestedFlush {
  import opened Keys
  import opened Reads
  import opened Versions
  import opened Inputs
  import opened DropRule
  import opened Installs
  import opened Store
  import opened StoreLevels

  /** A table that could be flushed now. */
  ghost predicate Flushable(ls: Levels, f: File, at: nat) {
    && f.Ok() && Distinct(EntrySet(f.entries)) && NewerThan(EntrySet(f.entries), Entries(ls))
    && RoomFor(ls, f, at)
  }

  // ---------- The selection stays good ----------

  lemma FlushedIsNewer(ls: Levels, f: File, l: nat, g: File)
    requires NewerThan(EntrySet(f.entries), Entries(ls)) && l < |ls| && g in ls[l]
    ensures NewerFile(f, g)
  {
    forall a, b | a in f.entries && b in g.entries && a.key.user == b.key.user ensures a.key.sn > b.key.sn {
      assert a in EntrySet(f.entries) && b in Entries(ls);
    }
  }

  /** A table flushed to the outputs' level lies outside the range of the inputs. */
  lemma FlushedIsOutside(ls: Levels, level: nat, in0: set<File>, f: File, smallest: IKey, largest: IKey)
    requires WellFormed(ls) && level + 1 < NUM_LEVELS && f.Ok() && GoodPlacement(ls, f, level + 1)
    requires in0 <= ls[level] && NoRoomBetween(ls, level, in0) && Hull(in0, smallest, largest)
    ensures !f.Overlaps(Some(smallest.user), Some(largest.user))
  {
    var a :| a in in0 && a.smallest == smallest;
    var b :| b in in0 && b.largest == largest;
    OkIsOrdered(f);
    OkIsOrdered(a);
    assert KeysWithin(ls, level + 1, smallest.user, largest.user);
    if f.Overlaps(Some(smallest.user), Some(largest.user)) {
      var u := if smallest.user <= f.smallest.user then f.smallest.user else smallest.user;
      assert KeyWithin(ls, level + 1, u);
      var l, g :| 0 <= l <= level + 1 && l < |ls| && g in ls[l] && HasKey(g, u);
      assert g.Overlaps(Some(f.smallest.user), Some(f.largest.user));
    }
  }

  lemma FlushKeepsMeeting(ls: Levels, level: nat, in0: set<File>, in1: set<File>, f: File, at: nat)
    requires WellFormed(ls) && level + 1 < NUM_LEVELS && f.Ok() && GoodPlacement(ls, f, at)
    requires in0 <= ls[level] && MeetsHull(ls[level + 1], in0, in1) && NoRoomBetween(ls, level, in0)
    ensures MeetsHull(WithFile(ls, at, f)[level + 1], in0, in1)
  {
    var smallest, largest :| Hull(in0, smallest, largest) && in1 == Meeting(ls[level + 1], smallest, largest);
    if at == level + 1 {
      FlushedIsOutside(ls, level, in0, f, smallest, largest);
    }
    assert in1 == Meeting(WithFile(ls, at, f)[level + 1], smallest, largest);
  }

  lemma FlushKeepsSelected(ls: Levels, level: nat, in0: set<File>, in1: set<File>, f: File, at: nat)
    requires WellFormed(ls) && level + 1 < NUM_LEVELS && Flushable(ls, f, at)
    requires Selected(ls, level, in0, in1) && NoRoomBetween(ls, level, in0)
    ensures Selected(WithFile(ls, at, f), level, in0, in1)
  {
    FlushKeepsMeeting(ls, level, in0, in1, f, at);
    forall g | g in in0 ensures NewerFile(f, g) {
      FlushedIsNewer(ls, f, level, g);
    }
  }

  lemma UntouchedWithFile(ls: Levels, level: nat, in0: set<File>, in1: set<File>, f: File, at: nat)
    requires |ls| == NUM_LEVELS && level + 1 < NUM_LEVELS && at < NUM_LEVELS
    ensures Untouched(ls, level, in0, in1) <= Untouched(WithFile(ls, at, f), level, in0, in1)
    ensures Untouched(WithFile(ls, at, f), level, in0, in1) <= Untouched(ls, level, in0, in1) + EntrySet(f.entries)
  {
    var bare, bare' := Installed(ls, level, in0, in1, {}), Installed(WithFile(ls, at, f), level, in0, in1, {});
    forall e | e in Entries(bare) ensures e in Entries(bare') {
      var l: nat, g: File :| l < |bare| && g in bare[l] && e in g.entries;
      assert g in bare'[l];
    }
    forall e | e in Entries(bare') ensures e in Entries(bare) + EntrySet(f.entries) {
      var l: nat, g: File :| l < |bare'| && g in bare'[l] && e in g.entries;
      assert g == f || g in bare[l];
    }
  }

  /** Entries newer than all inputs uncover nothing. */
  lemma NewerEntriesUncoverNothing(K: set<Entry>, K': set<Entry>, N: set<Entry>, I: set<Entry>, m: nat, base: UserKey -> bool)
    requires NoValueUncovered(K, I, m, base) && K <= K' <= K + N && NewerThan(N, I)
    ensures NoValueUncovered(K', I, m, base)
  {
    forall h, k | DropsDecidingMarker(K', I, m, base, h) && Hit(K', h.key.user, m, k) ensures k.key.kind.Deletion? {
      assert DropsDecidingMarker(K, I, m, base, h);
      assert Hit(K, h.key.user, m, k);
    }
  }

  lemma InputEntries(ls: Levels, level: nat, in0: set<File>, in1: set<File>)
    requires |ls| == NUM_LEVELS && level + 1 < NUM_LEVELS && Selected(ls, level, in0, in1)
    ensures SetEntries(in0 + in1) <= Entries(ls)
  {
    EntriesSplit(ls, level, in0, in1, {});
  }

  /** What a running compaction relies on survives the flush: its inputs are still a legal
      selection of the newer version, and its drop decisions, made on the version it started
      from, still uncover nothing. */
  lemma FlushKeepsSelection(ls: Levels, level: nat, in0: set<File>, in1: set<File>, m: nat, base: UserKey -> bool,
                            f: File, at: nat)
    requires WellFormed(ls) && level + 1 < NUM_LEVELS && Flushable(ls, f, at)
    requires Selected(ls, level, in0, in1) && NoRoomBetween(ls, level, in0)
    requires NoValueUncovered(Untouched(ls, level, in0, in1), SetEntries(in0 + in1), m, base)
    ensures Selected(WithFile(ls, at, f), level, in0, in1)
    ensures NoValueUncovered(Untouched(WithFile(ls, at, f), level, in0, in1), SetEntries(in0 + in1), m, base)
  {
    FlushKeepsSelected(ls, level, in0, in1, f, at);
    UntouchedWithFile(ls, level, in0, in1, f, at);
    InputEntries(ls, level, in0, in1);
    NewerEntriesUncoverNothing(Untouched(ls, level, in0, in1), Untouched(WithFile(ls, at, f), level, in0, in1),
                               EntrySet(f.entries), SetEntries(in0 + in1), m, base);
  }

  /** Automatic selections leave a flush no room, in any version that still has their inputs. */
  lemma GaplessLeavesNoRoom(ls: Levels, level: nat, in0: set<File>, in1: set<File>)
    requires |ls| == NUM_LEVELS && level + 1 < NUM_LEVELS && Selected(ls, level, in0, in1) && Gapless(in0, in1)
    ensures NoRoomBetween(ls, level, in0)
  {
    var top := level + 1;
    forall f, g | f in in0 && g in in0 ensures KeysWithin(ls, top, f.smallest.user, g.largest.user) {
      assert Covers(in0 + in1, f.smallest.user, g.largest.user);
      forall u | f.smallest.user <= u <= g.largest.user ensures KeyWithin(ls, top, u) {
        assert CoveredAt(in0 + in1, u);
        var x :| x in in0 + in1 && HasKey(x, u);
        assert x in ls[level] || x in ls[level + 1];
      }
    }
  }

  // ---------- The exact condition ----------

  /** Whatever is flushed while the compaction runs, its outputs fit into their level. */
  ghost predicate OutputsStillFit(ls: Levels, level: nat, in0: set<File>, in1: set<File>)
    requires |ls| == NUM_LEVELS && level + 1 < NUM_LEVELS
  {
    forall f, at, outs {:trigger RoomFor(ls, f, at), GoodOutputs(in0, in1, outs)} ::
      Flushable(ls, f, at) && GoodOutputs(in0, in1, outs) ==> WellFormed(Installed(WithFile(ls, at, f), level, in0, in1, outs))
  }

  lemma FlushedStaysDistinct(ls: Levels, f: File, at: nat)
    requires WellFormed(ls) && Distinct(Entries(ls)) && Flushable(ls, f, at)
    ensures Distinct(Entries(WithFile(ls, at, f)))
  {
    WithFileEntries(ls, f, at);
  }

  lemma NoRoomSuffices(ls: Levels, level: nat, in0: set<File>, in1: set<File>, f: File, at: nat, outs: set<File>)
    requires Compactable(ls, level, in0, in1) && NoRoomBetween(ls, level, in0)
    requires Flushable(ls, f, at) && GoodOutputs(in0, in1, outs)
    ensures WellFormed(Installed(WithFile(ls, at, f), level, in0, in1, outs))
  {
    FlushKeepsSelected(ls, level, in0, in1, f, at);
    FlushedStaysDistinct(ls, f, at);
    WithFileIsLayered(ls, f, at);
    WithFileIsApart(ls, f, at);
    InstalledIsWellFormed(WithFile(ls, at, f), level, in0, in1, outs);
  }

  lemma {:induction false} SomeLaterNumber(E: set<Entry>) returns (n: nat)
    ensures forall e :: e in E ==> e.key.sn < n
    decreases E
  {
    if E == {} {
      n := 0;
    } else {
      var e :| e in E;
      var k := SomeLaterNumber(E - {e});
      n := if e.key.sn < k then k else e.key.sn + 1;
      forall x | x in E ensures x.key.sn < n {
        assert x == e || x in E - {e};
      }
    }
  }

  /** A table of one new entry. */
  function Single(number: nat, u: UserKey, sn: nat): File {
    var e := Entry(IKey(u, sn, Value), []);
    File(number, 1, e.key, e.key, [e])
  }

  /** An output from the first to the last key of `first` and `last`. */
  function Spanning(number: nat, first: Entry, last: Entry): File {
    File(number, 1, first.key, last.key, [first, last])
  }

  lemma GapTakesATable(ls: Levels, level: nat, u: UserKey) returns (f: File)
    requires |ls| == NUM_LEVELS && level + 1 <= MAX_MEM_COMPACT_LEVEL && !KeyWithin(ls, level + 1, u)
    ensures Flushable(ls, f, level + 1) && f.smallest.user == u == f.largest.user
    ensures forall l, g :: 0 <= l < |ls| && g in ls[l] && g.Ok() ==> g != f
  {
    var n := SomeLaterNumber(Entries(ls));
    f := Single(0, u, n);
    assert forall a :: a in EntrySet(f.entries) ==> a.key.sn == n;
    forall l, g | 0 <= l < |ls| && g in ls[l] && g.Ok() ensures g != f {
      assert g.entries[0] in g.entries && g.entries[0] in Entries(ls);
    }
    forall l, g | 0 <= l <= level + 1 && g in ls[l] ensures !g.Overlaps(Some(u), Some(u)) {
      assert !HasKey(g, u);
    }
  }

  lemma OutputMaySpan(ls: Levels, level: nat, in0: set<File>, in1: set<File>, a: File, b: File) returns (o: File)
    requires Compactable(ls, level, in0, in1) && a in in0 && b in in0 && Less(a.smallest, b.largest)
    ensures o.smallest == a.smallest && o.largest == b.largest && GoodOutputs(in0, in1, {o})
  {
    assert a in ls[level] && a.Ok() && b in ls[level] && b.Ok();
    var first, last := a.entries[0], b.entries[|b.entries| - 1];
    o := Spanning(0, first, last);
    forall e | e in SetEntries({o}) ensures e in SetEntries(in0 + in1) {
      assert e == first || e == last;
      assert a in in0 + in1 && b in in0 + in1 && first in a.entries && last in b.entries;
    }
  }

  lemma SpanningOutputClashes(ls: Levels, level: nat, in0: set<File>, in1: set<File>, f: File, o: File)
    requires |ls| == NUM_LEVELS && level + 1 < NUM_LEVELS && f !in in1 && f.smallest.user == f.largest.user
    requires o.smallest.user < f.smallest.user < o.largest.user
    ensures !WellFormed(Installed(WithFile(ls, level + 1, f), level, in0, in1, {o}))
  {
    var ls' := Installed(WithFile(ls, level + 1, f), level, in0, in1, {o});
    assert f in ls'[level + 1] && o in ls'[level + 1];
    assert !Apart(f, o);
  }

  lemma NoRoomIsNeeded(ls: Levels, level: nat, in0: set<File>, in1: set<File>, a: File, b: File, u: UserKey)
    requires Compactable(ls, level, in0, in1) && level + 1 <= MAX_MEM_COMPACT_LEVEL
    requires a in in0 && b in in0 && a.smallest.user <= u <= b.largest.user && !KeyWithin(ls, level + 1, u)
    ensures !OutputsStillFit(ls, level, in0, in1)
  {
    assert a in ls[level] && b in ls[level];
    OkIsOrdered(a);
    OkIsOrdered(b);
    assert !HasKey(a, u) && !HasKey(b, u);
    var f := GapTakesATable(ls, level, u);
    var o := OutputMaySpan(ls, level, in0, in1, a, b);
    assert f !in in1;
    SpanningOutputClashes(ls, level, in0, in1, f, o);
  }

  /** A compaction can be interrupted by any flush exactly when the placement rule finds no room
      for a table between its inputs. */
  lemma FlushIsSafeIff(ls: Levels, level: nat, in0: set<File>, in1: set<File>)
    requires Compactable(ls, level, in0, in1)
    ensures OutputsStillFit(ls, level, in0, in1) <==> NoRoomBetween(ls, level, in0)
  {
    if NoRoomBetween(ls, level, in0) {
      forall f, at, outs | Flushable(ls, f, at) && GoodOutputs(in0, in1, outs)
        ensures WellFormed(Installed(WithFile(ls, at, f), level, in0, in1, outs))
      {
        NoRoomSuffices(ls, level, in0, in1, f, at, outs);
      }
    } else {
      var a, b :| a in in0 && b in in0 && !KeysWithin(ls, level + 1, a.smallest.user, b.largest.user);
      var u :| a.smallest.user <= u <= b.largest.user && !KeyWithin(ls, level + 1, u);
      NoRoomIsNeeded(ls, level, in0, in1, a, b, u);
    }
  }

  // ---------- A manual compaction with a gap ----------

  const LeftPut := Entry(IKey(0.0, 1, Value), [1])
  const RightPut := Entry(IKey(2.0, 2, Value), [2])
  const MiddlePut := Entry(IKey(1.0, 3, Value), [3])

  const Left := File(5, 1, LeftPut.key, LeftPut.key, [LeftPut])
  const Right := File(6, 1, RightPut.key, RightPut.key, [RightPut])
  const Middle := File(7, 1, MiddlePut.key, MiddlePut.key, [MiddlePut])
  const Merged := File(8, 2, LeftPut.key, RightPut.key, [LeftPut, RightPut])

  /** Two files of level 1 with room between them, and nothing else. */
  const Gapped: Levels := [{}, {Left, Right}, {}, {}, {}, {}, {}]

  lemma GappedIsCompactable()
    ensures Compactable(Gapped, 1, {Left, Right}, {})
  {
    forall l, f | 0 <= l < NUM_LEVELS && f in Gapped[l] ensures f.Ok() {
      assert f == Left || f == Right;
    }
    assert Hull({Left, Right}, LeftPut.key, RightPut.key);
    assert {} == Meeting(Gapped[2], LeftPut.key, RightPut.key);
  }

  lemma GappedOutputs(base: UserKey -> bool)
    ensures GoodOutputs({Left, Right}, {}, {Merged})
    ensures SetEntries({Merged}) == Survivors(SetEntries({Left, Right} + {}), 2, base)
  {
    assert Left in {Left, Right} + {} && Right in {Left, Right} + {};
    assert LeftPut in Left.entries && RightPut in Right.entries;
    assert LeftPut in Merged.entries && RightPut in Merged.entries;
  }

  lemma MiddleIsFlushable()
    ensures Flushable(Gapped, Middle, 2)
  {
    forall l, g | 0 <= l <= 2 && g in Gapped[l] ensures g == Left || g == Right {
    }
  }

  /** The whole of level 1 is compacted by hand, a memtable with a key from the gap is flushed on
      the way, and the placement rule puts it into level 2, into the range of the one output: the
      drop rule is kept to, and yet the two files overlap. */
  lemma FlushIntoGapOverlaps()
    ensures Compactable(Gapped, 1, {Left, Right}, {}) && NoUpperBoundary(Gapped, 1, {})
    ensures Flushable(Gapped, Middle, 2) && GoodOutputs({Left, Right}, {}, {Merged})
    ensures SetEntries({Merged}) == Survivors(SetEntries({Left, Right} + {}), 2, BaseTest(Gapped, 1))
    ensures !WellFormed(Installed(WithFile(Gapped, 2, Middle), 1, {Left, Right}, {}, {Merged}))
  {
    GappedIsCompactable();
    MiddleIsFlushable();
    GappedOutputs(BaseTest(Gapped, 1));
    SpanningOutputClashes(Gapped, 1, {Left, Right}, {}, Middle, Merged);
  }
}
