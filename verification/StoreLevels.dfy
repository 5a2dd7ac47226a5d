/** How the level structure keeps standing for a prefix of the history as tables are added,
    compacted and moved. */
module StoreLevels {
  import opened Keys
  import opened Reads
  import opened Versions
  import opened Inputs
  import opened DropRule
  import opened Installs
  import opened Store

  /** Sequence numbers are handed out one by one from 1. */
  ghost predicate HistoryOk(h: seq<Entry>) {
    forall i :: 0 <= i < |h| ==> h[i].key.sn == i + 1
  }

  /** The levels stand for the first `p` writes, at every snapshot from `floor` on. */
  ghost predicate LevelsHold(ls: Levels, h: seq<Entry>, p: nat, floor: nat) {
    && WellFormed(ls) && p <= |h|
    && Entries(ls) <= Upto(h, p)
    && forall u, s :: s >= floor ==> Read(Entries(ls), u, s) == Read(Upto(h, p), u, s)
  }

  lemma HistoryDistinct(h: seq<Entry>, p: nat)
    requires HistoryOk(h) && p <= |h|
    ensures Distinct(Upto(h, p))
  {
  }

  lemma UptoGrows(h: seq<Entry>, h': seq<Entry>, p: nat)
    requires h <= h' && p <= |h|
    ensures Upto(h, p) == Upto(h', p)
  {
  }

  lemma LevelsHoldGrows(ls: Levels, h: seq<Entry>, h': seq<Entry>, p: nat, floor: nat)
    requires LevelsHold(ls, h, p, floor) && h <= h'
    ensures LevelsHold(ls, h', p, floor)
  {
    UptoGrows(h, h', p);
  }

  lemma UptoSplits(h: seq<Entry>, p: nat, q: nat)
    requires p <= q <= |h| && HistoryOk(h)
    ensures Upto(h, q) == Between(h, p, q) + Upto(h, p)
    ensures NewerThan(Between(h, p, q), Upto(h, p))
    ensures EntrySet(h[p..q]) == Between(h, p, q)
  {
    forall e | e in Between(h, p, q) ensures e in EntrySet(h[p..q]) {
      var i :| p <= i < q && h[i] == e;
      assert h[p..q][i - p] == e;
    }
  }

  // ---------- Adding the table of a flushed memtable ----------

  /** Where a new table may go: in level 0 under the largest number, or deeper where it meets no
      file of its own level or above. */
  ghost predicate RoomFor(ls: Levels, f: File, level: nat) {
    && GoodPlacement(ls, f, level)
    && (level == 0 ==> forall g :: g in ls[0] ==> g.number < f.number)
  }

  lemma NoOverlapNoSharedUser(f: File, g: File)
    requires f.Ok() && g.Ok() && !g.Overlaps(Some(f.smallest.user), Some(f.largest.user))
    ensures NewerFile(f, g) && NewerFile(g, f) && Apart(f, g) && Apart(g, f)
  {
    forall a, b | a in f.entries && b in g.entries ensures a.key.user != b.key.user {
      EntryWithin(f, a);
      EntryWithin(g, b);
    }
    OkIsOrdered(f);
    OkIsOrdered(g);
  }

  lemma WithFileIsLayered(ls: Levels, f: File, level: nat)
    requires WellFormed(ls) && f.Ok() && RoomFor(ls, f, level)
    requires NewerThan(EntrySet(f.entries), Entries(ls))
    ensures Layered(WithFile(ls, level, f))
  {
    var ls' := WithFile(ls, level, f);
    forall l, g | 0 <= l < NUM_LEVELS && g in ls[l] ensures NewerFile(f, g) {
      forall a, b | a in f.entries && b in g.entries && a.key.user == b.key.user ensures a.key.sn > b.key.sn {
        assert a in EntrySet(f.entries) && b in Entries(ls);
      }
    }
    forall l, g | 0 <= l < level && g in ls[l] ensures NewerFile(g, f) {
      NoOverlapNoSharedUser(f, g);
    }
  }

  lemma WithFileIsApart(ls: Levels, f: File, level: nat)
    requires WellFormed(ls) && f.Ok() && RoomFor(ls, f, level)
    ensures LevelsApart(WithFile(ls, level, f))
  {
    forall g | level > 0 && g in ls[level] ensures Apart(f, g) && Apart(g, f) {
      NoOverlapNoSharedUser(f, g);
    }
  }

  lemma WithFileEntries(ls: Levels, f: File, level: nat)
    requires level < |ls|
    ensures Entries(WithFile(ls, level, f)) == EntrySet(f.entries) + Entries(ls)
  {
    var ls' := WithFile(ls, level, f);
    forall e | e in Entries(ls) ensures e in Entries(ls') {
      var l: nat, g: File :| l < |ls| && g in ls[l] && e in g.entries;
      assert g in ls'[l];
    }
    forall e | e in EntrySet(f.entries) ensures e in Entries(ls') {
      assert f in ls'[level] && e in f.entries;
    }
    forall e | e in Entries(ls') ensures e in EntrySet(f.entries) + Entries(ls) {
      var l: nat, g: File :| l < |ls'| && g in ls'[l] && e in g.entries;
      assert g == f || g in ls[l];
    }
  }

  /** A flushed memtable extends the prefix the levels stand for. */
  lemma FlushExtends(ls: Levels, h: seq<Entry>, p: nat, q: nat, floor: nat, f: File, level: nat)
    requires HistoryOk(h) && LevelsHold(ls, h, p, floor) && p <= q <= |h|
    requires TableOf(f, Between(h, p, q)) && RoomFor(ls, f, level)
    ensures LevelsHold(WithFile(ls, level, f), h, q, floor)
  {
    var N, T, H := Between(h, p, q), Entries(ls), Upto(h, p);
    UptoSplits(h, p, q);
    HistoryDistinct(h, q);
    WithFileEntries(ls, f, level);
    assert NewerThan(N, T);
    WithFileIsLayered(ls, f, level);
    WithFileIsApart(ls, f, level);
    assert T <= H;
    forall u, s | s >= floor ensures Read(N + T, u, s) == Read(N + H, u, s) {
      ReadOfUnion(N, T, u, s);
      ReadOfUnion(N, H, u, s);
    }
  }

  // ---------- Compactions and moves ----------

  /** After an installed compaction the levels stand for the same prefix, from its oldest snapshot
      on, whatever version its base-level test was made on. */
  lemma CompactionHolds(ls: Levels, h: seq<Entry>, p: nat, floor: nat, level: nat, in0: set<File>, in1: set<File>,
                        m: nat, base: UserKey -> bool, outs: set<File>)
    requires HistoryOk(h) && LevelsHold(ls, h, p, floor) && floor <= m
    requires level + 1 < NUM_LEVELS && Selected(ls, level, in0, in1) && UncoversNothing(ls, level, in0, in1, m, base)
    requires GoodOutputs(in0, in1, outs) && SetEntries(outs) == Survivors(SetEntries(in0 + in1), m, base)
    ensures LevelsHold(Installed(ls, level, in0, in1, outs), h, p, m)
  {
    HistoryDistinct(h, p);
    InstalledIsWellFormed(ls, level, in0, in1, outs);
    CompactionPreservesReadsIff(ls, level, in0, in1, outs, m, base);
    EntriesSplit(ls, level, in0, in1, outs);
  }

  lemma MoveHolds(ls: Levels, h: seq<Entry>, p: nat, floor: nat, level: nat, f: File)
    requires HistoryOk(h) && LevelsHold(ls, h, p, floor)
    requires level + 1 < NUM_LEVELS && Selected(ls, level, {f}, {})
    ensures LevelsHold(Installed(ls, level, {f}, {}, {f}), h, p, floor)
  {
    HistoryDistinct(h, p);
    assert {f} + {} == {f};
    assert f in ls[level];
    InstalledIsWellFormed(ls, level, {f}, {}, {f});
    EntriesSplit(ls, level, {f}, {}, {f});
  }

  // ---------- The tables of a recovery ----------

  /** After the first `n` recovered tables the levels stand for that much more of the history. */
  ghost predicate RecoveredTo(ls: Levels, h: seq<Entry>, p: nat, floor: nat, files: seq<File>, cuts: seq<nat>, n: nat)
    requires |ls| == NUM_LEVELS && n <= |files| && n < |cuts|
  {
    LevelsHold(WithLevel0(ls, files[..n]), h, p + cuts[n], floor)
  }

  lemma RecoverOneTable(ls: Levels, h: seq<Entry>, p: nat, floor: nat, files: seq<File>, cuts: seq<nat>, n: nat)
    requires HistoryOk(h) && |ls| == NUM_LEVELS && n < |files| && n + 1 < |cuts|
    requires cuts[n] <= cuts[n + 1] && p + cuts[n + 1] <= |h|
    requires TableOf(files[n], Between(h, p + cuts[n], p + cuts[n + 1]))
    requires RoomFor(WithLevel0(ls, files[..n]), files[n], 0)
    requires WithFile(WithLevel0(ls, files[..n]), 0, files[n]) == WithLevel0(ls, files[..n + 1])
    requires RecoveredTo(ls, h, p, floor, files, cuts, n)
    ensures RecoveredTo(ls, h, p, floor, files, cuts, n + 1)
  {
    NextTableHolds(WithLevel0(ls, files[..n]), WithLevel0(ls, files[..n + 1]), h, p + cuts[n], p + cuts[n + 1],
                   floor, files[n]);
  }

  /** Replaying the kept logs into level 0 makes the levels stand for the whole history. */
  lemma {:induction false} RecoveredLevelsHold(ls: Levels, h: seq<Entry>, p: nat, floor: nat, files: seq<File>,
                                               cuts: seq<nat>, above: nat, n: nat)
    requires HistoryOk(h) && |ls| == NUM_LEVELS && p <= |h|
    requires ReplayTables(h[p..], files, cuts, above) && n <= |files|
    requires forall g :: g in ls[0] ==> g.number < above
    requires RecoveredTo(ls, h, p, floor, files, cuts, 0)
    ensures RecoveredTo(ls, h, p, floor, files, cuts, n)
  {
    if n > 0 {
      RecoveredLevelsHold(ls, h, p, floor, files, cuts, above, n - 1);
      NextRecoveredTable(ls, h[p..], files, cuts, above, n - 1);
      CutOfHistory(h, p, files[n - 1], cuts, n - 1);
      RecoverOneTable(ls, h, p, floor, files, cuts, n - 1);
    }
  }

  lemma NextTableHolds(before: Levels, after: Levels, h: seq<Entry>, a: nat, b: nat, floor: nat, f: File)
    requires HistoryOk(h) && LevelsHold(before, h, a, floor) && a <= b <= |h|
    requires TableOf(f, Between(h, a, b)) && RoomFor(before, f, 0) && after == WithFile(before, 0, f)
    ensures LevelsHold(after, h, b, floor)
  {
    FlushExtends(before, h, a, b, floor, f, 0);
  }

  lemma NoRecoveredTables(ls: Levels, files: seq<File>)
    requires |ls| == NUM_LEVELS
    ensures WithLevel0(ls, files[..0]) == ls
  {
    assert ls[0] + FileSet(files[..0]) == ls[0];
  }

  lemma CutOfHistory(h: seq<Entry>, p: nat, f: File, cuts: seq<nat>, i: nat)
    requires HistoryOk(h) && p <= |h| && i + 1 < |cuts| && HoldsCut(h[p..], f, cuts, i)
    ensures p + cuts[i + 1] <= |h| && TableOf(f, Between(h, p + cuts[i], p + cuts[i + 1]))
  {
    assert h[p..][cuts[i]..cuts[i + 1]] == h[p + cuts[i]..p + cuts[i + 1]];
    UptoSplits(h, p + cuts[i], p + cuts[i + 1]);
  }

  lemma NextRecoveredTable(ls: Levels, replayed: seq<Entry>, files: seq<File>, cuts: seq<nat>, above: nat, n: nat)
    requires |ls| == NUM_LEVELS && ReplayTables(replayed, files, cuts, above) && n < |files|
    requires forall g :: g in ls[0] ==> g.number < above
    ensures RoomFor(WithLevel0(ls, files[..n]), files[n], 0)
    ensures HoldsCut(replayed, files[n], cuts, n)
    ensures WithFile(WithLevel0(ls, files[..n]), 0, files[n]) == WithLevel0(ls, files[..n + 1])
  {
    assert files[..n + 1] == files[..n] + [files[n]];
    assert ls[0] + FileSet(files[..n + 1]) == (ls[0] + FileSet(files[..n])) + {files[n]};
  }
}
