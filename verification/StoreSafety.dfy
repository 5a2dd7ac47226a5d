/** Safety of the database over whole runs: reads, durability and recovery (db/db_impl.cc). */
module StoreSafety {
  import opened Keys
  import opened Reads
  import opened Versions
  import opened Inputs
  import opened DropRule
  import opened Installs
  import opened Store
  import opened StoreLevels
  import opened NestedFlush

  // ---------- The invariant ----------

  /** Every file of the levels is on disk with its contents, under a number below `below`. */
  ghost predicate FilesOnDisk(ls: Levels, tables: map<nat, seq<Entry>>, below: nat) {
    forall l, f :: 0 <= l < |ls| && f in ls[l] ==> f.number < below && OnDisk(f, tables)
  }

  ghost predicate OnDisk(f: File, tables: map<nat, seq<Entry>>) {
    f.number in tables && tables[f.number] == f.entries
  }

  ghost predicate LogsBounded(d: Disk) {
    forall n :: n in d.logs ==> n < d.logBound
  }

  /** The kept logs hold exactly the writes the tables do not cover, in order. */
  ghost predicate LogsCoverRest(d: Disk, h: seq<Entry>) {
    d.manifest.flushed <= |h| && Replay(d.logs, d.manifest.logNumber, d.logBound) == h[d.manifest.flushed..]
  }

  ghost predicate ManifestOk(m: Manifest, h: seq<Entry>, tables: map<nat, seq<Entry>>) {
    && LevelsHold(m.levels, h, m.flushed, m.floor)
    && FilesOnDisk(m.levels, tables, m.nextFile)
    && m.flushed <= m.lastSequence <= |h| && m.floor <= m.lastSequence
  }

  /** What a crash leaves behind is enough to rebuild every write. */
  ghost predicate DiskInv(d: Disk, h: seq<Entry>) {
    && HistoryOk(h) && LogsBounded(d) && LogsCoverRest(d, h) && ManifestOk(d.manifest, h, d.tables)
  }

  ghost predicate MemtablesOk(h: seq<Entry>, mem: seq<Entry>, imm: Option<seq<Entry>>, writing: seq<Entry>,
                              inserted: nat, last: nat, flushed: nat, memStart: nat) {
    && last + |writing| == |h| && writing == h[last..] && inserted <= |writing|
    && flushed <= memStart <= last
    && mem == h[memStart..last + inserted]
    && (if imm.Some? then imm.value == h[flushed..memStart] else flushed == memStart)
  }

  ghost predicate LogsOk(d: Disk, h: seq<Entry>, memLog: nat, memStart: nat, nextFile: nat, logNumber: nat) {
    && memLog in d.logs && d.logBound == memLog + 1 && memLog < nextFile
    && memStart <= |h| && d.logs[memLog] == h[memStart..]
    && logNumber <= d.manifest.logNumber <= memLog && d.manifest.nextFile <= nextFile
  }

  ghost predicate SnapshotsOk(snapshots: seq<nat>, oldest: nat, last: nat) {
    && oldest <= last
    && (forall i :: 0 <= i < |snapshots| ==> oldest <= snapshots[i] <= last)
    && (forall i, j :: 0 <= i < j < |snapshots| ==> snapshots[i] <= snapshots[j])
  }

  ghost predicate PinnedOnDisk(pinned: seq<Levels>, tables: map<nat, seq<Entry>>, nextFile: nat) {
    forall p :: 0 <= p < |pinned| ==> FilesOnDisk(pinned[p], tables, nextFile)
  }

  /** With no edit in flight, memory and MANIFEST agree. */
  ghost predicate Settled(s: State) {
    var m := s.disk.manifest;
    m.levels == s.current && m.flushed == s.flushed && m.floor == s.floor && m.logNumber == s.logNumber
  }

  ghost predicate FlushOk(current: Levels, f: File, imm: Option<seq<Entry>>, tables: map<nat, seq<Entry>>, nextFile: nat) {
    && imm.Some? && TableOf(f, EntrySet(imm.value)) && f.number < nextFile && OnDisk(f, tables)
    && forall l, g :: 0 <= l < |current| && g in current[l] ==> g.number < f.number
  }

  /** The inputs are still a legal selection of `current`, and dropping by the test on the version
      the compaction started from still uncovers nothing. */
  ghost predicate SelectionOk(current: Levels, level: nat, in0: set<File>, in1: set<File>, oldest: nat, input: Levels) {
    && |current| == NUM_LEVELS && |input| == NUM_LEVELS && level + 1 < NUM_LEVELS
    && Selected(current, level, in0, in1)
    && UncoversNothing(current, level, in0, in1, oldest, BaseTest(input, level))
  }

  ghost predicate CompactionOk(current: Levels, c: Compaction) {
    SelectionOk(current, c.level, c.in0, c.in1, c.oldest, c.input)
  }

  ghost predicate OutputsOnDisk(outs: set<File>, tables: map<nat, seq<Entry>>, below: nat) {
    forall f :: f in outs ==> f.number < below && OnDisk(f, tables)
  }

  ghost predicate CompactionFilesOk(c: Option<Compaction>, tables: map<nat, seq<Entry>>, nextFile: nat) {
    c.Some? ==> OutputsOnDisk(c.value.outs, tables, nextFile) && FilesOnDisk(c.value.input, tables, nextFile)
  }

  ghost predicate RunningOk(c: Option<Compaction>, current: Levels, snapshots: seq<nat>, floor: nat, last: nat) {
    c.Some? ==> floor <= c.value.oldest && SnapshotsOk(snapshots, c.value.oldest, last) && CompactionOk(current, c.value)
  }

  ghost predicate BackgroundOk(s: State) {
    match s.background
    case Idle => Settled(s) && RunningOk(s.compaction, s.current, s.snapshots, s.floor, s.lastSequence)
    case Flushing(f) =>
      && Settled(s) && RunningOk(s.compaction, s.current, s.snapshots, s.floor, s.lastSequence)
      && FlushOk(s.current, f, s.imm, s.disk.tables, s.nextFile)
    case Installing(next, clearsImm) =>
      && s.disk.manifest == next && SnapshotsOk(s.snapshots, next.floor, s.lastSequence)
      && next.flushed == (if clearsImm then s.memStart else s.flushed) && (clearsImm ==> s.imm.Some?)
      && (clearsImm ==> RunningOk(s.compaction, next.levels, s.snapshots, next.floor, s.lastSequence))
  }

  ghost predicate RunningInv(s: State) {
    && MemtablesOk(s.history, s.mem, s.imm, s.writing, s.inserted, s.lastSequence, s.flushed, s.memStart)
    && LogsOk(s.disk, s.history, s.memLog, s.memStart, s.nextFile, s.logNumber)
    && SnapshotsOk(s.snapshots, s.floor, s.lastSequence)
    && LevelsHold(s.current, s.history, s.flushed, s.floor)
    && FilesOnDisk(s.current, s.disk.tables, s.nextFile)
    && PinnedOnDisk(s.pinned, s.disk.tables, s.nextFile)
    && CompactionFilesOk(s.compaction, s.disk.tables, s.nextFile)
    && BackgroundOk(s)
  }

  ghost predicate Inv(s: State) {
    DiskInv(s.disk, s.history) && s.lastSequence <= |s.history| && (!s.crashed ==> RunningInv(s))
  }

  // ---------- Replaying logs ----------

  lemma {:induction false} ReplayAgrees(a: map<nat, seq<Entry>>, b: map<nat, seq<Entry>>, from: nat, upTo: nat)
    requires forall n :: from <= n < upTo ==> (n in a <==> n in b) && (n in a ==> a[n] == b[n])
    ensures Replay(a, from, upTo) == Replay(b, from, upTo)
  {
    if upTo > from {
      ReplayAgrees(a, b, from, upTo - 1);
    }
  }

  /** An append to the newest log appends to the replay. */
  lemma ReplayAppend(logs: map<nat, seq<Entry>>, from: nat, newest: nat, batch: seq<Entry>)
    requires newest in logs && from <= newest
    ensures Replay(logs[newest := logs[newest] + batch], from, newest + 1) == Replay(logs, from, newest + 1) + batch
  {
    ReplayAgrees(logs, logs[newest := logs[newest] + batch], from, newest);
  }

  /** An empty log above all others changes nothing. */
  lemma {:induction false} ReplayWithEmptyLog(logs: map<nat, seq<Entry>>, from: nat, bound: nat, n: nat)
    requires (forall k :: k in logs ==> k < bound) && n >= bound
    ensures Replay(logs[n := []], from, n + 1) == Replay(logs, from, bound)
  {
    ReplayAgrees(logs, logs[n := []], from, n);
    ReplayPastBound(logs, from, bound, n);
  }

  lemma {:induction false} ReplayPastBound(logs: map<nat, seq<Entry>>, from: nat, bound: nat, n: nat)
    requires (forall k :: k in logs ==> k < bound) && n >= bound
    ensures Replay(logs, from, n) == Replay(logs, from, bound)
    decreases n
  {
    if n > bound {
      ReplayPastBound(logs, from, bound, n - 1);
    }
  }

  lemma ReplayNewestOnly(logs: map<nat, seq<Entry>>, newest: nat)
    requires newest in logs
    ensures Replay(logs, newest, newest + 1) == logs[newest]
  {
    assert Replay(logs, newest, newest) == [];
  }

  // ---------- Writing ----------

  lemma AppendKeepsDisk(d: Disk, d': Disk, h: seq<Entry>, memLog: nat, batch: seq<Entry>)
    requires DiskInv(d, h) && HistoryOk(h + batch)
    requires memLog in d.logs && d.logBound == memLog + 1 && d.manifest.logNumber <= memLog
    requires d' == d.(logs := d.logs[memLog := d.logs[memLog] + batch])
    ensures DiskInv(d', h + batch)
  {
    var m := d.manifest;
    ReplayAppend(d.logs, m.logNumber, memLog, batch);
    assert h[m.flushed..] + batch == (h + batch)[m.flushed..];
    LevelsHoldGrows(m.levels, h, h + batch, m.flushed, m.floor);
  }

  lemma AppendKeepsMemtables(h: seq<Entry>, mem: seq<Entry>, imm: Option<seq<Entry>>, last: nat, flushed: nat,
                             memStart: nat, batch: seq<Entry>)
    requires MemtablesOk(h, mem, imm, [], 0, last, flushed, memStart)
    ensures MemtablesOk(h + batch, mem, imm, batch, 0, last, flushed, memStart)
    ensures h[memStart..] + batch == (h + batch)[memStart..]
  {
    assert (h + batch)[memStart..last] == h[memStart..last];
    assert (h + batch)[flushed..memStart] == h[flushed..memStart];
    assert (h + batch)[last..] == batch;
  }

  lemma AppendLogKeeps(s: State, s': State, batch: seq<Entry>)
    requires Inv(s) && !s.crashed && DoAppendLog(s, s', batch)
    ensures Inv(s')
  {
    AppendKeepsDisk(s.disk, s'.disk, s.history, s.memLog, batch);
    AppendKeepsMemtables(s.history, s.mem, s.imm, s.lastSequence, s.flushed, s.memStart, batch);
    LevelsHoldGrows(s.current, s.history, s'.history, s.flushed, s.floor);
  }

  lemma InsertKeepsMemtables(h: seq<Entry>, mem: seq<Entry>, imm: Option<seq<Entry>>, writing: seq<Entry>,
                             inserted: nat, last: nat, flushed: nat, memStart: nat)
    requires MemtablesOk(h, mem, imm, writing, inserted, last, flushed, memStart) && inserted < |writing|
    ensures MemtablesOk(h, mem + [writing[inserted]], imm, writing, inserted + 1, last, flushed, memStart)
  {
    var k := last + inserted;
    assert h[memStart..k] + [h[k]] == h[memStart..k + 1];
  }

  lemma InsertNextKeeps(s: State, s': State)
    requires Inv(s) && !s.crashed && DoInsertNext(s, s')
    ensures Inv(s')
  {
    InsertKeepsMemtables(s.history, s.mem, s.imm, s.writing, s.inserted, s.lastSequence, s.flushed, s.memStart);
  }

  lemma PublishKeeps(s: State, s': State)
    requires Inv(s) && !s.crashed && DoPublish(s, s')
    ensures Inv(s')
  {
    assert s'.history[s'.lastSequence..] == [];
  }

  lemma SwitchMemtableKeeps(s: State, s': State)
    requires Inv(s) && !s.crashed && DoSwitchMemtable(s, s')
    ensures Inv(s')
  {
    ReplayWithEmptyLog(s.disk.logs, s.disk.manifest.logNumber, s.disk.logBound, s.nextFile);
    assert s.history[s.lastSequence..] == [];
    assert s'.history[s'.memStart..s'.lastSequence] == [];
  }

  // ---------- Snapshots and pinned versions ----------

  lemma TakeSnapshotKeeps(s: State, s': State)
    requires Inv(s) && !s.crashed && DoTakeSnapshot(s, s')
    ensures Inv(s')
  {
  }

  lemma ReleaseSnapshotKeeps(s: State, s': State, i: nat)
    requires Inv(s) && !s.crashed && DoReleaseSnapshot(s, s', i)
    ensures Inv(s')
  {
  }

  lemma PinKeeps(s: State, s': State)
    requires Inv(s) && !s.crashed && DoPinVersion(s, s')
    ensures Inv(s')
  {
  }

  lemma UnpinKeeps(s: State, s': State, i: nat)
    requires Inv(s) && !s.crashed && DoUnpinVersion(s, s', i)
    ensures Inv(s')
  {
  }

  // ---------- Flushing ----------

  /** A table written under a fresh number disturbs no file in use. */
  lemma FreshTable(ls: Levels, tables: map<nat, seq<Entry>>, below: nat, n: nat, contents: seq<Entry>)
    requires FilesOnDisk(ls, tables, below) && n >= below
    ensures FilesOnDisk(ls, tables[n := contents], n + 1)
    ensures FilesOnDisk(ls, tables[n := contents], below)
  {
  }

  lemma FreshTableKeepsPinned(pinned: seq<Levels>, c: Option<Compaction>, tables: map<nat, seq<Entry>>, n: nat, contents: seq<Entry>)
    requires PinnedOnDisk(pinned, tables, n) && CompactionFilesOk(c, tables, n)
    ensures PinnedOnDisk(pinned, tables[n := contents], n + 1) && CompactionFilesOk(c, tables[n := contents], n + 1)
  {
    forall p | 0 <= p < |pinned| ensures FilesOnDisk(pinned[p], tables[n := contents], n + 1) {
      FreshTable(pinned[p], tables, n, n, contents);
    }
    if c.Some? {
      FreshTable(c.value.input, tables, n, n, contents);
    }
  }

  lemma FreshTableKeepsAll(s: State, s': State, f: File)
    requires Inv(s) && !s.crashed && f.number == s.nextFile
    requires s'.disk == s.disk.(tables := s.disk.tables[f.number := f.entries])
    ensures DiskInv(s'.disk, s.history)
    ensures FilesOnDisk(s.current, s'.disk.tables, f.number + 1)
    ensures PinnedOnDisk(s.pinned, s'.disk.tables, f.number + 1)
    ensures CompactionFilesOk(s.compaction, s'.disk.tables, f.number + 1)
  {
    FreshTable(s.disk.manifest.levels, s.disk.tables, s.disk.manifest.nextFile, f.number, f.entries);
    FreshTable(s.current, s.disk.tables, s.nextFile, f.number, f.entries);
    FreshTableKeepsPinned(s.pinned, s.compaction, s.disk.tables, f.number, f.entries);
  }

  lemma FlushWriteKeeps(s: State, s': State, f: File)
    requires Inv(s) && !s.crashed && DoFlushWrite(s, s', f)
    ensures Inv(s')
  {
    FreshTableKeepsAll(s, s', f);
  }

  /** Replacing the MANIFEST by an edit that covers the same writes keeps the disk invariant. */
  lemma EditKeepsDisk(d: Disk, d': Disk, h: seq<Entry>, next: Manifest)
    requires DiskInv(d, h) && d' == d.(manifest := next) && ManifestOk(next, h, d.tables)
    requires next.logNumber == d.manifest.logNumber && next.flushed == d.manifest.flushed
    ensures DiskInv(d', h)
  {
  }

  /** Moving the log number to the newest log leaves exactly that log to replay. */
  lemma FlushEditKeepsDisk(d: Disk, d': Disk, h: seq<Entry>, next: Manifest, memLog: nat, memStart: nat)
    requires DiskInv(d, h) && d' == d.(manifest := next) && ManifestOk(next, h, d.tables)
    requires memLog in d.logs && d.logBound == memLog + 1 && memStart <= |h| && d.logs[memLog] == h[memStart..]
    requires next.logNumber == memLog && next.flushed == memStart
    ensures DiskInv(d', h)
  {
    ReplayNewestOnly(d.logs, memLog);
  }

  lemma FlushedManifestOk(s: State, level: nat)
    requires Inv(s) && !s.crashed && s.background.Flushing? && GoodPlacement(s.current, s.background.table, level)
    ensures ManifestOk(Manifest(WithFile(s.current, level, s.background.table), s.memLog, s.nextFile,
                                s.lastSequence, s.memStart, s.floor), s.history, s.disk.tables)
  {
    var f := s.background.table;
    UptoSplits(s.history, s.flushed, s.memStart);
    FlushExtends(s.current, s.history, s.flushed, s.memStart, s.floor, f, level);
  }

  /** A flush in the middle of a compaction leaves the compaction a legal selection. */
  lemma FlushKeepsRunning(s: State, level: nat)
    requires Inv(s) && !s.crashed && s.background.Flushing? && GoodPlacement(s.current, s.background.table, level)
    requires RunningLeavesNoRoom(s) && s.compaction.Some?
    ensures CompactionOk(WithFile(s.current, level, s.background.table), s.compaction.value)
  {
    var c := s.compaction.value;
    UptoSplits(s.history, s.flushed, s.memStart);
    HistoryDistinct(s.history, s.memStart);
    FlushKeepsSelection(s.current, c.level, c.in0, c.in1, c.oldest, BaseTest(c.input, c.level), s.background.table, level);
  }

  /** An automatic compaction never makes a flush wait, however many flushes it has let through. */
  lemma AutomaticLeavesNoRoom(s: State)
    requires Inv(s) && !s.crashed && !s.background.Installing?
    requires s.compaction.Some? ==> Gapless(s.compaction.value.in0, s.compaction.value.in1)
    ensures RunningLeavesNoRoom(s)
  {
    if s.compaction.Some? {
      var c := s.compaction.value;
      assert CompactionOk(s.current, c);
      GaplessLeavesNoRoom(s.current, c.level, c.in0, c.in1);
    }
  }

  lemma FlushLogKeeps(s: State, s': State, level: nat)
    requires Inv(s) && !s.crashed && DoFlushLog(s, s', level)
    ensures Inv(s')
  {
    if s.compaction.Some? {
      FlushKeepsRunning(s, level);
    }
    FlushedManifestOk(s, level);
    FlushEditKeepsDisk(s.disk, s'.disk, s.history, s'.disk.manifest, s.memLog, s.memStart);
  }

  lemma FlushNothingKeeps(s: State, s': State)
    requires Inv(s) && !s.crashed && DoFlushNothing(s, s')
    ensures Inv(s')
  {
    assert s.flushed == s.memStart by {
      assert |s.history[s.flushed..s.memStart]| == 0;
    }
    FlushEditKeepsDisk(s.disk, s'.disk, s.history, s'.disk.manifest, s.memLog, s.memStart);
  }

  // ---------- Compacting ----------

  lemma CompactStartKeeps(s: State, s': State, level: nat, in0: set<File>, in1: set<File>)
    requires Inv(s) && !s.crashed && DoCompactStart(s, s', level, in0, in1)
    ensures Inv(s')
  {
  }

  lemma CompactWriteKeeps(s: State, s': State, f: File)
    requires Inv(s) && !s.crashed && DoCompactWrite(s, s', f)
    ensures Inv(s')
  {
    FreshTableKeepsAll(s, s', f);
  }

  lemma CompactedManifestOk(s: State, next: Manifest)
    requires Inv(s) && !s.crashed && s.background == Idle && s.compaction.Some?
    requires var c := s.compaction.value;
      && |c.input| == NUM_LEVELS && c.level + 1 < NUM_LEVELS && GoodOutputs(c.in0, c.in1, c.outs)
      && SetEntries(c.outs) == Survivors(SetEntries(c.in0 + c.in1), c.oldest, BaseTest(c.input, c.level))
      && next == Manifest(Installed(s.current, c.level, c.in0, c.in1, c.outs), s.logNumber, s.nextFile,
                          s.lastSequence, s.flushed, c.oldest)
    ensures ManifestOk(next, s.history, s.disk.tables)
  {
    var c := s.compaction.value;
    CompactionHolds(s.current, s.history, s.flushed, s.floor, c.level, c.in0, c.in1, c.oldest,
                    BaseTest(c.input, c.level), c.outs);
  }

  lemma CompactLogKeeps(s: State, s': State)
    requires Inv(s) && !s.crashed && DoCompactLog(s, s')
    ensures Inv(s')
  {
    CompactedManifestOk(s, s'.disk.manifest);
    EditKeepsDisk(s.disk, s'.disk, s.history, s'.disk.manifest);
  }

  lemma CompactAbandonKeeps(s: State, s': State)
    requires Inv(s) && !s.crashed && DoCompactAbandon(s, s')
    ensures Inv(s')
  {
  }

  lemma TrivialMoveKeeps(s: State, s': State, level: nat, f: File)
    requires Inv(s) && !s.crashed && DoTrivialMove(s, s', level, f)
    ensures Inv(s')
  {
    MoveHolds(s.current, s.history, s.flushed, s.floor, level, f);
    assert f in s.current[level];
    EditKeepsDisk(s.disk, s'.disk, s.history, s'.disk.manifest);
  }

  lemma InstallKeeps(s: State, s': State)
    requires Inv(s) && !s.crashed && DoInstall(s, s')
    ensures Inv(s')
  {
  }

  // ---------- Deleting obsolete files ----------

  lemma DeleteLogKeeps(s: State, s': State, n: nat)
    requires Inv(s) && !s.crashed && DoDeleteLog(s, s', n)
    ensures Inv(s')
  {
    ReplayAgrees(s.disk.logs, s'.disk.logs, s.disk.manifest.logNumber, s.disk.logBound);
  }

  lemma DeleteTableKeeps(s: State, s': State, n: nat)
    requires Inv(s) && !s.crashed && DoDeleteTable(s, s', n)
    ensures Inv(s')
  {
  }

  // ---------- Crash and recovery ----------

  lemma RecoveryLeftoverKeeps(s: State, s': State, n: nat, contents: seq<Entry>, log: nat)
    requires Inv(s) && s.crashed && DoRecoveryLeftover(s, s', n, contents, log)
    ensures Inv(s')
  {
    ReplayWithEmptyLog(s.disk.logs, s.disk.manifest.logNumber, s.disk.logBound, log);
    FreshTable(s.disk.manifest.levels, s.disk.tables, s.disk.manifest.nextFile, n, contents);
  }

  lemma {:induction false} AddedTablesOnDisk(tables: map<nat, seq<Entry>>, files: seq<File>)
    requires forall i, j :: 0 <= i < j < |files| ==> files[i].number < files[j].number
    ensures forall i :: 0 <= i < |files| ==> OnDisk(files[i], AddTables(tables, files))
    ensures forall n :: n in tables && (forall i :: 0 <= i < |files| ==> files[i].number != n) ==>
      n in AddTables(tables, files) && AddTables(tables, files)[n] == tables[n]
  {
    if files != [] {
      AddedTablesOnDisk(tables, files[..|files| - 1]);
      forall i | 0 <= i < |files| ensures OnDisk(files[i], AddTables(tables, files)) {
        if i < |files| - 1 {
          assert files[..|files| - 1][i] == files[i];
        }
      }
    }
  }

  lemma RecoveredFilesOnDisk(ls: Levels, tables: map<nat, seq<Entry>>, files: seq<File>, above: nat, below: nat)
    requires |ls| == NUM_LEVELS && FilesOnDisk(ls, tables, above) && above <= below
    requires forall i :: 0 <= i < |files| ==> above <= files[i].number < below
    requires forall i, j :: 0 <= i < j < |files| ==> files[i].number < files[j].number
    ensures FilesOnDisk(WithLevel0(ls, files), AddTables(tables, files), below)
  {
    AddedTablesOnDisk(tables, files);
  }

  lemma RecoveredSequence(h: seq<Entry>, flushed: nat, lastSequence: nat)
    requires HistoryOk(h) && flushed <= lastSequence <= |h|
    ensures var replayed := h[flushed..];
            var maxSequence := if replayed == [] then 0 else replayed[|replayed| - 1].key.sn;
            |h| == if lastSequence < maxSequence then maxSequence else lastSequence
  {
    if flushed < |h| {
      assert h[flushed..][|h| - flushed - 1] == h[|h| - 1];
    }
  }

  lemma NothingRecoveredYet(ls: Levels, h: seq<Entry>, p: nat, floor: nat, files: seq<File>, cuts: seq<nat>)
    requires LevelsHold(ls, h, p, floor) && cuts != [] && cuts[0] == 0
    ensures RecoveredTo(ls, h, p, floor, files, cuts, 0)
  {
    NoRecoveredTables(ls, files);
    SameLevels(ls, WithLevel0(ls, files[..0]), h, p, p + cuts[0], floor);
  }

  lemma SameLevels(ls: Levels, ls': Levels, h: seq<Entry>, p: nat, p': nat, floor: nat)
    requires LevelsHold(ls, h, p, floor) && ls == ls' && p == p'
    ensures LevelsHold(ls', h, p', floor)
  {
  }

  lemma EverythingRecovered(ls: Levels, h: seq<Entry>, p: nat, floor: nat, files: seq<File>, cuts: seq<nat>)
    requires |ls| == NUM_LEVELS && |cuts| == |files| + 1 && p + cuts[|files|] == |h|
    requires RecoveredTo(ls, h, p, floor, files, cuts, |files|)
    ensures LevelsHold(WithLevel0(ls, files), h, |h|, floor)
  {
    assert files[..|files|] == files;
  }

  lemma RecoveredLevels(ls: Levels, h: seq<Entry>, p: nat, floor: nat, files: seq<File>, cuts: seq<nat>, above: nat)
    requires HistoryOk(h) && LevelsHold(ls, h, p, floor)
    requires forall g :: g in ls[0] ==> g.number < above
    requires ReplayTables(h[p..], files, cuts, above)
    ensures LevelsHold(WithLevel0(ls, files), h, |h|, floor)
  {
    NothingRecoveredYet(ls, h, p, floor, files, cuts);
    RecoveredLevelsHold(ls, h, p, floor, files, cuts, above, |files|);
    EverythingRecovered(ls, h, p, floor, files, cuts);
  }

  /** Recovery rebuilds every logged write, whatever the crash interrupted. */
  lemma RecoverKeeps(s: State, s': State, newTables: seq<File>, cuts: seq<nat>, newLog: nat)
    requires Inv(s) && s.crashed && DoRecover(s, s', newTables, cuts, newLog)
    ensures Inv(s') && s'.lastSequence == |s.history|
  {
    var d, m, h := s.disk, s.disk.manifest, s.history;
    RecoveredSequence(h, m.flushed, m.lastSequence);
    RecoveredLevels(m.levels, h, m.flushed, m.floor, newTables, cuts, m.nextFile);
    RecoveredFilesOnDisk(m.levels, d.tables, newTables, m.nextFile, newLog + 1);
    ReplayNewestOnly(s'.disk.logs, newLog);
    assert h[|h|..] == [];
    assert h[|h|..|h|] == [];
  }

  lemma InitHolds(s: State)
    requires Init(s) && s.lastSequence == 0
    ensures Inv(s)
  {
    var ls := s.disk.manifest.levels;
    assert Entries(ls) == {} == Upto([], 0);
  }

  // ---------- Whole runs ----------

  lemma WriterStepKeeps(s: State, s': State, step: Step)
    requires Inv(s) && !s.crashed && NextWriter(s, s', step)
    ensures Inv(s')
  {
    match step
    case AppendLog(batch) => AppendLogKeeps(s, s', batch);
    case InsertNext => InsertNextKeeps(s, s');
    case Publish => PublishKeeps(s, s');
    case SwitchMemtable => SwitchMemtableKeeps(s, s');
    case TakeSnapshot => TakeSnapshotKeeps(s, s');
    case ReleaseSnapshot(i) => ReleaseSnapshotKeeps(s, s', i);
    case PinVersion => PinKeeps(s, s');
    case UnpinVersion(i) => UnpinKeeps(s, s', i);
  }

  lemma BackgroundStepKeeps(s: State, s': State, step: Step)
    requires Inv(s) && !s.crashed && NextBackground(s, s', step)
    ensures Inv(s')
  {
    match step
    case FlushWrite(f) => FlushWriteKeeps(s, s', f);
    case FlushLog(level) => FlushLogKeeps(s, s', level);
    case FlushNothing => FlushNothingKeeps(s, s');
    case CompactStart(level, in0, in1) => CompactStartKeeps(s, s', level, in0, in1);
    case CompactWrite(f) => CompactWriteKeeps(s, s', f);
    case CompactLog => CompactLogKeeps(s, s');
    case CompactAbandon => CompactAbandonKeeps(s, s');
    case TrivialMove(level, f) => TrivialMoveKeeps(s, s', level, f);
    case Install => InstallKeeps(s, s');
    case DeleteLog(n) => DeleteLogKeeps(s, s', n);
    case DeleteTable(n) => DeleteTableKeeps(s, s', n);
  }

  lemma DownStepKeeps(s: State, s': State, step: Step)
    requires Inv(s) && s.crashed && NextDown(s, s', step)
    ensures Inv(s') && (step.Recover? ==> s'.lastSequence == |s'.history|)
  {
    match step
    case RecoveryLeftover(n, contents, log) => RecoveryLeftoverKeeps(s, s', n, contents, log);
    case Recover(newTables, cuts, newLog) => RecoverKeeps(s, s', newTables, cuts, newLog);
  }

  /** Every step of the database keeps the invariant. */
  lemma StepKeepsInv(s: State, s': State, step: Step)
    requires Inv(s) && Next(s, s', step)
    ensures Inv(s')
  {
    if s.crashed {
      DownStepKeeps(s, s', step);
    } else if IsWriterStep(step) {
      WriterStepKeeps(s, s', step);
    } else if !step.Crash? {
      BackgroundStepKeeps(s, s', step);
    }
  }

  ghost predicate OnlyAdds(s: State, s': State) {
    s.history <= s'.history && s.lastSequence <= s'.lastSequence
  }

  lemma WriterStepOnlyAdds(s: State, s': State, step: Step)
    requires NextWriter(s, s', step)
    ensures OnlyAdds(s, s')
  {
  }

  lemma BackgroundStepOnlyAdds(s: State, s': State, step: Step)
    requires NextBackground(s, s', step)
    ensures OnlyAdds(s, s')
  {
  }

  lemma DownStepOnlyAdds(s: State, s': State, step: Step)
    requires Inv(s) && s.crashed && NextDown(s, s', step)
    ensures OnlyAdds(s, s')
  {
    DownStepKeeps(s, s', step);
  }

  lemma StepOnlyAddsWrites(s: State, s': State, step: Step)
    requires Inv(s) && Next(s, s', step)
    ensures OnlyAdds(s, s')
  {
    if s.crashed {
      DownStepOnlyAdds(s, s', step);
    } else if IsWriterStep(step) {
      WriterStepOnlyAdds(s, s', step);
    } else if !step.Crash? {
      BackgroundStepOnlyAdds(s, s', step);
    }
  }

  ghost predicate Run(states: seq<State>, steps: seq<Step>) {
    && |states| == |steps| + 1 && Init(states[0]) && states[0].lastSequence == 0
    && forall i {:trigger StepAt(states, steps, i)} :: 0 <= i < |steps| ==> StepAt(states, steps, i)
  }

  ghost predicate StepAt(states: seq<State>, steps: seq<Step>, i: nat)
    requires i < |steps| && |states| == |steps| + 1
  {
    Next(states[i], states[i + 1], steps[i])
  }

  lemma {:induction false} RunKeepsInv(states: seq<State>, steps: seq<Step>, n: nat)
    requires Run(states, steps) && n < |states|
    ensures Inv(states[n])
  {
    if n == 0 {
      InitHolds(states[0]);
    } else {
      RunKeepsInv(states, steps, n - 1);
      assert StepAt(states, steps, n - 1);
      StepKeepsInv(states[n - 1], states[n], steps[n - 1]);
    }
  }

  lemma {:induction false} RunOnlyAdds(states: seq<State>, steps: seq<Step>, i: nat, j: nat)
    requires Run(states, steps) && i <= j < |states|
    ensures OnlyAdds(states[i], states[j])
    decreases j
  {
    if i < j {
      RunOnlyAdds(states, steps, i, j - 1);
      RunStepOnlyAdds(states, steps, j - 1);
      AddingIsTransitive(states[i], states[j - 1], states[j]);
    }
  }

  lemma AddingIsTransitive(a: State, b: State, c: State)
    requires OnlyAdds(a, b) && OnlyAdds(b, c)
    ensures OnlyAdds(a, c)
  {
  }

  lemma PrefixesGrow(a: State, b: State)
    requires OnlyAdds(a, b) && a.lastSequence <= |a.history| && b.lastSequence <= |b.history|
    ensures a.history[..a.lastSequence] <= b.history[..b.lastSequence]
  {
  }

  lemma HistoryCoversAcknowledged(states: seq<State>, steps: seq<Step>, n: nat)
    requires Run(states, steps) && n < |states|
    ensures states[n].lastSequence <= |states[n].history|
  {
    RunKeepsInv(states, steps, n);
  }

  lemma RunStepOnlyAdds(states: seq<State>, steps: seq<Step>, n: nat)
    requires Run(states, steps) && n < |steps|
    ensures OnlyAdds(states[n], states[n + 1])
  {
    RunKeepsInv(states, steps, n);
    assert StepAt(states, steps, n);
    StepOnlyAddsWrites(states[n], states[n + 1], steps[n]);
  }

  /** What is acknowledged stays: the writes visible at any moment of a run are a prefix of the
      writes visible at any later moment, crashes and recoveries in between included. */
  lemma AcknowledgedWritesSurvive(states: seq<State>, steps: seq<Step>, i: nat, j: nat)
    requires Run(states, steps) && i <= j < |states|
    ensures states[i].lastSequence <= |states[i].history| && states[j].lastSequence <= |states[j].history|
    ensures states[i].history[..states[i].lastSequence] <= states[j].history[..states[j].lastSequence]
  {
    HistoryCoversAcknowledged(states, steps, i);
    HistoryCoversAcknowledged(states, steps, j);
    RunOnlyAdds(states, steps, i, j);
    PrefixesGrow(states[i], states[j]);
  }

  // ---------- Reads ----------

  lemma NewerLayerFirst(h: seq<Entry>, p: nat, q: nat, u: UserKey, snapshot: nat)
    requires HistoryOk(h) && p <= q <= |h|
    ensures var layer := EntrySet(h[p..q]);
            Read(Upto(h, q), u, snapshot) ==
              if SomeVisible(layer, u, snapshot) then Read(layer, u, snapshot) else Read(Upto(h, p), u, snapshot)
  {
    UptoSplits(h, p, q);
    HistoryDistinct(h, q);
    ReadOfUnion(Between(h, p, q), Upto(h, p), u, snapshot);
  }

  /** Entries inserted but not yet published are invisible at every readable snapshot. */
  lemma UnpublishedIsInvisible(h: seq<Entry>, last: nat, k: nat, u: UserKey, snapshot: nat)
    requires HistoryOk(h) && snapshot <= last <= k <= |h|
    ensures Read(Upto(h, k), u, snapshot) == Read(Upto(h, last), u, snapshot)
  {
    UptoSplits(h, last, k);
    NewerLayerFirst(h, last, k, u, snapshot);
  }

  lemma MemtablesHoldTheRest(h: seq<Entry>, mem: seq<Entry>, imm: Option<seq<Entry>>, writing: seq<Entry>, inserted: nat,
                             last: nat, flushed: nat, memStart: nat, u: UserKey, snapshot: nat)
    requires HistoryOk(h) && MemtablesOk(h, mem, imm, writing, inserted, last, flushed, memStart) && snapshot <= last
    ensures var newest := EntrySet(mem);
            var next := if imm.Some? then EntrySet(imm.value) else {};
            Read(Upto(h, last), u, snapshot) ==
              if SomeVisible(newest, u, snapshot) then Read(newest, u, snapshot)
              else if SomeVisible(next, u, snapshot) then Read(next, u, snapshot)
              else Read(Upto(h, flushed), u, snapshot)
  {
    UnpublishedIsInvisible(h, last, last + inserted, u, snapshot);
    NewerLayerFirst(h, memStart, last + inserted, u, snapshot);
    ImmutableHoldsTheRest(h, imm, flushed, memStart, u, snapshot);
  }

  lemma ImmutableHoldsTheRest(h: seq<Entry>, imm: Option<seq<Entry>>, flushed: nat, memStart: nat, u: UserKey, snapshot: nat)
    requires HistoryOk(h) && flushed <= memStart <= |h|
    requires if imm.Some? then imm.value == h[flushed..memStart] else flushed == memStart
    ensures var next := if imm.Some? then EntrySet(imm.value) else {};
            Read(Upto(h, memStart), u, snapshot) ==
              if SomeVisible(next, u, snapshot) then Read(next, u, snapshot) else Read(Upto(h, flushed), u, snapshot)
  {
    if imm.Some? {
      NewerLayerFirst(h, flushed, memStart, u, snapshot);
    }
  }

  /** The three places DBImpl::Get looks, and what they hold at a readable snapshot. */
  lemma ReadsGoThroughLayers(s: State, u: UserKey, snapshot: nat)
    requires Inv(s) && !s.crashed && s.floor <= snapshot <= s.lastSequence
    ensures var mem := EntrySet(s.mem);
            var imm := if s.imm.Some? then EntrySet(s.imm.value) else {};
            Read(Upto(s.history, s.lastSequence), u, snapshot) ==
              if SomeVisible(mem, u, snapshot) then Read(mem, u, snapshot)
              else if SomeVisible(imm, u, snapshot) then Read(imm, u, snapshot)
              else Read(Entries(s.current), u, snapshot)
  {
    MemtablesHoldTheRest(s.history, s.mem, s.imm, s.writing, s.inserted, s.lastSequence, s.flushed, s.memStart, u, snapshot);
  }

  /** DBImpl::Get: memtable, immutable memtable, then the current version.  At the latest
      sequence number and at every live snapshot it answers from the acknowledged writes alone:
      no part of a group still being inserted is seen, and nothing a compaction dropped is
      missed. */
  method Get(ghost s: State, mem: seq<Entry>, imm: Option<seq<Entry>>, version: Version, u: UserKey, snapshot: nat)
    returns (r: Answer)
    requires Inv(s) && !s.crashed
    requires Sorted(mem) && EntrySet(mem) == EntrySet(s.mem)
    requires imm.Some? == s.imm.Some? && (imm.Some? ==> Sorted(imm.value) && EntrySet(imm.value) == EntrySet(s.imm.value))
    requires version.Valid() && version.View() == s.current
    requires snapshot == s.lastSequence || snapshot in s.snapshots
    ensures r == Read(Upto(s.history, s.lastSequence), u, snapshot)
  {
    ReadsGoThroughLayers(s, u, snapshot);
    EntriesAreDistinct(s);
    var found := SearchSorted(mem, u, snapshot);
    if found.Some? {
      ReadAtHit(EntrySet(mem), u, snapshot, found.value);
      return AnswerOf(found.value);
    }
    if imm.Some? {
      found := SearchSorted(imm.value, u, snapshot);
      if found.Some? {
        ReadAtHit(EntrySet(imm.value), u, snapshot, found.value);
        return AnswerOf(found.value);
      }
    }
    r := version.Get(u, snapshot);
  }

  lemma EntriesAreDistinct(s: State)
    requires Inv(s) && !s.crashed
    ensures Distinct(Entries(s.current)) && Distinct(EntrySet(s.mem))
    ensures s.imm.Some? ==> Distinct(EntrySet(s.imm.value))
  {
    HistoryDistinct(s.history, |s.history|);
    assert Entries(s.current) <= Upto(s.history, |s.history|);
    assert EntrySet(s.mem) <= Upto(s.history, |s.history|);
    assert s.imm.Some? ==> EntrySet(s.imm.value) <= Upto(s.history, |s.history|);
  }

  /** Whatever is deleted, the files of the current version, of every version a reader holds and
      of the version a running compaction reads are on disk, and so are its outputs so far. */
  lemma FilesInUseExist(states: seq<State>, steps: seq<Step>, n: nat)
    requires Run(states, steps) && n < |states| && !states[n].crashed
    ensures forall l, f :: 0 <= l < |states[n].current| && f in states[n].current[l] ==> OnDisk(f, states[n].disk.tables)
    ensures forall p, l, f :: 0 <= p < |states[n].pinned| && 0 <= l < |states[n].pinned[p]| && f in states[n].pinned[p][l] ==>
      OnDisk(f, states[n].disk.tables)
    ensures CompactionFilesOk(states[n].compaction, states[n].disk.tables, states[n].nextFile)
  {
    RunKeepsInv(states, steps, n);
  }
}
