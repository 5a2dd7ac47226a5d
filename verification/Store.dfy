/** The database as a state machine over an abstract disk: writes, memtable switches, flushes,
    compactions, file deletion, crashes and recovery (db/db_impl.cc; db/version_set.cc,
    LogAndApply and Recover).  Appends that returned and the MANIFEST record of an installed edit
    are assumed to survive a crash. */
module Store {
  import opened Keys
  import opened Reads
  import opened Versions
  import opened Inputs
  import opened DropRule
  import opened Installs

  /** What the MANIFEST says after replaying its edits.  `flushed` and `floor` are history
      variables: how many writes the tables cover, and from which snapshot on they are exact. */
  datatype Manifest = Manifest(levels: Levels, logNumber: nat, nextFile: nat, lastSequence: nat,
                               flushed: nat, floor: nat)

  /** Log files hold complete records only; `logBound` is above every log number. */
  datatype Disk = Disk(logs: map<nat, seq<Entry>>, logBound: nat, tables: map<nat, seq<Entry>>, manifest: Manifest)

  /** What the one background thread has in hand.  It is idle between two steps of a compaction,
      and may then flush a memtable or delete files. */
  datatype Background =
    | Idle
    | Flushing(table: File)
    | Installing(next: Manifest, clearsImm: bool)

  /** A compaction under way: its inputs, the oldest snapshot and the version when it started,
      and the outputs written so far. */
  datatype Compaction = Compaction(level: nat, in0: set<File>, in1: set<File>, oldest: nat, input: Levels, outs: set<File>)

  /** `history` lists every entry ever logged, in sequence order; `flushed`, `memStart` and
      `floor` place the tables, the immutable memtable and the memtable in it. */
  datatype State = State(
    disk: Disk, history: seq<Entry>, crashed: bool,
    mem: seq<Entry>, imm: Option<seq<Entry>>, memLog: nat,
    current: Levels, logNumber: nat, nextFile: nat, lastSequence: nat,
    writing: seq<Entry>, inserted: nat,
    snapshots: seq<nat>, pinned: seq<Levels>, background: Background, compaction: Option<Compaction>,
    flushed: nat, memStart: nat, floor: nat)

  ghost function Upto(h: seq<Entry>, p: nat): set<Entry>
    requires p <= |h|
  {
    set i | 0 <= i < p :: h[i]
  }

  ghost function Between(h: seq<Entry>, p: nat, q: nat): set<Entry>
    requires p <= q <= |h|
  {
    set i | p <= i < q :: h[i]
  }

  /** RecoverLogFile over the kept logs in ascending order: every record, in order. */
  function Replay(logs: map<nat, seq<Entry>>, from: nat, upTo: nat): seq<Entry>
    decreases upTo
  {
    if upTo <= from then []
    else Replay(logs, from, upTo - 1) + if upTo - 1 in logs then logs[upTo - 1] else []
  }

  /** The table built from a run of entries: the same entries in key order. */
  ghost predicate TableOf(f: File, es: set<Entry>) {
    f.Ok() && EntrySet(f.entries) == es
  }

  /** PickLevelForMemTableOutput's promise. */
  ghost predicate GoodPlacement(ls: Levels, f: File, level: nat) {
    && |ls| == NUM_LEVELS && level <= MAX_MEM_COMPACT_LEVEL
    && (level > 0 ==> forall l, g :: 0 <= l <= level && g in ls[l] ==>
          !g.Overlaps(Some(f.smallest.user), Some(f.largest.user)))
  }

  ghost function WithFile(ls: Levels, level: nat, f: File): Levels
    requires level < |ls|
  {
    ls[level := ls[level] + {f}]
  }

  function OldestSnapshot(s: State): nat {
    if s.snapshots == [] then s.lastSequence else s.snapshots[0]
  }

  ghost predicate InLevels(ls: Levels, number: nat) {
    exists l, f :: 0 <= l < |ls| && f in ls[l] && f.number == number
  }

  /** pending_outputs_ and AddLiveFiles: the outputs of the running compaction, and the files of
      the current version, of those readers hold, and of the one the compaction reads. */
  ghost predicate Live(s: State, number: nat) {
    || InLevels(s.current, number)
    || (exists p :: 0 <= p < |s.pinned| && InLevels(s.pinned[p], number))
    || (s.compaction.Some? && InLevels(s.compaction.value.input, number))
    || (s.compaction.Some? && exists f :: f in s.compaction.value.outs && f.number == number)
  }

  // ---------- Steps ----------

  datatype Step =
    | AppendLog(batch: seq<Entry>)
    | InsertNext
    | Publish
    | SwitchMemtable
    | TakeSnapshot
    | ReleaseSnapshot(i: nat)
    | PinVersion
    | UnpinVersion(i: nat)
    | FlushWrite(f: File)
    | FlushLog(level: nat)
    | FlushNothing
    | CompactStart(level: nat, in0: set<File>, in1: set<File>)
    | CompactWrite(f: File)
    | CompactLog
    | CompactAbandon
    | TrivialMove(level: nat, f: File)
    | Install
    | DeleteLog(n: nat)
    | DeleteTable(n: nat)
    | Crash
    | RecoveryLeftover(n: nat, contents: seq<Entry>, log: nat)
    | Recover(newTables: seq<File>, cuts: seq<nat>, newLog: nat)

  /** Write, first half: the group's batch gets the next sequence numbers and goes to the log. */
  ghost predicate DoAppendLog(s: State, s': State, batch: seq<Entry>) {
    && s.writing == [] && batch != [] && s.memLog in s.disk.logs
    && (forall i :: 0 <= i < |batch| ==> batch[i].key.sn == s.lastSequence + 1 + i)
    && s' == s.(history := s.history + batch, writing := batch, inserted := 0,
                disk := s.disk.(logs := s.disk.logs[s.memLog := s.disk.logs[s.memLog] + batch]))
  }

  /** InsertInto, one entry at a time: readers run between the insertions. */
  ghost predicate DoInsertNext(s: State, s': State) {
    && s.inserted < |s.writing|
    && s' == s.(mem := s.mem + [s.writing[s.inserted]], inserted := s.inserted + 1)
  }

  /** SetLastSequence: the group becomes visible, and its writers are acknowledged. */
  ghost predicate DoPublish(s: State, s': State) {
    && s.writing != [] && s.inserted == |s.writing|
    && s' == s.(lastSequence := s.lastSequence + |s.writing|, writing := [], inserted := 0)
  }

  /** MakeRoomForWrite: a new log and a new memtable; the old memtable becomes immutable. */
  ghost predicate DoSwitchMemtable(s: State, s': State) {
    && s.writing == [] && s.imm.None?
    && s' == s.(mem := [], imm := Some(s.mem), memLog := s.nextFile, nextFile := s.nextFile + 1,
                memStart := s.lastSequence,
                disk := s.disk.(logs := s.disk.logs[s.nextFile := []], logBound := s.nextFile + 1))
  }

  ghost predicate DoTakeSnapshot(s: State, s': State) {
    s' == s.(snapshots := s.snapshots + [s.lastSequence])
  }

  ghost predicate DoReleaseSnapshot(s: State, s': State, i: nat) {
    i < |s.snapshots| && s' == s.(snapshots := s.snapshots[..i] + s.snapshots[i + 1..])
  }

  /** An iterator or a Get holds the current version. */
  ghost predicate DoPinVersion(s: State, s': State) {
    s' == s.(pinned := s.pinned + [s.current])
  }

  ghost predicate DoUnpinVersion(s: State, s': State, i: nat) {
    i < |s.pinned| && s' == s.(pinned := s.pinned[..i] + s.pinned[i + 1..])
  }

  /** WriteLevel0Table: the immutable memtable becomes a table under a fresh number, also in the
      middle of a compaction. */
  ghost predicate DoFlushWrite(s: State, s': State, f: File) {
    && s.background == Idle && s.imm.Some? && s.imm.value != []
    && f.number == s.nextFile && TableOf(f, EntrySet(s.imm.value))
    && s' == s.(nextFile := s.nextFile + 1, background := Flushing(f),
                disk := s.disk.(tables := s.disk.tables[f.number := f.entries]))
  }

  ghost predicate LogEdit(s: State, s': State, next: Manifest, clearsImm: bool) {
    s' == s.(background := Installing(next, clearsImm), disk := s.disk.(manifest := next))
  }

  /** No room between the inputs of a running compaction, as automatic selections guarantee. */
  ghost predicate RunningLeavesNoRoom(s: State) {
    s.compaction.Some? && s.compaction.value.level + 1 < NUM_LEVELS ==>
      NoRoomBetween(s.current, s.compaction.value.level, s.compaction.value.in0)
  }

  /** CompactMemTable: the edit adds the table and moves the log number to the current log. */
  ghost predicate DoFlushLog(s: State, s': State, level: nat) {
    && s.background.Flushing? && GoodPlacement(s.current, s.background.table, level) && RunningLeavesNoRoom(s)
    && LogEdit(s, s', Manifest(WithFile(s.current, level, s.background.table), s.memLog, s.nextFile,
                               s.lastSequence, s.memStart, s.floor), true)
  }

  /** CompactMemTable on an empty memtable: no table, but the log number still moves. */
  ghost predicate DoFlushNothing(s: State, s': State) {
    && s.background == Idle && s.imm == Some([])
    && LogEdit(s, s', Manifest(s.current, s.memLog, s.nextFile, s.lastSequence, s.memStart, s.floor), true)
  }

  ghost predicate DoCompactStart(s: State, s': State, level: nat, in0: set<File>, in1: set<File>) {
    && s.background == Idle && s.compaction.None? && |s.current| == NUM_LEVELS && level + 1 < NUM_LEVELS
    && Selected(s.current, level, in0, in1)
    && UncoversNothing(s.current, level, in0, in1, OldestSnapshot(s), BaseTest(s.current, level))
    && s' == s.(compaction := Some(Compaction(level, in0, in1, OldestSnapshot(s), s.current, {})))
  }

  /** No marker the compaction drops covers a value that stays behind. */
  ghost predicate UncoversNothing(ls: Levels, level: nat, in0: set<File>, in1: set<File>, m: nat, base: UserKey -> bool)
    requires |ls| == NUM_LEVELS && level + 1 < NUM_LEVELS
  {
    NoValueUncovered(Untouched(ls, level, in0, in1), SetEntries(in0 + in1), m, base)
  }

  ghost predicate DoCompactWrite(s: State, s': State, f: File) {
    && s.background == Idle && s.compaction.Some? && f.number == s.nextFile && f.Ok()
    && s' == s.(nextFile := s.nextFile + 1,
                compaction := Some(s.compaction.value.(outs := s.compaction.value.outs + {f})),
                disk := s.disk.(tables := s.disk.tables[f.number := f.entries]))
  }

  /** InstallCompactionResults: the outputs hold what the drop rule keeps, by a base-level test on
      the version the compaction started from; the edit applies to the current version. */
  ghost predicate DoCompactLog(s: State, s': State) {
    && s.background == Idle && s.compaction.Some?
    && var c := s.compaction.value;
       && |s.current| == NUM_LEVELS && |c.input| == NUM_LEVELS && c.level + 1 < NUM_LEVELS
       && GoodOutputs(c.in0, c.in1, c.outs)
       && SetEntries(c.outs) == Survivors(SetEntries(c.in0 + c.in1), c.oldest, BaseTest(c.input, c.level))
       && LogEdit(s, s', Manifest(Installed(s.current, c.level, c.in0, c.in1, c.outs), s.logNumber, s.nextFile,
                                  s.lastSequence, s.flushed, c.oldest), false)
  }

  /** CleanupCompaction after an error: what was written so far is no longer pending. */
  ghost predicate DoCompactAbandon(s: State, s': State) {
    s.background == Idle && s.compaction.Some? && s' == s.(compaction := None)
  }

  /** BackgroundCompaction's trivial move of one file to the next level. */
  ghost predicate DoTrivialMove(s: State, s': State, level: nat, f: File) {
    && s.background == Idle && s.compaction.None? && |s.current| == NUM_LEVELS && level + 1 < NUM_LEVELS
    && Selected(s.current, level, {f}, {})
    && LogEdit(s, s', Manifest(Installed(s.current, level, {f}, {}, {f}), s.logNumber, s.nextFile,
                               s.lastSequence, s.flushed, s.floor), false)
  }

  /** LogAndApply, after the MANIFEST write: the new version becomes current.  An edit of a flush
      leaves a running compaction running. */
  ghost predicate DoInstall(s: State, s': State) {
    && s.background.Installing?
    && var b := s.background;
       s' == s.(current := b.next.levels, logNumber := b.next.logNumber, flushed := b.next.flushed,
                floor := b.next.floor, imm := if b.clearsImm then None else s.imm, background := Idle,
                compaction := if b.clearsImm then s.compaction else None)
  }

  /** DeleteObsoleteFiles, one file at a time; after a nested flush it runs in the middle of a
      compaction. */
  ghost predicate DoDeleteLog(s: State, s': State, n: nat) {
    && s.background == Idle && n < s.logNumber
    && s' == s.(disk := s.disk.(logs := s.disk.logs - {n}))
  }

  ghost predicate DoDeleteTable(s: State, s': State, n: nat) {
    && s.background == Idle && !Live(s, n)
    && s' == s.(disk := s.disk.(tables := s.disk.tables - {n}))
  }

  ghost predicate DoCrash(s: State, s': State) {
    s' == s.(crashed := true)
  }

  /** What a recovery that itself crashes may leave: a table under a number the MANIFEST does not
      use yet, and an empty log numbered above every kept log. */
  ghost predicate DoRecoveryLeftover(s: State, s': State, n: nat, contents: seq<Entry>, log: nat) {
    && n >= s.disk.manifest.nextFile && log >= s.disk.logBound && log >= s.disk.manifest.logNumber
    && s' == s.(disk := s.disk.(tables := s.disk.tables[n := contents],
                                logs := s.disk.logs[log := []], logBound := log + 1))
  }

  ghost predicate HoldsCut(replayed: seq<Entry>, f: File, cuts: seq<nat>, i: nat)
    requires i + 1 < |cuts|
  {
    cuts[i] < cuts[i + 1] <= |replayed| && TableOf(f, EntrySet(replayed[cuts[i]..cuts[i + 1]]))
  }

  /** The tables written while replaying: consecutive runs of the replayed entries, each put in
      level 0 under a number above all numbers before it. */
  ghost predicate ReplayTables(replayed: seq<Entry>, files: seq<File>, cuts: seq<nat>, above: nat) {
    && |cuts| == |files| + 1 && cuts[0] == 0 && cuts[|files|] == |replayed|
    && (forall i :: 0 <= i < |files| ==> files[i].number >= above && HoldsCut(replayed, files[i], cuts, i))
    && (forall i, j :: 0 <= i < j < |files| ==> files[i].number < files[j].number)
  }

  ghost function WithLevel0(ls: Levels, files: seq<File>): Levels
    requires |ls| == NUM_LEVELS
  {
    ls[0 := ls[0] + FileSet(files)]
  }

  function AddTables(tables: map<nat, seq<Entry>>, files: seq<File>): map<nat, seq<Entry>> {
    if files == [] then tables
    else AddTables(tables, files[..|files| - 1])[files[|files| - 1].number := files[|files| - 1].entries]
  }

  /** Recover and DB::Open: read the MANIFEST, replay the kept logs into level-0 tables, start a
      fresh log, and log one edit that makes all of it current. */
  ghost predicate DoRecover(s: State, s': State, newTables: seq<File>, cuts: seq<nat>, newLog: nat) {
    var d := s.disk;
    var m := d.manifest;
    var replayed := Replay(d.logs, m.logNumber, d.logBound);
    && s.crashed && |m.levels| == NUM_LEVELS
    && ReplayTables(replayed, newTables, cuts, m.nextFile)
    && newLog >= d.logBound && newLog >= m.logNumber && newLog >= m.nextFile
    && (forall i :: 0 <= i < |newTables| ==> newTables[i].number < newLog)
    && var maxSequence := if replayed == [] then 0 else replayed[|replayed| - 1].key.sn;
       var last := if m.lastSequence < maxSequence then maxSequence else m.lastSequence;
       var levels := WithLevel0(m.levels, newTables);
       var next := Manifest(levels, newLog, newLog + 1, last, |s.history|, m.floor);
       s' == State(
         Disk(d.logs[newLog := []], newLog + 1, AddTables(d.tables, newTables), next),
         s.history, false, [], None, newLog, levels, newLog, newLog + 1, last, [], 0, [], [], Idle, None,
         |s.history|, |s.history|, m.floor)
  }

  predicate IsWriterStep(step: Step) {
    || step.AppendLog? || step.InsertNext? || step.Publish? || step.SwitchMemtable?
    || step.TakeSnapshot? || step.ReleaseSnapshot? || step.PinVersion? || step.UnpinVersion?
  }

  /** Steps of the threads that call the database. */
  ghost predicate NextWriter(s: State, s': State, step: Step) {
    match step
    case AppendLog(batch) => DoAppendLog(s, s', batch)
    case InsertNext => DoInsertNext(s, s')
    case Publish => DoPublish(s, s')
    case SwitchMemtable => DoSwitchMemtable(s, s')
    case TakeSnapshot => DoTakeSnapshot(s, s')
    case ReleaseSnapshot(i) => DoReleaseSnapshot(s, s', i)
    case PinVersion => DoPinVersion(s, s')
    case UnpinVersion(i) => DoUnpinVersion(s, s', i)
    case _ => false
  }

  /** Steps of the background thread. */
  ghost predicate NextBackground(s: State, s': State, step: Step) {
    match step
    case FlushWrite(f) => DoFlushWrite(s, s', f)
    case FlushLog(level) => DoFlushLog(s, s', level)
    case FlushNothing => DoFlushNothing(s, s')
    case CompactStart(level, in0, in1) => DoCompactStart(s, s', level, in0, in1)
    case CompactWrite(f) => DoCompactWrite(s, s', f)
    case CompactLog => DoCompactLog(s, s')
    case CompactAbandon => DoCompactAbandon(s, s')
    case TrivialMove(level, f) => DoTrivialMove(s, s', level, f)
    case Install => DoInstall(s, s')
    case DeleteLog(n) => DoDeleteLog(s, s', n)
    case DeleteTable(n) => DoDeleteTable(s, s', n)
    case _ => false
  }

  /** Steps of a process that has crashed and is being started again. */
  ghost predicate NextDown(s: State, s': State, step: Step) {
    match step
    case RecoveryLeftover(n, contents, log) => DoRecoveryLeftover(s, s', n, contents, log)
    case Recover(newTables, cuts, newLog) => DoRecover(s, s', newTables, cuts, newLog)
    case _ => false
  }

  ghost predicate Next(s: State, s': State, step: Step) {
    if s.crashed then NextDown(s, s', step)
    else if IsWriterStep(step) then NextWriter(s, s', step)
    else if step.Crash? then DoCrash(s, s')
    else NextBackground(s, s', step)
  }

  /** NewDB: an empty database with log number 0; the first Open recovers from it. */
  ghost predicate Init(s: State) {
    && s.crashed && s.history == []
    && s.disk == Disk(map[], 0, map[], Manifest(seq(NUM_LEVELS, _ => {}), 0, 2, 0, 0, 0))
  }
}
