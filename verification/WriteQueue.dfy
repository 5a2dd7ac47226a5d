/** Group commit (db/db_impl.cc: Write, BuildBatchGroup; db/write_batch.cc: Append): writers queue up,
    the one in front writes for a group of them, and the others find their write done.

    The steps are the stretches during which the mutex is held, and, in between, the single actions of
    the writer in front; writers join the queue and readers read at any time. */
module WriteQueue {
  import opened Keys

  datatype Op = Put(key: UserKey, value: Bytes) | Delete(key: UserKey)

  /** One call of Write: `batch` is null for the calls that force a memtable switch. */
  datatype Request = Request(id: nat, batch: Option<seq<Op>>, bytes: nat, sync: bool)

  datatype Status = Ok | Failed

  const SMALL: nat := 0x20000
  const LIMIT: nat := 0x100000

  function Ops(r: Request): seq<Op> {
    if r.batch.None? then [] else r.batch.value
  }

  function OpsOf(rs: seq<Request>): seq<Op> {
    if rs == [] then [] else OpsOf(rs[..|rs| - 1]) + Ops(rs[|rs| - 1])
  }

  function Bytes(r: Request): nat {
    if r.batch.None? then 0 else r.bytes
  }

  function BytesOf(rs: seq<Request>): nat {
    if rs == [] then 0 else BytesOf(rs[..|rs| - 1]) + Bytes(rs[|rs| - 1])
  }

  function MaxSize(first: Request): nat {
    if first.bytes <= SMALL then first.bytes + SMALL else LIMIT
  }

  /** The writer in front takes on the `k` requests at the head of the queue. */
  ghost predicate IsGroup(queue: seq<Request>, k: nat) {
    && 0 < k <= |queue|
    && (forall i :: 0 < i < k ==> !queue[i].sync || queue[0].sync)
    && (forall i :: 1 < i <= k && queue[i - 1].batch.Some? ==> BytesOf(queue[..i]) <= MaxSize(queue[0]))
  }

  /** No one more could have been taken on. */
  ghost predicate IsFullGroup(queue: seq<Request>, k: nat) {
    && IsGroup(queue, k)
    && (k < |queue| ==> !IsGroup(queue, k + 1))
  }

  /** BuildBatchGroup: how many writers, and the batch that does for all of them. */
  method BuildBatchGroup(queue: seq<Request>) returns (k: nat, result: seq<Op>)
    requires queue != [] && queue[0].batch.Some?
    ensures IsFullGroup(queue, k) && result == OpsOf(queue[..k])
  {
    var first := queue[0];
    result := first.batch.value;
    var size, maxSize := first.bytes, LIMIT;
    if size <= SMALL {
      maxSize := size + SMALL;
    }
    k := 1;
    assert queue[..1][..0] == [];
    while k < |queue|
      invariant IsGroup(queue, k) && result == OpsOf(queue[..k]) && size == BytesOf(queue[..k])
    {
      var w := queue[k];
      if w.sync && !first.sync {
        return;
      }
      assert queue[..k + 1][..k] == queue[..k];
      if w.batch.Some? {
        size := size + w.bytes;
        if size > maxSize {
          return;
        }
        result := result + w.batch.value;
      }
      k := k + 1;
    }
  }

  // ---------- The protocol ----------

  /** What the writer in front is at, outside the mutex. */
  datatype Phase = Logging | Syncing | Inserting(n: nat) | Over

  /** The front `k` writers have one batch `ops`, to be numbered from `first`. */
  datatype Leader = NoLeader | Leader(k: nat, ops: seq<Op>, first: nat, phase: Phase, record: Option<nat>)

  /** One record of a log file: the batch's contents. */
  datatype Record = Record(file: nat, first: nat, ops: seq<Op>)

  /** One operation as it stands in a memtable. */
  datatype Numbered = Numbered(sn: nat, op: Op)

  /** A finished group: what became of it. */
  datatype Group = Group(members: seq<Request>, first: nat, ops: seq<Op>, status: Status, record: Option<nat>)

  /** `arrived` and `groups` are history; `durable` says which records are known to be on disk. */
  datatype State = State(
    arrived: seq<Request>, queue: seq<Request>, leader: Leader, lastSequence: nat, broken: bool,
    file: nat, records: seq<Record>, durable: set<nat>, entries: seq<Numbered>, groups: seq<Group>)

  function Number(first: nat, ops: seq<Op>): (r: seq<Numbered>)
    ensures |r| == |ops|
    ensures forall i :: 0 <= i < |ops| ==> r[i] == Numbered(first + i, ops[i])
  {
    seq(|ops|, i requires 0 <= i < |ops| => Numbered(first + i, ops[i]))
  }

  datatype Step =
    | Enqueue(r: Request)
    | BackgroundError
    | Refuse
    | SwitchMemtable
    | Lead(k: nat)
    | AppendRecord(ok: bool)
    | Sync(ok: bool)
    | InsertNext
    | Finish

  /** Write, on entry. */
  ghost predicate DoEnqueue(s: State, s': State, r: Request) {
    && (forall i :: 0 <= i < |s.arrived| ==> s.arrived[i].id != r.id)
    && s' == s.(arrived := s.arrived + [r], queue := s.queue + [r])
  }

  /** MakeRoomForWrite fails: the writer in front is done, alone. */
  ghost predicate DoRefuse(s: State, s': State) {
    && s.leader.NoLeader? && s.queue != []
    && s' == s.(queue := s.queue[1..],
                groups := s.groups + [Group([s.queue[0]], s.lastSequence + 1, [], Failed, None)])
  }

  /** MakeRoomForWrite switches to a new memtable and log file. */
  ghost predicate DoSwitchMemtable(s: State, s': State) {
    && s.leader.NoLeader? && s.queue != [] && !s.broken
    && s' == s.(file := s.file + 1)
  }

  /** MakeRoomForWrite succeeds; the group is built, and the mutex released. */
  ghost predicate DoLead(s: State, s': State, k: nat) {
    && s.leader.NoLeader? && s.queue != [] && !s.broken
    && (if s.queue[0].batch.Some? then IsFullGroup(s.queue, k) else k == 1)
    && s' == s.(leader := Leader(k, OpsOf(s.queue[..k]), s.lastSequence + 1,
                                 if s.queue[0].batch.Some? then Logging else Over, None))
  }

  ghost predicate DoAppendRecord(s: State, s': State, ok: bool) {
    && s.leader.Leader? && s.leader.phase.Logging? && s.queue != []
    && s' == if ok then
               s.(records := s.records + [Record(s.file, s.leader.first, s.leader.ops)],
                  leader := s.leader.(phase := if s.queue[0].sync then Syncing else Inserting(0),
                                      record := Some(|s.records|)))
             else s.(leader := s.leader.(phase := Over))
  }

  /** A sync reaches every record of the current log file; when it fails, all later writes are refused. */
  ghost predicate DoSync(s: State, s': State, ok: bool) {
    && s.leader.Leader? && s.leader.phase.Syncing?
    && s' == if ok then
               s.(durable := s.durable + (set i | 0 <= i < |s.records| && s.records[i].file == s.file),
                  leader := s.leader.(phase := Inserting(0)))
             else s.(leader := s.leader.(phase := Over), broken := true)
  }

  /** InsertInto, one operation at a time. */
  ghost predicate DoInsertNext(s: State, s': State) {
    && s.leader.Leader? && s.leader.phase.Inserting? && s.leader.phase.n < |s.leader.ops|
    && var l := s.leader;
       s' == s.(entries := s.entries + [Numbered(l.first + l.phase.n, l.ops[l.phase.n])],
                leader := l.(phase := Inserting(l.phase.n + 1)))
  }

  /** What the group's writers are told. */
  ghost function Outcome(s: State): Status
    requires s.leader.Leader?
  {
    if s.leader.phase.Inserting? || (s.queue != [] && s.queue[0].batch.None?) then Ok else Failed
  }

  /** SetLastSequence, and everyone in the group is told how it went. */
  ghost predicate DoFinish(s: State, s': State) {
    && s.leader.Leader? && s.leader.k <= |s.queue|
    && var l := s.leader;
       && (l.phase.Over? || l.phase == Inserting(|l.ops|))
       && s' == s.(queue := s.queue[l.k..], leader := NoLeader,
                   lastSequence := s.lastSequence + |l.ops|,
                   groups := s.groups + [Group(s.queue[..l.k], l.first, l.ops, Outcome(s), l.record)])
  }

  ghost predicate Next(s: State, s': State, step: Step) {
    match step
    case Enqueue(r) => DoEnqueue(s, s', r)
    case BackgroundError => s' == s.(broken := true)
    case Refuse => DoRefuse(s, s')
    case SwitchMemtable => DoSwitchMemtable(s, s')
    case Lead(k) => DoLead(s, s', k)
    case AppendRecord(ok) => DoAppendRecord(s, s', ok)
    case Sync(ok) => DoSync(s, s', ok)
    case InsertNext => DoInsertNext(s, s')
    case Finish => DoFinish(s, s')
  }

  ghost predicate Init(s: State) {
    && s.arrived == [] && s.queue == [] && s.leader.NoLeader? && s.groups == []
    && s.records == [] && s.durable == {} && s.entries == [] && s.lastSequence == 0
  }

  // ---------- The invariant ----------

  function Members(groups: seq<Group>): seq<Request> {
    if groups == [] then [] else Members(groups[..|groups| - 1]) + groups[|groups| - 1].members
  }

  /** How many sequence numbers the groups have used. */
  function Used(groups: seq<Group>): nat {
    if groups == [] then 0 else Used(groups[..|groups| - 1]) + |groups[|groups| - 1].ops|
  }

  /** What the groups that succeeded have put into memtables. */
  function Inserted(groups: seq<Group>): seq<Numbered> {
    if groups == [] then []
    else
      var g := groups[|groups| - 1];
      Inserted(groups[..|groups| - 1]) + if g.status.Ok? then Number(g.first, g.ops) else []
  }

  ghost predicate Carries(members: seq<Request>, ops: seq<Op>) {
    && members != []
    && ops == OpsOf(members)
    && (forall i :: 0 <= i < |members| ==> !members[i].sync || members[0].sync)
    && (members[0].batch.None? ==> |members| == 1)
  }

  ghost predicate IsLogged(records: seq<Record>, g: Group) {
    g.record.Some? && g.record.value < |records| && records[g.record.value].first == g.first
      && records[g.record.value].ops == g.ops
  }

  ghost predicate GroupOk(s: State, i: nat)
    requires i < |s.groups|
  {
    var g := s.groups[i];
    && g.first == Used(s.groups[..i]) + 1
    && (g.status.Ok? ==> Carries(g.members, g.ops))
    && (g.status.Ok? && g.members[0].batch.Some? ==>
          IsLogged(s.records, g) && (g.members[0].sync ==> g.record.value in s.durable))
  }

  ghost predicate LeaderOk(s: State) {
    s.leader.Leader? ==>
      && var l := s.leader;
      && l.k <= |s.queue| && Carries(s.queue[..l.k], l.ops)
      && l.first == s.lastSequence + 1
      && (s.queue[0].batch.None? ==> l.phase.Over?)
      && (l.phase.Syncing? || l.phase.Inserting? ==>
            l.record.Some? && l.record.value < |s.records| && s.records[l.record.value] == Record(s.file, l.first, l.ops))
      && (l.phase.Inserting? ==> l.phase.n <= |l.ops| && (s.queue[0].sync ==> l.record.value in s.durable))
  }

  ghost function Partial(l: Leader): seq<Numbered> {
    if l.Leader? && l.phase.Inserting? && l.phase.n <= |l.ops| then Number(l.first, l.ops[..l.phase.n]) else []
  }

  ghost predicate Inv(s: State) {
    && s.arrived == Members(s.groups) + s.queue
    && s.lastSequence == Used(s.groups)
    && s.entries == Inserted(s.groups) + Partial(s.leader)
    && (forall i {:trigger GroupOk(s, i)} :: 0 <= i < |s.groups| ==> GroupOk(s, i))
    && LeaderOk(s)
  }

  // ---------- Every step keeps it ----------

  lemma {:induction false} OpsOfPrefixGrows(queue: seq<Request>, more: seq<Request>, k: nat)
    requires k <= |queue|
    ensures (queue + more)[..k] == queue[..k]
  {
  }

  lemma GroupsGrow(groups: seq<Group>, g: Group)
    ensures Members(groups + [g]) == Members(groups) + g.members
    ensures Used(groups + [g]) == Used(groups) + |g.ops|
    ensures Inserted(groups + [g]) == Inserted(groups) + if g.status.Ok? then Number(g.first, g.ops) else []
  {
    assert (groups + [g])[..|groups|] == groups;
  }

  /** Groups that are done stay as they are while records and syncs are added. */
  lemma GroupsStay(s: State, s': State)
    requires forall i {:trigger GroupOk(s, i)} :: 0 <= i < |s.groups| ==> GroupOk(s, i)
    requires s.groups <= s'.groups && s.records <= s'.records && s.durable <= s'.durable
    ensures forall i {:trigger GroupOk(s', i)} :: 0 <= i < |s.groups| ==> GroupOk(s', i)
  {
    forall i | 0 <= i < |s.groups| ensures GroupOk(s', i) {
      assert GroupOk(s, i);
      assert s'.groups[..i] == s.groups[..i];
    }
  }

  lemma EnqueueKeeps(s: State, s': State, r: Request)
    requires Inv(s) && DoEnqueue(s, s', r)
    ensures Inv(s')
  {
    GroupsStay(s, s');
    if s.leader.Leader? {
      OpsOfPrefixGrows(s.queue, [r], s.leader.k);
    }
    assert s'.arrived == Members(s.groups) + (s.queue + [r]);
  }

  lemma RefuseKeeps(s: State, s': State)
    requires Inv(s) && DoRefuse(s, s')
    ensures Inv(s')
  {
    GroupsStay(s, s');
    var g := s'.groups[|s.groups|];
    GroupsGrow(s.groups, g);
    assert s'.groups[..|s.groups|] == s.groups;
    assert GroupOk(s', |s.groups|);
    assert s.queue == [s.queue[0]] + s.queue[1..];
  }

  lemma GroupCarries(queue: seq<Request>, k: nat)
    requires queue != [] && if queue[0].batch.Some? then IsGroup(queue, k) else k == 1
    ensures Carries(queue[..k], OpsOf(queue[..k]))
  {
  }

  lemma LeadKeeps(s: State, s': State, k: nat)
    requires Inv(s) && DoLead(s, s', k)
    ensures Inv(s')
  {
    GroupsStay(s, s');
    GroupCarries(s.queue, k);
  }

  lemma AppendRecordKeeps(s: State, s': State, ok: bool)
    requires Inv(s) && DoAppendRecord(s, s', ok)
    ensures Inv(s')
  {
    GroupsStay(s, s');
  }

  lemma SyncKeeps(s: State, s': State, ok: bool)
    requires Inv(s) && DoSync(s, s', ok)
    ensures Inv(s')
  {
    GroupsStay(s, s');
  }

  lemma InsertNextKeeps(s: State, s': State)
    requires Inv(s) && DoInsertNext(s, s')
    ensures Inv(s')
  {
    GroupsStay(s, s');
    var l := s.leader;
    var n := l.phase.n;
    assert Number(l.first, l.ops[..n + 1]) == Number(l.first, l.ops[..n]) + [Numbered(l.first + n, l.ops[n])];
  }

  lemma NullBatchHasNoOps(members: seq<Request>)
    requires |members| == 1 && members[0].batch.None?
    ensures OpsOf(members) == []
  {
    assert members[..0] == [];
  }

  lemma FinishKeeps(s: State, s': State)
    requires Inv(s) && DoFinish(s, s')
    ensures Inv(s')
  {
    GroupsStay(s, s');
    var l, g := s.leader, s'.groups[|s.groups|];
    GroupsGrow(s.groups, g);
    assert s'.groups[..|s.groups|] == s.groups;
    assert g.members[0] == s.queue[0];
    if s.queue[0].batch.None? {
      NullBatchHasNoOps(g.members);
    }
    assert GroupOk(s', |s.groups|);
    assert s.queue == s.queue[..l.k] + s.queue[l.k..];
    assert l.ops[..|l.ops|] == l.ops;
  }

  lemma StepKeepsInv(s: State, s': State, step: Step)
    requires Inv(s) && Next(s, s', step)
    ensures Inv(s')
  {
    match step
    case Enqueue(r) => EnqueueKeeps(s, s', r);
    case BackgroundError => GroupsStay(s, s');
    case Refuse => RefuseKeeps(s, s');
    case SwitchMemtable => GroupsStay(s, s');
    case Lead(k) => LeadKeeps(s, s', k);
    case AppendRecord(ok) => AppendRecordKeeps(s, s', ok);
    case Sync(ok) => SyncKeeps(s, s', ok);
    case InsertNext => InsertNextKeeps(s, s');
    case Finish => FinishKeeps(s, s');
  }

  // ---------- Over whole runs ----------

  ghost predicate IsRun(run: seq<State>, steps: seq<Step>) {
    && |run| == |steps| + 1 && Init(run[0])
    && forall i {:trigger StepAt(run, steps, i)} :: 0 <= i < |steps| ==> StepAt(run, steps, i)
  }

  ghost predicate StepAt(run: seq<State>, steps: seq<Step>, i: nat)
    requires i < |steps| && |run| == |steps| + 1
  {
    Next(run[i], run[i + 1], steps[i])
  }

  lemma {:induction false} RunKeepsInv(run: seq<State>, steps: seq<Step>, i: nat)
    requires IsRun(run, steps) && i < |run|
    ensures Inv(run[i])
  {
    if i > 0 {
      RunKeepsInv(run, steps, i - 1);
      assert StepAt(run, steps, i - 1);
      StepKeepsInv(run[i - 1], run[i], steps[i - 1]);
    }
  }

  /** Groups are served in arrival order, nobody twice and nobody lost, and their batches have
      consecutive ranges of sequence numbers in that order. */
  lemma RangesAreConsecutive(s: State, i: nat)
    requires Inv(s) && i < |s.groups|
    ensures s.arrived == Members(s.groups) + s.queue
    ensures i + 1 < |s.groups| ==> s.groups[i + 1].first == s.groups[i].first + |s.groups[i].ops|
    ensures i + 1 == |s.groups| ==> s.lastSequence + 1 == s.groups[i].first + |s.groups[i].ops|
    ensures s.groups[i].status.Ok? ==> s.groups[i].ops == OpsOf(s.groups[i].members)
  {
    assert GroupOk(s, i);
    GroupsGrow(s.groups[..i], s.groups[i]);
    assert s.groups[..i] + [s.groups[i]] == s.groups[..i + 1];
    if i + 1 < |s.groups| {
      assert GroupOk(s, i + 1);
    } else {
      assert s.groups[..i + 1] == s.groups;
    }
  }

  /** Within a group, the operations of writer `j` come right behind those of the writers before it. */
  lemma {:induction false} MemberRange(members: seq<Request>, j: nat)
    requires j < |members|
    ensures |OpsOf(members[..j])| + |Ops(members[j])| <= |OpsOf(members)|
    ensures OpsOf(members)[|OpsOf(members[..j])|..][..|Ops(members[j])|] == Ops(members[j])
  {
    var init := members[..|members| - 1];
    if j < |init| {
      MemberRange(init, j);
      assert init[..j] == members[..j];
    }
  }

  /** A write that asked for a sync and is told it succeeded is in the log, on disk. */
  lemma SyncedWritesAreDurable(s: State, i: nat, j: nat)
    requires Inv(s) && i < |s.groups| && j < |s.groups[i].members|
    requires s.groups[i].status.Ok? && s.groups[i].members[j].sync && s.groups[i].members[j].batch.Some?
    ensures IsLogged(s.records, s.groups[i]) && s.groups[i].record.value in s.durable
  {
    assert GroupOk(s, i);
  }

  lemma {:induction false} UsedIsMonotone(groups: seq<Group>, i: nat)
    requires i <= |groups|
    ensures Used(groups[..i]) <= Used(groups)
  {
    if i < |groups| {
      UsedIsMonotone(groups[..|groups| - 1], i);
      assert groups[..|groups| - 1][..i] == groups[..i];
    } else {
      assert groups[..i] == groups;
    }
  }

  lemma {:induction false} InsertedAreUsed(s: State, n: nat, e: nat)
    requires Inv(s) && n <= |s.groups| && e < |Inserted(s.groups[..n])|
    ensures Inserted(s.groups[..n])[e].sn <= Used(s.groups[..n])
  {
    if n > 0 {
      assert GroupOk(s, n - 1);
      GroupsGrow(s.groups[..n - 1], s.groups[n - 1]);
      assert s.groups[..n - 1] + [s.groups[n - 1]] == s.groups[..n];
      if e < |Inserted(s.groups[..n - 1])| {
        InsertedAreUsed(s, n - 1, e);
      }
    }
  }

  /** What a read at LastSequence can see is exactly what the finished groups inserted, each of them whole;
      nothing of the group that is being inserted. */
  lemma NoPartOfAGroupIsSeen(s: State, e: nat)
    requires Inv(s) && e < |s.entries|
    ensures |Inserted(s.groups)| <= |s.entries| && s.entries[..|Inserted(s.groups)|] == Inserted(s.groups)
    ensures s.entries[e].sn <= s.lastSequence <==> e < |Inserted(s.groups)|
  {
    assert s.groups[..|s.groups|] == s.groups;
    if e < |Inserted(s.groups)| {
      InsertedAreUsed(s, |s.groups|, e);
    }
  }
}
