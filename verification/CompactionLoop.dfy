/** The compaction loop: dropping entries, cutting outputs, and the moving base-level pointers
    (db/db_impl.cc, DoCompactionWork; db/version_set.cc, class Compaction). */
module CompactionLoop {
  import opened Keys
  import opened Reads
  import opened Versions
  import opened Inputs
  import opened DropRule
  import opened Installs

  lemma BaseLevelOnView(v: Version, level: nat, u: UserKey)
    requires v.Valid()
    ensures BaseLevel(v, level, u) <==> BaseForKey(v.View(), level, u)
  {
    var ls := v.View();
    if BaseLevel(v, level, u) {
      forall l: nat, f: File | level + 2 <= l < NUM_LEVELS && f in ls[l] ensures !(f.smallest.user <= u <= f.largest.user) {
        var i :| 0 <= i < |v.files[l]| && v.files[l][i] == f;
      }
    } else {
      var l, i :| level + 2 <= l < |v.files| && 0 <= i < |v.files[l]|
        && v.files[l][i].smallest.user <= u <= v.files[l][i].largest.user;
      assert v.files[l][i] in ls[l];
    }
  }

  /** No file of a disjoint level has `u` in its range. */
  predicate Misses(files: seq<File>, u: UserKey) {
    forall i :: 0 <= i < |files| ==> !(files[i].smallest.user <= u <= files[i].largest.user)
  }

  /** Every file before position `p` ends below the user key reached so far. */
  predicate Behind(files: seq<File>, p: nat, reached: Option<UserKey>) {
    p <= |files| && forall i :: 0 <= i < p ==> reached.Some? && files[i].largest.user < reached.value
  }

  lemma PointerDecides(files: seq<File>, p: nat, u: UserKey)
    requires UserSorted(files) && Behind(files, p, Some(u))
    requires p < |files| ==> u <= files[p].largest.user
    ensures Misses(files, u) <==> !(p < |files| && u >= files[p].smallest.user)
  {
  }

  /** The parts of class Compaction that the loop moves. */
  class Compaction {
    const version: Version
    const level: nat
    const grandparents: seq<File>
    const maxOverlap: nat
    const levelPtrs: array<nat>
    var grandparentIndex: nat
    var seenKey: bool
    var overlappedBytes: nat
    /** The user key the pointers have been moved up to. */
    ghost var reached: Option<UserKey>

    ghost predicate Valid()
      reads this, levelPtrs
    {
      && version.Valid() && level + 1 < NUM_LEVELS && levelPtrs.Length == NUM_LEVELS
      && grandparentIndex <= |grandparents|
      && forall l :: level + 2 <= l < NUM_LEVELS ==> Behind(version.files[l], levelPtrs[l], reached)
    }

    constructor (version: Version, level: nat, grandparents: seq<File>, maxFileSize: nat)
      requires version.Valid() && level + 1 < NUM_LEVELS
      ensures Valid() && fresh(levelPtrs)
      ensures this.version == version && this.level == level && this.grandparents == grandparents
      ensures maxOverlap == 10 * maxFileSize && reached == None
      ensures grandparentIndex == 0 && !seenKey && overlappedBytes == 0
    {
      this.version, this.level, this.grandparents := version, level, grandparents;
      this.maxOverlap := 10 * maxFileSize;
      levelPtrs := new nat[NUM_LEVELS](_ => 0);
      grandparentIndex, seenKey, overlappedBytes := 0, false, 0;
      reached := None;
    }

    /** IsBaseLevelForKey: the pointers only move forward, yet on ascending keys the answer is
        that of a full scan of every deeper level. */
    method IsBaseLevelForKey(u: UserKey) returns (b: bool)
      requires Valid() && (reached.Some? ==> reached.value <= u)
      modifies levelPtrs, this`reached
      ensures Valid() && reached == Some(u)
      ensures b <==> BaseLevel(version, level, u)
    {
      reached := Some(u);
      var l := level + 2;
      while l < NUM_LEVELS
        invariant level + 2 <= l
        invariant Valid() && reached == Some(u)
        invariant forall k :: level + 2 <= k < l && k < NUM_LEVELS ==> Misses(version.files[k], u)
      {
        var files := version.files[l];
        DisjointIsUserSorted(files);
        while levelPtrs[l] < |files| && !(u <= files[levelPtrs[l]].largest.user)
          invariant Valid() && reached == Some(u)
          decreases |files| - levelPtrs[l]
        {
          levelPtrs[l] := levelPtrs[l] + 1;
        }
        PointerDecides(files, levelPtrs[l], u);
        if levelPtrs[l] < |files| && u >= files[levelPtrs[l]].smallest.user {
          return false;
        }
        l := l + 1;
      }
      b := true;
    }

    /** ShouldStopBefore: end the current output when it overlaps too many grandparent bytes. */
    method ShouldStopBefore(key: IKey) returns (stop: bool)
      requires Valid()
      modifies this`grandparentIndex, this`seenKey, this`overlappedBytes
      ensures Valid() && seenKey
      ensures old(grandparentIndex) <= grandparentIndex
      ensures forall i :: old(grandparentIndex) <= i < grandparentIndex ==> Less(grandparents[i].largest, key)
      ensures grandparentIndex < |grandparents| ==> AtMost(key, grandparents[grandparentIndex].largest)
      ensures var passed := old(overlappedBytes) + if old(seenKey)
                then TotalFileSize(grandparents[old(grandparentIndex)..grandparentIndex]) else 0;
              stop == (passed > maxOverlap) && overlappedBytes == if stop then 0 else passed
    {
      while grandparentIndex < |grandparents| && Less(grandparents[grandparentIndex].largest, key)
        invariant Valid() && old(grandparentIndex) <= grandparentIndex && seenKey == old(seenKey)
        invariant forall i :: old(grandparentIndex) <= i < grandparentIndex ==> Less(grandparents[i].largest, key)
        invariant overlappedBytes == old(overlappedBytes) + if seenKey
          then TotalFileSize(grandparents[old(grandparentIndex)..grandparentIndex]) else 0
      {
        SizeSnoc(grandparents, old(grandparentIndex), grandparentIndex);
        if seenKey {
          overlappedBytes := overlappedBytes + grandparents[grandparentIndex].size;
        }
        grandparentIndex := grandparentIndex + 1;
      }
      seenKey := true;
      if overlappedBytes > maxOverlap {
        overlappedBytes := 0;
        return true;
      } else {
        return false;
      }
    }
  }

  lemma {:induction false} SizeSnoc(files: seq<File>, a: nat, b: nat)
    requires a <= b < |files|
    ensures TotalFileSize(files[a..b + 1]) == TotalFileSize(files[a..b]) + files[b].size
    decreases b - a
  {
    if a < b {
      SizeSnoc(files, a + 1, b);
      assert files[a..b + 1][1..] == files[a + 1..b + 1];
      assert files[a..b][1..] == files[a + 1..b];
    } else {
      assert files[a..b + 1] == [files[b]];
      assert [files[b]][1..] == [];
    }
  }

  // ---------- Where outputs are cut ----------

  /** How many grandparents end before the key. */
  function Reach(grandparents: seq<File>, key: IKey): (n: nat)
    ensures n <= |grandparents|
    ensures forall j :: 0 <= j < n ==> Less(grandparents[j].largest, key)
    ensures n < |grandparents| ==> !Less(grandparents[n].largest, key)
  {
    if grandparents == [] || !Less(grandparents[0].largest, key) then 0 else 1 + Reach(grandparents[1..], key)
  }

  lemma ReachIs(grandparents: seq<File>, key: IKey, n: nat)
    requires n <= |grandparents| && (forall j :: 0 <= j < n ==> Less(grandparents[j].largest, key))
    requires n < |grandparents| ==> !Less(grandparents[n].largest, key)
    ensures Reach(grandparents, key) == n
  {
  }

  /** The bytes of the grandparents that end between two keys. */
  function Passed(grandparents: seq<File>, from: IKey, to: IKey): nat {
    if Reach(grandparents, from) <= Reach(grandparents, to)
    then TotalFileSize(grandparents[Reach(grandparents, from)..Reach(grandparents, to)]) else 0
  }

  /** The entry before which the output was stopped last, or the first. */
  function LastStop(grandparents: seq<File>, maxOverlap: nat, input: seq<Entry>, i: nat): (s: nat)
    requires i <= |input|
    ensures s == 0 || s < i
    decreases i, 0
  {
    if i == 0 then 0
    else if IsStop(grandparents, maxOverlap, input, i - 1) then i - 1
    else LastStop(grandparents, maxOverlap, input, i - 1)
  }

  /** Since the last stop more grandparent bytes have been passed than an output may overlap. */
  predicate IsStop(grandparents: seq<File>, maxOverlap: nat, input: seq<Entry>, i: nat)
    requires i < |input|
    decreases i, 1
  {
    Passed(grandparents, input[LastStop(grandparents, maxOverlap, input, i)].key, input[i].key) > maxOverlap
  }

  lemma {:induction false} SizesAdd(files: seq<File>, a: nat, b: nat, c: nat)
    requires a <= b <= c <= |files|
    ensures TotalFileSize(files[a..c]) == TotalFileSize(files[a..b]) + TotalFileSize(files[b..c])
    decreases b - a
  {
    if a < b {
      SizesAdd(files, a + 1, b, c);
      assert files[a..c][1..] == files[a + 1..c] && files[a..b][1..] == files[a + 1..b];
    } else {
      assert files[a..b] == [];
    }
  }

  /** Where the grandparent pointer stands after the first `i` keys. */
  ghost predicate StopState(c: Compaction, input: seq<Entry>, i: nat)
    reads c
  {
    && i <= |input|
    && (i == 0 ==> c.grandparentIndex == 0 && !c.seenKey && c.overlappedBytes == 0)
    && (i > 0 ==>
          && c.seenKey && c.grandparentIndex == Reach(c.grandparents, input[i - 1].key)
          && c.overlappedBytes == Passed(c.grandparents, input[LastStop(c.grandparents, c.maxOverlap, input, i)].key, input[i - 1].key))
  }

  /** ShouldStopBefore, for the next key of the run. */
  method StopsHere(c: Compaction, input: seq<Entry>, i: nat) returns (stop: bool)
    requires c.Valid() && StopState(c, input, i) && i < |input| && Sorted(input)
    modifies c`grandparentIndex, c`seenKey, c`overlappedBytes
    ensures c.Valid() && StopState(c, input, i + 1) && stop == IsStop(c.grandparents, c.maxOverlap, input, i)
  {
    var gps, key := c.grandparents, input[i].key;
    ghost var from, seen, bytes := c.grandparentIndex, c.seenKey, c.overlappedBytes;
    ghost var last := LastStop(gps, c.maxOverlap, input, i);
    stop := c.ShouldStopBefore(key);
    assert i > 0 ==> Less(input[i - 1].key, key);
    ReachIs(gps, key, c.grandparentIndex);
    if i > 0 {
      ReachGrows(gps, input[last].key, input[i - 1].key);
      SizesAdd(gps, Reach(gps, input[last].key), from, c.grandparentIndex);
    } else {
      assert gps[c.grandparentIndex..c.grandparentIndex] == [];
    }
    assert stop == IsStop(gps, c.maxOverlap, input, i);
    assert gps[c.grandparentIndex..c.grandparentIndex] == [];
  }

  lemma ReachGrows(grandparents: seq<File>, a: IKey, b: IKey)
    requires a == b || Less(a, b)
    ensures Reach(grandparents, a) <= Reach(grandparents, b)
  {
  }

  ghost predicate EntriesBefore(es: seq<Entry>, key: IKey) {
    forall e :: e in es ==> Less(e.key, key)
  }

  ghost predicate EntriesFrom(es: seq<Entry>, key: IKey) {
    forall e :: e in es ==> AtMost(key, e.key)
  }

  /** A finished output has reached its size, or a stop lies between it and what comes after. */
  ghost predicate CutRightly(output: seq<Entry>, next: seq<Entry>, input: seq<Entry>, i: nat, stops: nat -> bool,
                             maxOutputFileSize: nat, fileSize: seq<Entry> -> nat)
    requires i <= |input|
  {
    || fileSize(output) >= maxOutputFileSize
    || exists s: nat :: s < i && stops(s) && EntriesBefore(output, input[s].key) && EntriesFrom(next, input[s].key)
  }

  /** No stop lies inside an output, and none goes on after it has reached its size. */
  ghost predicate NotTooLong(output: seq<Entry>, input: seq<Entry>, i: nat, stops: nat -> bool,
                             maxOutputFileSize: nat, fileSize: seq<Entry> -> nat)
    requires i <= |input|
  {
    && (forall s: nat :: s < i && stops(s) ==> EntriesBefore(output, input[s].key) || EntriesFrom(output, input[s].key))
    && forall n :: 0 < n < |output| ==> fileSize(output[..n]) < maxOutputFileSize
  }

  /** Every output is as long as it should be, and every one but the last ends where it should. */
  ghost predicate WellCut(outputs: seq<seq<Entry>>, input: seq<Entry>, i: nat, stops: nat -> bool,
                          maxOutputFileSize: nat, fileSize: seq<Entry> -> nat)
  {
    && i <= |input|
    && (forall j :: 0 <= j < |outputs| ==> NotTooLong(outputs[j], input, i, stops, maxOutputFileSize, fileSize))
    && (forall j, k :: 0 <= j < k < |outputs| ==> CutRightly(outputs[j], outputs[k], input, i, stops, maxOutputFileSize, fileSize))
  }

  /** The same for the first `i` entries, with an output under construction behind every stop so far. */
  ghost predicate CutState(outputs: seq<seq<Entry>>, builder: Option<seq<Entry>>, input: seq<Entry>, i: nat, stops: nat -> bool,
                           maxOutputFileSize: nat, fileSize: seq<Entry> -> nat)
  {
    && WellCut(outputs, input, i, stops, maxOutputFileSize, fileSize)
    && (forall j, e :: 0 <= j < |outputs| && e in outputs[j] ==> e in input[..i])
    && (forall e :: e in Contents(builder) ==> e in input[..i])
    && (forall s: nat :: s < i && stops(s) ==> EntriesFrom(Contents(builder), input[s].key))
    && (forall n :: 0 < n <= |Contents(builder)| ==> fileSize(Contents(builder)[..n]) < maxOutputFileSize)
    && (forall j :: 0 <= j < |outputs| ==> CutRightly(outputs[j], Contents(builder), input, i, stops, maxOutputFileSize, fileSize))
  }

  lemma EarlierIsBefore(input: seq<Entry>, i: nat, es: seq<Entry>)
    requires Sorted(input) && i < |input| && forall e :: e in es ==> e in input[..i]
    ensures EntriesBefore(es, input[i].key)
  {
    forall e | e in es ensures Less(e.key, input[i].key) {
      var p :| 0 <= p < i && input[..i][p] == e;
      assert Less(input[p].key, input[i].key);
    }
  }

  /** Going on to the next key; before a stop the output under construction is finished. */
  lemma CutAtStop(outputs: seq<seq<Entry>>, builder: Option<seq<Entry>>, input: seq<Entry>, i: nat, stops: nat -> bool,
                  maxOutputFileSize: nat, fileSize: seq<Entry> -> nat, outputs': seq<seq<Entry>>, builder': Option<seq<Entry>>)
    requires Sorted(input) && i < |input| && CutState(outputs, builder, input, i, stops, maxOutputFileSize, fileSize)
    requires outputs' == if stops(i) && builder.Some? then outputs + [builder.value] else outputs
    requires builder' == if stops(i) then None else builder
    ensures CutState(outputs', builder', input, i + 1, stops, maxOutputFileSize, fileSize)
  {
    if stops(i) {
      EarlierIsBefore(input, i, Contents(builder));
      forall j | 0 <= j < |outputs| ensures EntriesBefore(outputs[j], input[i].key) {
        EarlierIsBefore(input, i, outputs[j]);
      }
    }
    assert input[..i + 1] == input[..i] + [input[i]];
    forall j | 0 <= j < |outputs'|
      ensures NotTooLong(outputs'[j], input, i + 1, stops, maxOutputFileSize, fileSize)
    {
      if j < |outputs| {
        assert NotTooLong(outputs[j], input, i, stops, maxOutputFileSize, fileSize);
      }
    }
    forall j, k | 0 <= j < k < |outputs'|
      ensures CutRightly(outputs'[j], outputs'[k], input, i + 1, stops, maxOutputFileSize, fileSize)
    {
      assert CutRightly(outputs[j], if k < |outputs| then outputs[k] else Contents(builder), input, i, stops, maxOutputFileSize, fileSize);
    }
    forall j | 0 <= j < |outputs'|
      ensures CutRightly(outputs'[j], Contents(builder'), input, i + 1, stops, maxOutputFileSize, fileSize)
    {
      if j < |outputs| {
        assert CutRightly(outputs[j], Contents(builder), input, i, stops, maxOutputFileSize, fileSize);
      }
    }
  }

  /** A kept entry joins the output under construction, which is finished when it is big enough. */
  lemma CutWhenFull(outputs: seq<seq<Entry>>, builder: Option<seq<Entry>>, input: seq<Entry>, i: nat, stops: nat -> bool,
                    maxOutputFileSize: nat, fileSize: seq<Entry> -> nat, contents: seq<Entry>)
    requires Sorted(input) && i < |input| && CutState(outputs, builder, input, i + 1, stops, maxOutputFileSize, fileSize)
    requires contents == Contents(builder) + [input[i]]
    ensures fileSize(contents) >= maxOutputFileSize ==> CutState(outputs + [contents], None, input, i + 1, stops, maxOutputFileSize, fileSize)
    ensures fileSize(contents) < maxOutputFileSize ==> CutState(outputs, Some(contents), input, i + 1, stops, maxOutputFileSize, fileSize)
  {
    var before := Contents(builder);
    assert input[..i + 1][i] == input[i];
    forall s: nat | s < i + 1 && stops(s) ensures EntriesFrom(contents, input[s].key) {
      assert s < i ==> Less(input[s].key, input[i].key);
    }
    forall n | 0 < n < |contents| ensures fileSize(contents[..n]) < maxOutputFileSize {
      assert contents[..n] == before[..n];
    }
    assert contents[..|contents|] == contents;
    forall j | 0 <= j < |outputs| ensures CutRightly(outputs[j], contents, input, i + 1, stops, maxOutputFileSize, fileSize) {
      assert CutRightly(outputs[j], before, input, i + 1, stops, maxOutputFileSize, fileSize);
    }
  }

  lemma CutAtEnd(outputs: seq<seq<Entry>>, builder: Option<seq<Entry>>, input: seq<Entry>, stops: nat -> bool,
                 maxOutputFileSize: nat, fileSize: seq<Entry> -> nat, outputs': seq<seq<Entry>>)
    requires CutState(outputs, builder, input, |input|, stops, maxOutputFileSize, fileSize)
    requires outputs' == if builder.Some? then outputs + [builder.value] else outputs
    ensures WellCut(outputs', input, |input|, stops, maxOutputFileSize, fileSize)
  {
  }

  // ---------- The loop ----------

  function Flatten(tables: seq<seq<Entry>>): seq<Entry> {
    if tables == [] then []
    else Flatten(tables[..|tables| - 1]) + tables[|tables| - 1]
  }

  lemma FlattenSnoc(tables: seq<seq<Entry>>, t: seq<Entry>)
    ensures Flatten(tables + [t]) == Flatten(tables) + t
  {
    assert (tables + [t])[..|tables|] == tables;
  }

  function Contents(builder: Option<seq<Entry>>): seq<Entry> {
    if builder.Some? then builder.value else []
  }

  /** The running state of the drop rule: the last user key seen and its last sequence number. */
  ghost predicate DropState(c: Compaction, input: seq<Entry>, i: nat, currentUserKey: Option<UserKey>, lastSequenceForKey: nat)
    reads c, c.levelPtrs
  {
    && c.Valid() && i <= |input|
    && (i == 0 ==> currentUserKey == None && c.reached == None)
    && (i > 0 ==> currentUserKey == Some(input[i - 1].key.user) && lastSequenceForKey == input[i - 1].key.sn)
    && (c.reached.Some? ==> i > 0 && c.reached.value <= input[i - 1].key.user)
  }

  /** The loop's decision on one entry. */
  method DecideDrop(c: Compaction, input: seq<Entry>, i: nat, currentUserKey: Option<UserKey>, lastSequenceForKey: nat, m: nat)
    returns (drop: bool, currentUserKey': Option<UserKey>, lastSequenceForKey': nat)
    requires DropState(c, input, i, currentUserKey, lastSequenceForKey) && i < |input| && Sorted(input)
    requires m < MAX_SEQUENCE
    modifies c.levelPtrs, c`reached
    ensures DropState(c, input, i + 1, currentUserKey', lastSequenceForKey')
    ensures drop == Dropped(input, i, m, c.version, c.level)
  {
    var key := input[i].key;
    assert i > 0 ==> Less(input[i - 1].key, key);
    drop, currentUserKey', lastSequenceForKey' := false, currentUserKey, lastSequenceForKey;
    if currentUserKey != Some(key.user) {
      currentUserKey' := Some(key.user);
      lastSequenceForKey' := MAX_SEQUENCE;
    }
    if lastSequenceForKey' <= m {
      drop := true;
    } else if key.kind.Deletion? && key.sn <= m {
      drop := c.IsBaseLevelForKey(key.user);
    }
    lastSequenceForKey' := key.sn;
  }

  /** The finished outputs and the one under construction hold exactly `kept`. */
  ghost predicate OutputState(outputs: seq<seq<Entry>>, builder: Option<seq<Entry>>, kept: seq<Entry>) {
    && Flatten(outputs) + Contents(builder) == kept
    && (builder.Some? ==> builder.value != [])
    && forall j :: 0 <= j < |outputs| ==> outputs[j] != []
  }

  /** FinishCompactionOutputFile. */
  lemma FinishOutput(outputs: seq<seq<Entry>>, contents: seq<Entry>, kept: seq<Entry>)
    requires OutputState(outputs, Some(contents), kept)
    ensures OutputState(outputs + [contents], None, kept)
  {
    FlattenSnoc(outputs, contents);
    assert Flatten(outputs + [contents]) + [] == kept;
  }

  lemma AddToOutput(outputs: seq<seq<Entry>>, builder: Option<seq<Entry>>, kept: seq<Entry>, e: Entry)
    requires OutputState(outputs, builder, kept)
    ensures OutputState(outputs, Some(Contents(builder) + [e]), kept + [e])
  {
    assert Flatten(outputs) + (Contents(builder) + [e]) == kept + [e];
  }

  /** FinishCompactionOutputFile, if an output is under construction. */
  method FinishOpenOutput(outputs: seq<seq<Entry>>, builder: Option<seq<Entry>>, ghost kept: seq<Entry>)
    returns (outputs': seq<seq<Entry>>)
    requires OutputState(outputs, builder, kept)
    ensures OutputState(outputs', None, kept)
    ensures outputs' == if builder.Some? then outputs + [builder.value] else outputs
  {
    outputs' := outputs;
    if builder.Some? {
      FinishOutput(outputs, builder.value, kept);
      outputs' := outputs + [builder.value];
    }
  }

  /** A kept entry goes to the output under construction, which is finished when it is big enough. */
  method AddEntry(outputs: seq<seq<Entry>>, builder: Option<seq<Entry>>, e: Entry,
                  maxOutputFileSize: nat, fileSize: seq<Entry> -> nat, ghost kept: seq<Entry>,
                  ghost input: seq<Entry>, ghost i: nat, ghost stops: nat -> bool)
    returns (outputs': seq<seq<Entry>>, builder': Option<seq<Entry>>)
    requires OutputState(outputs, builder, kept) && i < |input| && e == input[i] && Sorted(input)
    requires CutState(outputs, builder, input, i + 1, stops, maxOutputFileSize, fileSize)
    ensures OutputState(outputs', builder', kept + [e])
    ensures CutState(outputs', builder', input, i + 1, stops, maxOutputFileSize, fileSize)
  {
    hide CutState;
    AddToOutput(outputs, builder, kept, e);
    var contents := Contents(builder) + [e];
    CutWhenFull(outputs, builder, input, i, stops, maxOutputFileSize, fileSize, contents);
    outputs', builder' := outputs, Some(contents);
    if fileSize(contents) >= maxOutputFileSize {
      FinishOutput(outputs, contents, kept + [e]);
      outputs', builder' := outputs + [contents], None;
    }
  }

  /** Where the loop has to stop an output, whatever its size. */
  ghost function StopsOf(grandparents: seq<File>, maxOverlap: nat, input: seq<Entry>): nat -> bool {
    (s: nat) => s < |input| && IsStop(grandparents, maxOverlap, input, s)
  }

  lemma NothingCutYet(input: seq<Entry>, stops: nat -> bool, maxOutputFileSize: nat, fileSize: seq<Entry> -> nat)
    ensures CutState([], None, input, 0, stops, maxOutputFileSize, fileSize)
  {
  }

  /** DoCompactionWork's loop over the merged inputs, in the order the merging iterator yields
      them.  `fileSize` is what the table builder reports for its contents so far.  The outputs,
      in order, are exactly the entries the drop rule keeps, none is empty, and each ends where it has reached its
      size or overlaps too much of the grandparents, and nowhere else but at the end. */
  method DoCompactionWork(c: Compaction, input: seq<Entry>, smallestSnapshot: nat,
                          maxOutputFileSize: nat, fileSize: seq<Entry> -> nat)
    returns (outputs: seq<seq<Entry>>)
    requires c.Valid() && c.reached == None && Sorted(input)
    requires c.grandparentIndex == 0 && !c.seenKey && c.overlappedBytes == 0
    requires smallestSnapshot < MAX_SEQUENCE
    modifies c, c.levelPtrs
    ensures Flatten(outputs) == Kept(input, |input|, smallestSnapshot, c.version, c.level)
    ensures forall i :: 0 <= i < |outputs| ==> outputs[i] != []
    ensures WellCut(outputs, input, |input|, StopsOf(c.grandparents, c.maxOverlap, input), maxOutputFileSize, fileSize)
  {
    hide CutState, WellCut, OutputState, StopsOf, Kept, Dropped, IsStop, LastStop, Passed;
    ghost var stops := StopsOf(c.grandparents, c.maxOverlap, input);
    outputs := [];
    var builder: Option<seq<Entry>> := None;
    var currentUserKey: Option<UserKey> := None;
    var lastSequenceForKey := MAX_SEQUENCE;
    var i := 0;
    NothingCutYet(input, stops, maxOutputFileSize, fileSize);
    NoOutputYet(input, smallestSnapshot, c.version, c.level);
    while i < |input|
      invariant DropState(c, input, i, currentUserKey, lastSequenceForKey) && StopState(c, input, i)
      invariant OutputState(outputs, builder, Kept(input, i, smallestSnapshot, c.version, c.level))
      invariant CutState(outputs, builder, input, i, stops, maxOutputFileSize, fileSize)
    {
      ghost var kept, outputs0, builder0 := Kept(input, i, smallestSnapshot, c.version, c.level), outputs, builder;
      var stop := StopsHere(c, input, i);
      if stop {
        outputs := FinishOpenOutput(outputs, builder, kept);
        builder := None;
      }
      StopsOfIs(c.grandparents, c.maxOverlap, input, i);
      CutAtStop(outputs0, builder0, input, i, stops, maxOutputFileSize, fileSize, outputs, builder);

      var drop;
      drop, currentUserKey, lastSequenceForKey :=
        DecideDrop(c, input, i, currentUserKey, lastSequenceForKey, smallestSnapshot);

      KeptNext(input, i, smallestSnapshot, c.version, c.level);
      if !drop {
        outputs, builder := AddEntry(outputs, builder, input[i], maxOutputFileSize, fileSize, kept, input, i, stops);
      }
      i := i + 1;
    }
    ghost var outputs0 := outputs;
    outputs := FinishOpenOutput(outputs, builder, Kept(input, |input|, smallestSnapshot, c.version, c.level));
    CutAtEnd(outputs0, builder, input, stops, maxOutputFileSize, fileSize, outputs);
    AllIsOutput(outputs, Kept(input, |input|, smallestSnapshot, c.version, c.level));
  }

  lemma StopsOfIs(grandparents: seq<File>, maxOverlap: nat, input: seq<Entry>, i: nat)
    requires i < |input|
    ensures StopsOf(grandparents, maxOverlap, input)(i) == IsStop(grandparents, maxOverlap, input, i)
  {
  }

  lemma KeptNext(input: seq<Entry>, i: nat, m: nat, v: Version, level: nat)
    requires i < |input|
    ensures Kept(input, i + 1, m, v, level) ==
            Kept(input, i, m, v, level) + if Dropped(input, i, m, v, level) then [] else [input[i]]
    ensures Kept(input, i, m, v, level) + [] == Kept(input, i, m, v, level)
  {
  }

  lemma NoOutputYet(input: seq<Entry>, m: nat, v: Version, level: nat)
    ensures OutputState([], None, Kept(input, 0, m, v, level))
  {
  }

  lemma AllIsOutput(outputs: seq<seq<Entry>>, kept: seq<Entry>)
    requires OutputState(outputs, None, kept)
    ensures Flatten(outputs) == kept && forall j :: 0 <= j < |outputs| ==> outputs[j] != []
  {
    assert Flatten(outputs) + [] == Flatten(outputs);
  }

  // ---------- From the loop's outputs to an installed version ----------

  /** The tables cut from one sorted run are sorted and have disjoint ranges, in order. */
  lemma {:induction false} CutsAreDisjoint(tables: seq<seq<Entry>>)
    requires Sorted(Flatten(tables)) && forall i :: 0 <= i < |tables| ==> tables[i] != []
    ensures forall i :: 0 <= i < |tables| ==> Sorted(tables[i]) && forall e :: e in tables[i] ==> e in Flatten(tables)
    ensures forall i, j :: 0 <= i < j < |tables| ==> Less(tables[i][|tables[i]| - 1].key, tables[j][0].key)
  {
    if tables != [] {
      var n := |tables| - 1;
      var front, last := Flatten(tables[..n]), tables[n];
      var all := Flatten(tables);
      assert forall k :: 0 <= k < |front| ==> all[k] == front[k];
      assert forall k :: 0 <= k < |last| ==> all[|front| + k] == last[k];
      CutsAreDisjoint(tables[..n]);
      forall i | 0 <= i < n ensures Less(tables[i][|tables[i]| - 1].key, last[0].key) {
        var e := tables[i][|tables[i]| - 1];
        assert e in tables[..n][i];
        assert e in front;
      }
    }
  }

  ghost predicate FilesOf(tables: seq<seq<Entry>>, outs: set<File>) {
    && (forall f :: f in outs ==> f.Ok() && f.entries in tables)
    && (forall i :: 0 <= i < |tables| ==> exists f :: f in outs && f.entries == tables[i])
    && (forall f, g :: f in outs && g in outs && f.entries == g.entries ==> f == g)
  }

  lemma {:induction false} FlattenMembers(tables: seq<seq<Entry>>)
    ensures forall e :: e in Flatten(tables) <==> exists i :: 0 <= i < |tables| && e in tables[i]
  {
    if tables != [] {
      var n := |tables| - 1;
      FlattenMembers(tables[..n]);
      assert forall i :: 0 <= i < n ==> tables[..n][i] == tables[i];
    }
  }

  /** The whole compaction: the merged run of its inputs, the loop's outputs as files.  The
      installed version is well formed, and every read at the oldest snapshot or later is kept
      exactly when no dropped marker covers a value that stays behind, which the boundary check
      on `level + 1` would make sure of. */
  lemma CompactionIsCorrect(v: Version, level: nat, in0: set<File>, in1: set<File>, input: seq<Entry>,
                            m: nat, tables: seq<seq<Entry>>, outs: set<File>)
    requires v.Valid() && Compactable(v.View(), level, in0, in1)
    requires Sorted(input) && EntrySet(input) == SetEntries(in0 + in1)
    requires Flatten(tables) == Kept(input, |input|, m, v, level)
    requires (forall i :: 0 <= i < |tables| ==> tables[i] != []) && FilesOf(tables, outs)
    ensures GoodOutputs(in0, in1, outs)
    ensures WellFormed(Installed(v.View(), level, in0, in1, outs))
    ensures (forall u, s :: s >= m ==>
               Read(Entries(Installed(v.View(), level, in0, in1, outs)), u, s) == Read(Entries(v.View()), u, s))
       <==> NoValueUncovered(Untouched(v.View(), level, in0, in1), SetEntries(in0 + in1), m, BaseTest(v.View(), level))
    ensures NoUpperBoundary(v.View(), level, in1) ==>
      NoValueUncovered(Untouched(v.View(), level, in0, in1), SetEntries(in0 + in1), m, BaseTest(v.View(), level))
  {
    var base := u => BaseLevel(v, level, u);
    OutputsAreSurvivors(v, level, in0, in1, input, m, tables, outs, base);
    InstalledIsWellFormed(v.View(), level, in0, in1, outs);
    LoopTestIsBaseTest(v, level, SetEntries(in0 + in1), m, base);
    CompactionPreservesReadsIff(v.View(), level, in0, in1, outs, m, BaseTest(v.View(), level));
    if NoUpperBoundary(v.View(), level, in1) {
      BoundaryCheckSuffices(v.View(), level, in0, in1, m, BaseTest(v.View(), level));
    }
  }

  lemma LoopTestIsBaseTest(v: Version, level: nat, I: set<Entry>, m: nat, base: UserKey -> bool)
    requires v.Valid() && base == (u => BaseLevel(v, level, u))
    ensures Survivors(I, m, base) == Survivors(I, m, BaseTest(v.View(), level))
  {
    forall u ensures base(u) == BaseTest(v.View(), level)(u) {
      BaseLevelOnView(v, level, u);
    }
  }

  lemma OutputsAreSurvivors(v: Version, level: nat, in0: set<File>, in1: set<File>, input: seq<Entry>,
                            m: nat, tables: seq<seq<Entry>>, outs: set<File>, base: UserKey -> bool)
    requires Compactable(v.View(), level, in0, in1)
    requires Sorted(input) && EntrySet(input) == SetEntries(in0 + in1)
    requires Flatten(tables) == Kept(input, |input|, m, v, level)
    requires (forall i :: 0 <= i < |tables| ==> tables[i] != []) && FilesOf(tables, outs)
    requires base == (u => BaseLevel(v, level, u))
    ensures GoodOutputs(in0, in1, outs)
    ensures SetEntries(outs) == Survivors(SetEntries(in0 + in1), m, base)
  {
    var I := SetEntries(in0 + in1);
    EntriesSplit(v.View(), level, in0, in1, outs);
    KeptAreSurvivors(input, m, v, level);
    KeptIsSorted(input, |input|, m, v, level);
    CutsAreDisjoint(tables);
    AllFilesOfCutsAreApart(tables, outs);
    FilesHoldTheCuts(tables, outs);
  }

  lemma AllFilesOfCutsAreApart(tables: seq<seq<Entry>>, outs: set<File>)
    requires (forall i :: 0 <= i < |tables| ==> tables[i] != []) && FilesOf(tables, outs)
    requires forall i, j :: 0 <= i < j < |tables| ==> Less(tables[i][|tables[i]| - 1].key, tables[j][0].key)
    ensures forall f, g :: f in outs && g in outs && f != g ==> Apart(f, g)
  {
    forall f, g | f in outs && g in outs && f != g ensures Apart(f, g) {
      FilesOfCutsAreApart(tables, outs, f, g);
    }
  }

  lemma FilesOfCutsAreApart(tables: seq<seq<Entry>>, outs: set<File>, f: File, g: File)
    requires (forall i :: 0 <= i < |tables| ==> tables[i] != []) && FilesOf(tables, outs)
    requires forall i, j :: 0 <= i < j < |tables| ==> Less(tables[i][|tables[i]| - 1].key, tables[j][0].key)
    requires f in outs && g in outs && f != g
    ensures Apart(f, g)
  {
    var i :| 0 <= i < |tables| && tables[i] == f.entries;
    var j :| 0 <= j < |tables| && tables[j] == g.entries;
    assert f.largest == tables[i][|tables[i]| - 1].key && g.largest == tables[j][|tables[j]| - 1].key;
    assert f.smallest == tables[i][0].key && g.smallest == tables[j][0].key;
    assert i != j;
  }

  lemma FilesHoldTheCuts(tables: seq<seq<Entry>>, outs: set<File>)
    requires FilesOf(tables, outs)
    ensures forall e :: e in SetEntries(outs) <==> e in Flatten(tables)
  {
    FlattenMembers(tables);
    forall e | e in Flatten(tables) ensures e in SetEntries(outs) {
      var i :| 0 <= i < |tables| && e in tables[i];
      var f :| f in outs && f.entries == tables[i];
    }
  }
}
