/** What is logged in a MANIFEST and what is recovered from it (db/version_set.cc: WriteSnapshot, LogAndApply,
    Recover): files, with their numbers, sizes and key ranges, level by level. */
module Manifests {
  import opened Keys
  import opened Coding
  import opened Separators
  import opened Versions
  import opened Builders
  import opened Recovery
  import EditCodec

  /** FileMetaData: keys as they are, not yet encoded. */
  datatype Meta = Meta(number: nat, size: nat, smallest: ByteKey, largest: ByteKey)

  /** The file that it describes. */
  function Stored(tables: Tables, m: Meta): File {
    File(m.number, m.size, Lift(m.smallest), Lift(m.largest), tables(m.number))
  }

  /** What an edit is about to say. */
  datatype Change = Change(comparator: Option<Bytes>, logNumber: Option<nat>, prevLogNumber: Option<nat>, nextFile: Option<nat>,
                           lastSequence: Option<nat>, pointers: seq<(nat, ByteKey)>, deleted: seq<(nat, nat)>, added: seq<(nat, Meta)>)

  predicate KeyFits(k: ByteKey) {
    k.sn <= MAX_SEQUENCE
  }

  ghost predicate KeysFit(c: Change) {
    && (forall i :: 0 <= i < |c.pointers| ==> KeyFits(c.pointers[i].1))
    && (forall i :: 0 <= i < |c.added| ==> KeyFits(c.added[i].1.smallest) && KeyFits(c.added[i].1.largest))
  }

  /** VersionEdit::AddFile's record of a file: the keys are stored encoded. */
  function MetaBytes(m: Meta): EditCodec.FileMeta
    requires KeyFits(m.smallest) && KeyFits(m.largest)
  {
    EditCodec.FileMeta(m.number, m.size, KeyBytes(m.smallest), KeyBytes(m.largest))
  }

  function Written(c: Change): EditCodec.VersionEdit
    requires KeysFit(c)
  {
    EditCodec.VersionEdit(
      c.comparator, c.logNumber, c.prevLogNumber, c.nextFile, c.lastSequence,
      seq(|c.pointers|, i requires 0 <= i < |c.pointers| => (c.pointers[i].0, KeyBytes(c.pointers[i].1))),
      c.deleted,
      seq(|c.added|, i requires 0 <= i < |c.added| => (c.added[i].0, MetaBytes(c.added[i].1))))
  }

  // ---------- What the changes make of a level ----------

  function MetasAt(level: nat, added: seq<(nat, Meta)>): seq<Meta> {
    if added == [] then []
    else
      var p := added[|added| - 1];
      MetasAt(level, added[..|added| - 1]) + if p.0 == level then [p.1] else []
  }

  ghost function Kept(metas: set<Meta>, level: nat, deleted: seq<(nat, nat)>): set<Meta> {
    set m | m in metas && (level, m.number) !in deleted
  }

  ghost function SetOf(metas: seq<Meta>): set<Meta> {
    set m | m in metas
  }

  /** The files of a level: those deleted have gone, those added have come, one change after the other. */
  ghost function FilesAfter(level: nat, changes: seq<Change>): set<Meta> {
    if changes == [] then {}
    else
      var c := changes[|changes| - 1];
      Kept(FilesAfter(level, changes[..|changes| - 1]), level, c.deleted) + SetOf(MetasAt(level, c.added))
  }

  ghost function EverAdded(level: nat, changes: seq<Change>): set<Meta> {
    if changes == [] then {}
    else EverAdded(level, changes[..|changes| - 1]) + SetOf(MetasAt(level, changes[|changes| - 1].added))
  }

  ghost predicate NumbersUnique(metas: set<Meta>) {
    forall m, n :: m in metas && n in metas && m.number == n.number ==> m == n
  }

  ghost predicate AddsNew(metas: seq<Meta>, present: set<Meta>) {
    && (forall i, m :: 0 <= i < |metas| && m in present ==> metas[i].number != m.number)
    && (forall i, j :: 0 <= i < j < |metas| ==> metas[i].number != metas[j].number)
  }

  /** Each change adds files under numbers that the level does not have at that time. */
  ghost predicate AlwaysNew(level: nat, changes: seq<Change>) {
    changes == [] || (
      var init := changes[..|changes| - 1];
      AlwaysNew(level, init) && AddsNew(MetasAt(level, changes[|changes| - 1].added), FilesAfter(level, init)))
  }

  /** The pointer set last for a level. */
  function LastPointer(level: nat, pointers: seq<(nat, ByteKey)>): Option<ByteKey> {
    if pointers == [] then None
    else if pointers[|pointers| - 1].0 == level then Some(pointers[|pointers| - 1].1)
    else LastPointer(level, pointers[..|pointers| - 1])
  }

  function PointerAfter(level: nat, changes: seq<Change>): Option<ByteKey> {
    if changes == [] then None
    else
      var c := changes[|changes| - 1];
      if LastPointer(level, c.pointers).Some? then LastPointer(level, c.pointers)
      else PointerAfter(level, changes[..|changes| - 1])
  }

  // ---------- What is read is what was written ----------

  ghost function StoredSet(tables: Tables, metas: set<Meta>): set<File> {
    set m | m in metas :: Stored(tables, m)
  }

  lemma FileIsReadBack(tables: Tables, m: Meta)
    requires KeyFits(m.smallest) && KeyFits(m.largest)
    ensures FileOf(tables, MetaBytes(m)) == Stored(tables, m)
  {
    KeyIsReadBack(m.smallest);
    KeyIsReadBack(m.largest);
  }

  ghost predicate ReadsAs(tables: Tables, newFiles: seq<(nat, File)>, added: seq<(nat, Meta)>) {
    && |newFiles| == |added|
    && forall i :: 0 <= i < |added| ==> newFiles[i] == (added[i].0, Stored(tables, added[i].1))
  }

  lemma PartIsReadBack(tables: Tables, c: Change)
    requires KeysFit(c)
    ensures ReadsAs(tables, LevelPart(tables, Written(c)).newFiles, c.added)
    ensures var p := LevelPart(tables, Written(c)).pointers;
            |p| == |c.pointers| && forall i :: 0 <= i < |p| ==> p[i] == (c.pointers[i].0, Lift(c.pointers[i].1))
    ensures LevelPart(tables, Written(c)).deletedFiles == set p | p in c.deleted
  {
    forall i | 0 <= i < |c.added| ensures FileOf(tables, MetaBytes(c.added[i].1)) == Stored(tables, c.added[i].1) {
      FileIsReadBack(tables, c.added[i].1);
    }
    forall i | 0 <= i < |c.pointers| ensures KeyOf(KeyBytes(c.pointers[i].1)) == Lift(c.pointers[i].1) {
      KeyIsReadBack(c.pointers[i].1);
    }
  }

  lemma {:induction false} AddedAreStored(tables: Tables, level: nat, newFiles: seq<(nat, File)>, added: seq<(nat, Meta)>)
    requires ReadsAs(tables, newFiles, added)
    ensures |AddedAt(level, newFiles)| == |MetasAt(level, added)|
    ensures forall i :: 0 <= i < |MetasAt(level, added)| ==> AddedAt(level, newFiles)[i] == Stored(tables, MetasAt(level, added)[i])
  {
    if added != [] {
      AddedAreStored(tables, level, newFiles[..|added| - 1], added[..|added| - 1]);
    }
  }

  lemma MembersAreStored(tables: Tables, fs: seq<File>, metas: seq<Meta>)
    requires |fs| == |metas| && forall i :: 0 <= i < |metas| ==> fs[i] == Stored(tables, metas[i])
    ensures Members(fs) == StoredSet(tables, SetOf(metas))
  {
    forall f | f in Members(fs) ensures f in StoredSet(tables, SetOf(metas)) {
      var i :| 0 <= i < |fs| && fs[i] == f;
      assert metas[i] in SetOf(metas);
    }
    forall f | f in StoredSet(tables, SetOf(metas)) ensures f in Members(fs) {
      var m :| m in SetOf(metas) && Stored(tables, m) == f;
      var i :| 0 <= i < |metas| && metas[i] == m;
      assert fs[i] == f;
    }
  }

  lemma KeptAreStored(tables: Tables, metas: set<Meta>, level: nat, deleted: seq<(nat, nat)>)
    ensures Builders.Kept(StoredSet(tables, metas), DeletedAt(level, set p | p in deleted)) == StoredSet(tables, Kept(metas, level, deleted))
  {
    var gone := DeletedAt(level, set p | p in deleted);
    forall n: nat ensures n in gone <==> (level, n) in deleted {
      if (level, n) in deleted {
        assert (level, n) in set p | p in deleted;
      }
    }
    forall f | f in StoredSet(tables, metas) && f.number !in gone ensures f in StoredSet(tables, Kept(metas, level, deleted)) {
      var m :| m in metas && Stored(tables, m) == f;
      assert m in Kept(metas, level, deleted);
    }
  }

  // ---------- Level by level ----------

  function WrittenAll(changes: seq<Change>): seq<EditCodec.VersionEdit>
    requires forall i :: 0 <= i < |changes| ==> KeysFit(changes[i])
  {
    seq(|changes|, i requires 0 <= i < |changes| => Written(changes[i]))
  }

  /** The edits of a level, of its last change and of those before. */
  lemma PartsSplit(tables: Tables, changes: seq<Change>)
    requires changes != [] && forall i :: 0 <= i < |changes| ==> KeysFit(changes[i])
    ensures var parts := LevelParts(tables, WrittenAll(changes));
      && parts != [] && parts[|parts| - 1] == LevelPart(tables, Written(changes[|changes| - 1]))
      && parts[..|parts| - 1] == LevelParts(tables, WrittenAll(changes[..|changes| - 1]))
  {
  }

  lemma NewAmongStored(tables: Tables, fs: seq<File>, metas: seq<Meta>, files: set<File>, present: set<Meta>)
    requires |fs| == |metas| && forall i :: 0 <= i < |metas| ==> fs[i] == Stored(tables, metas[i])
    requires files == StoredSet(tables, present) && AddsNew(metas, present)
    ensures AllNew(fs, Numbers(files))
  {
  }

  /** The logged edits give a level exactly the files of its changes. */
  lemma {:induction false} LevelAfter(tables: Tables, level: nat, changes: seq<Change>)
    requires (forall i :: 0 <= i < |changes| ==> KeysFit(changes[i])) && AlwaysNew(level, changes)
    ensures var parts := LevelParts(tables, WrittenAll(changes));
      && NewEachTime([], level, parts)
      && Builders.Ascending(OneByOne([], level, parts))
      && Members(OneByOne([], level, parts)) == StoredSet(tables, FilesAfter(level, changes))
      && Adds(level, parts) == StoredSet(tables, EverAdded(level, changes))
  {
    var parts := LevelParts(tables, WrittenAll(changes));
    if changes != [] {
      var init, c := changes[..|changes| - 1], changes[|changes| - 1];
      PartsSplit(tables, changes);
      LevelAfter(tables, level, init);
      var part := LevelPart(tables, Written(c));
      PartIsReadBack(tables, c);
      AddedAreStored(tables, level, part.newFiles, c.added);
      var fs, metas := AddedAt(level, part.newFiles), MetasAt(level, c.added);
      MembersAreStored(tables, fs, metas);
      var before := OneByOne([], level, parts[..|parts| - 1]);
      NewAmongStored(tables, fs, metas, Members(before), FilesAfter(level, init));
      OneByOneIsSound([], level, parts[..|parts| - 1]);
      OneEditSaved(before, level, part);
      KeptAreStored(tables, FilesAfter(level, init), level, c.deleted);
      StoredJoin(tables, Kept(FilesAfter(level, init), level, c.deleted), SetOf(metas));
      StoredJoin(tables, EverAdded(level, init), SetOf(metas));
    } else {
      assert Members([]) == {};
    }
  }

  lemma StoredJoin(tables: Tables, a: set<Meta>, b: set<Meta>)
    ensures StoredSet(tables, a + b) == StoredSet(tables, a) + StoredSet(tables, b)
  {
  }

  lemma {:induction false} PointedLast(pointers: map<nat, IKey>, news: seq<(nat, IKey)>, keys: seq<(nat, ByteKey)>, level: nat)
    requires |news| == |keys| && forall i :: 0 <= i < |news| ==> news[i] == (keys[i].0, Lift(keys[i].1))
    ensures var p := Pointed(pointers, news);
            match LastPointer(level, keys)
            case Some(k) => level in p && p[level] == Lift(k)
            case None => (level in p <==> level in pointers) && (level in p ==> p[level] == pointers[level])
  {
    if news != [] {
      PointedLast(pointers, news[..|news| - 1], keys[..|keys| - 1], level);
    }
  }

  lemma {:induction false} PointersLast(tables: Tables, changes: seq<Change>, level: nat)
    requires forall i :: 0 <= i < |changes| ==> KeysFit(changes[i])
    ensures var p := PointersAfter(tables, WrittenAll(changes));
            match PointerAfter(level, changes)
            case Some(k) => level in p && p[level] == Lift(k)
            case None => level !in p
  {
    if changes != [] {
      var init, c := changes[..|changes| - 1], changes[|changes| - 1];
      PointersLast(tables, init, level);
      PartIsReadBack(tables, c);
      var es := WrittenAll(changes);
      assert es[..|es| - 1] == WrittenAll(init) && es[|es| - 1] == Written(c);
      PointedLast(PointersAfter(tables, WrittenAll(init)), LevelPart(tables, Written(c)).pointers, c.pointers, level);
    }
  }

  // ---------- Recovery ----------

  /** The files of a level in the order of their smallest keys, with the numbers, sizes and keys they were logged with. */
  ghost predicate HoldsFiles(tables: Tables, files: seq<File>, metas: set<Meta>) {
    Builders.Ascending(files) && Members(files) == StoredSet(tables, metas)
  }

  ghost predicate PointsTo(pointers: map<nat, IKey>, level: nat, key: Option<ByteKey>) {
    match key
    case Some(k) => level in pointers && pointers[level] == Lift(k)
    case None => level !in pointers
  }

  lemma LevelComesBack(tables: Tables, level: nat, changes: seq<Change>, files: seq<File>)
    requires (forall i :: 0 <= i < |changes| ==> KeysFit(changes[i])) && AlwaysNew(level, changes)
    requires NumbersUnique(EverAdded(level, changes)) && LevelRecovered(tables, WrittenAll(changes), level, files)
    ensures HoldsFiles(tables, files, FilesAfter(level, changes))
  {
    LevelAfter(tables, level, changes);
    var parts := LevelParts(tables, WrittenAll(changes));
    forall f, g | f in Adds(level, parts) && g in Adds(level, parts) && f.number == g.number ensures f == g {
      var m :| m in EverAdded(level, changes) && Stored(tables, m) == f;
      var n :| n in EverAdded(level, changes) && Stored(tables, n) == g;
    }
    assert Members([]) == {};
  }

  /** Recovering from the records of logged changes, in which no number is given to two files, gives every level exactly
      the files that the changes left it, and the pointers set last. */
  method RecoverLogged(comparator: Bytes, tables: Tables, changes: seq<Change>, records: seq<Bytes>) returns (r: Option<Recovered>)
    requires |records| == |changes| && (forall i :: 0 <= i < |changes| ==> KeysFit(changes[i]) && Logged(comparator, Written(changes[i]), records[i]))
    requires forall l :: 0 <= l < NUM_LEVELS ==> AlwaysNew(l, changes) && NumbersUnique(EverAdded(l, changes))
    ensures r.Some? <==> Complete(WrittenAll(changes))
    ensures r.Some? ==> |r.value.files| == NUM_LEVELS
    ensures r.Some? ==> forall l :: 0 <= l < NUM_LEVELS ==>
      HoldsFiles(tables, r.value.files[l], FilesAfter(l, changes)) && PointsTo(r.value.pointers, l, PointerAfter(l, changes))
  {
    hide LevelRecovered, Complete, Logged, KeysFit, AlwaysNew, FilesAfter, HoldsFiles, PointersAfter, DecodeAll, Written;
    var es := WrittenAll(changes);
    LoggedEditsAreDecoded(comparator, es, records);
    r := Recover(comparator, records, tables);
    if r.Some? {
      forall l | 0 <= l < NUM_LEVELS
        ensures HoldsFiles(tables, r.value.files[l], FilesAfter(l, changes)) && PointsTo(r.value.pointers, l, PointerAfter(l, changes))
      {
        LevelComesBack(tables, l, changes, r.value.files[l]);
        PointersLast(tables, changes, l);
      }
    }
  }

  // ---------- The snapshot that begins a MANIFEST ----------

  lemma {:induction false} MetasOfBoth(level: nat, a: seq<(nat, Meta)>, b: seq<(nat, Meta)>)
    ensures MetasAt(level, a + b) == MetasAt(level, a) + MetasAt(level, b)
  {
    if b == [] {
      assert a + b == a;
    } else {
      assert (a + b)[..|a + b| - 1] == a + b[..|b| - 1];
      MetasOfBoth(level, a, b[..|b| - 1]);
    }
  }

  lemma OneMeta(level: nat, at: nat, m: Meta)
    ensures MetasAt(level, [(at, m)]) == if at == level then [m] else []
  {
    assert [(at, m)][..0] == [];
  }

  lemma OnePointer(level: nat, pointers: seq<(nat, ByteKey)>, at: nat, k: ByteKey)
    ensures LastPointer(level, pointers + [(at, k)]) == if at == level then Some(k) else LastPointer(level, pointers)
  {
    assert (pointers + [(at, k)])[..|pointers|] == pointers;
  }

  /** The files of the levels before `n` have been added, and the first `k` of level `n`. */
  ghost predicate AddedUpTo(added: seq<(nat, Meta)>, files: seq<seq<Meta>>, n: nat, k: nat) {
    && (forall i :: 0 <= i < |added| ==> KeyFits(added[i].1.smallest) && KeyFits(added[i].1.largest))
    && forall l :: 0 <= l < |files| ==>
         MetasAt(l, added) == if l < n then files[l] else if l == n && k <= |files[l]| then files[l][..k] else []
  }

  lemma AddedOneMore(added: seq<(nat, Meta)>, files: seq<seq<Meta>>, n: nat, k: nat)
    requires AddedUpTo(added, files, n, k) && n < |files| && k < |files[n]|
    requires KeyFits(files[n][k].smallest) && KeyFits(files[n][k].largest)
    ensures AddedUpTo(added + [(n, files[n][k])], files, n, k + 1)
  {
    hide MetasAt;
    forall l | 0 <= l < |files|
      ensures MetasAt(l, added + [(n, files[n][k])]) == if l < n then files[l] else if l == n then files[l][..k + 1] else []
    {
      MetasOfBoth(l, added, [(n, files[n][k])]);
      OneMeta(l, n, files[n][k]);
    }
  }

  /** WriteSnapshot: the pointers that are set, then all files, level by level.  As the first record of a MANIFEST it
      stands for the version it was taken of. */
  method WriteSnapshot(comparator: Bytes, pointers: seq<Option<ByteKey>>, files: seq<seq<Meta>>)
    returns (edit: EditCodec.VersionEdit, ghost c: Change)
    requires |pointers| == |files| == NUM_LEVELS
    requires forall l :: 0 <= l < NUM_LEVELS && pointers[l].Some? ==> KeyFits(pointers[l].value)
    requires forall l, i :: 0 <= l < NUM_LEVELS && 0 <= i < |files[l]| ==> KeyFits(files[l][i].smallest) && KeyFits(files[l][i].largest)
    ensures KeysFit(c) && edit == Written(c) && c.comparator == Some(comparator)
    ensures forall l :: 0 <= l < NUM_LEVELS ==> FilesAfter(l, [c]) == SetOf(files[l]) && PointerAfter(l, [c]) == pointers[l]
    ensures forall l :: 0 <= l < NUM_LEVELS ==> (AlwaysNew(l, [c]) <==> AddsNew(files[l], {})) && EverAdded(l, [c]) == SetOf(files[l])
  {
    var keys: seq<(nat, ByteKey)> := [];
    for level := 0 to NUM_LEVELS
      invariant forall i :: 0 <= i < |keys| ==> KeyFits(keys[i].1)
      invariant forall l :: 0 <= l < NUM_LEVELS ==> LastPointer(l, keys) == if l < level then pointers[l] else None
    {
      if pointers[level].Some? {
        forall l | 0 <= l < NUM_LEVELS
          ensures LastPointer(l, keys + [(level, pointers[level].value)]) == if l == level then pointers[level] else LastPointer(l, keys)
        {
          OnePointer(l, keys, level, pointers[level].value);
        }
        keys := keys + [(level, pointers[level].value)];
      }
    }
    var added := AddFiles(files);
    c := Change(Some(comparator), None, None, None, None, keys, [], added);
    edit := EditCodec.VersionEdit(Some(comparator), None, None, None, None,
                                  seq(|keys|, i requires 0 <= i < |keys| => (keys[i].0, KeyBytes(keys[i].1))), [],
                                  seq(|added|, i requires 0 <= i < |added| => (added[i].0, MetaBytes(added[i].1))));
    forall l | 0 <= l < NUM_LEVELS
      ensures FilesAfter(l, [c]) == SetOf(files[l]) && PointerAfter(l, [c]) == pointers[l]
      ensures (AlwaysNew(l, [c]) <==> AddsNew(files[l], {})) && EverAdded(l, [c]) == SetOf(files[l])
    {
      FirstChange(l, c);
    }
  }

  lemma NoneAdded(files: seq<seq<Meta>>)
    ensures AddedUpTo([], files, 0, 0)
  {
    assert forall l :: 0 <= l < |files| ==> files[l][..0] == [];
  }

  lemma LevelAdded(added: seq<(nat, Meta)>, files: seq<seq<Meta>>, n: nat)
    requires n < |files| && AddedUpTo(added, files, n, |files[n]|)
    ensures AddedUpTo(added, files, n + 1, 0)
  {
    assert files[n][..|files[n]|] == files[n];
    assert forall l :: 0 <= l < |files| ==> files[l][..0] == [];
  }

  method AddFiles(files: seq<seq<Meta>>) returns (added: seq<(nat, Meta)>)
    requires |files| == NUM_LEVELS
    requires forall l, i :: 0 <= l < NUM_LEVELS && 0 <= i < |files[l]| ==> KeyFits(files[l][i].smallest) && KeyFits(files[l][i].largest)
    ensures AddedUpTo(added, files, NUM_LEVELS, 0)
  {
    hide AddedUpTo;
    added := [];
    NoneAdded(files);
    for level := 0 to NUM_LEVELS
      invariant AddedUpTo(added, files, level, 0)
    {
      for k := 0 to |files[level]|
        invariant AddedUpTo(added, files, level, k)
      {
        AddedOneMore(added, files, level, k);
        added := added + [(level, files[level][k])];
      }
      LevelAdded(added, files, level);
    }
  }

  lemma FirstChange(l: nat, c: Change)
    requires c.deleted == []
    ensures FilesAfter(l, [c]) == SetOf(MetasAt(l, c.added)) == EverAdded(l, [c]) && PointerAfter(l, [c]) == LastPointer(l, c.pointers)
    ensures AlwaysNew(l, [c]) <==> AddsNew(MetasAt(l, c.added), {})
  {
    assert [c][..0] == [];
    assert FilesAfter(l, []) == {};
  }
}
