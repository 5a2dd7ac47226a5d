/** Recovering a version from the records of a MANIFEST (db/version_set.cc: VersionSet::Recover; db/dbformat.h:
    InternalKey).  The contents of the table files are given: `tables` maps a number to the entries of its file. */
module Recovery {
  import opened Keys
  import opened Coding
  import opened Separators
  import opened Versions
  import opened Builders
  import EditCodec

  type Tables = nat -> seq<Entry>

  // ---------- Internal keys as bytes ----------

  /** AppendInternalKey: the user key, then number and kind in eight bytes. */
  function KeyBytes(k: ByteKey): Bytes
    requires k.sn <= MAX_SEQUENCE
  {
    k.user + Fixed64(k.sn * 256 + if k.kind.Value? then 1 else 0)
  }

  /** What an encoded internal key stands for; fewer than eight bytes are no such key and stand for one at will. */
  function KeyOf(b: Bytes): IKey {
    if |b| < 8 then IKey(Rank(b), 0, Deletion)
    else
      var tag := GetFixed64(b, |b| - 8);
      IKey(Rank(b[..|b| - 8]), tag / 256, if tag % 256 == 1 then Value else Deletion)
  }

  lemma KeyIsReadBack(k: ByteKey)
    requires k.sn <= MAX_SEQUENCE
    ensures KeyOf(KeyBytes(k)) == Lift(k)
  {
    var tag := k.sn * 256 + if k.kind.Value? then 1 else 0;
    var b := KeyBytes(k);
    assert b[..|b| - 8] == k.user && b[|b| - 8..|b|] == Fixed64(tag);
    Fixed64IsRead(b, |b| - 8, tag);
  }

  // ---------- The file part of an edit ----------

  function FileOf(tables: Tables, f: EditCodec.FileMeta): File {
    File(f.number, f.size, KeyOf(f.smallest), KeyOf(f.largest), tables(f.number))
  }

  function LevelPart(tables: Tables, e: EditCodec.VersionEdit): FileEdit {
    FileEdit(seq(|e.compactPointers|, i requires 0 <= i < |e.compactPointers| => (e.compactPointers[i].0, KeyOf(e.compactPointers[i].1))),
             set p | p in e.deletedFiles,
             seq(|e.newFiles|, i requires 0 <= i < |e.newFiles| => (e.newFiles[i].0, FileOf(tables, e.newFiles[i].1))))
  }

  function LevelParts(tables: Tables, es: seq<EditCodec.VersionEdit>): seq<FileEdit> {
    seq(|es|, i requires 0 <= i < |es| => LevelPart(tables, es[i]))
  }

  // ---------- The records ----------

  /** Each record decoded into a VersionEdit of its own; None if one is corrupt or names another comparator. */
  function DecodeAll(comparator: Bytes, records: seq<Bytes>): (r: Option<seq<EditCodec.VersionEdit>>)
    ensures r.Some? ==> |r.value| == |records|
  {
    if records == [] then Some([])
    else
      match DecodeAll(comparator, records[..|records| - 1])
      case None => None
      case Some(es) =>
        match DecodeOne(comparator, records[|records| - 1])
        case None => None
        case Some(e) => Some(es + [e])
  }

  function DecodeOne(comparator: Bytes, record: Bytes): Option<EditCodec.VersionEdit> {
    match EditCodec.DecodeFrom(EditCodec.FRESH, record)
    case None => None
    case Some(e) => if e.comparator.Some? && e.comparator.value != comparator then None else Some(e)
  }

  /** The last value given. */
  function Latest(values: seq<Option<nat>>): Option<nat> {
    if values == [] then None
    else if values[|values| - 1].Some? then values[|values| - 1]
    else Latest(values[..|values| - 1])
  }

  function LogNumbers(es: seq<EditCodec.VersionEdit>): seq<Option<nat>> {
    seq(|es|, i requires 0 <= i < |es| => es[i].logNumber)
  }

  function PrevLogNumbers(es: seq<EditCodec.VersionEdit>): seq<Option<nat>> {
    seq(|es|, i requires 0 <= i < |es| => es[i].prevLogNumber)
  }

  function NextFiles(es: seq<EditCodec.VersionEdit>): seq<Option<nat>> {
    seq(|es|, i requires 0 <= i < |es| => es[i].nextFileNumber)
  }

  function LastSequences(es: seq<EditCodec.VersionEdit>): seq<Option<nat>> {
    seq(|es|, i requires 0 <= i < |es| => es[i].lastSequence)
  }

  /** LogAndApply: the record is the encoded edit, which names no other comparator. */
  ghost predicate Logged(comparator: Bytes, e: EditCodec.VersionEdit, record: Bytes) {
    && EditCodec.EditFits(e) && record == EditCodec.EncodeTo(e)
    && (e.comparator.None? || e.comparator.value == comparator)
  }

  /** Edits as they are logged decode to themselves, each in a fresh VersionEdit. */
  lemma {:induction false} LoggedEditsAreDecoded(comparator: Bytes, es: seq<EditCodec.VersionEdit>, records: seq<Bytes>)
    requires |records| == |es| && forall i :: 0 <= i < |es| ==> Logged(comparator, es[i], records[i])
    ensures DecodeAll(comparator, records) == Some(es)
  {
    hide *;
    if es == [] {
      NothingDecoded(comparator, records);
    } else {
      var n := |es| - 1;
      LoggedEditsAreDecoded(comparator, es[..n], records[..n]);
      LoggedEditIsDecoded(comparator, es[n], records[n]);
      OneMoreDecoded(comparator, records, n, es[..n], es[n]);
      assert es[..n] + [es[n]] == es && records[..n + 1] == records;
    }
  }

  lemma NothingDecoded(comparator: Bytes, records: seq<Bytes>)
    requires records == []
    ensures DecodeAll(comparator, records) == Some([])
  {
  }

  lemma LoggedEditIsDecoded(comparator: Bytes, e: EditCodec.VersionEdit, record: Bytes)
    requires Logged(comparator, e, record)
    ensures DecodeOne(comparator, record) == Some(e)
  {
    hide EditCodec.EditFits, EditCodec.DecodeFrom, EditCodec.EncodeTo;
    EditCodec.EditIsDecoded(EditCodec.FRESH, e);
    assert [] + e.compactPointers == e.compactPointers;
  }

  // ---------- Recover ----------

  datatype Recovered = Recovered(files: seq<seq<File>>, pointers: map<nat, IKey>, manifestNumber: nat, nextFile: nat,
                                 lastSequence: nat, logNumber: nat, prevLogNumber: nat)

  /** The version of `level` that the edits build one by one, from none. */
  function LoggedLevel(tables: Tables, level: nat, es: seq<EditCodec.VersionEdit>): seq<File> {
    OneByOne([], level, LevelParts(tables, es))
  }

  /** The compaction pointers after these edits. */
  function PointersAfter(tables: Tables, es: seq<EditCodec.VersionEdit>): map<nat, IKey> {
    if es == [] then map[] else Pointed(PointersAfter(tables, es[..|es| - 1]), LevelPart(tables, es[|es| - 1]).pointers)
  }

  /** What is kept of the edits read so far. */
  ghost predicate ReadSoFar(builder: Builder, tables: Tables, es: seq<EditCodec.VersionEdit>, next: Option<nat>, log: Option<nat>,
                            prevLog: Option<nat>, last: Option<nat>)
    reads builder
  {
    && builder.Valid() && builder.pointers == PointersAfter(tables, es)
    && (forall l :: 0 <= l < NUM_LEVELS ==> builder.levels[l] == Accumulated(l, LevelParts(tables, es)))
    && next == Latest(NextFiles(es)) && log == Latest(LogNumbers(es))
    && prevLog == Latest(PrevLogNumbers(es)) && last == Latest(LastSequences(es))
  }

  lemma LatestMore(values: seq<Option<nat>>, more: seq<Option<nat>>, x: Option<nat>)
    requires more == values + [x]
    ensures Latest(more) == if x.Some? then x else Latest(values)
  {
    assert more[..|more| - 1] == values;
  }

  lemma OneMoreRead(tables: Tables, es: seq<EditCodec.VersionEdit>, e: EditCodec.VersionEdit)
    ensures PointersAfter(tables, es + [e]) == Pointed(PointersAfter(tables, es), LevelPart(tables, e).pointers)
    ensures LevelParts(tables, es + [e]) == LevelParts(tables, es) + [LevelPart(tables, e)]
    ensures Latest(NextFiles(es + [e])) == if e.nextFileNumber.Some? then e.nextFileNumber else Latest(NextFiles(es))
    ensures Latest(LogNumbers(es + [e])) == if e.logNumber.Some? then e.logNumber else Latest(LogNumbers(es))
    ensures Latest(PrevLogNumbers(es + [e])) == if e.prevLogNumber.Some? then e.prevLogNumber else Latest(PrevLogNumbers(es))
    ensures Latest(LastSequences(es + [e])) == if e.lastSequence.Some? then e.lastSequence else Latest(LastSequences(es))
  {
    assert (es + [e])[..|es|] == es;
    LatestMore(NextFiles(es), NextFiles(es + [e]), e.nextFileNumber);
    LatestMore(LogNumbers(es), LogNumbers(es + [e]), e.logNumber);
    LatestMore(PrevLogNumbers(es), PrevLogNumbers(es + [e]), e.prevLogNumber);
    LatestMore(LastSequences(es), LastSequences(es + [e]), e.lastSequence);
  }

  lemma OneMoreDecoded(comparator: Bytes, records: seq<Bytes>, i: nat, es: seq<EditCodec.VersionEdit>, e: EditCodec.VersionEdit)
    requires i < |records| && DecodeAll(comparator, records[..i]) == Some(es) && DecodeOne(comparator, records[i]) == Some(e)
    ensures DecodeAll(comparator, records[..i + 1]) == Some(es + [e])
  {
    assert records[..i + 1][..i] == records[..i];
  }

  lemma LevelPartIsValid(tables: Tables, e: EditCodec.VersionEdit)
    requires EditCodec.LevelsOk(e)
    ensures LevelPart(tables, e).Valid()
  {
  }

  /** What the MANIFEST says must be there. */
  predicate Complete(es: seq<EditCodec.VersionEdit>) {
    Latest(NextFiles(es)).Some? && Latest(LogNumbers(es)).Some? && Latest(LastSequences(es)).Some?
  }

  lemma NoRecordsYet(comparator: Bytes, tables: Tables)
    ensures DecodeAll(comparator, []) == Some([]) && EditCodec.LevelsOk(EditCodec.FRESH)
    ensures LevelParts(tables, []) == [] && PointersAfter(tables, []) == map[]
    ensures Latest(NextFiles([])) == None && Latest(LogNumbers([])) == None
    ensures Latest(PrevLogNumbers([])) == None && Latest(LastSequences([])) == None
    ensures forall l :: Accumulated(l, []) == LevelState({}, [])
  {
  }

  /** VersionSet::Recover, from the records of the MANIFEST named by CURRENT.  It fails if and only if a record is
      corrupt or something is missing.  The files of a level are those that the logged edits gave it one by one
      whenever no number was ever given to two files. */
  method Recover(comparator: Bytes, records: seq<Bytes>, tables: Tables) returns (r: Option<Recovered>)
    ensures r.Some? <==> DecodeAll(comparator, records).Some? && Complete(DecodeAll(comparator, records).value)
    ensures r.Some? ==>
              var es := DecodeAll(comparator, records).value;
              && Some(r.value.manifestNumber) == Latest(NextFiles(es)) && r.value.nextFile == r.value.manifestNumber + 1
              && Some(r.value.lastSequence) == Latest(LastSequences(es)) && Some(r.value.logNumber) == Latest(LogNumbers(es))
              && r.value.prevLogNumber == (match Latest(PrevLogNumbers(es)) case None => 0 case Some(n) => n)
    ensures r.Some? ==>
              var es := DecodeAll(comparator, records).value;
              && r.value.pointers == PointersAfter(tables, es) && |r.value.files| == NUM_LEVELS
              && forall l :: 0 <= l < NUM_LEVELS ==>
                   LevelRecovered(tables, es, l, r.value.files[l])
  {
    hide LevelParts, LevelPart, Accumulated, LevelRecovered, Pointed, NextFiles, LogNumbers, PrevLogNumbers, LastSequences,
         DecodeAll, EditCodec.DecodeFrom, EditCodec.LevelsOk, Latest, Applied, PointersAfter;
    NoRecordsYet(comparator, tables);
    var empty := seq(NUM_LEVELS, _ => []);
    var builder := new Builder(empty, map[]);
    ghost var es: seq<EditCodec.VersionEdit> := [];
    var next, log, prevLog, last: Option<nat> := None, None, None, None;
    var i := 0;
    while i < |records|
      invariant i <= |records| && fresh(builder) && builder.base == empty
      invariant DecodeAll(comparator, records[..i]) == Some(es)
      invariant ReadSoFar(builder, tables, es, next, log, prevLog, last)
    {
      var e := EditCodec.DecodeFrom(EditCodec.FRESH, records[i]);
      if e.None? || (e.value.comparator.Some? && e.value.comparator.value != comparator) {
        NoneFromHere(comparator, records, i);
        return None;
      }
      OneMoreDecoded(comparator, records, i, es, e.value);
      EditCodec.DecodedEditLevels(EditCodec.FRESH, records[i]);
      var edit := LevelPart(tables, e.value);
      LevelPartIsValid(tables, e.value);
      builder.Apply(edit);
      OneMoreRead(tables, es, e.value);
      forall l | 0 <= l < NUM_LEVELS ensures builder.levels[l] == Accumulated(l, LevelParts(tables, es + [e.value])) {
        OneMoreOfEach([], l, LevelParts(tables, es), edit);
      }
      next := if e.value.nextFileNumber.Some? then e.value.nextFileNumber else next;
      log := if e.value.logNumber.Some? then e.value.logNumber else log;
      prevLog := if e.value.prevLogNumber.Some? then e.value.prevLogNumber else prevLog;
      last := if e.value.lastSequence.Some? then e.value.lastSequence else last;
      es := es + [e.value];
      i := i + 1;
    }
    assert records[..i] == records;
    if next.None? || log.None? || last.None? {
      return None;
    }
    var files := builder.SaveTo();
    forall l | 0 <= l < NUM_LEVELS ensures LevelRecovered(tables, es, l, files[l]) {
      LevelIsRecovered(tables, es, l, files[l]);
    }
    r := Some(Recovered(files, builder.pointers, next.value, next.value + 1, last.value, log.value,
                        if prevLog.Some? then prevLog.value else 0));
  }

  ghost predicate LevelRecovered(tables: Tables, es: seq<EditCodec.VersionEdit>, level: nat, files: seq<File>) {
    var edits := LevelParts(tables, es);
    && files == Saved([], Accumulated(level, edits))
    && (NewEachTime([], level, edits) && OneFilePerNumber([], level, edits) ==> files == LoggedLevel(tables, level, es))
  }

  lemma LevelIsRecovered(tables: Tables, es: seq<EditCodec.VersionEdit>, level: nat, files: seq<File>)
    requires files == Saved([], Accumulated(level, LevelParts(tables, es)))
    ensures LevelRecovered(tables, es, level, files)
  {
    var edits := LevelParts(tables, es);
    if NewEachTime([], level, edits) && OneFilePerNumber([], level, edits) {
      ReplayIsOneByOne([], level, edits);
    }
  }

  lemma {:induction false} NoneFromHere(comparator: Bytes, records: seq<Bytes>, i: nat)
    requires i < |records| && DecodeOne(comparator, records[i]) == None
    ensures DecodeAll(comparator, records) == None
    decreases |records|
  {
    var n := |records| - 1;
    if i < n {
      NoneFromHere(comparator, records[..n], i);
    }
  }

  /** A MANIFEST written with another comparator is refused. */
  lemma OtherComparatorIsRefused(comparator: Bytes, records: seq<Bytes>, i: nat, e: EditCodec.VersionEdit)
    requires i < |records| && EditCodec.EditFits(e) && records[i] == EditCodec.EncodeTo(e)
    requires e.comparator.Some? && e.comparator.value != comparator
    ensures DecodeAll(comparator, records) == None
  {
    hide EditCodec.EditFits, EditCodec.DecodeFrom, EditCodec.EncodeTo;
    EditCodec.EditIsDecoded(EditCodec.FRESH, e);
    NoneFromHere(comparator, records, i);
  }
}
