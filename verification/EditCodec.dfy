/** The bytes of a VersionEdit (db/version_edit.cc): a run of tagged fields. */
module EditCodec {
  import opened Keys
  import opened Coding
  import Versions

  datatype FileMeta = FileMeta(number: nat, size: nat, smallest: Bytes, largest: Bytes)

  datatype Field =
    | Comparator(name: Bytes)
    | LogNumber(number: nat)
    | NextFileNumber(number: nat)
    | LastSequence(number: nat)
    | CompactPointer(level: nat, key: Bytes)
    | DeletedFile(level: nat, number: nat)
    | NewFile(level: nat, file: FileMeta)
    | PrevLogNumber(number: nat)

  predicate FitsFile(f: FileMeta) {
    f.number < TWO_64 && f.size < TWO_64 && |f.smallest| < TWO_32 && |f.largest| < TWO_32
  }

  /** A field that the C++ types can hold. */
  predicate Fits(f: Field) {
    match f
    case Comparator(name) => |name| < TWO_32
    case CompactPointer(level, key) => level < Versions.NUM_LEVELS && |key| < TWO_32
    case DeletedFile(level, number) => level < Versions.NUM_LEVELS && number < TWO_64
    case NewFile(level, file) => level < Versions.NUM_LEVELS && FitsFile(file)
    case _ => f.number < TWO_64
  }

  function Tag(f: Field): nat {
    match f
    case Comparator(_) => 1
    case LogNumber(_) => 2
    case NextFileNumber(_) => 3
    case LastSequence(_) => 4
    case CompactPointer(_, _) => 5
    case DeletedFile(_, _) => 6
    case NewFile(_, _) => 7
    case PrevLogNumber(_) => 9
  }

  /** What fields are made of: levels (varint32, below 7), numbers (varint64), strings with their lengths. */
  datatype Part = Level(n: nat) | Number(n: nat) | Text(s: Bytes)

  datatype PartKind = LevelKind | NumberKind | TextKind

  predicate FitsPart(x: Part) {
    match x
    case Level(n) => n < Versions.NUM_LEVELS
    case Number(n) => n < TWO_64
    case Text(s) => |s| < TWO_32
  }

  function KindOf(x: Part): PartKind {
    match x
    case Level(_) => LevelKind
    case Number(_) => NumberKind
    case Text(_) => TextKind
  }

  function PartsOf(f: Field): seq<Part> {
    match f
    case Comparator(name) => [Text(name)]
    case CompactPointer(level, key) => [Level(level), Text(key)]
    case DeletedFile(level, number) => [Level(level), Number(number)]
    case NewFile(level, file) => [Level(level), Number(file.number), Number(file.size), Text(file.smallest), Text(file.largest)]
    case _ => [Number(f.number)]
  }

  function EncodePart(x: Part): Bytes
    requires FitsPart(x)
  {
    match x
    case Level(n) => Varint(n)
    case Number(n) => Varint(n)
    case Text(s) => LengthPrefixed(s)
  }

  predicate AllFit(parts: seq<Part>) {
    forall i :: 0 <= i < |parts| ==> FitsPart(parts[i])
  }

  function EncodeParts(parts: seq<Part>): Bytes
    requires AllFit(parts)
  {
    if parts == [] then [] else EncodePart(parts[0]) + EncodeParts(parts[1..])
  }

  /** A tag and the parts that belong to it. */
  function EncodeField(f: Field): Bytes
    requires Fits(f)
  {
    PartsFit(f);
    Varint(Tag(f)) + EncodeParts(PartsOf(f))
  }

  // ---------- Reading one field ----------

  function GetPart(kind: PartKind, b: Bytes, p: nat): Option<Parsed<Part>> {
    match kind
    case LevelKind =>
      (match GetVarint32(b, p, |b|)
       case None => None
       case Some(v) => if v.value < Versions.NUM_LEVELS then Some(Parsed(Level(v.value), v.next)) else None)
    case NumberKind =>
      (match GetVarint64(b, p, |b|)
       case None => None
       case Some(v) => Some(Parsed(Number(v.value), v.next)))
    case TextKind =>
      match GetLengthPrefixedSlice(b, p, |b|)
      case None => None
      case Some(v) => Some(Parsed(Text(v.value), v.next))
  }

  /** The parts of one case of DecodeFrom, one after the other until one fails. */
  function GetParts(kinds: seq<PartKind>, b: Bytes, p: nat): Option<Parsed<seq<Part>>> {
    if kinds == [] then Some(Parsed([], p))
    else
      match GetPart(kinds[0], b, p)
      case None => None
      case Some(first) =>
        match GetParts(kinds[1..], b, first.next)
        case None => None
        case Some(rest) => Some(Parsed([first.value] + rest.value, rest.next))
  }

  /** What each tag is followed by; None for an unknown tag. */
  function Schema(tag: nat): Option<seq<PartKind>> {
    if tag == 1 then Some([TextKind])
    else if tag == 2 || tag == 3 || tag == 4 || tag == 9 then Some([NumberKind])
    else if tag == 5 then Some([LevelKind, TextKind])
    else if tag == 6 then Some([LevelKind, NumberKind])
    else if tag == 7 then Some([LevelKind, NumberKind, NumberKind, TextKind, TextKind])
    else None
  }

  /** The field a case of DecodeFrom sets; None if the parts are not what the tag calls for. */
  function FieldOf(tag: nat, parts: seq<Part>): Option<Field> {
    if tag == 1 && |parts| == 1 && parts[0].Text? then Some(Comparator(parts[0].s))
    else if tag == 5 && |parts| == 2 && parts[0].Level? && parts[1].Text? then Some(CompactPointer(parts[0].n, parts[1].s))
    else if tag == 6 && |parts| == 2 && parts[0].Level? && parts[1].Number? then Some(DeletedFile(parts[0].n, parts[1].n))
    else if tag == 7 && |parts| == 5 && parts[0].Level? && parts[1].Number? && parts[2].Number? && parts[3].Text? && parts[4].Text?
      then Some(NewFile(parts[0].n, FileMeta(parts[1].n, parts[2].n, parts[3].s, parts[4].s)))
    else if |parts| == 1 && parts[0].Number? then NumberField(tag, parts[0].n)
    else None
  }

  function NumberField(tag: nat, n: nat): Option<Field> {
    if tag == 2 then Some(LogNumber(n)) else if tag == 3 then Some(NextFileNumber(n)) else if tag == 4 then Some(LastSequence(n))
    else if tag == 9 then Some(PrevLogNumber(n)) else None
  }

  function GetBody(tag: nat, b: Bytes, p: nat): Option<Parsed<Field>> {
    match Schema(tag)
    case None => None
    case Some(kinds) =>
      match GetParts(kinds, b, p)
      case None => None
      case Some(parts) =>
        match FieldOf(tag, parts.value)
        case None => None
        case Some(f) => Some(Parsed(f, parts.next))
  }

  // ---------- What is encoded is decoded ----------

  lemma PartIsRead(b: Bytes, p: nat, x: Part, code: Bytes, next: nat)
    requires FitsPart(x) && code == EncodePart(x) && At(b, p, |b|, code) && next == p + |code|
    ensures GetPart(KindOf(x), b, p) == Some(Parsed(x, next))
  {
    match x
    case Level(n) => Varint32IsRead(b, p, |b|, n);
    case Number(n) => Varint64IsRead(b, p, |b|, n);
    case Text(s) => LengthPrefixedIsRead(b, p, |b|, s);
  }

  function KindsOf(parts: seq<Part>): (kinds: seq<PartKind>)
    ensures |kinds| == |parts|
  {
    seq(|parts|, i requires 0 <= i < |parts| => KindOf(parts[i]))
  }

  lemma {:induction false} PartsAreRead(b: Bytes, p: nat, parts: seq<Part>, code: Bytes, end: nat)
    requires AllFit(parts) && code == EncodeParts(parts) && At(b, p, |b|, code) && end == p + |code|
    ensures GetParts(KindsOf(parts), b, p) == Some(Parsed(parts, end))
    decreases |parts|
  {
    if parts != [] {
      var x, others := parts[0], parts[1..];
      var first, rest := EncodePart(x), EncodeParts(others);
      var next := p + |first|;
      FirstPartIsRead(b, p, x, first, rest, next);
      PartsAreRead(b, next, others, rest, end);
      OnePartMore(b, p, x, others, next, end);
      assert [x] + others == parts;
    } else {
      assert KindsOf(parts) == [];
    }
  }

  lemma FirstPartIsRead(b: Bytes, p: nat, x: Part, first: Bytes, rest: Bytes, next: nat)
    requires FitsPart(x) && first == EncodePart(x) && At(b, p, |b|, first + rest) && next == p + |first|
    ensures GetPart(KindOf(x), b, p) == Some(Parsed(x, next)) && At(b, next, |b|, rest)
    ensures p + |first + rest| == next + |rest|
  {
    AtBoth(b, p, |b|, first, rest);
    PartIsRead(b, p, x, first, next);
  }

  lemma OnePartMore(b: Bytes, p: nat, x: Part, rest: seq<Part>, next: nat, end: nat)
    requires GetPart(KindOf(x), b, p) == Some(Parsed(x, next)) && GetParts(KindsOf(rest), b, next) == Some(Parsed(rest, end))
    ensures GetParts(KindsOf([x] + rest), b, p) == Some(Parsed([x] + rest, end))
  {
    var kinds := KindsOf([x] + rest);
    assert kinds[1..] == KindsOf(rest);
  }

  lemma KindsAreSchema(f: Field)
    ensures Schema(Tag(f)) == Some(KindsOf(PartsOf(f)))
  {
    var kinds := KindsOf(PartsOf(f));
    if f.NewFile? {
      assert kinds == [LevelKind, NumberKind, NumberKind, TextKind, TextKind];
    } else if f.CompactPointer? {
      assert kinds == [LevelKind, TextKind];
    } else if f.DeletedFile? {
      assert kinds == [LevelKind, NumberKind];
    } else if f.Comparator? {
      assert kinds == [TextKind];
    } else {
      assert kinds == [NumberKind];
    }
  }

  lemma FieldOfParts(f: Field)
    ensures FieldOf(Tag(f), PartsOf(f)) == Some(f)
  {
  }

  lemma PartsFit(f: Field)
    requires Fits(f)
    ensures AllFit(PartsOf(f))
  {
  }

  /** A tag and its parts are read back as the field, and reading goes on right behind it. */
  lemma FieldIsRead(b: Bytes, p: nat, f: Field, tag: nat, parts: seq<Part>, code: Bytes, body: Bytes) returns (q: nat)
    requires tag < TWO_32 && code == Varint(tag) && AllFit(parts) && body == EncodeParts(parts)
    requires Schema(tag) == Some(KindsOf(parts)) && FieldOf(tag, parts) == Some(f)
    requires At(b, p, |b|, code + body)
    ensures p < q == p + |code| && GetVarint32(b, p, |b|) == Some(Parsed(tag, q))
    ensures GetBody(tag, b, q) == Some(Parsed(f, q + |body|))
  {
    hide Schema, FieldOf, GetParts, GetBody, EncodeParts, Varint;
    AtBoth(b, p, |b|, code, body);
    q := TagIsRead(b, p, tag, code);
    PartsAreRead(b, q, parts, body, q + |body|);
    BodyStands(tag, b, q, parts, f, q + |body|);
  }

  lemma TagIsRead(b: Bytes, p: nat, tag: nat, code: Bytes) returns (q: nat)
    requires tag < TWO_32 && code == Varint(tag) && At(b, p, |b|, code)
    ensures p < q == p + |code| && GetVarint32(b, p, |b|) == Some(Parsed(tag, q))
  {
    Varint32IsRead(b, p, |b|, tag);
    q := p + |code|;
  }

  lemma BodyStands(tag: nat, b: Bytes, q: nat, parts: seq<Part>, f: Field, end: nat)
    requires Schema(tag) == Some(KindsOf(parts)) && FieldOf(tag, parts) == Some(f)
    requires GetParts(KindsOf(parts), b, q) == Some(Parsed(parts, end))
    ensures GetBody(tag, b, q) == Some(Parsed(f, end))
  {
  }

  lemma FieldStands(b: Bytes, p: nat, f: Field, field: Bytes) returns (q: nat)
    requires Fits(f) && field == EncodeField(f) && At(b, p, |b|, field)
    ensures p < q <= p + |field| && GetVarint32(b, p, |b|) == Some(Parsed(Tag(f), q))
    ensures GetBody(Tag(f), b, q) == Some(Parsed(f, p + |field|))
  {
    PartsFit(f);
    KindsAreSchema(f);
    FieldOfParts(f);
    q := FieldIsRead(b, p, f, Tag(f), PartsOf(f), Varint(Tag(f)), EncodeParts(PartsOf(f)));
  }

  // ---------- A whole edit ----------

  function EncodeFields(fields: seq<Field>): Bytes
    requires forall i :: 0 <= i < |fields| ==> Fits(fields[i])
  {
    if fields == [] then [] else EncodeField(fields[0]) + EncodeFields(fields[1..])
  }

  /** DecodeFrom's loop: the fields in order, or None for a corruption (a bad field, an unknown tag,
      or bytes left over that are no tag). */
  function DecodeFields(b: Bytes, p: nat): Option<seq<Field>>
    decreases |b| - p
  {
    match GetVarint32(b, p, |b|)
    case None => if p < |b| then None else Some([])
    case Some(tag) =>
      match GetBody(tag.value, b, tag.next)
      case None => None
      case Some(f) =>
        if f.next <= p || |b| < f.next then None
        else
          match DecodeFields(b, f.next)
          case None => None
          case Some(rest) => Some([f.value] + rest)
  }

  /** Whatever fields are encoded, they are decoded, in order, to the last byte. */
  lemma {:induction false} FieldsRoundTrip(b: Bytes, p: nat, fields: seq<Field>)
    requires forall i :: 0 <= i < |fields| ==> Fits(fields[i])
    requires p <= |b| && b[p..] == EncodeFields(fields)
    ensures DecodeFields(b, p) == Some(fields)
    decreases |fields|
  {
    if fields != [] {
      hide EncodeField, GetBody, GetVarint32, Fits;
      var f, rest := fields[0], fields[1..];
      TailOf(b, p, EncodeField(f), EncodeFields(rest));
      var q := FieldStands(b, p, f, EncodeField(f));
      FieldsRoundTrip(b, p + |EncodeField(f)|, rest);
      DecodeStep(b, p, q, p + |EncodeField(f)|, Tag(f), f, rest);
      assert [f] + rest == fields;
    } else {
      assert |b[p..]| == 0;
    }
  }

  lemma DecodeStep(b: Bytes, p: nat, q: nat, end: nat, tag: nat, f: Field, rest: seq<Field>)
    requires p < end <= |b| && GetVarint32(b, p, |b|) == Some(Parsed(tag, q))
    requires GetBody(tag, b, q) == Some(Parsed(f, end)) && DecodeFields(b, end) == Some(rest)
    ensures DecodeFields(b, p) == Some([f] + rest)
  {
  }

  lemma TailOf(b: Bytes, p: nat, first: Bytes, rest: Bytes)
    requires p <= |b| && b[p..] == first + rest
    ensures At(b, p, |b|, first) && p + |first| <= |b| && b[p + |first|..] == rest
  {
    assert b[p..][..|first|] == first && b[p..][|first|..] == rest;
  }

  /** A VersionEdit; `deletedFiles` is a std::set, so it is ascending. */
  datatype VersionEdit = VersionEdit(
    comparator: Option<Bytes>, logNumber: Option<nat>, prevLogNumber: Option<nat>, nextFileNumber: Option<nat>,
    lastSequence: Option<nat>, compactPointers: seq<(nat, Bytes)>, deletedFiles: seq<(nat, nat)>, newFiles: seq<(nat, FileMeta)>)

  const FRESH := VersionEdit(None, None, None, None, None, [], [], [])

  /** Clear, which forgets everything but the compaction pointers. */
  function Clear(e: VersionEdit): VersionEdit {
    FRESH.(compactPointers := e.compactPointers)
  }

  predicate PairBefore(x: (nat, nat), y: (nat, nat)) {
    x.0 < y.0 || (x.0 == y.0 && x.1 < y.1)
  }

  /** std::set::insert. */
  function InsertPair(s: seq<(nat, nat)>, x: (nat, nat)): seq<(nat, nat)> {
    if s == [] then [x]
    else
      var last := s[|s| - 1];
      if PairBefore(last, x) then s + [x]
      else if PairBefore(x, last) then InsertPair(s[..|s| - 1], x) + [last]
      else s
  }

  ghost predicate Ascending(s: seq<(nat, nat)>) {
    forall i :: 0 < i < |s| ==> PairBefore(s[i - 1], s[i])
  }

  /** One case of DecodeFrom. */
  function Apply(e: VersionEdit, f: Field): VersionEdit {
    match f
    case Comparator(name) => e.(comparator := Some(name))
    case LogNumber(n) => e.(logNumber := Some(n))
    case NextFileNumber(n) => e.(nextFileNumber := Some(n))
    case LastSequence(n) => e.(lastSequence := Some(n))
    case CompactPointer(level, key) => e.(compactPointers := e.compactPointers + [(level, key)])
    case DeletedFile(level, n) => e.(deletedFiles := InsertPair(e.deletedFiles, (level, n)))
    case NewFile(level, file) => e.(newFiles := e.newFiles + [(level, file)])
    case PrevLogNumber(n) => e.(prevLogNumber := Some(n))
  }

  function ApplyAll(e: VersionEdit, fields: seq<Field>): VersionEdit {
    if fields == [] then e else Apply(ApplyAll(e, fields[..|fields| - 1]), fields[|fields| - 1])
  }

  /** The single-valued fields, in the order of EncodeTo. */
  function HeaderFields(e: VersionEdit): seq<Field> {
    (if e.comparator.Some? then [Comparator(e.comparator.value)] else [])
    + (if e.logNumber.Some? then [LogNumber(e.logNumber.value)] else [])
    + (if e.prevLogNumber.Some? then [PrevLogNumber(e.prevLogNumber.value)] else [])
    + (if e.nextFileNumber.Some? then [NextFileNumber(e.nextFileNumber.value)] else [])
    + (if e.lastSequence.Some? then [LastSequence(e.lastSequence.value)] else [])
  }

  function PointerFields(s: seq<(nat, Bytes)>): seq<Field> {
    seq(|s|, i requires 0 <= i < |s| => CompactPointer(s[i].0, s[i].1))
  }

  function DeletedFields(s: seq<(nat, nat)>): seq<Field> {
    seq(|s|, i requires 0 <= i < |s| => DeletedFile(s[i].0, s[i].1))
  }

  function NewFields(s: seq<(nat, FileMeta)>): seq<Field> {
    seq(|s|, i requires 0 <= i < |s| => NewFile(s[i].0, s[i].1))
  }

  /** What EncodeTo writes, field by field. */
  function FieldsOf(e: VersionEdit): seq<Field> {
    HeaderFields(e) + PointerFields(e.compactPointers) + DeletedFields(e.deletedFiles) + NewFields(e.newFiles)
  }

  lemma {:induction false} ApplyAllOfConcat(e: VersionEdit, a: seq<Field>, b: seq<Field>)
    ensures ApplyAll(e, a + b) == ApplyAll(ApplyAll(e, a), b)
    decreases |b|
  {
    if b == [] {
      assert a + b == a;
    } else {
      var n := |b| - 1;
      assert (a + b)[..|a + b| - 1] == a + b[..n];
      ApplyAllOfConcat(e, a, b[..n]);
    }
  }

  lemma HeaderApplied(from: VersionEdit, e: VersionEdit)
    ensures ApplyAll(Clear(from), HeaderFields(e))
         == Clear(from).(comparator := e.comparator, logNumber := e.logNumber, prevLogNumber := e.prevLogNumber,
                         nextFileNumber := e.nextFileNumber, lastSequence := e.lastSequence)
  {
    var x0 := Clear(from);
    var h1 := if e.comparator.Some? then [Comparator(e.comparator.value)] else [];
    var h2 := if e.logNumber.Some? then [LogNumber(e.logNumber.value)] else [];
    var h3 := if e.prevLogNumber.Some? then [PrevLogNumber(e.prevLogNumber.value)] else [];
    var h4 := if e.nextFileNumber.Some? then [NextFileNumber(e.nextFileNumber.value)] else [];
    var h5 := if e.lastSequence.Some? then [LastSequence(e.lastSequence.value)] else [];
    ApplyAllOfConcat(x0, h1 + h2 + h3 + h4, h5);
    ApplyAllOfConcat(x0, h1 + h2 + h3, h4);
    ApplyAllOfConcat(x0, h1 + h2, h3);
    ApplyAllOfConcat(x0, h1, h2);
    forall f, x: VersionEdit ensures ApplyAll(x, [f]) == Apply(x, f) {
      assert [f][..0] == [];
    }
  }

  lemma {:induction false} PointersApplied(e: VersionEdit, s: seq<(nat, Bytes)>)
    ensures ApplyAll(e, PointerFields(s)) == e.(compactPointers := e.compactPointers + s)
    decreases |s|
  {
    if s != [] {
      var n := |s| - 1;
      assert PointerFields(s)[..n] == PointerFields(s[..n]);
      PointersApplied(e, s[..n]);
      assert e.compactPointers + s == e.compactPointers + s[..n] + [s[n]];
    } else {
      assert e.compactPointers + s == e.compactPointers;
    }
  }

  lemma {:induction false} NewFilesApplied(e: VersionEdit, s: seq<(nat, FileMeta)>)
    ensures ApplyAll(e, NewFields(s)) == e.(newFiles := e.newFiles + s)
    decreases |s|
  {
    if s != [] {
      var n := |s| - 1;
      assert NewFields(s)[..n] == NewFields(s[..n]);
      NewFilesApplied(e, s[..n]);
      assert e.newFiles + s == e.newFiles + s[..n] + [s[n]];
    } else {
      assert e.newFiles + s == e.newFiles;
    }
  }

  /** Inserted in order, the deleted files come out as they are. */
  lemma {:induction false} DeletedApplied(e: VersionEdit, s: seq<(nat, nat)>)
    requires e.deletedFiles == [] && Ascending(s)
    ensures ApplyAll(e, DeletedFields(s)) == e.(deletedFiles := s)
    decreases |s|
  {
    if s != [] {
      var n := |s| - 1;
      assert DeletedFields(s)[..n] == DeletedFields(s[..n]);
      DeletedApplied(e, s[..n]);
      assert s == s[..n] + [s[n]];
    }
  }

  lemma FieldsApplied(from: VersionEdit, e: VersionEdit)
    requires Ascending(e.deletedFiles)
    ensures ApplyAll(Clear(from), FieldsOf(e)) == e.(compactPointers := from.compactPointers + e.compactPointers)
  {
    var x0 := Clear(from);
    var h, p, d := HeaderFields(e), PointerFields(e.compactPointers), DeletedFields(e.deletedFiles);
    ApplyAllOfConcat(x0, h + p + d, NewFields(e.newFiles));
    ApplyAllOfConcat(x0, h + p, d);
    ApplyAllOfConcat(x0, h, p);
    HeaderApplied(from, e);
    var x1 := ApplyAll(x0, h);
    PointersApplied(x1, e.compactPointers);
    var x2 := ApplyAll(x1, p);
    DeletedApplied(x2, e.deletedFiles);
    NewFilesApplied(ApplyAll(x2, d), e.newFiles);
  }

  ghost predicate EditFits(e: VersionEdit) {
    Ascending(e.deletedFiles) && forall i :: 0 <= i < |FieldsOf(e)| ==> Fits(FieldsOf(e)[i])
  }

  function EncodeTo(e: VersionEdit): Bytes
    requires EditFits(e)
  {
    EncodeFields(FieldsOf(e))
  }

  /** DecodeFrom, into `target`; None is a corruption. */
  function DecodeFrom(target: VersionEdit, b: Bytes): Option<VersionEdit> {
    match DecodeFields(b, 0)
    case None => None
    case Some(fields) => Some(ApplyAll(Clear(target), fields))
  }

  /** What is encoded is decoded, to the last field, behind the compaction pointers the target already had. */
  lemma EditIsDecoded(target: VersionEdit, e: VersionEdit)
    requires EditFits(e)
    ensures DecodeFrom(target, EncodeTo(e)) == Some(e.(compactPointers := target.compactPointers + e.compactPointers))
  {
    var b := EncodeTo(e);
    assert b[0..] == b;
    FieldsRoundTrip(b, 0, FieldsOf(e));
    FieldsApplied(target, e);
  }

  /** So decoding gives back the edit if and only if it starts from a target without compaction pointers,
      as every fresh VersionEdit is. */
  lemma EditRoundTripIff(target: VersionEdit, e: VersionEdit)
    requires EditFits(e)
    ensures DecodeFrom(target, EncodeTo(e)) == Some(e) <==> target.compactPointers == []
  {
    EditIsDecoded(target, e);
    var c := target.compactPointers + e.compactPointers;
    assert |c| == |target.compactPointers| + |e.compactPointers|;
    assert target.compactPointers == [] ==> c == e.compactPointers;
  }

  // ---------- What is refused ----------

  lemma PartStable(kind: PartKind, b: Bytes, c: nat, p: nat)
    requires c <= |b|
    ensures GetPart(kind, b[..c], p).Some? ==> GetPart(kind, b, p) == GetPart(kind, b[..c], p)
  {
    VarintStable(b, c, p, 5, 1, TWO_32, 0);
    VarintStable(b, c, p, 10, 1, TWO_64, 0);
    SliceStable(b, c, p);
  }

  lemma {:induction false} PartsStable(kinds: seq<PartKind>, b: Bytes, c: nat, p: nat)
    requires c <= |b|
    ensures GetParts(kinds, b[..c], p).Some? ==> GetParts(kinds, b, p) == GetParts(kinds, b[..c], p)
  {
    if kinds != [] {
      PartStable(kinds[0], b, c, p);
      var first := GetPart(kinds[0], b[..c], p);
      if first.Some? {
        PartsStable(kinds[1..], b, c, first.value.next);
      }
    }
  }

  /** A field read from the beginning of the bytes is the one read from all of them. */
  lemma FieldStable(b: Bytes, c: nat, p: nat)
    requires c <= |b|
    ensures var tag := GetVarint32(b[..c], p, c);
            tag.Some? ==>
              && GetVarint32(b, p, |b|) == tag
              && (GetBody(tag.value.value, b[..c], tag.value.next).Some? ==>
                    GetBody(tag.value.value, b, tag.value.next) == GetBody(tag.value.value, b[..c], tag.value.next))
  {
    VarintStable(b, c, p, 5, 1, TWO_32, 0);
    var tag := GetVarint32(b[..c], p, c);
    if tag.Some? && Schema(tag.value.value).Some? {
      PartsStable(Schema(tag.value.value).value, b, c, tag.value.next);
    }
  }

  /** Encoded fields that are cut off are refused, unless the cut is between two of them. */
  lemma {:induction false} CutFieldsAreRefused(b: Bytes, c: nat, p: nat, fields: seq<Field>) returns (k: nat)
    requires forall i :: 0 <= i < |fields| ==> Fits(fields[i])
    requires p <= c <= |b| && b[p..] == EncodeFields(fields)
    ensures k <= |fields| && (DecodeFields(b[..c], p).Some? ==>
              DecodeFields(b[..c], p) == Some(fields[..k]) && c == p + |EncodeFields(fields[..k])|)
    decreases |fields|
  {
    hide EncodeField, GetBody, GetVarint32, Fits;
    k := 0;
    assert |b[p..]| == |EncodeFields(fields)|;
    if p == c {
      NoVarintAtEnd(b[..c], p);
      assert fields[..0] == [];
    } else if fields != [] {
      var f, rest := fields[0], fields[1..];
      TailOf(b, p, EncodeField(f), EncodeFields(rest));
      var q := FieldStands(b, p, f, EncodeField(f));
      FieldStable(b, c, p);
      if DecodeFields(b[..c], p).Some? {
        var next := p + |EncodeField(f)|;
        assert next <= c;
        k := CutFieldsAreRefused(b, c, next, rest);
        k := k + 1;
        assert fields[..k] == [f] + rest[..k - 1];
        assert EncodeFields(fields[..k]) == EncodeField(f) + EncodeFields(rest[..k - 1]) by {
          assert fields[..k][1..] == rest[..k - 1];
        }
      }
    }
  }

  lemma NoVarintAtEnd(b: Bytes, p: nat)
    requires p == |b|
    ensures DecodeFields(b, p) == Some([])
  {
  }

  /** A record that is cut off anywhere but between two fields is corrupt. */
  lemma CutEditIsRefused(target: VersionEdit, e: VersionEdit, c: nat)
    requires EditFits(e) && c <= |EncodeTo(e)|
    requires forall k :: 0 <= k <= |FieldsOf(e)| ==> c != |EncodeFields(FieldsOf(e)[..k])|
    ensures DecodeFrom(target, EncodeTo(e)[..c]) == None
  {
    var b := EncodeTo(e);
    assert b[0..] == b;
    var k := CutFieldsAreRefused(b, c, 0, FieldsOf(e));
  }

  lemma FirstOfFields(fields: seq<Field>, bad: Bytes)
    requires fields != [] && forall i :: 0 <= i < |fields| ==> Fits(fields[i])
    ensures Fits(fields[0]) && forall i :: 0 <= i < |fields[1..]| ==> Fits(fields[1..][i])
    ensures EncodeFields(fields) + bad == EncodeField(fields[0]) + (EncodeFields(fields[1..]) + bad)
  {
  }

  lemma NoFields(bad: Bytes)
    ensures EncodeFields([]) + bad == bad
  {
  }

  lemma LaterFailureShows(b: Bytes, p: nat, q: nat, end: nat, tag: nat, f: Field)
    requires p < end <= |b| && GetVarint32(b, p, |b|) == Some(Parsed(tag, q))
    requires GetBody(tag, b, q) == Some(Parsed(f, end)) && DecodeFields(b, end) == None
    ensures DecodeFields(b, p) == None
  {
  }

  lemma {:induction false} BadTailIsRefused(b: Bytes, p: nat, fields: seq<Field>, bad: Bytes)
    requires forall i :: 0 <= i < |fields| ==> Fits(fields[i])
    requires p <= |b| && b[p..] == EncodeFields(fields) + bad && DecodeFields(b, |b| - |bad|) == None
    ensures DecodeFields(b, p) == None
    decreases |fields|
  {
    hide *;
    if fields == [] {
      NoFields(bad);
      assert |b[p..]| == |b| - p;
    } else {
      var f := fields[0];
      FirstOfFields(fields, bad);
      var first, back := EncodeField(f), EncodeFields(fields[1..]) + bad;
      TailOf(b, p, first, back);
      var q := FieldStands(b, p, f, first);
      BadTailIsRefused(b, p + |first|, fields[1..], bad);
      LaterFailureShows(b, p, q, p + |first|, Tag(f), f);
    }
  }

  lemma UnknownTagFails(b: Bytes, p: nat, tag: nat, q: nat)
    requires GetVarint32(b, p, |b|) == Some(Parsed(tag, q)) && (tag == 0 || tag == 8 || tag > 9)
    ensures DecodeFields(b, p) == None
  {
  }

  /** A record with a tag that is not among the eight is corrupt, whatever stands before and behind it. */
  lemma UnknownTagIsRefused(target: VersionEdit, fields: seq<Field>, tag: nat, more: Bytes)
    requires (forall i :: 0 <= i < |fields| ==> Fits(fields[i])) && tag < TWO_32
    requires tag == 0 || tag == 8 || tag > 9
    ensures DecodeFrom(target, EncodeFields(fields) + (Varint(tag) + more)) == None
  {
    hide EncodeFields, DecodeFields, Varint, Fits, GetVarint32;
    var front, bad := EncodeFields(fields), Varint(tag) + more;
    var b := front + bad;
    assert b[0..] == b;
    TailOf(b, 0, front, bad);
    AtBoth(b, |front|, |b|, Varint(tag), more);
    Varint32IsRead(b, |front|, |b|, tag);
    UnknownTagFails(b, |front|, tag, |front| + |Varint(tag)|);
    BadTailIsRefused(b, 0, fields, bad);
  }

  // ---------- Levels are in range ----------

  predicate LevelOk(f: Field) {
    match f
    case CompactPointer(level, _) => level < Versions.NUM_LEVELS
    case DeletedFile(level, _) => level < Versions.NUM_LEVELS
    case NewFile(level, _) => level < Versions.NUM_LEVELS
    case _ => true
  }

  lemma {:induction false} PartLevels(kinds: seq<PartKind>, b: Bytes, p: nat)
    requires GetParts(kinds, b, p).Some?
    ensures forall i :: 0 <= i < |GetParts(kinds, b, p).value.value| ==>
              var x := GetParts(kinds, b, p).value.value[i]; x.Level? ==> x.n < Versions.NUM_LEVELS
  {
    if kinds != [] {
      PartLevels(kinds[1..], b, GetPart(kinds[0], b, p).value.next);
    }
  }

  /** DecodeFrom lets no level pass that there is not. */
  lemma {:induction false} DecodedLevels(b: Bytes, p: nat)
    requires DecodeFields(b, p).Some?
    ensures forall i :: 0 <= i < |DecodeFields(b, p).value| ==> LevelOk(DecodeFields(b, p).value[i])
    decreases |b| - p
  {
    var tag := GetVarint32(b, p, |b|);
    if tag.Some? {
      var kinds := Schema(tag.value.value).value;
      PartLevels(kinds, b, tag.value.next);
      var f := GetBody(tag.value.value, b, tag.value.next).value;
      BodyLevel(tag.value.value, GetParts(kinds, b, tag.value.next).value.value, f.value);
      DecodedLevels(b, f.next);
    }
  }

  lemma BodyLevel(tag: nat, parts: seq<Part>, f: Field)
    requires FieldOf(tag, parts) == Some(f)
    requires forall i :: 0 <= i < |parts| ==> parts[i].Level? ==> parts[i].n < Versions.NUM_LEVELS
    ensures LevelOk(f)
  {
  }

  ghost predicate LevelsOk(e: VersionEdit) {
    && (forall i :: 0 <= i < |e.compactPointers| ==> e.compactPointers[i].0 < Versions.NUM_LEVELS)
    && (forall x :: x in e.deletedFiles ==> x.0 < Versions.NUM_LEVELS)
    && (forall i :: 0 <= i < |e.newFiles| ==> e.newFiles[i].0 < Versions.NUM_LEVELS)
  }

  lemma {:induction false} InsertedPairs(s: seq<(nat, nat)>, x: (nat, nat))
    ensures forall y :: y in InsertPair(s, x) ==> y in s || y == x
  {
    if s != [] && !PairBefore(s[|s| - 1], x) && PairBefore(x, s[|s| - 1]) {
      InsertedPairs(s[..|s| - 1], x);
    }
  }

  lemma {:induction false} AppliedLevels(e: VersionEdit, fields: seq<Field>)
    requires LevelsOk(e) && forall i :: 0 <= i < |fields| ==> LevelOk(fields[i])
    ensures LevelsOk(ApplyAll(e, fields))
  {
    if fields != [] {
      var init, f := fields[..|fields| - 1], fields[|fields| - 1];
      AppliedLevels(e, init);
      if f.DeletedFile? {
        InsertedPairs(ApplyAll(e, init).deletedFiles, (f.level, f.number));
      }
    }
  }

  lemma DecodedEditLevels(target: VersionEdit, b: Bytes)
    requires DecodeFrom(target, b).Some? && LevelsOk(target)
    ensures LevelsOk(DecodeFrom(target, b).value)
  {
    DecodedLevels(b, 0);
    AppliedLevels(Clear(target), DecodeFields(b, 0).value);
  }
}
