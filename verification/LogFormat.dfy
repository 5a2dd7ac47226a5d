/** The log's bytes (db/log_format.h, db/log_writer.cc, db/log_reader.cc): what a writer appends
    for a record, and what a reader takes a stretch of bytes for.

    `sum` is the checksum of a fragment's type byte and payload as it is stored in the header;
    `LogChecksum` says which one the log uses. */
module LogFormat {
  import opened Keys

  const BLOCK_SIZE: nat := 32768
  const HEADER_SIZE: nat := 7

  const ZERO_TYPE: byte := 0
  const FULL_TYPE: byte := 1
  const FIRST_TYPE: byte := 2
  const MIDDLE_TYPE: byte := 3
  const LAST_TYPE: byte := 4

  /** What the reader returns beside record types. */
  const EOF: nat := 5
  const BAD_RECORD: nat := 6

  type Checksum = Bytes -> Bytes

  ghost predicate FourBytes(sum: Checksum) {
    forall x :: |sum(x)| == 4
  }

  // ---------- Blocks ----------

  function BlockStart(p: nat): nat {
    p - p % BLOCK_SIZE
  }

  /** The trailer to skip at `p`: too short for a header. */
  function Padding(p: nat): nat {
    var leftover := BLOCK_SIZE - p % BLOCK_SIZE;
    if leftover < HEADER_SIZE then leftover else 0
  }

  lemma PaddingReachesHeaderRoom(p: nat)
    ensures BLOCK_SIZE - (p + Padding(p)) % BLOCK_SIZE >= HEADER_SIZE
    ensures Padding(p) > 0 ==> (p + Padding(p)) % BLOCK_SIZE == 0
    ensures Padding(p + Padding(p)) == 0
  {
  }

  lemma StaysInBlock(p: nat, n: nat)
    requires p % BLOCK_SIZE + n <= BLOCK_SIZE
    ensures (p + n) % BLOCK_SIZE == if p % BLOCK_SIZE + n == BLOCK_SIZE then 0 else p % BLOCK_SIZE + n
  {
  }

  // ---------- Writing ----------

  function Zeros(n: nat): (z: Bytes)
    ensures |z| == n && forall i :: 0 <= i < n ==> z[i] == 0
  {
    seq(n, i => 0 as byte)
  }

  function Header(sum: Checksum, t: byte, payload: Bytes): Bytes
    requires |payload| <= 0xffff
  {
    sum([t] + payload) + [(|payload| % 256) as byte, (|payload| / 256) as byte, t]
  }

  function FragmentType(begin: bool, end: bool): byte {
    if begin && end then FULL_TYPE else if begin then FIRST_TYPE else if end then LAST_TYPE else MIDDLE_TYPE
  }

  /** How much of `left` bytes fits behind a header at `start`. */
  function FragmentLength(start: nat, left: nat): (n: nat)
    requires start % BLOCK_SIZE + HEADER_SIZE <= BLOCK_SIZE
    ensures n <= left && start % BLOCK_SIZE + HEADER_SIZE + n <= BLOCK_SIZE
  {
    var avail := BLOCK_SIZE - start % BLOCK_SIZE - HEADER_SIZE;
    if left < avail then left else avail
  }

  function Physical(sum: Checksum, t: byte, payload: Bytes): Bytes
    requires |payload| <= 0xffff
  {
    Header(sum, t, payload) + payload
  }

  /** How much of `left` bytes the next fragment of a log of length `p` takes. */
  function Taken(p: nat, left: nat): (n: nat)
    ensures n <= left && n <= 0xffff
  {
    PaddingReachesHeaderRoom(p);
    FragmentLength(p + Padding(p), left)
  }

  /** The length of the log behind a fragment of `n` bytes. */
  function Behind(p: nat, n: nat): nat {
    p + Padding(p) + HEADER_SIZE + n
  }

  function FirstFragment(sum: Checksum, p: nat, data: Bytes, begin: bool): Bytes {
    var n := Taken(p, |data|);
    Zeros(Padding(p)) + Physical(sum, FragmentType(begin, n == |data|), data[..n])
  }

  /** 1 where only an empty fragment fits, else 0. */
  function Tight(p: nat): nat {
    if p % BLOCK_SIZE == BLOCK_SIZE - HEADER_SIZE then 1 else 0
  }

  lemma TightIsRare(p: nat, left: nat)
    ensures var n := Taken(p, left);
      n == 0 < left ==> Tight(p) == 1 && Tight(Behind(p, n)) == 0
  {
    PaddingReachesHeaderRoom(p);
    var start := p + Padding(p);
    StaysInBlock(start, HEADER_SIZE + Taken(p, left));
  }

  /** The bytes that a record (or the rest of one, unless `begin`) becomes at the end of a log of length `p`. */
  function Emission(sum: Checksum, p: nat, data: Bytes, begin: bool): Bytes
    decreases |data|, Tight(p)
  {
    TightIsRare(p, |data|);
    var n := Taken(p, |data|);
    var fragment := FirstFragment(sum, p, data, begin);
    if n == |data| then fragment else fragment + Emission(sum, Behind(p, n), data[n..], false)
  }

  /** A log of these records, each written where the one before it ended. */
  function Log(sum: Checksum, records: seq<Bytes>): Bytes {
    if records == [] then []
    else
      var before := Log(sum, records[..|records| - 1]);
      before + Emission(sum, |before|, records[|records| - 1], true)
  }

  // ---------- Reading ----------

  datatype Reason = BadLength | ChecksumMismatch | PartialWithoutEnd | MissingStart | ErrorInMiddle | UnknownType

  /** A corruption report: how many bytes were dropped, and why. */
  datatype Report = Report(bytes: nat, reason: Reason)

  /** `kind` is a record type, EOF or BAD_RECORD; `next` is where reading goes on. */
  datatype Outcome = Outcome(kind: nat, payload: Bytes, next: nat, reports: seq<Report>)

  /** The type byte as an unsigned int: a signed char is extended first. */
  function TypeCode(b: byte): nat {
    if b < 128 then b as nat else 0xffffff00 + b as nat
  }

  function LengthAt(f: Bytes, s: nat): nat
    requires s + HEADER_SIZE <= |f|
  {
    f[s + 4] as nat + 256 * f[s + 5] as nat
  }

  /** The last offset the reader's buffer can hold when it holds `s`. */
  function BufferEnd(f: Bytes, s: nat): nat {
    if |f| < BlockStart(s) + BLOCK_SIZE then |f| else BlockStart(s) + BLOCK_SIZE
  }

  /** The physical record at offset `s`, where the buffer has room for a header. */
  function Parse(sum: Checksum, f: Bytes, s: nat): Outcome
    requires s + HEADER_SIZE <= |f|
  {
    var stop := BufferEnd(f, s);
    var after := s + HEADER_SIZE + LengthAt(f, s);
    if after > stop then
      if |f| < BlockStart(s) + BLOCK_SIZE then Outcome(EOF, [], |f|, [])
      else Outcome(BAD_RECORD, [], stop, [Report(Dropped(stop, s), BadLength)])
    else if f[s + 6] == ZERO_TYPE && LengthAt(f, s) == 0 then Outcome(BAD_RECORD, [], stop, [])
    else if sum(f[s + 6..after]) != f[s..s + 4] then
      Outcome(BAD_RECORD, [], stop, [Report(Dropped(stop, s), ChecksumMismatch)])
    else Outcome(TypeCode(f[s + 6]), f[s + HEADER_SIZE..after], after, [])
  }

  function Dropped(stop: nat, s: nat): nat {
    if s <= stop then stop - s else 0
  }

  /** The next physical record of file `f` after offset `p`. */
  function PhysicalAt(sum: Checksum, f: Bytes, p: nat): Outcome {
    var s := p + Padding(p);
    if |f| < s + HEADER_SIZE then Outcome(EOF, [], |f|, []) else Parse(sum, f, s)
  }

  lemma PhysicalAdvances(sum: Checksum, f: Bytes, p: nat)
    requires p <= |f|
    ensures var o := PhysicalAt(sum, f, p);
      o.next <= |f| && (o.next > p || (o.kind == EOF && o.next == |f|))
  {
    PaddingReachesHeaderRoom(p);
  }

  /** One logical record, or none; where reading goes on; what was reported on the way. */
  datatype Logical = Logical(record: Option<Bytes>, next: nat, reports: seq<Report>)
  {
    function After(earlier: seq<Report>): Logical {
      Logical(record, next, earlier + reports)
    }
  }

  function PartialReport(inFragment: bool, scratch: Bytes): seq<Report> {
    if inFragment && scratch != [] then [Report(|scratch|, PartialWithoutEnd)] else []
  }

  /** What one physical record does to the record being assembled. */
  datatype Turn =
    | Done(record: Option<Bytes>, reports: seq<Report>)
    | More(inFragment: bool, scratch: Bytes, reports: seq<Report>)

  function Assemble(kind: nat, payload: Bytes, inFragment: bool, scratch: Bytes): Turn {
    if kind == FULL_TYPE as nat then Done(Some(payload), PartialReport(inFragment, scratch))
    else if kind == FIRST_TYPE as nat then More(true, payload, PartialReport(inFragment, scratch))
    else if kind == MIDDLE_TYPE as nat then
      if inFragment then More(true, scratch + payload, [])
      else More(false, scratch, [Report(|payload|, MissingStart)])
    else if kind == LAST_TYPE as nat then
      if inFragment then Done(Some(scratch + payload), [])
      else More(false, scratch, [Report(|payload|, MissingStart)])
    else if kind == EOF then Done(None, [])
    else if kind == BAD_RECORD then
      if inFragment then More(false, [], [Report(|scratch|, ErrorInMiddle)]) else More(false, scratch, [])
    else More(false, [], [Report(|payload| + if inFragment then |scratch| else 0, UnknownType)])
  }

  /** Assembling a record from the physical records after `p`, `scratch` being what earlier fragments gave. */
  function ReadFrom(sum: Checksum, f: Bytes, p: nat, inFragment: bool, scratch: Bytes): Logical
    requires p <= |f|
    decreases |f| - p
  {
    PhysicalAdvances(sum, f, p);
    var o := PhysicalAt(sum, f, p);
    match Assemble(o.kind, o.payload, inFragment, scratch)
    case Done(record, reports) => Logical(record, o.next, o.reports + reports)
    case More(inFragment', scratch', reports) =>
      ReadFrom(sum, f, o.next, inFragment', scratch').After(o.reports + reports)
  }

  /** Everything a reader gets out of a file, from `p` on. */
  datatype Recovered = Recovered(records: seq<Bytes>, reports: seq<Report>)

  function ReadAll(sum: Checksum, f: Bytes, p: nat): Recovered
    requires p <= |f|
    decreases |f| - p
  {
    var l := ReadFrom(sum, f, p, false, []);
    ReadAdvances(sum, f, p, false, []);
    if l.record.None? then Recovered([], l.reports)
    else
      var rest := ReadAll(sum, f, l.next);
      Recovered([l.record.value] + rest.records, l.reports + rest.reports)
  }

  lemma {:induction false} ReadAdvances(sum: Checksum, f: Bytes, p: nat, inFragment: bool, scratch: Bytes)
    requires p <= |f|
    ensures var l := ReadFrom(sum, f, p, inFragment, scratch);
      l.next <= |f| && (l.record.Some? ==> l.next > p)
    decreases |f| - p
  {
    PhysicalAdvances(sum, f, p);
    var o := PhysicalAt(sum, f, p);
    var turn := Assemble(o.kind, o.payload, inFragment, scratch);
    if turn.More? {
      ReadAdvances(sum, f, o.next, turn.inFragment, turn.scratch);
    }
  }
}
