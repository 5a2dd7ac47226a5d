/** The write-ahead log (db/log_writer.cc, db/log_reader.cc): writer and reader against the bytes of
    `LogFormat`, and the round trip: what was written whole is read back, and nothing else. */
module Log {
  import opened Keys
  import opened LogFormat

  // ---------- Writer ----------

  /** An append-only file. */
  class WritableFile {
    var contents: Bytes

    constructor ()
      ensures contents == []
    {
      contents := [];
    }

    method Append(data: Bytes)
      modifies this
      ensures contents == old(contents) + data
    {
      contents := contents + data;
    }
  }

  class Writer {
    const sum: Checksum
    const dest: WritableFile
    var blockOffset: nat

    ghost predicate Valid()
      reads this, dest
    {
      FourBytes(sum) && blockOffset <= BLOCK_SIZE && blockOffset % BLOCK_SIZE == |dest.contents| % BLOCK_SIZE
    }

    /** A writer that goes on where `dest` ends: at its start, or reopened at any length. */
    constructor (sum: Checksum, dest: WritableFile)
      requires FourBytes(sum)
      ensures Valid() && this.dest == dest && this.sum == sum
    {
      this.sum := sum;
      this.dest := dest;
      blockOffset := |dest.contents| % BLOCK_SIZE;
    }

    method AddRecord(data: Bytes)
      requires Valid()
      modifies this, dest
      ensures Valid()
      ensures dest.contents == old(dest.contents) + Emission(sum, old(|dest.contents|), data, true)
    {
      var rest, begin, end := data, true, false;
      ghost var whole := dest.contents + Emission(sum, |dest.contents|, data, true);
      while !end
        invariant Valid()
        invariant whole == if end then dest.contents else dest.contents + Emission(sum, |dest.contents|, rest, begin)
        decreases !end, |rest|, Tight(|dest.contents|)
      {
        TightIsRare(|dest.contents|, |rest|);
        EmissionStep(sum, dest.contents, rest, begin);
        var n := EmitFragment(rest, begin);
        end := n == |rest|;
        rest := rest[n..];
        begin := false;
      }
    }

    /** One turn of AddRecord's loop. */
    method EmitFragment(rest: Bytes, begin: bool) returns (n: nat)
      requires Valid()
      modifies this, dest
      ensures Valid() && n == Taken(old(|dest.contents|), |rest|)
      ensures dest.contents == old(dest.contents) + FirstFragment(sum, old(|dest.contents|), rest, begin)
    {
      SwitchBlock();
      n := FragmentLength(blockOffset, |rest|);
      var end := n == |rest|;
      EmitPhysicalRecord(FragmentType(begin, end), rest[..n]);
    }

    /** Fill the trailer of a block that has no room for a header. */
    method SwitchBlock()
      requires Valid()
      modifies this, dest
      ensures Valid() && blockOffset == |dest.contents| % BLOCK_SIZE && blockOffset + HEADER_SIZE <= BLOCK_SIZE
      ensures dest.contents == old(dest.contents) + Zeros(Padding(old(|dest.contents|)))
    {
      PaddingReachesHeaderRoom(|dest.contents|);
      var leftover := BLOCK_SIZE - blockOffset;
      if leftover < HEADER_SIZE {
        if leftover > 0 {
          dest.Append(Zeros(leftover));
        }
        blockOffset := 0;
      }
    }

    method EmitPhysicalRecord(t: byte, payload: Bytes)
      requires Valid() && blockOffset == |dest.contents| % BLOCK_SIZE
      requires blockOffset + HEADER_SIZE + |payload| <= BLOCK_SIZE
      modifies this, dest
      ensures Valid() && dest.contents == old(dest.contents) + Physical(sum, t, payload)
    {
      StaysInBlock(|dest.contents|, HEADER_SIZE + |payload|);
      dest.Append(Header(sum, t, payload));
      dest.Append(payload);
      blockOffset := blockOffset + HEADER_SIZE + |payload|;
    }
  }

  lemma FirstFragmentLength(sum: Checksum, p: nat, data: Bytes, begin: bool)
    requires FourBytes(sum)
    ensures p + |FirstFragment(sum, p, data, begin)| == Behind(p, Taken(p, |data|))
  {
  }

  lemma EmissionStep(sum: Checksum, before: Bytes, rest: Bytes, begin: bool)
    requires FourBytes(sum)
    ensures var n := Taken(|before|, |rest|);
      var after := before + FirstFragment(sum, |before|, rest, begin);
      && |after| == Behind(|before|, n)
      && before + Emission(sum, |before|, rest, begin)
         == if n == |rest| then after else after + Emission(sum, |after|, rest[n..], false)
  {
    var p, n := |before|, Taken(|before|, |rest|);
    var fragment := FirstFragment(sum, p, rest, begin);
    FirstFragmentLength(sum, p, rest, begin);
    if n < |rest| {
      BytesJoin(before, fragment, Emission(sum, Behind(p, n), rest[n..], false));
    }
  }

  lemma BytesJoin(a: Bytes, b: Bytes, c: Bytes)
    ensures a + (b + c) == (a + b) + c
  {
  }

  // ---------- Reader ----------

  lemma SliceOfSlice(f: Bytes, lo: nat, hi: nat, i: nat, j: nat)
    requires lo <= hi <= |f| && i <= j <= hi - lo
    ensures f[lo..hi][i..j] == f[lo + i..lo + j]
  {
    var s := f[lo..hi];
    assert forall k :: i <= k < j ==> s[k] == f[lo + k];
  }

  lemma HeaderIsParsed(sum: Checksum, f: Bytes, p: nat)
    requires Padding(p) == 0 && p + HEADER_SIZE <= |f|
    ensures PhysicalAt(sum, f, p) == Parse(sum, f, p)
  {
  }

  lemma ShortIsEof(sum: Checksum, f: Bytes, p: nat)
    requires |f| < p + HEADER_SIZE
    ensures PhysicalAt(sum, f, p) == Outcome(EOF, [], |f|, [])
  {
  }

  /** Checksums are verified and reading starts at offset 0, as at every use in the database. */
  class Reader {
    const sum: Checksum
    const file: Bytes
    var buffer: Bytes
    var eof: bool
    var endOfBufferOffset: nat
    var reports: seq<Report>

    ghost predicate Valid()
      reads this
    {
      && |buffer| <= endOfBufferOffset <= |file|
      && buffer == file[endOfBufferOffset - |buffer|..endOfBufferOffset]
      && (if eof then endOfBufferOffset == |file| else endOfBufferOffset % BLOCK_SIZE == 0)
      && (buffer != [] ==> endOfBufferOffset == BufferEnd(file, Position()))
      && (buffer != [] && eof ==> |file| < BlockStart(Position()) + BLOCK_SIZE)
    }

    /** How much of the file has been consumed. */
    ghost function Position(): nat
      reads this
    {
      if |buffer| <= endOfBufferOffset then endOfBufferOffset - |buffer| else 0
    }

    constructor (sum: Checksum, file: Bytes)
      ensures Valid() && this.sum == sum && this.file == file && Position() == 0 && reports == []
    {
      this.sum := sum;
      this.file := file;
      buffer := [];
      eof := false;
      endOfBufferOffset := 0;
      reports := [];
    }

    method ReportCorruption(bytes: nat, reason: Reason)
      modifies this`reports
      ensures reports == old(reports) + [Report(bytes, reason)]
    {
      reports := reports + [Report(bytes, reason)];
    }

    /** Read the next block of the file into the buffer; a rest too short for a header was a trailer. */
    method Refill()
      requires Valid() && |buffer| < HEADER_SIZE && !eof
      modifies this`buffer, this`eof, this`endOfBufferOffset
      ensures Valid() && (eof || |buffer| >= HEADER_SIZE)
      ensures PhysicalAt(sum, file, Position()) == old(PhysicalAt(sum, file, Position()))
    {
      TrailerIsSkipped(Position(), endOfBufferOffset);
      buffer := [];
      LoadBlock();
    }

    lemma TrailerIsSkipped(p: nat, end: nat)
      requires p <= end && end % BLOCK_SIZE == 0 && end - p < HEADER_SIZE
      ensures p + Padding(p) == end + Padding(end)
    {
    }

    method LoadBlock()
      requires Valid() && buffer == [] && !eof
      modifies this`buffer, this`eof, this`endOfBufferOffset
      ensures Valid() && (eof || |buffer| >= HEADER_SIZE)
      ensures Position() == old(Position())
    {
      var left := |file| - endOfBufferOffset;
      var n := if left < BLOCK_SIZE then left else BLOCK_SIZE;
      buffer := file[endOfBufferOffset..endOfBufferOffset + n];
      endOfBufferOffset := endOfBufferOffset + n;
      if n < BLOCK_SIZE {
        eof := true;
      }
    }

    /** Have a header's worth of bytes in the buffer, unless the file is at its end. */
    method FillBuffer() returns (more: bool)
      requires Valid()
      modifies this`buffer, this`eof, this`endOfBufferOffset
      ensures Valid()
      ensures if more then |buffer| >= HEADER_SIZE && PhysicalAt(sum, file, Position()) == old(PhysicalAt(sum, file, Position()))
              else Position() == |file| && old(PhysicalAt(sum, file, Position())) == Outcome(EOF, [], |file|, [])
    {
      while |buffer| < HEADER_SIZE
        invariant Valid()
        invariant PhysicalAt(sum, file, Position()) == old(PhysicalAt(sum, file, Position()))
        decreases |buffer| < HEADER_SIZE, !eof
      {
        if eof {
          ShortIsEof(sum, file, Position());
          buffer := [];
          return false;
        }
        Refill();
      }
      return true;
    }

    method ReadPhysicalRecord() returns (kind: nat, result: Bytes)
      requires Valid()
      modifies this
      ensures Valid()
      ensures var o := PhysicalAt(sum, file, old(Position()));
        kind == o.kind && result == o.payload && Position() == o.next && reports == old(reports) + o.reports
    {
      Joined(reports, [], []);
      var more := FillBuffer();
      if !more {
        return EOF, [];
      }
      BufferedHeader();
      HeaderIsParsed(sum, file, Position());
      kind, result := ParseBuffer();
    }

    lemma BufferedHeader()
      requires Valid() && |buffer| >= HEADER_SIZE
      ensures Padding(Position()) == 0 && Position() + HEADER_SIZE <= |file|
      ensures |buffer| == BufferEnd(file, Position()) - Position()
      ensures eof <==> |file| < BlockStart(Position()) + BLOCK_SIZE
    {
    }

    lemma BufferedBytes(length: nat)
      requires Valid() && |buffer| >= HEADER_SIZE
      requires length == buffer[4] as nat + 256 * buffer[5] as nat
      ensures Position() + HEADER_SIZE <= |file|
      ensures length == LengthAt(file, Position())
      ensures buffer[6] == file[Position() + 6]
      ensures HEADER_SIZE + length <= |buffer| ==>
        var s := Position();
        var after := s + HEADER_SIZE + length;
        && after <= |file|
        && buffer[..4] == file[s..s + 4]
        && buffer[6..HEADER_SIZE + length] == file[s + 6..after]
        && buffer[HEADER_SIZE..HEADER_SIZE + length] == file[s + HEADER_SIZE..after]
    {
      if HEADER_SIZE + length <= |buffer| {
        SliceOfSlice(file, Position(), endOfBufferOffset, 0, 4);
        SliceOfSlice(file, Position(), endOfBufferOffset, 6, HEADER_SIZE + length);
        SliceOfSlice(file, Position(), endOfBufferOffset, HEADER_SIZE, HEADER_SIZE + length);
      }
    }

    /** The physical record at the front of the buffer. */
    method ParseBuffer() returns (kind: nat, result: Bytes)
      requires Valid() && |buffer| >= HEADER_SIZE && Position() + HEADER_SIZE <= |file|
      modifies this
      ensures Valid()
      ensures var o := Parse(sum, file, old(Position()));
        kind == o.kind && result == o.payload && Position() == o.next && reports == old(reports) + o.reports
    {
      BufferedHeader();
      var length := buffer[4] as nat + 256 * buffer[5] as nat;
      BufferedBytes(length);
      kind, result := TypeCode(buffer[6]), [];
      if HEADER_SIZE + length > |buffer| {
        if eof {
          kind := EOF;
          buffer := [];
        } else {
          kind := BAD_RECORD;
          DropBuffer(BadLength);
        }
      } else if buffer[6] == ZERO_TYPE && length == 0 {
        kind := BAD_RECORD;
        buffer := [];
      } else if sum(buffer[6..HEADER_SIZE + length]) != buffer[..4] {
        kind := BAD_RECORD;
        DropBuffer(ChecksumMismatch);
      } else {
        result := buffer[HEADER_SIZE..HEADER_SIZE + length];
        RemovePrefix(HEADER_SIZE + length);
      }
    }

    method DropBuffer(reason: Reason)
      requires Valid()
      modifies this`buffer, this`reports
      ensures Valid() && buffer == []
      ensures reports == old(reports) + [Report(old(|buffer|), reason)]
    {
      var dropSize := |buffer|;
      buffer := [];
      ReportCorruption(dropSize, reason);
    }

    method RemovePrefix(n: nat)
      requires Valid() && n <= |buffer|
      modifies this`buffer
      ensures Valid() && Position() == old(Position()) + n
    {
      SameBlock(Position(), n);
      buffer := buffer[n..];
    }

    lemma SameBlock(p: nat, n: nat)
      ensures p + n < BufferEnd(file, p) ==> BlockStart(p + n) == BlockStart(p)
    {
    }

    /** The next record, or false at the end of the file. */
    method ReadRecord() returns (ok: bool, record: Bytes)
      requires Valid()
      modifies this
      ensures Valid()
      ensures var l := ReadFrom(sum, file, old(Position()), false, []);
        && Position() == l.next && reports == old(reports) + l.reports
        && l.record == if ok then Some(record) else None
    {
      var scratch: Bytes, inFragmentedRecord := [], false;
      ghost var start, earlier: seq<Report> := Position(), [];
      assert Leads(sum, file, start, false, [], [], start, false, [], []);
      while true
        invariant Valid() && reports == old(reports) + earlier
        invariant Leads(sum, file, start, false, [], [], Position(), inFragmentedRecord, scratch, earlier)
        decreases |file| - Position()
      {
        var done;
        ghost var gained;
        ghost var p, inF, scr := Position(), inFragmentedRecord, scratch;
        ghost var before := old(reports);
        done, ok, record, inFragmentedRecord, scratch, gained := ReadFragment(inFragmentedRecord, scratch, earlier);
        ghost var later := earlier + gained;
        Joined(before, earlier, gained);
        if done {
          LeadsEnds(sum, file, start, p, inF, scr, earlier, if ok then Some(record) else None, Position(), later);
          return;
        }
        LeadsOn(sum, file, start, p, inF, scr, earlier, Position(), inFragmentedRecord, scratch, later);
        earlier := later;
      }
    }

    /** One turn of ReadRecord's loop; `gained` is what it reports. */
    method ReadFragment(inFragmentedRecord: bool, scratch: Bytes, ghost earlier: seq<Report>)
        returns (done: bool, ok: bool, record: Bytes, inFragment: bool, rest: Bytes, ghost gained: seq<Report>)
      requires Valid()
      modifies this
      ensures Valid() && reports == old(reports) + gained
      ensures done ==>
        Ends(sum, file, old(Position()), inFragmentedRecord, scratch, earlier,
             if ok then Some(record) else None, Position(), earlier + gained)
      ensures !done ==>
        && old(Position()) < Position()
        && Leads(sum, file, old(Position()), inFragmentedRecord, scratch, earlier, Position(), inFragment, rest, earlier + gained)
    {
      ghost var before := reports;
      ghost var o, turn := OneTurn(sum, file, Position(), inFragmentedRecord, scratch, earlier);
      var kind, fragment := ReadPhysicalRecord();
      done, ok, record, inFragment, rest := Take(kind, fragment, inFragmentedRecord, scratch);
      gained := o.reports + turn.reports;
      Joined(before, o.reports, turn.reports);
    }

    /** The switch of ReadRecord. */
    method Take(kind: nat, fragment: Bytes, inFragmentedRecord: bool, scratch: Bytes)
        returns (done: bool, ok: bool, record: Bytes, inFragment: bool, rest: Bytes)
      requires Valid()
      modifies this`reports
      ensures Valid() && Position() == old(Position())
      ensures var turn := Assemble(kind, fragment, inFragmentedRecord, scratch);
        && reports == old(reports) + turn.reports
        && done == turn.Done?
        && (done ==> turn.record == if ok then Some(record) else None)
        && (!done ==> inFragment == turn.inFragment && rest == turn.scratch)
    {
      done, ok, record, inFragment, rest := false, false, [], inFragmentedRecord, scratch;
      if kind == FULL_TYPE as nat {
        ReportPartial(inFragment, rest);
        done, ok, record := true, true, fragment;
      } else if kind == FIRST_TYPE as nat {
        ReportPartial(inFragment, rest);
        inFragment, rest := true, fragment;
      } else if kind == MIDDLE_TYPE as nat {
        if !inFragment {
          ReportCorruption(|fragment|, MissingStart);
        } else {
          rest := rest + fragment;
        }
      } else if kind == LAST_TYPE as nat {
        if !inFragment {
          ReportCorruption(|fragment|, MissingStart);
        } else {
          rest := rest + fragment;
          done, ok, record := true, true, rest;
        }
      } else if kind == EOF {
        done := true;
      } else if kind == BAD_RECORD {
        if inFragment {
          ReportCorruption(|rest|, ErrorInMiddle);
          inFragment, rest := false, [];
        }
      } else {
        ReportCorruption(|fragment| + if inFragment then |rest| else 0, UnknownType);
        inFragment, rest := false, [];
      }
    }

    method ReportPartial(inFragment: bool, scratch: Bytes)
      modifies this`reports
      ensures reports == old(reports) + PartialReport(inFragment, scratch)
    {
      if inFragment && scratch != [] {
        ReportCorruption(|scratch|, PartialWithoutEnd);
      }
    }
  }

  lemma Joined(a: seq<Report>, b: seq<Report>, c: seq<Report>)
    ensures (a + b) + c == a + (b + c)
    ensures a + [] == a
  {
  }

  /** Reading on from `p` comes to the same as reading on from `q`, `later` having been reported. */
  ghost predicate Leads(sum: Checksum, f: Bytes, p: nat, inF: bool, scratch: Bytes, earlier: seq<Report>,
                        q: nat, inFragment: bool, rest: Bytes, later: seq<Report>)
  {
    && p <= |f| && q <= |f|
    && ReadFrom(sum, f, p, inF, scratch).After(earlier) == ReadFrom(sum, f, q, inFragment, rest).After(later)
  }

  /** Reading on from `p` ends with `record`. */
  ghost predicate Ends(sum: Checksum, f: Bytes, p: nat, inF: bool, scratch: Bytes, earlier: seq<Report>,
                       record: Option<Bytes>, q: nat, later: seq<Report>)
  {
    p <= |f| && ReadFrom(sum, f, p, inF, scratch).After(earlier) == Logical(record, q, later)
  }

  lemma LeadsOn(sum: Checksum, f: Bytes, start: nat, p: nat, inF: bool, scratch: Bytes, earlier: seq<Report>,
                q: nat, inFragment: bool, rest: Bytes, later: seq<Report>)
    requires Leads(sum, f, start, false, [], [], p, inF, scratch, earlier)
    requires Leads(sum, f, p, inF, scratch, earlier, q, inFragment, rest, later)
    ensures Leads(sum, f, start, false, [], [], q, inFragment, rest, later)
  {
  }

  lemma LeadsEnds(sum: Checksum, f: Bytes, start: nat, p: nat, inF: bool, scratch: Bytes, earlier: seq<Report>,
                  record: Option<Bytes>, q: nat, later: seq<Report>)
    requires Leads(sum, f, start, false, [], [], p, inF, scratch, earlier)
    requires Ends(sum, f, p, inF, scratch, earlier, record, q, later)
    ensures ReadFrom(sum, f, start, false, []) == Logical(record, q, later)
  {
    var whole := ReadFrom(sum, f, start, false, []);
    assert whole.After([]) == whole;
  }

  lemma OneTurn(sum: Checksum, f: Bytes, p: nat, inF: bool, scratch: Bytes, earlier: seq<Report>)
      returns (o: Outcome, turn: Turn)
    requires p <= |f|
    ensures o == PhysicalAt(sum, f, p) && turn == Assemble(o.kind, o.payload, inF, scratch)
    ensures turn.Done? ==> Ends(sum, f, p, inF, scratch, earlier, turn.record, o.next, earlier + (o.reports + turn.reports))
    ensures turn.More? ==>
      && p < o.next
      && Leads(sum, f, p, inF, scratch, earlier, o.next, turn.inFragment, turn.scratch, earlier + (o.reports + turn.reports))
  {
    PhysicalAdvances(sum, f, p);
    o := PhysicalAt(sum, f, p);
    turn := Assemble(o.kind, o.payload, inF, scratch);
    if turn.More? {
      var rest := ReadFrom(sum, f, o.next, turn.inFragment, turn.scratch);
      assert earlier + ((o.reports + turn.reports) + rest.reports) == (earlier + (o.reports + turn.reports)) + rest.reports;
    }
  }

  // ---------- What was written is read ----------

  lemma FragmentBytes(sum: Checksum, g: Bytes, p: nat, data: Bytes, begin: bool, s: nat, n: nat, t: byte)
    requires FourBytes(sum) && p <= |g|
    requires FirstFragment(sum, p, data, begin) <= g[p..]
    requires n == Taken(p, |data|) && s == p + Padding(p) && t == FragmentType(begin, n == |data|)
    ensures Written(sum, g, s, n, t, data[..n])
  {
    var payload := data[..n];
    var zeros, physical := Zeros(Padding(p)), Physical(sum, t, payload);
    PartOfTail(g, p, zeros, physical);
    PhysicalBytes(sum, g, s, n, t, payload);
  }

  lemma PartOfTail(g: Bytes, p: nat, front: Bytes, back: Bytes)
    requires p <= |g| && front + back <= g[p..]
    ensures p + |front| + |back| <= |g| && g[p + |front|..p + |front| + |back|] == back
  {
    assert g[p..][|front|..|front| + |back|] == back;
  }

  lemma PhysicalBytes(sum: Checksum, g: Bytes, s: nat, n: nat, t: byte, payload: Bytes)
    requires FourBytes(sum) && n == |payload| <= 0xffff
    requires s + HEADER_SIZE + n <= |g| && g[s..s + HEADER_SIZE + n] == Physical(sum, t, payload)
    ensures Written(sum, g, s, n, t, payload)
  {
    var physical := Physical(sum, t, payload);
    SliceOfSlice(g, s, s + HEADER_SIZE + n, 0, 4);
    SliceOfSlice(g, s, s + HEADER_SIZE + n, 6, HEADER_SIZE + n);
    SliceOfSlice(g, s, s + HEADER_SIZE + n, HEADER_SIZE, HEADER_SIZE + n);
    assert physical[..4] == sum([t] + payload);
    assert physical[HEADER_SIZE..] == payload;
    assert physical[6..] == [t] + payload;
    assert physical[4] == g[s + 4] && physical[5] == g[s + 5] && physical[6] == g[s + 6];
  }

  /** The physical record at offset `s` of `g`, byte for byte. */
  ghost predicate Written(sum: Checksum, g: Bytes, s: nat, n: nat, t: byte, payload: Bytes) {
    && s + HEADER_SIZE + n <= |g| && n == |payload|
    && g[s..s + 4] == sum([t] + payload)
    && g[s + 4] as nat + 256 * g[s + 5] as nat == n && g[s + 6] == t
    && g[s + HEADER_SIZE..s + HEADER_SIZE + n] == payload
    && g[s + 6..s + HEADER_SIZE + n] == [t] + payload
  }

  lemma WholeIsParsed(sum: Checksum, g: Bytes, c: nat, s: nat, n: nat, t: byte, payload: Bytes)
    requires Written(sum, g, s, n, t, payload) && FULL_TYPE <= t <= LAST_TYPE
    requires s % BLOCK_SIZE + HEADER_SIZE + n <= BLOCK_SIZE
    requires s + HEADER_SIZE + n <= c <= |g|
    ensures Parse(sum, g[..c], s) == Outcome(t as nat, payload, s + HEADER_SIZE + n, [])
  {
    var f, after := g[..c], s + HEADER_SIZE + n;
    assert f[s + 4] == g[s + 4] && f[s + 5] == g[s + 5] && f[s + 6] == g[s + 6];
    assert LengthAt(f, s) == n;
    assert f[s..s + 4] == g[s..s + 4];
    assert f[s + 6..after] == g[s + 6..after];
    assert f[s + HEADER_SIZE..after] == g[s + HEADER_SIZE..after];
  }

  lemma PartIsEof(sum: Checksum, g: Bytes, c: nat, s: nat, n: nat, t: byte, payload: Bytes)
    requires Written(sum, g, s, n, t, payload)
    requires s % BLOCK_SIZE + HEADER_SIZE + n <= BLOCK_SIZE
    requires s + HEADER_SIZE <= c < s + HEADER_SIZE + n
    ensures Parse(sum, g[..c], s) == Outcome(EOF, [], c, [])
  {
    var f := g[..c];
    assert f[s + 4] == g[s + 4] && f[s + 5] == g[s + 5];
    assert LengthAt(f, s) == n;
  }

  /** The fragment that begins at `p` in a log is read there, unless the log was cut before its end. */
  lemma FragmentIsRead(sum: Checksum, g: Bytes, c: nat, p: nat, data: Bytes, begin: bool)
    requires FourBytes(sum) && p <= c <= |g|
    requires FirstFragment(sum, p, data, begin) <= g[p..]
    ensures var n := Taken(p, |data|);
      PhysicalAt(sum, g[..c], p)
      == if Behind(p, n) <= c then Outcome(FragmentType(begin, n == |data|) as nat, data[..n], Behind(p, n), [])
         else Outcome(EOF, [], c, [])
  {
    PaddingReachesHeaderRoom(p);
    var n := Taken(p, |data|);
    var s, t := p + Padding(p), FragmentType(begin, n == |data|);
    FragmentBytes(sum, g, p, data, begin, s, n, t);
    if s + HEADER_SIZE + n <= c {
      WholeIsParsed(sum, g, c, s, n, t, data[..n]);
    } else if s + HEADER_SIZE <= c {
      PartIsEof(sum, g, c, s, n, t, data[..n]);
    }
  }

  /** Written fragments come together to the record they were cut from. */
  lemma FragmentsJoin(begin: bool, end: bool, payload: Bytes, scratch: Bytes)
    requires begin ==> scratch == []
    ensures Assemble(FragmentType(begin, end) as nat, payload, !begin, scratch)
         == if end then Done(Some(scratch + payload), []) else More(true, scratch + payload, [])
  {
    assert begin ==> scratch + payload == payload;
  }

  lemma ReadStep(sum: Checksum, f: Bytes, p: nat, data: Bytes, begin: bool, scratch: Bytes, n: nat, q: nat)
    requires p <= |f| && n <= |data| && (begin ==> scratch == [])
    requires PhysicalAt(sum, f, p) == Outcome(FragmentType(begin, n == |data|) as nat, data[..n], q, [])
    ensures q <= |f|
    ensures ReadFrom(sum, f, p, !begin, scratch)
         == if n == |data| then Logical(Some(scratch + data), q, []) else ReadFrom(sum, f, q, true, scratch + data[..n])
  {
    FragmentsJoin(begin, n == |data|, data[..n], scratch);
    PhysicalAdvances(sum, f, p);
    assert n == |data| ==> data[..n] == data;
    if n < |data| {
      var r := ReadFrom(sum, f, q, true, scratch + data[..n]);
      assert r.After([] + []) == r;
    }
  }

  lemma ReadStops(sum: Checksum, f: Bytes, p: nat, inFragment: bool, scratch: Bytes)
    requires p <= |f| && PhysicalAt(sum, f, p) == Outcome(EOF, [], |f|, [])
    ensures ReadFrom(sum, f, p, inFragment, scratch) == Logical(None, |f|, [])
  {
  }

  lemma EmissionSplits(sum: Checksum, g: Bytes, p: nat, data: Bytes, begin: bool)
    requires FourBytes(sum) && p <= |g| && Emission(sum, p, data, begin) <= g[p..]
    ensures FirstFragment(sum, p, data, begin) <= g[p..]
    ensures var n := Taken(p, |data|);
      var q := Behind(p, n);
      && q <= |g|
      && if n == |data| then p + |Emission(sum, p, data, begin)| == q
         else Emission(sum, q, data[n..], false) <= g[q..]
              && p + |Emission(sum, p, data, begin)| == q + |Emission(sum, q, data[n..], false)|
  {
    var n := Taken(p, |data|);
    var q := Behind(p, n);
    var fragment := FirstFragment(sum, p, data, begin);
    FirstFragmentLength(sum, p, data, begin);
    assert n == |data| ==> Emission(sum, p, data, begin) == fragment;
    if n < |data| {
      var tail := Emission(sum, q, data[n..], false);
      assert Emission(sum, p, data, begin) == fragment + tail;
      assert g[p..][|fragment|..] == g[q..];
    }
  }

  /** A record is read as it was written, and is not read at all if any byte of it is cut off. */
  lemma {:induction false} EmissionIsRead(sum: Checksum, g: Bytes, c: nat, p: nat, data: Bytes, begin: bool, scratch: Bytes)
    requires FourBytes(sum) && p <= c <= |g|
    requires begin ==> scratch == []
    requires Emission(sum, p, data, begin) <= g[p..]
    ensures var end := p + |Emission(sum, p, data, begin)|;
      ReadFrom(sum, g[..c], p, !begin, scratch)
      == if end <= c then Logical(Some(scratch + data), end, []) else Logical(None, c, [])
    decreases |data|, Tight(p)
  {
    var n := Taken(p, |data|);
    var q := Behind(p, n);
    EmissionSplits(sum, g, p, data, begin);
    FragmentIsRead(sum, g, c, p, data, begin);
    if c < q {
      ReadStops(sum, g[..c], p, !begin, scratch);
    } else {
      ReadStep(sum, g[..c], p, data, begin, scratch, n, q);
      if n < |data| {
        TightIsRare(p, |data|);
        EmissionIsRead(sum, g, c, q, data[n..], false, scratch + data[..n]);
        BytesJoin(scratch, data[..n], data[n..]);
        assert data[..n] + data[n..] == data;
      }
    }
  }

  lemma {:induction false} LogPrefix(sum: Checksum, records: seq<Bytes>, k: nat)
    requires k <= |records|
    ensures Log(sum, records[..k]) <= Log(sum, records)
    ensures k < |records| ==>
      var p := |Log(sum, records[..k])|;
      && Log(sum, records[..k + 1]) == Log(sum, records[..k]) + Emission(sum, p, records[k], true)
      && Emission(sum, p, records[k], true) <= Log(sum, records)[p..]
  {
    if k == |records| {
      assert records[..k] == records;
    } else {
      var init := records[..|records| - 1];
      if k == |init| {
        assert records[..k + 1] == records;
      } else {
        LogPrefix(sum, init, k);
        assert init[..k] == records[..k] && init[..k + 1] == records[..k + 1] && init[k] == records[k];
        PrefixOfPrefix(Log(sum, init), Log(sum, records), |Log(sum, records[..k])|, Emission(sum, |Log(sum, records[..k])|, records[k], true));
      }
    }
  }

  lemma PrefixOfPrefix(a: Bytes, b: Bytes, p: nat, part: Bytes)
    requires a <= b && p <= |a| && part <= a[p..]
    ensures part <= b[p..]
  {
    assert a[p..] <= b[p..];
  }

  /** Where the `k`-th record of a log begins. */
  ghost function Offset(sum: Checksum, records: seq<Bytes>, k: nat): nat
    requires k <= |records|
  {
    |Log(sum, records[..k])|
  }

  /** From the end of record `k` in a log cut to `c` bytes, the next record is read if it is all there;
      otherwise reading ends, and nothing is reported. */
  lemma NextIsRead(sum: Checksum, records: seq<Bytes>, k: nat, c: nat)
    requires FourBytes(sum) && k <= |records| && Offset(sum, records, k) <= c <= |Log(sum, records)|
    ensures ReadFrom(sum, Log(sum, records)[..c], Offset(sum, records, k), false, [])
         == if k < |records| && Offset(sum, records, k + 1) <= c then
              Logical(Some(records[k]), Offset(sum, records, k + 1), [])
            else Logical(None, c, [])
  {
    if k < |records| {
      RecordIsRead(sum, Log(sum, records), records, k, c, Offset(sum, records, k));
    } else {
      assert records[..k] == records;
      ReadStops(sum, Log(sum, records)[..c], c, false, []);
    }
  }

  lemma WholeRecordIsRead(sum: Checksum, g: Bytes, c: nat, p: nat, data: Bytes, end: nat)
    requires FourBytes(sum) && p <= c <= |g|
    requires Emission(sum, p, data, true) <= g[p..] && end == p + |Emission(sum, p, data, true)|
    ensures ReadFrom(sum, g[..c], p, false, []) == if end <= c then Logical(Some(data), end, []) else Logical(None, c, [])
  {
    EmissionIsRead(sum, g, c, p, data, true, []);
    assert [] + data == data;
  }

  lemma RecordIsRead(sum: Checksum, g: Bytes, records: seq<Bytes>, k: nat, c: nat, p: nat)
    requires FourBytes(sum) && k < |records| && g == Log(sum, records) && p == Offset(sum, records, k) <= c <= |g|
    ensures ReadFrom(sum, g[..c], p, false, [])
         == if Offset(sum, records, k + 1) <= c then Logical(Some(records[k]), Offset(sum, records, k + 1), [])
            else Logical(None, c, [])
  {
    RecordSpan(sum, g, records, k, p);
    WholeRecordIsRead(sum, g, c, p, records[k], Offset(sum, records, k + 1));
  }

  lemma RecordSpan(sum: Checksum, g: Bytes, records: seq<Bytes>, k: nat, p: nat)
    requires k < |records| && g == Log(sum, records) && p == Offset(sum, records, k)
    ensures p <= |g| && Emission(sum, p, records[k], true) <= g[p..]
    ensures Offset(sum, records, k + 1) == p + |Emission(sum, p, records[k], true)|
  {
    LogPrefix(sum, records, k);
  }

  /** How many of the records from the `k`-th on lie wholly within the first `c` bytes. */
  ghost function Complete(sum: Checksum, records: seq<Bytes>, k: nat, c: nat): (n: nat)
    requires k <= |records|
    ensures k <= n <= |records|
    ensures Offset(sum, records, k) <= c ==> Offset(sum, records, n) <= c
    ensures n < |records| ==> c < Offset(sum, records, n + 1)
    decreases |records| - k
  {
    if k < |records| && Offset(sum, records, k + 1) <= c then Complete(sum, records, k + 1, c) else k
  }

  lemma ReadOneMore(sum: Checksum, f: Bytes, p: nat, q: nat, record: Bytes, rest: seq<Bytes>)
    requires p <= |f| && q <= |f| && ReadFrom(sum, f, p, false, []) == Logical(Some(record), q, [])
    requires ReadAll(sum, f, q) == Recovered(rest, [])
    ensures ReadAll(sum, f, p) == Recovered([record] + rest, [])
  {
  }

  lemma ReadNoMore(sum: Checksum, f: Bytes, p: nat, c: nat)
    requires p <= |f| && ReadFrom(sum, f, p, false, []) == Logical(None, c, [])
    ensures ReadAll(sum, f, p) == Recovered([], [])
  {
  }

  /** A log of any records, written by any number of writers one after another and cut off at any byte,
      gives back exactly the records that were written whole, in order, and no corruption is reported. */
  lemma {:induction false} CutLogIsRead(sum: Checksum, records: seq<Bytes>, k: nat, c: nat)
    requires FourBytes(sum) && k <= |records| && Offset(sum, records, k) <= c <= |Log(sum, records)|
    ensures ReadAll(sum, Log(sum, records)[..c], Offset(sum, records, k))
         == Recovered(records[k..Complete(sum, records, k, c)], [])
    decreases |records| - k
  {
    var f, n := Log(sum, records)[..c], Complete(sum, records, k, c);
    NextIsRead(sum, records, k, c);
    if k < |records| && Offset(sum, records, k + 1) <= c {
      CutLogIsRead(sum, records, k + 1, c);
      ReadOneMore(sum, f, Offset(sum, records, k), Offset(sum, records, k + 1), records[k], records[k + 1..n]);
      assert [records[k]] + records[k + 1..n] == records[k..n];
    } else {
      ReadNoMore(sum, f, Offset(sum, records, k), c);
      assert records[k..n] == [];
    }
  }

  lemma WholeLogIsRead(sum: Checksum, records: seq<Bytes>)
    requires FourBytes(sum)
    ensures ReadAll(sum, Log(sum, records), 0) == Recovered(records, [])
  {
    var g := Log(sum, records);
    assert records[..0] == [] && records[..|records|] == records;
    CutLogIsRead(sum, records, 0, |g|);
    var n := Complete(sum, records, 0, |g|);
    if n < |records| {
      LogPrefix(sum, records, n + 1);
    }
    assert g[..|g|] == g && records[0..|records|] == records;
  }

  lemma LogGrows(sum: Checksum, records: seq<Bytes>, data: Bytes)
    ensures Log(sum, records + [data]) == Log(sum, records) + Emission(sum, |Log(sum, records)|, data, true)
  {
    assert (records + [data])[..|records|] == records;
  }

  lemma OneMore(earlier: seq<Bytes>, records: seq<Bytes>, i: nat)
    requires i < |records|
    ensures earlier + records[..i] + [records[i]] == earlier + records[..i + 1]
  {
  }

  /** Reopening does not show: `dest` is a log again after each session, however many writers took turns. */
  method WriteRecords(sum: Checksum, dest: WritableFile, records: seq<Bytes>, ghost earlier: seq<Bytes>)
    requires FourBytes(sum) && dest.contents == Log(sum, earlier)
    modifies dest
    ensures dest.contents == Log(sum, earlier + records)
  {
    var writer := new Writer(sum, dest);
    var i := 0;
    ghost var written := earlier;
    while i < |records|
      invariant i <= |records| && writer.Valid() && writer.dest == dest && writer.sum == sum && fresh(writer)
      invariant written == earlier + records[..i] && dest.contents == Log(sum, written)
    {
      LogGrows(sum, written, records[i]);
      OneMore(earlier, records, i);
      writer.AddRecord(records[i]);
      written := written + [records[i]];
      i := i + 1;
    }
    assert records[..i] == records;
  }

  /** What is still to come when reading has got to `p`. */
  ghost predicate Progress(sum: Checksum, f: Bytes, p: nat, records: seq<Bytes>, reports: seq<Report>, more: bool) {
    && p <= |f|
    && ReadAll(sum, f, 0)
       == if more then Recovered(records + ReadAll(sum, f, p).records, reports + ReadAll(sum, f, p).reports)
          else Recovered(records, reports)
  }

  lemma Progresses(sum: Checksum, f: Bytes, p: nat, records: seq<Bytes>, reports: seq<Report>)
    requires Progress(sum, f, p, records, reports, true)
    ensures var l := ReadFrom(sum, f, p, false, []);
      && l.next <= |f|
      && match l.record
         case None => Progress(sum, f, l.next, records, reports + l.reports, false)
         case Some(record) => p < l.next && Progress(sum, f, l.next, records + [record], reports + l.reports, true)
  {
    ReadAdvances(sum, f, p, false, []);
    var l := ReadFrom(sum, f, p, false, []);
    if l.record.Some? {
      var rest := ReadAll(sum, f, l.next);
      assert records + ([l.record.value] + rest.records) == records + [l.record.value] + rest.records;
      Joined(reports, l.reports, rest.reports);
    }
  }

  /** The loop that recovery makes over a log (RecoverLogFile, VersionSet::Recover). */
  method ReadRecords(sum: Checksum, file: Bytes) returns (records: seq<Bytes>, reports: seq<Report>)
    ensures Recovered(records, reports) == ReadAll(sum, file, 0)
  {
    var reader := new Reader(sum, file);
    records := [];
    var more := true;
    while more
      invariant reader.Valid() && reader.file == file && reader.sum == sum && fresh(reader)
      invariant Progress(sum, file, reader.Position(), records, reader.reports, more)
      decreases more, |file| - reader.Position()
    {
      Progresses(sum, file, reader.Position(), records, reader.reports);
      var record;
      more, record := reader.ReadRecord();
      if more {
        records := records + [record];
      }
    }
    reports := reader.reports;
  }
}
