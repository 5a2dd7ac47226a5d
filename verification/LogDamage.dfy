/** What damage to a log can do, and what it cannot (doc of db/log_format.h; db/log_reader.cc): only fragments with
    the right checksum ever reach a record, and reading goes on at the next block. */
module LogDamage {
  import opened Keys
  import opened LogFormat
  import opened Log
  import Coding

  /** The records got from offset `p` on, with a record under assembly. */
  ghost function RecordsFrom(sum: Checksum, f: Bytes, p: nat, inF: bool, scratch: Bytes): seq<Bytes>
    requires p <= |f|
  {
    ReadAdvances(sum, f, p, inF, scratch);
    var l := ReadFrom(sum, f, p, inF, scratch);
    if l.record.None? then [] else [l.record.value] + ReadAll(sum, f, l.next).records
  }

  lemma AllAreFromTheStart(sum: Checksum, f: Bytes, p: nat)
    requires p <= |f|
    ensures ReadAll(sum, f, p).records == RecordsFrom(sum, f, p, false, [])
  {
  }

  /** One physical record further. */
  lemma OneFurther(sum: Checksum, f: Bytes, p: nat, inF: bool, scratch: Bytes) returns (o: Outcome, turn: Turn)
    requires p <= |f|
    ensures o == PhysicalAt(sum, f, p) && turn == Assemble(o.kind, o.payload, inF, scratch) && o.next <= |f|
    ensures RecordsFrom(sum, f, p, inF, scratch) ==
              match turn
              case Done(None, _) => []
              case Done(Some(r), _) => [r] + RecordsFrom(sum, f, o.next, false, [])
              case More(inF', scratch', _) => RecordsFrom(sum, f, o.next, inF', scratch')
  {
    PhysicalAdvances(sum, f, p);
    o := PhysicalAt(sum, f, p);
    turn := Assemble(o.kind, o.payload, inF, scratch);
  }

  // ---------- Only what passes the checksum ----------

  function End(f: Bytes, s: nat): nat
    requires s + HEADER_SIZE <= |f|
  {
    s + HEADER_SIZE + LengthAt(f, s)
  }

  /** A fragment of a record, whole and within its block, of that type, whose stored checksum is that of its type and payload. */
  ghost predicate Intact(sum: Checksum, f: Bytes, s: nat, t: byte, payload: Bytes) {
    && s + HEADER_SIZE <= |f| && End(f, s) <= |f| && s % BLOCK_SIZE + (End(f, s) - s) <= BLOCK_SIZE
    && f[s + 6] == t && f[s + HEADER_SIZE..End(f, s)] == payload
    && f[s..s + 4] == sum([t] + payload)
  }

  /** The beginning of a record: a first fragment and middle ones behind it, one after the other, that make up `scratch`. */
  ghost predicate Begun(sum: Checksum, f: Bytes, at: seq<nat>, parts: seq<Bytes>, scratch: Bytes, before: nat) {
    && |at| == |parts| > 0 && Coding.Join(parts) == scratch
    && (forall i :: 0 <= i < |at| ==> at[i] < before && Intact(sum, f, at[i], if i == 0 then FIRST_TYPE else MIDDLE_TYPE, parts[i]))
    && (forall i, j :: 0 <= i < j < |at| ==> at[i] < at[j])
  }

  /** A whole record: one full fragment, or a beginning and a last fragment behind it. */
  ghost predicate Checked(sum: Checksum, f: Bytes, record: Bytes) {
    || (exists s :: Intact(sum, f, s, FULL_TYPE, record))
    || (exists at, parts, scratch, s, payload ::
          Begun(sum, f, at, parts, scratch, s) && Intact(sum, f, s, LAST_TYPE, payload) && record == scratch + payload)
  }

  lemma ParsedIsIntact(sum: Checksum, f: Bytes, p: nat)
    requires p <= |f|
    ensures var o := PhysicalAt(sum, f, p);
            FULL_TYPE as nat <= o.kind <= LAST_TYPE as nat ==> p + Padding(p) < o.next && Intact(sum, f, p + Padding(p), o.kind as byte, o.payload)
  {
    var o, s := PhysicalAt(sum, f, p), p + Padding(p);
    PaddingReachesHeaderRoom(p);
    if FULL_TYPE as nat <= o.kind <= LAST_TYPE as nat {
      assert f[s + 6..End(f, s)] == [f[s + 6]] + f[s + HEADER_SIZE..End(f, s)];
    }
  }

  lemma BegunLater(sum: Checksum, f: Bytes, at: seq<nat>, parts: seq<Bytes>, scratch: Bytes, p: nat, q: nat)
    requires Begun(sum, f, at, parts, scratch, p) && p <= q
    ensures Begun(sum, f, at, parts, scratch, q)
  {
  }

  /** Whatever the bytes of a file: a record that the reader returns is made of intact fragments of that file, in order. */
  lemma {:induction false} RecordIsChecked(sum: Checksum, f: Bytes, p: nat, inF: bool, scratch: Bytes, at: seq<nat>, parts: seq<Bytes>)
    requires p <= |f| && (inF ==> Begun(sum, f, at, parts, scratch, p))
    ensures var l := ReadFrom(sum, f, p, inF, scratch);
            l.record.Some? ==> Checked(sum, f, l.record.value)
    decreases |f| - p
  {
    hide PhysicalAt, Intact, Begun, Checked;
    PhysicalAdvances(sum, f, p);
    var o := PhysicalAt(sum, f, p);
    var s := p + Padding(p);
    ParsedIsIntact(sum, f, p);
    var turn := Assemble(o.kind, o.payload, inF, scratch);
    if o.kind == FULL_TYPE as nat {
      FullIsChecked(sum, f, s, o.payload);
    } else if o.kind == LAST_TYPE as nat && inF {
      BegunLater(sum, f, at, parts, scratch, p, s);
      LastIsChecked(sum, f, at, parts, scratch, s, o.payload);
    } else if turn.More? {
      var at', parts' := at, parts;
      if o.kind == FIRST_TYPE as nat {
        at', parts' := [s], [o.payload];
        FirstBegins(sum, f, s, o.payload, o.next);
      } else if turn.inFragment {
        at', parts' := at + [s], parts + [o.payload];
        BegunLater(sum, f, at, parts, scratch, p, s);
        MiddleGoesOn(sum, f, at, parts, scratch, s, o.payload, o.next);
      }
      RecordIsChecked(sum, f, o.next, turn.inFragment, turn.scratch, at', parts');
    }
  }

  lemma FullIsChecked(sum: Checksum, f: Bytes, s: nat, payload: Bytes)
    requires Intact(sum, f, s, FULL_TYPE, payload)
    ensures Checked(sum, f, payload)
  {
  }

  lemma LastIsChecked(sum: Checksum, f: Bytes, at: seq<nat>, parts: seq<Bytes>, scratch: Bytes, s: nat, payload: Bytes)
    requires Begun(sum, f, at, parts, scratch, s) && Intact(sum, f, s, LAST_TYPE, payload)
    ensures Checked(sum, f, scratch + payload)
  {
  }

  lemma FirstBegins(sum: Checksum, f: Bytes, s: nat, payload: Bytes, before: nat)
    requires Intact(sum, f, s, FIRST_TYPE, payload) && s < before
    ensures Begun(sum, f, [s], [payload], payload, before)
  {
    Coding.JoinSnoc([], payload);
    assert [] + [payload] == [payload];
  }

  lemma MiddleGoesOn(sum: Checksum, f: Bytes, at: seq<nat>, parts: seq<Bytes>, scratch: Bytes, s: nat, payload: Bytes, before: nat)
    requires Begun(sum, f, at, parts, scratch, s) && Intact(sum, f, s, MIDDLE_TYPE, payload) && s < before
    ensures Begun(sum, f, at + [s], parts + [payload], scratch + payload, before)
  {
    Coding.JoinSnoc(parts, payload);
  }

  /** So is every record of a whole file, damaged or not. */
  lemma {:induction false} AllAreChecked(sum: Checksum, f: Bytes, p: nat, i: nat)
    requires p <= |f| && i < |ReadAll(sum, f, p).records|
    ensures Checked(sum, f, ReadAll(sum, f, p).records[i])
    decreases |f| - p
  {
    ReadAdvances(sum, f, p, false, []);
    RecordIsChecked(sum, f, p, false, [], [], []);
    var l := ReadFrom(sum, f, p, false, []);
    if i > 0 {
      AllAreChecked(sum, f, l.next, i - 1);
    }
  }

  // ---------- Reading goes on at the next block ----------

  /** The type that passes for the end of the file. */
  const END_TYPE: byte := 5

  ghost predicate FalseEnd(sum: Checksum, f: Bytes, s: nat) {
    exists payload :: Intact(sum, f, s, END_TYPE, payload)
  }

  /** No fragment before `p0` passes for the end of the file: that takes a right checksum over the unused type 5. */
  ghost predicate NoFalseEnd(sum: Checksum, f: Bytes, p: nat, p0: nat) {
    forall s :: p <= s < p0 ==> !FalseEnd(sum, f, s)
  }

  lemma StaysInTheBlock(sum: Checksum, f: Bytes, p: nat, p0: nat)
    requires p < p0 <= |f| && p0 % BLOCK_SIZE == 0 && NoFalseEnd(sum, f, p, p0)
    ensures var o := PhysicalAt(sum, f, p);
            if p + Padding(p) == p0 then o == PhysicalAt(sum, f, p0) else p < o.next <= p0 && o.kind != EOF
  {
    var o, s := PhysicalAt(sum, f, p), p + Padding(p);
    PaddingReachesHeaderRoom(p);
    BlockEnds(p, p0);
    if s != p0 && o.kind == EOF {
      assert f[s + 6..End(f, s)] == [f[s + 6]] + f[s + HEADER_SIZE..End(f, s)];
      assert Intact(sum, f, s, END_TYPE, o.payload) && FalseEnd(sum, f, s);
    }
  }

  lemma BlockEnds(p: nat, p0: nat)
    requires p < p0 && p0 % BLOCK_SIZE == 0
    ensures p + Padding(p) <= p0 && BlockStart(p) + BLOCK_SIZE <= p0
    ensures p + Padding(p) < p0 ==> BlockStart(p + Padding(p)) + BLOCK_SIZE <= p0
  {
    PaddingReachesHeaderRoom(p);
    NextBlock(p, p0);
    if p + Padding(p) < p0 {
      NextBlock(p + Padding(p), p0);
    }
  }

  lemma NextBlock(p: nat, p0: nat)
    requires p < p0 && p0 % BLOCK_SIZE == 0
    ensures BlockStart(p) + BLOCK_SIZE <= p0
  {
    assert p == p / BLOCK_SIZE * BLOCK_SIZE + p % BLOCK_SIZE && p0 == p0 / BLOCK_SIZE * BLOCK_SIZE;
  }

  /** However damaged what comes before, reading arrives exactly at the block boundary. */
  lemma {:induction false} Arrives(sum: Checksum, f: Bytes, p: nat, p0: nat, inF: bool, scratch: Bytes)
      returns (first: seq<Bytes>, inF': bool, scratch': Bytes)
    requires p <= p0 <= |f| && p0 % BLOCK_SIZE == 0 && NoFalseEnd(sum, f, p, p0)
    ensures RecordsFrom(sum, f, p, inF, scratch) == first + RecordsFrom(sum, f, p0, inF', scratch')
    decreases p0 - p
  {
    hide PhysicalAt, RecordsFrom, NoFalseEnd;
    if p == p0 {
      first, inF', scratch' := [], inF, scratch;
    } else {
      StaysInTheBlock(sum, f, p, p0);
      var o, turn := OneFurther(sum, f, p, inF, scratch);
      if p + Padding(p) == p0 {
        var o0, turn0 := OneFurther(sum, f, p0, inF, scratch);
        first, inF', scratch' := [], inF, scratch;
      } else {
        StillNoFalseEnd(sum, f, p, o.next, p0);
        if turn.Done? {
          first, inF', scratch' := Arrives(sum, f, o.next, p0, false, []);
          first := [turn.record.value] + first;
        } else {
          first, inF', scratch' := Arrives(sum, f, o.next, p0, turn.inFragment, turn.scratch);
        }
      }
    }
  }

  lemma StillNoFalseEnd(sum: Checksum, f: Bytes, p: nat, q: nat, p0: nat)
    requires NoFalseEnd(sum, f, p, p0) && p <= q
    ensures NoFalseEnd(sum, f, q, p0)
  {
  }

  /** The rest of a record whose beginning is lost is passed over. */
  lemma {:induction false} RestIsPassed(sum: Checksum, f: Bytes, p: nat, data: Bytes, inF: bool, scratch: Bytes)
      returns (first: seq<Bytes>, inF': bool, scratch': Bytes)
    requires FourBytes(sum) && p <= |f| && Emission(sum, p, data, false) <= f[p..]
    ensures p + |Emission(sum, p, data, false)| <= |f|
    ensures RecordsFrom(sum, f, p, inF, scratch) == first + RecordsFrom(sum, f, p + |Emission(sum, p, data, false)|, inF', scratch')
    decreases |data|, Tight(p)
  {
    hide PhysicalAt, RecordsFrom, Emission;
    var n := Taken(p, |data|);
    var q := Behind(p, n);
    EmissionSplits(sum, f, p, data, false);
    assert f[..|f|] == f;
    FragmentIsRead(sum, f, |f|, p, data, false);
    var o, turn := OneFurther(sum, f, p, inF, scratch);
    if n == |data| {
      if turn.Done? {
        first, inF', scratch' := [turn.record.value], false, [];
      } else {
        first, inF', scratch' := [], turn.inFragment, turn.scratch;
      }
    } else {
      TightIsRare(p, |data|);
      EmissionSplitsLength(sum, p, data);
      first, inF', scratch' := RestIsPassed(sum, f, q, data[n..], turn.inFragment, turn.scratch);
    }
  }

  lemma EmissionSplitsLength(sum: Checksum, p: nat, data: Bytes)
    requires FourBytes(sum) && Taken(p, |data|) < |data|
    ensures var n := Taken(p, |data|);
            p + |Emission(sum, p, data, false)| == Behind(p, n) + |Emission(sum, Behind(p, n), data[n..], false)|
  {
    FirstFragmentLength(sum, p, data, false);
  }

  /** A record that begins anew is read whatever was under assembly. */
  lemma StartResets(sum: Checksum, f: Bytes, p: nat, data: Bytes, inF: bool, scratch: Bytes)
    requires FourBytes(sum) && p <= |f| && Emission(sum, p, data, true) <= f[p..]
    ensures RecordsFrom(sum, f, p, inF, scratch) == RecordsFrom(sum, f, p, false, [])
  {
    hide PhysicalAt, RecordsFrom, Emission;
    EmissionSplits(sum, f, p, data, true);
    assert f[..|f|] == f;
    FragmentIsRead(sum, f, |f|, p, data, true);
    var o, turn := OneFurther(sum, f, p, inF, scratch);
    var o', turn' := OneFurther(sum, f, p, false, []);
  }

  /** Records written one after the other from offset `p` on. */
  function Onwards(sum: Checksum, p: nat, records: seq<Bytes>): Bytes
    decreases |records|
  {
    if records == [] then []
    else
      var e := Emission(sum, p, records[0], true);
      e + Onwards(sum, p + |e|, records[1..])
  }

  lemma NothingMoreToRead(sum: Checksum, f: Bytes, inF: bool, scratch: Bytes)
    ensures RecordsFrom(sum, f, |f|, inF, scratch) == []
  {
    PaddingReachesHeaderRoom(|f|);
  }

  lemma RecordComesFirst(sum: Checksum, f: Bytes, p: nat, data: Bytes, q: nat)
    requires FourBytes(sum) && p <= |f| && Emission(sum, p, data, true) <= f[p..] && q == p + |Emission(sum, p, data, true)|
    ensures q <= |f| && RecordsFrom(sum, f, p, false, []) == [data] + RecordsFrom(sum, f, q, false, [])
  {
    hide Emission, ReadFrom, ReadAll;
    assert f[..|f|] == f && [] + data == data;
    EmissionIsRead(sum, f, |f|, p, data, true, []);
    AllAreFromTheStart(sum, f, q);
  }

  lemma {:induction false} AllOnwardsAreRead(sum: Checksum, f: Bytes, p: nat, records: seq<Bytes>, inF: bool, scratch: Bytes)
    requires FourBytes(sum) && p <= |f| && f[p..] == Onwards(sum, p, records)
    ensures RecordsFrom(sum, f, p, inF, scratch) == records
    decreases |records|
  {
    if records == [] {
      assert p == |f|;
      NothingMoreToRead(sum, f, inF, scratch);
    } else {
      var e := Emission(sum, p, records[0], true);
      assert e <= f[p..] && f[p..][|e|..] == f[p + |e|..];
      StartResets(sum, f, p, records[0], inF, scratch);
      RecordComesFirst(sum, f, p, records[0], p + |e|);
      AllOnwardsAreRead(sum, f, p + |e|, records[1..], false, []);
    }
  }

  lemma {:induction false} AllBeforeAreRead(sum: Checksum, f: Bytes, records: seq<Bytes>, k: nat)
    requires FourBytes(sum) && LogFormat.Log(sum, records) <= f && k <= |records|
    ensures Offset(sum, records, k) <= |f|
    ensures RecordsFrom(sum, f, 0, false, []) == records[..k] + RecordsFrom(sum, f, Offset(sum, records, k), false, [])
  {
    hide Emission, RecordsFrom, LogFormat.Log;
    LogPrefix(sum, records, k);
    if k == 0 {
      assert records[..0] == [];
      NoRecords(sum);
    } else {
      AllBeforeAreRead(sum, f, records, k - 1);
      LogPrefix(sum, records, k - 1);
      var p := Offset(sum, records, k - 1);
      PrefixOfPrefix(LogFormat.Log(sum, records), f, p, Emission(sum, p, records[k - 1], true));
      RecordComesFirst(sum, f, p, records[k - 1], Offset(sum, records, k));
      assert records[..k] == records[..k - 1] + [records[k - 1]];
    }
  }

  lemma NoRecords(sum: Checksum)
    ensures LogFormat.Log(sum, []) == []
  {
  }

  /** Bytes are damaged from the end of some record up to a block boundary; behind it stand the rest of a record that was
      under way and further records.  All records before the damage and all behind it are read, in order; what comes in
      between is made of fragments that pass their checksums. */
  lemma DamageIsContained(sum: Checksum, f: Bytes, before: seq<Bytes>, p0: nat, rest: Option<Bytes>, after: seq<Bytes>)
      returns (between: seq<Bytes>)
    requires FourBytes(sum) && LogFormat.Log(sum, before) <= f && |LogFormat.Log(sum, before)| <= p0 <= |f| && p0 % BLOCK_SIZE == 0
    requires NoFalseEnd(sum, f, |LogFormat.Log(sum, before)|, p0)
    requires var tail := if rest.Some? then Emission(sum, p0, rest.value, false) else [];
             f[p0..] == tail + Onwards(sum, p0 + |tail|, after)
    ensures ReadAll(sum, f, 0).records == before + between + after
    ensures forall i :: 0 <= i < |between| ==> Checked(sum, f, between[i])
  {
    hide RecordsFrom, ReadAll, LogFormat.Log, Checked, NoFalseEnd, Onwards;
    var start := |LogFormat.Log(sum, before)|;
    AllAreFromTheStart(sum, f, 0);
    AllBeforeAreRead(sum, f, before, |before|);
    assert before[..|before|] == before;
    var first, inF, scratch := Arrives(sum, f, start, p0, false, []);
    between := first;
    var p := p0;
    if rest.Some? {
      var e := Emission(sum, p0, rest.value, false);
      assert e <= f[p0..] && f[p0..][|e|..] == f[p0 + |e|..];
      var more;
      more, inF, scratch := RestIsPassed(sum, f, p0, rest.value, inF, scratch);
      between, p := between + more, p0 + |e|;
    }
    AllOnwardsAreRead(sum, f, p, after, inF, scratch);
    forall i | 0 <= i < |between| ensures Checked(sum, f, between[i]) {
      AllAreChecked(sum, f, 0, |before| + i);
      assert ReadAll(sum, f, 0).records[|before| + i] == between[i];
    }
  }
}
