/** Building a block and moving a cursor over it (table/block_builder.cc, table/block.cc). */
module Blocks {
  import opened Keys
  import opened Coding
  import opened BlockFormat

  // ---------- Builder ----------

  /** A position or part of a buffer stays when the buffer grows. */
  lemma AtStays(b: Bytes, p: nat, limit: nat, part: Bytes, b': Bytes, limit': nat)
    requires At(b, p, limit, part) && b <= b' && limit <= limit' <= |b'|
    ensures At(b', p, limit', part)
  {
    assert b'[p..p + |part|] == b[p..p + |part|];
  }

  /** The shape after one more entry; a restart point begins there if `restart`. */
  ghost function Extended(s: Shape, e: KeyValue, shared: nat, end: nat, restart: bool): Shape {
    Shape(s.entries + [e], s.offsets + [end], s.shared + [shared], if restart then s.starts + [|s.entries|] else s.starts)
  }

  lemma ExtendedIsSound(s: Shape, e: KeyValue, shared: nat, end: nat, restart: bool)
    requires Sound(s) && (restart ==> s.entries != [])
    ensures Sound(Extended(s, e, shared, end, restart))
    ensures forall i :: 0 <= i < |s.entries| ==> KeyBefore(Extended(s, e, shared, end, restart), i) == KeyBefore(s, i)
    ensures KeyBefore(Extended(s, e, shared, end, restart), |s.entries|)
         == if restart || s.entries == [] then [] else s.entries[|s.entries| - 1].key
  {
    var s', n := Extended(s, e, shared, end, restart), |s.entries|;
    forall i | 0 <= i < n ensures KeyBefore(s', i) == KeyBefore(s, i) {
      assert i in s'.starts <==> i in s.starts;
    }
    if restart {
      assert s'.starts[|s.starts|] == n;
    } else if n > 0 {
      StartsAreEntries(s);
    }
  }

  lemma StartsAreEntries(s: Shape)
    requires Sound(s) && s.entries != []
    ensures forall x :: x in s.starts ==> x < |s.entries|
  {
    forall k | 0 <= k < |s.starts| ensures s.starts[k] < |s.entries| {
      assert k > 0 ==> s.starts[0] < s.starts[k];
    }
  }

  lemma ExtendedIsLaid(b: Bytes, s: Shape, e: KeyValue, shared: nat, restart: bool, b': Bytes)
    requires Laid(b, |b|, s) && (restart ==> s.entries != [])
    requires Small(e.key) && Small(e.value) && shared <= |e.key|
    requires e.key[..shared] <= if restart || s.entries == [] then [] else s.entries[|s.entries| - 1].key
    requires b' == b + EncodeEntry(shared, e.key, e.value)
    ensures Laid(b', |b'|, Extended(s, e, shared, |b'|, restart))
  {
    var s', n := Extended(s, e, shared, |b'|, restart), |s.entries|;
    ExtendedIsSound(s, e, shared, |b'|, restart);
    forall i | 0 <= i <= n ensures EntryLaid(b', |b'|, s', i) {
      if i < n {
        assert EntryLaid(b, |b|, s, i);
        AtStays(b, s.offsets[i], |b|, EncodeEntry(s.shared[i], s.entries[i].key, s.entries[i].value), b', |b'|);
      } else {
        assert b'[|b|..] == EncodeEntry(shared, e.key, e.value);
      }
    }
  }

  class BlockBuilder {
    const restartInterval: nat
    var buffer: Bytes
    var restarts: seq<nat>
    var counter: nat
    var lastKey: Bytes
    ghost var shape: Shape

    ghost predicate Valid()
      reads this
    {
      && restartInterval >= 1 && counter <= restartInterval
      && Laid(buffer, |buffer|, shape)
      && |restarts| == |shape.starts|
      && (forall j :: 0 <= j < |restarts| ==> restarts[j] == RestartOffset(shape, j))
      && (if shape.entries == [] then counter == 0 && lastKey == [] else lastKey == shape.entries[|shape.entries| - 1].key)
    }

    constructor (restartInterval: nat)
      requires restartInterval >= 1
      ensures Valid() && shape.entries == [] && this.restartInterval == restartInterval
    {
      this.restartInterval := restartInterval;
      buffer, restarts, counter, lastKey := [], [0], 0, [];
      shape := Shape([], [0], [], [0]);
    }

    method Add(key: Bytes, value: Bytes)
      requires Valid() && Small(key) && Small(value)
      modifies this
      ensures Valid() && shape.entries == old(shape.entries) + [KeyValue(key, value)]
    {
      var shared := 0;
      ghost var restart := counter == restartInterval;
      if counter < restartInterval {
        shared := SharedPrefix(lastKey, key);
      } else {
        restarts := restarts + [|buffer|];
        counter := 0;
      }
      var entry := Encoded(shared, key, value);
      ExtendedIsLaid(buffer, shape, KeyValue(key, value), shared, restart, buffer + entry);
      ExtendedRestarts(shape, KeyValue(key, value), shared, |buffer + entry|, restart);
      buffer := buffer + entry;
      shape := Extended(shape, KeyValue(key, value), shared, |buffer|, restart);
      lastKey := lastKey[..shared] + key[shared..];
      assert lastKey == key;
      counter := counter + 1;
    }

    /** Append the restart points and their number. */
    method Finish() returns (block: Bytes)
      requires Valid() && |buffer| + 4 * |restarts| + 4 < TWO_32
      modifies this`buffer
      ensures IsBlock(block, old(|buffer|), shape)
    {
      ghost var b0 := buffer;
      var i := 0;
      while i < |restarts|
        invariant i <= |restarts| && |buffer| == |b0| + 4 * i && b0 <= buffer
        invariant forall j :: 0 <= j < i ==> At(buffer, |b0| + 4 * j, |buffer|, Fixed32(restarts[j]))
      {
        buffer := AppendFixed32(|b0|, i, restarts[i]);
        i := i + 1;
      }
      block := buffer + Fixed32(|restarts|);
      BlockIsWhole(b0, buffer, block, shape);
    }

    /** One more restart point. */
    method AppendFixed32(ghost start: nat, ghost i: nat, v: nat) returns (b: Bytes)
      requires |buffer| == start + 4 * i && i < |restarts| && v == restarts[i]
      requires forall j :: 0 <= j < i ==> At(buffer, start + 4 * j, |buffer|, Fixed32(restarts[j]))
      ensures b == buffer + Fixed32(v)
      ensures forall j :: 0 <= j <= i ==> At(b, start + 4 * j, |b|, Fixed32(restarts[j]))
    {
      b := buffer + Fixed32(v);
      forall j | 0 <= j < i ensures At(b, start + 4 * j, |b|, Fixed32(restarts[j])) {
        AtStays(buffer, start + 4 * j, |buffer|, Fixed32(restarts[j]), b, |b|);
      }
    }
  }

  /** `<shared><non_shared><value_size>`, the rest of the key, the value. */
  method Encoded(shared: nat, key: Bytes, value: Bytes) returns (entry: Bytes)
    requires shared <= |key| && Small(key) && Small(value)
    ensures entry == EncodeEntry(shared, key, value)
  {
    EncodeVarint32IsVarint(shared);
    EncodeVarint32IsVarint(|key| - shared);
    EncodeVarint32IsVarint(|value|);
    entry := EncodeVarint32(shared) + (EncodeVarint32(|key| - shared) + (EncodeVarint32(|value|) + (key[shared..] + value)));
  }

  /** The loop that measures how much of the last key is shared. */
  method SharedPrefix(lastKey: Bytes, key: Bytes) returns (shared: nat)
    ensures shared <= |key| && key[..shared] <= lastKey
    ensures shared < |key| && shared < |lastKey| ==> key[shared] != lastKey[shared]
  {
    shared := 0;
    var minLength := if |lastKey| < |key| then |lastKey| else |key|;
    while shared < minLength && lastKey[shared] == key[shared]
      invariant shared <= minLength && key[..shared] == lastKey[..shared]
    {
      shared := shared + 1;
    }
  }

  lemma ExtendedRestarts(s: Shape, e: KeyValue, shared: nat, end: nat, restart: bool)
    requires Sound(s) && (restart ==> s.entries != [])
    ensures Sound(Extended(s, e, shared, end, restart))
    ensures forall j :: 0 <= j < |s.starts| ==> RestartOffset(Extended(s, e, shared, end, restart), j) == RestartOffset(s, j)
    ensures restart ==> RestartOffset(Extended(s, e, shared, end, restart), |s.starts|) == s.offsets[|s.entries|]
  {
    ExtendedIsSound(s, e, shared, end, restart);
    forall j | 0 <= j < |s.starts| ensures s.starts[j] < |s.offsets| {
      assert j > 0 ==> s.starts[0] < s.starts[j] < |s.entries|;
    }
  }

  lemma BlockIsWhole(b: Bytes, withRestarts: Bytes, block: Bytes, s: Shape)
    requires Laid(b, |b|, s) && b <= withRestarts && |withRestarts| == |b| + 4 * |s.starts|
    requires forall j :: 0 <= j < |s.starts| ==>
      At(withRestarts, |b| + 4 * j, |withRestarts|, Fixed32(RestartOffset(s, j)))
    requires block == withRestarts + Fixed32(|s.starts|) && |block| < TWO_32
    ensures IsBlock(block, |b|, s)
  {
    forall i | 0 <= i < |s.entries| ensures EntryLaid(block, |b|, s, i) {
      assert EntryLaid(b, |b|, s, i);
      AtStays(b, s.offsets[i], |b|, EncodeEntry(s.shared[i], s.entries[i].key, s.entries[i].value), block, |b|);
    }
    forall j | 0 <= j < |s.starts| ensures RestartLaid(block, |b|, s, j) {
      AtStays(withRestarts, |b| + 4 * j, |withRestarts|, Fixed32(RestartOffset(s, j)), block, |block|);
    }
    assert block[|withRestarts|..] == Fixed32(|s.starts|);
  }

  // ---------- Cursor ----------

  ghost predicate Transitive(lt: (Bytes, Bytes) -> bool) {
    forall a, b, c :: lt(a, b) && lt(b, c) ==> lt(a, c)
  }

  ghost predicate Ascending(lt: (Bytes, Bytes) -> bool, entries: seq<KeyValue>) {
    forall i, j :: 0 <= i < j < |entries| ==> lt(entries[i].key, entries[j].key)
  }

  /** Block::Iter.  `at` is the entry the cursor stands on; past the last it is invalid. */
  class BlockIter {
    const data: Bytes
    const restarts: nat
    const numRestarts: nat
    var current: nat
    var restartIndex: nat
    var key: Bytes
    /** The bounds of `value_` in the data. */
    var valueStart: nat
    var valueEnd: nat
    var corrupted: bool
    ghost const shape: Shape
    ghost var at: nat

    /** The block is one that BlockBuilder finished. */
    ghost predicate Good()
      reads this
    {
      IsBlock(data, restarts, shape) && numRestarts == |shape.starts| && !corrupted
    }

    ghost predicate Ok()
      reads this
    {
      && Good() && at <= |shape.entries|
      && if at < |shape.entries| then
           && current == shape.offsets[at] && key == shape.entries[at].key
           && valueStart <= valueEnd == shape.offsets[at + 1] <= |data|
           && data[valueStart..valueEnd] == shape.entries[at].value
           && Within(restartIndex, current)
         else current == restarts && restartIndex == numRestarts
    }

    /** Offset `o` lies in the stretch of restart point `r`, or is where the next one begins. */
    ghost predicate Within(r: nat, o: nat)
      requires Sound(shape)
      reads this
    {
      && r < |shape.starts| && RestartOffset(shape, r) <= o
      && (r + 1 < |shape.starts| ==> o <= RestartOffset(shape, r + 1))
    }

    /** The next parse will find entry `i`. */
    ghost predicate Before(i: nat)
      reads this
    {
      && Good() && i <= |shape.entries| && valueEnd == shape.offsets[i]
      && restartIndex < numRestarts && RestartOffset(shape, restartIndex) <= shape.offsets[i]
      && (i < |shape.entries| ==> KeyBefore(shape, i) <= key)
    }

    constructor (data: Bytes, restarts: nat, ghost shape: Shape)
      requires IsBlock(data, restarts, shape)
      ensures Ok() && at == |shape.entries|
      ensures this.data == data && this.restarts == restarts && this.shape == shape
    {
      this.data, this.restarts, this.shape := data, restarts, shape;
      numRestarts := GetFixed32(data, |data| - 4);
      Fixed32IsRead(data, |data| - 4, |shape.starts|);
      current, restartIndex := restarts, GetFixed32(data, |data| - 4);
      key, valueStart, valueEnd, corrupted := [], 0, 0, false;
      at := |shape.entries|;
    }

    predicate Valid()
      reads this
    {
      current < restarts
    }

    lemma ValidIsOnEntry()
      requires Ok()
      ensures Valid() <==> at < |shape.entries|
    {
      if at < |shape.entries| {
        OffsetsAscend(data, restarts, shape, at, |shape.entries|);
      }
    }

    function GetRestartPoint(index: nat): (o: nat)
      requires Good() && index < numRestarts
      reads this
      ensures o == RestartOffset(shape, index)
    {
      assert RestartLaid(data, restarts, shape, index);
      RestartIsEntry(index);
      EntryEndsBefore(shape.starts[index]);
      Fixed32IsRead(data, restarts + 4 * index, RestartOffset(shape, index));
      GetFixed32(data, restarts + 4 * index)
    }

    method SeekToRestartPoint(index: nat)
      requires Good() && index < numRestarts
      modifies this`key, this`restartIndex, this`valueStart, this`valueEnd
      ensures Before(shape.starts[index]) && restartIndex == index
    {
      key := [];
      restartIndex := index;
      var offset := GetRestartPoint(index);
      valueStart, valueEnd := offset, offset;
    }

    /** What DecodeEntry finds at entry `i`. */
    lemma EntryDecodes(i: nat) returns (start: nat)
      requires Good() && i < |shape.entries|
      ensures EntryLaid(data, restarts, shape, i)
      ensures var e, shared := shape.entries[i], shape.shared[i];
        && DecodeEntry(data, shape.offsets[i], restarts)
           == Some(EntryHeader(shared, |e.key| - shared, |e.value|, start))
        && start + (|e.key| - shared) + |e.value| == shape.offsets[i + 1] <= restarts
        && data[start..start + (|e.key| - shared)] == e.key[shared..]
        && data[start + (|e.key| - shared)..shape.offsets[i + 1]] == e.value
    {
      assert EntryLaid(data, restarts, shape, i);
      var e := shape.entries[i];
      start := EntryIsDecoded(data, shape.offsets[i], restarts, shape.shared[i], e.key, e.value);
    }

    /** Step to the entry behind the value: entry `i`, if there is one. */
    method ParseNextKey(ghost i: nat) returns (ok: bool)
      requires Before(i)
      modifies this`current, this`restartIndex, this`key, this`valueStart, this`valueEnd, this`at
      ensures Ok() && at == i && ok == (i < |shape.entries|)
      ensures ok && old(restartIndex) + 1 < numRestarts && shape.offsets[i] <= RestartOffset(shape, old(restartIndex) + 1) ==>
        restartIndex == old(restartIndex)
    {
      current := valueEnd;
      at := i;
      EntryEndsBefore(i);
      if current >= restarts {
        current := restarts;
        restartIndex := numRestarts;
        return false;
      }
      ghost var start := EntryDecodes(i);
      ReadEntry(i, start);
      AdvanceRestart();
      ok := true;
    }

    lemma EntryEndsBefore(i: nat)
      requires Good() && i <= |shape.entries|
      ensures shape.offsets[i] < restarts <==> i < |shape.entries|
    {
      if i < |shape.entries| {
        OffsetsAscend(data, restarts, shape, i, |shape.entries|);
      }
    }

    /** Decode the entry at `current` into key and value. */
    method ReadEntry(ghost i: nat, ghost start: nat)
      requires Before(i) && i < |shape.entries| && current == shape.offsets[i]
      requires var e, shared := shape.entries[i], shape.shared[i];
        && shared <= |e.key| && e.key[..shared] <= KeyBefore(shape, i)
        && DecodeEntry(data, current, restarts) == Some(EntryHeader(shared, |e.key| - shared, |e.value|, start))
        && start + (|e.key| - shared) + |e.value| == shape.offsets[i + 1] <= restarts
        && data[start..start + (|e.key| - shared)] == e.key[shared..]
        && data[start + (|e.key| - shared)..shape.offsets[i + 1]] == e.value
      modifies this`key, this`valueStart, this`valueEnd
      ensures key == shape.entries[i].key && valueStart <= valueEnd == shape.offsets[i + 1] <= |data|
      ensures data[valueStart..valueEnd] == shape.entries[i].value
    {
      var decoded := DecodeEntry(data, current, restarts);
      if decoded.None? || |key| < decoded.value.shared {
        // CorruptionError, which a finished block does not meet.
        assert false;
      }
      var header := decoded.value;
      var shared, keyStart := header.shared, header.keyStart;
      ghost var e := shape.entries[i];
      assert key[..shared] == e.key[..shared];
      key := key[..shared] + data[keyStart..keyStart + header.nonShared];
      assert e.key[..shared] + e.key[shared..] == e.key;
      valueStart := keyStart + header.nonShared;
      valueEnd := valueStart + header.valueLength;
    }

    /** Keep `restartIndex` the last restart point before `current`. */
    method AdvanceRestart()
      requires Good() && restartIndex < numRestarts && RestartOffset(shape, restartIndex) <= current
      modifies this`restartIndex
      ensures Within(restartIndex, current)
      ensures old(restartIndex) + 1 < numRestarts && current <= RestartOffset(shape, old(restartIndex) + 1) ==>
        restartIndex == old(restartIndex)
    {
      while restartIndex + 1 < numRestarts && GetRestartPoint(restartIndex + 1) < current
        invariant restartIndex < numRestarts && RestartOffset(shape, restartIndex) <= current
        invariant old(restartIndex) + 1 < numRestarts && current <= RestartOffset(shape, old(restartIndex) + 1) ==>
          restartIndex == old(restartIndex)
      {
        restartIndex := restartIndex + 1;
      }
    }

    lemma OnEntryIsBeforeNext()
      requires Ok() && at < |shape.entries|
      ensures Before(at + 1)
    {
      OffsetsAscend(data, restarts, shape, at, at + 1);
    }

    method Next()
      requires Ok() && Valid()
      modifies this`current, this`restartIndex, this`key, this`valueStart, this`valueEnd, this`at
      ensures Ok() && at == old(at) + 1
    {
      ValidIsOnEntry();
      OnEntryIsBeforeNext();
      var ok := ParseNextKey(at + 1);
    }

    method SeekToFirst()
      requires Ok()
      modifies this`current, this`restartIndex, this`key, this`valueStart, this`valueEnd, this`at
      ensures Ok() && at == 0
    {
      SeekToRestartPoint(0);
      var ok := ParseNextKey(0);
    }

    lemma RestartIsEntry(r: nat)
      requires Good() && r < numRestarts
      ensures shape.starts[r] <= |shape.entries| && (shape.entries != [] ==> shape.starts[r] < |shape.entries|)
      ensures RestartOffset(shape, r) == shape.offsets[shape.starts[r]]
    {
      assert |shape.starts| > 1 ==> shape.starts[0] < shape.starts[1] < |shape.entries|;
      if shape.entries != [] {
        StartsAreEntries(shape);
        assert shape.starts[r] in shape.starts;
      }
    }

    /** From restart point `r`, step on to the entry that ends at `target`, entry `last`. */
    method ScanTo(r: nat, target: nat, ghost last: nat)
      requires Good() && r < numRestarts && shape.starts[r] <= last < |shape.entries|
      requires target == shape.offsets[last + 1]
      modifies this`current, this`restartIndex, this`key, this`valueStart, this`valueEnd, this`at
      ensures Ok() && at == last
    {
      SeekToRestartPoint(r);
      var ok := ParseNextKey(shape.starts[r]);
      while ok && valueEnd < target
        invariant Ok() && at <= last && ok
        decreases last - at
      {
        StillBefore(at, last);
        OnEntryIsBeforeNext();
        ok := ParseNextKey(at + 1);
      }
      if at < last {
        OffsetsAscend(data, restarts, shape, at + 1, last + 1);
      }
    }

    lemma StillBefore(i: nat, last: nat)
      requires Good() && i <= last < |shape.entries| && shape.offsets[i + 1] < shape.offsets[last + 1]
      ensures i < last
    {
    }

    method SeekToLast()
      requires Ok()
      modifies this`current, this`restartIndex, this`key, this`valueStart, this`valueEnd, this`at
      ensures Ok()
      ensures at == if shape.entries == [] then 0 else |shape.entries| - 1
    {
      RestartIsEntry(numRestarts - 1);
      ghost var n := |shape.entries|;
      SeekToRestartPoint(numRestarts - 1);
      var ok := ParseNextKey(shape.starts[numRestarts - 1]);
      while ok && valueEnd < restarts
        invariant Ok() && ok == (at < n) && at <= n && (n > 0 ==> ok)
        decreases n - at
      {
        OnEntryIsBeforeNext();
        EntryEndsBefore(at + 1);
        ok := ParseNextKey(at + 1);
      }
      if n > 0 {
        EntryEndsBefore(at + 1);
      }
    }

    method Prev()
      requires Ok() && Valid()
      modifies this`current, this`restartIndex, this`key, this`valueStart, this`valueEnd, this`at
      ensures Ok() && at == if old(at) > 0 then old(at) - 1 else |shape.entries|
    {
      ValidIsOnEntry();
      var original := current;
      ghost var was := at;
      while GetRestartPoint(restartIndex) >= original
        invariant Good() && restartIndex < numRestarts && current == original && at == was
        decreases restartIndex
      {
        if restartIndex == 0 {
          FirstEntryIsFirst(was);
          current := restarts;
          restartIndex := numRestarts;
          at := |shape.entries|;
          return;
        }
        restartIndex := restartIndex - 1;
      }
      RestartIsEntry(restartIndex);
      OffsetsOrder(shape.starts[restartIndex], was);
      ScanTo(restartIndex, original, was - 1);
    }

    lemma FirstEntryIsFirst(i: nat)
      requires Good() && i < |shape.entries| && RestartOffset(shape, 0) >= shape.offsets[i]
      ensures i == 0
    {
      if i > 0 {
        OffsetsAscend(data, restarts, shape, 0, i);
      }
    }

    lemma OffsetsOrder(i: nat, j: nat)
      requires Good() && i < |shape.entries| && j < |shape.entries| && shape.offsets[i] < shape.offsets[j]
      ensures i < j
    {
      if j < i {
        OffsetsAscend(data, restarts, shape, j, i);
      }
    }

    // ---------- Seek ----------

    /** The entries before `i` are before the target. */
    ghost predicate AllBefore(lt: (Bytes, Bytes) -> bool, target: Bytes, i: nat)
      reads this
    {
      forall j :: 0 <= j < i && j < |shape.entries| ==> lt(shape.entries[j].key, target)
    }

    /** The key at restart point `r`, read off without moving. */
    method RestartKey(r: nat) returns (k: Bytes)
      requires Good() && r < numRestarts && shape.entries != []
      ensures shape.starts[r] < |shape.entries| && k == shape.entries[shape.starts[r]].key
    {
      RestartIsEntry(r);
      ghost var i := shape.starts[r];
      var regionOffset := GetRestartPoint(r);
      ghost var start := EntryDecodes(i);
      assert i in shape.starts;
      var header := DecodeEntry(data, regionOffset, restarts);
      if header.None? || header.value.shared != 0 {
        // CorruptionError, which a finished block does not meet.
        assert false;
      }
      k := data[header.value.keyStart..header.value.keyStart + header.value.nonShared];
      assert shape.entries[i].key[0..] == shape.entries[i].key;
    }

    /** The last restart point whose key is before the target, or the first one. */
    method FindRestart(lt: (Bytes, Bytes) -> bool, target: Bytes) returns (left: nat)
      requires Good() && Transitive(lt) && Ascending(lt, shape.entries)
      ensures left < numRestarts && AllBefore(lt, target, shape.starts[left])
    {
      left := 0;
      var right := numRestarts - 1;
      while left < right
        invariant left <= right < numRestarts && AllBefore(lt, target, shape.starts[left])
        decreases right - left
      {
        var mid := (left + right + 1) / 2;
        ManyRestartsHaveEntries();
        var midKey := RestartKey(mid);
        if lt(midKey, target) {
          EarlierIsBefore(lt, target, shape.starts[mid]);
          left := mid;
        } else {
          right := mid - 1;
        }
      }
    }

    lemma ManyRestartsHaveEntries()
      requires Good() && numRestarts > 1
      ensures shape.entries != []
    {
      assert shape.starts[0] < shape.starts[1] < |shape.entries|;
    }

    lemma EarlierIsBefore(lt: (Bytes, Bytes) -> bool, target: Bytes, i: nat)
      requires Transitive(lt) && Ascending(lt, shape.entries)
      requires i < |shape.entries| && lt(shape.entries[i].key, target)
      ensures AllBefore(lt, target, i + 1)
    {
      forall j | 0 <= j < i + 1 ensures lt(shape.entries[j].key, target) {
        assert j < i ==> lt(shape.entries[j].key, shape.entries[i].key);
      }
    }

    /** The first entry whose key is not before the target. */
    method Seek(lt: (Bytes, Bytes) -> bool, target: Bytes)
      requires Ok() && Transitive(lt) && Ascending(lt, shape.entries)
      modifies this`current, this`restartIndex, this`key, this`valueStart, this`valueEnd, this`at
      ensures Ok() && AllBefore(lt, target, at)
      ensures at < |shape.entries| ==> !lt(shape.entries[at].key, target)
    {
      var left := FindRestart(lt, target);
      RestartIsEntry(left);
      SeekToRestartPoint(left);
      var ok := ParseNextKey(shape.starts[left]);
      while ok && lt(key, target)
        invariant Ok() && ok == (at < |shape.entries|) && AllBefore(lt, target, at)
        decreases |shape.entries| - at
      {
        EarlierIsBefore(lt, target, at);
        OnEntryIsBeforeNext();
        ok := ParseNextKey(at + 1);
      }
    }
  }

  // ---------- The bytes determine the entries ----------

  lemma EncodingDetermined(b: Bytes, p: nat, limit: nat, shared: nat, key: Bytes, value: Bytes,
                           shared': nat, key': Bytes, value': Bytes)
    requires limit < TWO_32 && shared <= |key| && Small(key) && Small(value)
    requires shared' <= |key'| && Small(key') && Small(value')
    requires At(b, p, limit, EncodeEntry(shared, key, value)) && At(b, p, limit, EncodeEntry(shared', key', value'))
    ensures shared == shared' && key[shared..] == key'[shared..] && value == value'
    ensures |EncodeEntry(shared, key, value)| == |EncodeEntry(shared', key', value')|
  {
    var start := EntryIsDecoded(b, p, limit, shared, key, value);
    var start' := EntryIsDecoded(b, p, limit, shared', key', value');
    SamePart(b, start, limit, key[shared..], key'[shared'..]);
    SamePart(b, start + (|key| - shared), limit, value, value');
  }

  lemma SamePart(b: Bytes, p: nat, limit: nat, x: Bytes, y: Bytes)
    requires At(b, p, limit, x) && At(b, p, limit, y) && |x| == |y|
    ensures x == y
  {
  }

  lemma EntryDetermined(b: Bytes, limit: nat, s: Shape, t: Shape, i: nat)
    requires limit < TWO_32 && Laid(b, limit, s) && Laid(b, limit, t) && i < |s.entries| && i < |t.entries|
    requires s.offsets[i] == t.offsets[i] && (i > 0 ==> s.entries[i - 1] == t.entries[i - 1])
    ensures s.entries[i] == t.entries[i] && s.offsets[i + 1] == t.offsets[i + 1]
  {
    assert EntryLaid(b, limit, s, i) && EntryLaid(b, limit, t, i);
    var e, f, shared := s.entries[i], t.entries[i], s.shared[i];
    EncodingDetermined(b, s.offsets[i], limit, shared, e.key, e.value, t.shared[i], f.key, f.value);
    SharedPartAgrees(s, t, i, shared);
    SameKey(e.key, f.key, shared);
  }

  lemma SameKey(x: Bytes, y: Bytes, shared: nat)
    requires shared <= |x| && shared <= |y| && x[..shared] == y[..shared] && x[shared..] == y[shared..]
    ensures x == y
  {
    assert x == x[..shared] + x[shared..] && y == y[..shared] + y[shared..];
  }

  lemma SharedPartAgrees(s: Shape, t: Shape, i: nat, shared: nat)
    requires i < |s.entries| && i < |t.entries| && (i > 0 ==> s.entries[i - 1] == t.entries[i - 1])
    requires shared <= |s.entries[i].key| && s.entries[i].key[..shared] <= KeyBefore(s, i)
    requires shared <= |t.entries[i].key| && t.entries[i].key[..shared] <= KeyBefore(t, i)
    ensures s.entries[i].key[..shared] == t.entries[i].key[..shared]
  {
  }

  lemma {:induction false} EntriesDetermined(b: Bytes, limit: nat, s: Shape, t: Shape, i: nat)
    requires limit < TWO_32 && Laid(b, limit, s) && Laid(b, limit, t) && i <= |s.entries|
    ensures i <= |t.entries| && s.entries[..i] == t.entries[..i] && s.offsets[i] == t.offsets[i]
  {
    if i > 0 {
      EntriesDetermined(b, limit, s, t, i - 1);
      OffsetsAscend(b, limit, s, i - 1, |s.entries|);
      EntryDetermined(b, limit, s, t, i - 1);
    }
  }

  /** No two sequences of entries, whatever their restart points, have the same block: what Finish returns
      can be read back in one way only. */
  lemma BlockDeterminesEntries(b: Bytes, limit: nat, s: Shape, limit': nat, t: Shape)
    requires IsBlock(b, limit, s) && IsBlock(b, limit', t)
    ensures s.entries == t.entries
  {
    Fixed32IsRead(b, |b| - 4, |s.starts|);
    Fixed32IsRead(b, |b| - 4, |t.starts|);
    EntriesDetermined(b, limit, s, t, |s.entries|);
    EntriesDetermined(b, limit, t, s, |t.entries|);
    assert s.entries[..|s.entries|] == s.entries && t.entries[..|t.entries|] == t.entries;
  }
}
