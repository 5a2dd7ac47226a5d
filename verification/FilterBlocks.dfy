/** The filter block of a table: one filter for the keys of every 2 KB of data (table/filter_block.cc). */
module FilterBlocks {
  import opened Keys
  import opened Coding
  import opened Blooms

  const BASE_LG: byte := 11
  const BASE: nat := 2048

  /** The keys of each filter once there are `n` filters: those still pending go into the next one, and
      any after that have none. */
  function GroupsUpTo(groups: seq<seq<Bytes>>, pending: seq<Bytes>, n: nat): (r: seq<seq<Bytes>>)
    ensures groups <= r
    decreases n - |groups|
  {
    if |groups| >= n then groups else GroupsUpTo(groups + [pending], [], n)
  }

  function PendingAt(groups: seq<seq<Bytes>>, pending: seq<Bytes>, n: nat): seq<Bytes> {
    if |groups| >= n then pending else []
  }

  lemma {:induction false} GroupsReach(groups: seq<seq<Bytes>>, pending: seq<Bytes>, n: nat)
    requires |groups| < n
    ensures |GroupsUpTo(groups, pending, n)| == n && GroupsUpTo(groups, pending, n)[|groups|] == pending
    decreases n - |groups|
  {
    var next := groups + [pending];
    if |next| < n {
      GroupsReach(next, [], n);
    }
    assert next[|groups|] == pending;
  }

  /** The bytes of a filter, none when there are no keys for it. */
  ghost predicate FilterOf(hash: Hash, bitsPerKey: nat, keys: seq<Bytes>, f: Bytes) {
    if keys == [] then f == [] else IsFilter(hash, bitsPerKey, keys, f)
  }

  function EndOf(size: nat, offsets: seq<nat>, i: nat): nat {
    if i + 1 < |offsets| then offsets[i + 1] else size
  }

  ghost predicate FilterLaid(hash: Hash, bitsPerKey: nat, result: Bytes, offsets: seq<nat>, i: nat, keys: seq<Bytes>)
    requires i < |offsets|
  {
    && offsets[i] <= EndOf(|result|, offsets, i) <= |result|
    && FilterOf(hash, bitsPerKey, keys, result[offsets[i]..EndOf(|result|, offsets, i)])
  }

  /** The filters stand one after the other. */
  ghost predicate FiltersLaid(hash: Hash, bitsPerKey: nat, result: Bytes, offsets: seq<nat>, groups: seq<seq<Bytes>>) {
    |offsets| == |groups| && forall i: nat :: i < |groups| ==> FilterLaid(hash, bitsPerKey, result, offsets, i, groups[i])
  }

  lemma OneMoreFilter(hash: Hash, bitsPerKey: nat, result: Bytes, offsets: seq<nat>, groups: seq<seq<Bytes>>,
                      keys: seq<Bytes>, result': Bytes)
    requires FiltersLaid(hash, bitsPerKey, result, offsets, groups)
    requires result <= result' && FilterOf(hash, bitsPerKey, keys, result'[|result|..])
    ensures FiltersLaid(hash, bitsPerKey, result', offsets + [|result|], groups + [keys])
  {
    var offsets', groups' := offsets + [|result|], groups + [keys];
    forall i: nat | i < |groups'| ensures FilterLaid(hash, bitsPerKey, result', offsets', i, groups'[i]) {
      if i < |groups| {
        assert FilterLaid(hash, bitsPerKey, result, offsets, i, groups[i]);
        var end := EndOf(|result|, offsets, i);
        assert EndOf(|result'|, offsets', i) == end && offsets'[i] == offsets[i];
        assert result'[offsets[i]..end] == result[offsets[i]..end];
      } else {
        assert result'[|result|..|result'|] == result'[|result|..];
      }
    }
  }

  // ---------- The flattened keys ----------

  /** `keys` holds the strings of `pending`, string `i` from `start[i]` on. */
  ghost predicate Flattened(keys: Bytes, start: seq<nat>, pending: seq<Bytes>) {
    && |start| == |pending| && keys == Join(pending)
    && forall i :: 0 <= i < |start| ==> start[i] == |Join(pending[..i])|
  }

  lemma FlattenMore(keys: Bytes, start: seq<nat>, pending: seq<Bytes>, key: Bytes)
    requires Flattened(keys, start, pending)
    ensures Flattened(keys + key, start + [|keys|], pending + [key])
  {
    JoinSnoc(pending, key);
    forall i | 0 <= i < |start| + 1 ensures (start + [|keys|])[i] == |Join((pending + [key])[..i])| {
      if i < |start| {
        assert (pending + [key])[..i] == pending[..i];
      } else {
        assert (pending + [key])[..i] == pending;
      }
    }
  }

  lemma FlattenedAt(keys: Bytes, start: seq<nat>, pending: seq<Bytes>, i: nat, end: nat)
    requires Flattened(keys, start, pending) && i < |pending|
    requires end == if i + 1 < |start| then start[i + 1] else |keys|
    ensures start[i] <= end <= |keys| && keys[start[i]..end] == pending[i]
  {
    var before, rest := pending[..i], pending[i + 1..];
    assert pending == (before + [pending[i]]) + rest && pending[..i + 1] == before + [pending[i]];
    JoinConcat(before + [pending[i]], rest);
    JoinSnoc(before, pending[i]);
    if i + 1 == |start| {
      assert pending[..i + 1] == pending;
    }
  }

  // ---------- Builder ----------

  class FilterBlockBuilder {
    const hash: Hash
    const bitsPerKey: nat
    var keys: Bytes
    var start: seq<nat>
    var result: Bytes
    var filterOffsets: seq<nat>
    /** The keys of each filter made, and those added since. */
    ghost var groups: seq<seq<Bytes>>
    ghost var pending: seq<Bytes>

    ghost predicate Valid()
      reads this
    {
      && Flattened(keys, start, pending)
      && FiltersLaid(hash, bitsPerKey, result, filterOffsets, groups)
    }

    constructor (hash: Hash, bitsPerKey: nat)
      ensures Valid() && groups == [] && pending == [] && this.hash == hash && this.bitsPerKey == bitsPerKey
    {
      this.hash, this.bitsPerKey := hash, bitsPerKey;
      keys, start, result, filterOffsets := [], [], [], [];
      groups, pending := [], [];
    }

    method StartBlock(blockOffset: nat)
      requires Valid() && blockOffset / BASE >= |groups|
      modifies this
      ensures Valid() && |groups| == blockOffset / BASE
      ensures groups == GroupsUpTo(old(groups), old(pending), blockOffset / BASE)
      ensures pending == PendingAt(old(groups), old(pending), blockOffset / BASE)
    {
      var filterIndex := blockOffset / BASE;
      while filterIndex > |filterOffsets|
        invariant Valid() && |groups| <= filterIndex
        invariant GroupsUpTo(groups, pending, filterIndex) == GroupsUpTo(old(groups), old(pending), filterIndex)
        invariant PendingAt(groups, pending, filterIndex) == PendingAt(old(groups), old(pending), filterIndex)
        decreases filterIndex - |groups|
      {
        GenerateFilter();
      }
    }

    method AddKey(key: Bytes)
      requires Valid()
      modifies this`keys, this`start, this`pending
      ensures Valid() && pending == old(pending) + [key]
    {
      FlattenMore(keys, start, pending, key);
      start := start + [|keys|];
      keys := keys + key;
      pending := pending + [key];
    }

    method GenerateFilter()
      requires Valid()
      modifies this
      ensures Valid() && groups == old(groups) + [old(pending)] && pending == []
    {
      if |start| == 0 {
        OneMoreFilter(hash, bitsPerKey, result, filterOffsets, groups, pending, result);
        filterOffsets := filterOffsets + [|result|];
        groups := groups + [pending];
        return;
      }
      var tmpKeys := SplitKeys();
      var withFilter := CreateFilter(hash, bitsPerKey, tmpKeys, result);
      OneMoreFilter(hash, bitsPerKey, result, filterOffsets, groups, pending, withFilter);
      filterOffsets := filterOffsets + [|result|];
      result := withFilter;
      keys, start := [], [];
      groups, pending := groups + [pending], [];
    }

    /** The list of keys from the flattened key structure. */
    method SplitKeys() returns (tmpKeys: seq<Bytes>)
      requires Valid()
      ensures tmpKeys == pending
    {
      tmpKeys := [];
      for i := 0 to |start|
        invariant tmpKeys == pending[..i]
      {
        var end := if i + 1 < |start| then start[i + 1] else |keys|;
        FlattenedAt(keys, start, pending, i, end);
        tmpKeys := tmpKeys + [keys[start[i]..end]];
      }
    }

    /** The filters, the array of their offsets, where that array begins, and the encoding parameter. */
    method Finish() returns (contents: Bytes, ghost offsets: seq<nat>, ghost size: nat)
      requires Valid()
      modifies this
      ensures groups == if old(pending) == [] then old(groups) else old(groups) + [old(pending)]
      ensures size < TWO_32 ==> IsFilterBlock(hash, bitsPerKey, contents, size, offsets, groups)
      ensures size <= |contents|
    {
      if start != [] {
        GenerateFilter();
      }
      ghost var filters := result;
      offsets, size := filterOffsets, |result|;
      var arrayOffset := |result|;
      for i := 0 to |filterOffsets|
        invariant filterOffsets == offsets && |result| == size + 4 * i && filters <= result
        invariant forall j :: 0 <= j < i ==> At(result, size + 4 * j, |result|, Fixed32(offsets[j]))
        invariant groups == if old(pending) == [] then old(groups) else old(groups) + [old(pending)]
      {
        result := AppendFixed32(result, size, i, offsets, filterOffsets[i]);
      }
      contents := result + Fixed32(arrayOffset) + [BASE_LG];
      if size < TWO_32 {
        BlockIsWhole(hash, bitsPerKey, filters, result, contents, offsets, groups);
      }
      result := contents;
    }
  }

  method AppendFixed32(result: Bytes, ghost size: nat, ghost i: nat, ghost offsets: seq<nat>, v: nat) returns (b: Bytes)
    requires |result| == size + 4 * i && i < |offsets| && v == offsets[i]
    requires forall j :: 0 <= j < i ==> At(result, size + 4 * j, |result|, Fixed32(offsets[j]))
    ensures b == result + Fixed32(v)
    ensures forall j :: 0 <= j <= i ==> At(b, size + 4 * j, |b|, Fixed32(offsets[j]))
  {
    b := result + Fixed32(v);
    forall j | 0 <= j < i ensures At(b, size + 4 * j, |b|, Fixed32(offsets[j])) {
      Longer(result, size + 4 * j, Fixed32(offsets[j]), b);
    }
  }

  lemma Longer(a: Bytes, p: nat, part: Bytes, b: Bytes)
    requires At(a, p, |a|, part) && a <= b
    ensures At(b, p, |b|, part)
  {
    assert b[p..p + |part|] == a[p..p + |part|];
  }

  // ---------- What the block holds ----------

  /** `contents` is the filter block of `groups`: filters up to `size`, then their offsets. */
  ghost predicate IsFilterBlock(hash: Hash, bitsPerKey: nat, contents: Bytes, size: nat, offsets: seq<nat>, groups: seq<seq<Bytes>>) {
    && size < TWO_32 && |contents| == size + 4 * |offsets| + 5
    && contents[|contents| - 1] == BASE_LG
    && At(contents, size + 4 * |offsets|, |contents|, Fixed32(size))
    && (forall j :: 0 <= j < |offsets| ==> At(contents, size + 4 * j, |contents|, Fixed32(offsets[j])))
    && FiltersLaid(hash, bitsPerKey, contents[..size], offsets, groups)
  }

  lemma BlockIsWhole(hash: Hash, bitsPerKey: nat, filters: Bytes, result: Bytes, contents: Bytes, offsets: seq<nat>, groups: seq<seq<Bytes>>)
    requires FiltersLaid(hash, bitsPerKey, filters, offsets, groups)
    requires filters <= result && |result| == |filters| + 4 * |offsets| && |filters| < TWO_32
    requires forall j :: 0 <= j < |offsets| ==> At(result, |filters| + 4 * j, |result|, Fixed32(offsets[j]))
    requires contents == result + Fixed32(|filters|) + [BASE_LG]
    ensures IsFilterBlock(hash, bitsPerKey, contents, |filters|, offsets, groups)
  {
    forall j | 0 <= j < |offsets| ensures At(contents, |filters| + 4 * j, |contents|, Fixed32(offsets[j])) {
      Longer(result, |filters| + 4 * j, Fixed32(offsets[j]), contents);
    }
    assert contents[..|filters|] == filters;
    assert contents[|result|..|result| + 4] == Fixed32(|filters|);
  }

  // ---------- Reader ----------

  /** The answer of filter number `index`: by its keys, yes when there is no such filter. */
  ghost predicate FilterSays(hash: Hash, bitsPerKey: nat, groups: seq<seq<Bytes>>, index: nat, key: Bytes) {
    index < |groups| ==> KeyMatches(hash, bitsPerKey, groups[index], key)
  }

  /** There are keys, and each probe of `key` is also a probe of one of them. */
  ghost predicate KeyMatches(hash: Hash, bitsPerKey: nat, keys: seq<Bytes>, key: Bytes) {
    keys != [] && forall j :: 0 <= j < ProbeCount(bitsPerKey) ==> ProbeShared(hash, bitsPerKey, keys, key, j)
  }

  ghost predicate ProbeShared(hash: Hash, bitsPerKey: nat, keys: seq<Bytes>, key: Bytes, j: nat) {
    var bits := 8 * ArrayBytes(|keys|, bitsPerKey);
    Probed(hash, keys, bits, ProbeCount(bitsPerKey), Position(hash, key, bits, j))
  }

  lemma AnswerOfFilter(hash: Hash, bitsPerKey: nat, keys: seq<Bytes>, f: Bytes, key: Bytes)
    requires FilterOf(hash, bitsPerKey, keys, f)
    ensures Matches(hash, f, key) <==> KeyMatches(hash, bitsPerKey, keys, key)
  {
    if keys != [] {
      FilterAnswers(hash, bitsPerKey, keys, f, key);
      assert 8 * (|f| - 1) == 8 * ArrayBytes(|keys|, bitsPerKey);
      var bits, k := 8 * (|f| - 1), ProbeCount(bitsPerKey);
      forall j | 0 <= j < k
        ensures ProbeShared(hash, bitsPerKey, keys, key, j) <==> Probed(hash, keys, bits, k, Position(hash, key, bits, j))
      {
      }
    }
  }

  /** A key of a group matches its filter. */
  lemma NoFalseNegatives(hash: Hash, bitsPerKey: nat, groups: seq<seq<Bytes>>, index: nat, key: Bytes)
    requires index < |groups| ==> key in groups[index]
    ensures FilterSays(hash, bitsPerKey, groups, index, key)
  {
    if index < |groups| {
      var keys := groups[index];
      var i :| 0 <= i < |keys| && keys[i] == key;
      forall j | 0 <= j < ProbeCount(bitsPerKey) ensures ProbeShared(hash, bitsPerKey, keys, key, j) {
        assert Position(hash, keys[i], 8 * ArrayBytes(|keys|, bitsPerKey), j) == Position(hash, key, 8 * ArrayBytes(|keys|, bitsPerKey), j);
      }
    }
  }

  lemma OffsetsAreRead(hash: Hash, bitsPerKey: nat, contents: Bytes, size: nat, offsets: seq<nat>, groups: seq<seq<Bytes>>, index: nat)
      returns (end: nat)
    requires IsFilterBlock(hash, bitsPerKey, contents, size, offsets, groups) && index < |offsets|
    ensures GetFixed32(contents, size + index * 4) == offsets[index]
    ensures GetFixed32(contents, size + index * 4 + 4) == end
    ensures offsets[index] <= end <= size
    ensures FilterOf(hash, bitsPerKey, groups[index], contents[offsets[index]..end])
  {
    end := EndOf(size, offsets, index);
    var filters := contents[..size];
    assert FilterLaid(hash, bitsPerKey, filters, offsets, index, groups[index]);
    assert filters[offsets[index]..end] == contents[offsets[index]..end];
    Fixed32IsRead(contents, size + 4 * index, offsets[index]);
    assert At(contents, size + 4 * (index + 1), |contents|, Fixed32(end));
    Fixed32IsRead(contents, size + 4 * (index + 1), end);
  }

  function Quotient(a: nat, b: nat): nat
    requires b > 0
  {
    a / b
  }

  class FilterBlockReader {
    const hash: Hash
    const contents: Bytes
    const offset: nat
    const num: nat
    const baseLg: nat
    /** What the contents were made from. */
    ghost const bitsPerKey: nat
    ghost const size: nat
    ghost const offsets: seq<nat>
    ghost const groups: seq<seq<Bytes>>

    ghost predicate Valid() {
      && (num > 0 ==> offset + 4 * num + 5 <= |contents|)
      && (Whole() ==> offset == size && num == |offsets| && baseLg == BASE_LG as nat)
    }

    ghost predicate Whole() {
      IsFilterBlock(hash, bitsPerKey, contents, size, offsets, groups)
    }

    /** The bytes of filter number `index` are there and refuse the key, or there are none. */
    ghost predicate SaysNo(index: nat, key: Bytes)
      requires Valid() && index < num
    {
      var start, limit := GetFixed32(contents, offset + index * 4), GetFixed32(contents, offset + index * 4 + 4);
      start == limit || (start <= limit <= offset && !Matches(hash, contents[start..limit], key))
    }

    /** Malformed contents leave a reader without filters. */
    constructor (hash: Hash, contents: Bytes, ghost bitsPerKey: nat, ghost size: nat, ghost offsets: seq<nat>, ghost groups: seq<seq<Bytes>>)
      ensures Valid() && this.hash == hash && this.contents == contents
      ensures this.bitsPerKey == bitsPerKey && this.size == size && this.offsets == offsets && this.groups == groups
    {
      this.hash, this.contents := hash, contents;
      this.bitsPerKey, this.size, this.offsets, this.groups := bitsPerKey, size, offsets, groups;
      offset, num, baseLg := 0, 0, 0;
      var n := |contents|;
      if n >= 5 {
        baseLg := contents[n - 1] as nat;
        var lastWord := GetFixed32(contents, n - 5);
        if lastWord <= n - 5 {
          offset := lastWord;
          num := (n - 5 - lastWord) / 4;
        }
      }
      if IsFilterBlock(hash, bitsPerKey, contents, size, offsets, groups) {
        Fixed32IsRead(contents, size + 4 * |offsets|, size);
      }
    }

    /** Errors are treated as potential matches: whatever the contents, no is said only for a filter that says so. */
    method KeyMayMatch(blockOffset: nat, key: Bytes) returns (r: bool)
      requires Valid()
      ensures Whole() ==> r == FilterSays(hash, bitsPerKey, groups, blockOffset / BASE, key)
      ensures !r ==> Index(blockOffset) < num && SaysNo(Index(blockOffset), key)
    {
      hide SaysNo, IsFilterBlock, KeyMatches, Index;
      var index := Index(blockOffset);
      WholeIndex(blockOffset);
      r := true;
      if index < num {
        r := AskFilter(index, key);
        if Whole() {
          WholeAnswers(index, key);
        }
      }
    }

    function Index(blockOffset: nat): nat {
      Quotient(blockOffset, Power2(baseLg))
    }

    lemma WholeIndex(blockOffset: nat)
      requires Valid()
      ensures Whole() ==> Index(blockOffset) == blockOffset / BASE && num == |groups|
    {
      BaseIsPower();
    }

    method AskFilter(index: nat, key: Bytes) returns (r: bool)
      requires Valid() && index < num
      ensures r <==> !SaysNo(index, key)
    {
      hide GetFixed32, IsFilterBlock;
      r := true;
      var start := GetFixed32(contents, offset + index * 4);
      var limit := GetFixed32(contents, offset + index * 4 + 4);
      if start <= limit && limit <= offset {
        r := Blooms.KeyMayMatch(hash, key, contents[start..limit]);
        assert start == limit ==> contents[start..limit] == [];
      } else if start == limit {
        r := false;
      }
    }

    lemma WholeAnswers(index: nat, key: Bytes)
      requires Valid() && Whole() && index < num
      ensures index < |groups| && (SaysNo(index, key) <==> !KeyMatches(hash, bitsPerKey, groups[index], key))
    {
      hide Matches, KeyMatches, FilterOf, GetFixed32;
      var end := OffsetsAreRead(hash, bitsPerKey, contents, size, offsets, groups, index);
      AnswerOfFilter(hash, bitsPerKey, groups[index], contents[offsets[index]..end], key);
      NothingMatchesNothing(key);
      assert offsets[index] == end ==> contents[offsets[index]..end] == [];
    }

    lemma NothingMatchesNothing(key: Bytes)
      ensures !Matches(hash, [], key)
    {
    }
  }

  lemma BaseIsPower()
    ensures Power2(BASE_LG as nat) == BASE
  {
    assert Power2(11) == 8 * Power2(8) && Power2(8) == 8 * Power2(5) && Power2(5) == 32;
  }
}
