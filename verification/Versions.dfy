/** Table files, versions and the layered point lookup (db/version_set.cc).

    A file's metadata and its contents are one immutable value here: a table is never changed
    after it is built, and `smallest`/`largest` are the keys of its first and last entries. */
module Versions {
  import opened Keys
  import opened Reads

  const NUM_LEVELS: nat := 7

  /** FileMetaData, together with the contents of the table it describes. */
  datatype File = File(number: nat, size: nat, smallest: IKey, largest: IKey, entries: seq<Entry>) {

    /** `smallest` and `largest` are the first and last keys of a non-empty sorted table. */
    predicate Ok() {
      && entries != [] && Sorted(entries)
      && smallest == entries[0].key && largest == entries[|entries| - 1].key
    }

    /** The file's user-key range meets [lo, hi]; None is unbounded. */
    predicate Overlaps(lo: Option<UserKey>, hi: Option<UserKey>) {
      && (lo.Some? ==> lo.value <= largest.user)
      && (hi.Some? ==> smallest.user <= hi.value)
    }
  }

  lemma EntryWithin(f: File, e: Entry)
    requires f.Ok() && e in f.entries
    ensures AtMost(f.smallest, e.key) && AtMost(e.key, f.largest)
    ensures f.smallest.user <= e.key.user <= f.largest.user
  {
    var i :| 0 <= i < |f.entries| && f.entries[i] == e;
  }

  lemma OkIsOrdered(f: File)
    requires f.Ok()
    ensures AtMost(f.smallest, f.largest)
  {
  }

  // ---------- The logical structure of a version: seven sets of files ----------

  type Levels = seq<set<File>>

  ghost predicate Apart(f: File, g: File) {
    Less(f.largest, g.smallest) || Less(g.largest, f.smallest)
  }

  /** Every entry of `f` is newer than every entry of `g` for the same user key. */
  ghost predicate NewerFile(f: File, g: File) {
    forall a, b :: a in f.entries && b in g.entries && a.key.user == b.key.user ==> a.key.sn > b.key.sn
  }

  ghost predicate FilesOk(ls: Levels) {
    |ls| == NUM_LEVELS && forall l, f :: 0 <= l < NUM_LEVELS && f in ls[l] ==> f.Ok()
  }

  /** Levels 1 and up hold files with disjoint internal-key ranges. */
  ghost predicate LevelsApart(ls: Levels)
    requires |ls| == NUM_LEVELS
  {
    forall l, f, g :: 1 <= l < NUM_LEVELS && f in ls[l] && g in ls[l] && f != g ==> Apart(f, g)
  }

  /** A shallower place holds newer entries for the same key; within level 0 the file number
      decides. */
  ghost predicate Layered(ls: Levels)
    requires |ls| == NUM_LEVELS
  {
    && (forall l, m, f, g :: 0 <= l < m < NUM_LEVELS && f in ls[l] && g in ls[m] ==> NewerFile(f, g))
    && (forall f, g :: f in ls[0] && g in ls[0] && f.number > g.number ==> NewerFile(f, g))
    && (forall f, g :: f in ls[0] && g in ls[0] && f.number == g.number ==> f == g)
  }

  ghost predicate WellFormed(ls: Levels) {
    FilesOk(ls) && LevelsApart(ls) && Layered(ls)
  }

  ghost function Entries(ls: Levels): set<Entry> {
    set l, f, e | 0 <= l < |ls| && f in ls[l] && e in f.entries :: e
  }

  // ---------- The representation: seven sequences of files ----------

  predicate SortedDisjoint(files: seq<File>) {
    && (forall i :: 0 <= i < |files| ==> AtMost(files[i].smallest, files[i].largest))
    && (forall i, j :: 0 <= i < j < |files| ==> Less(files[i].largest, files[j].smallest))
  }

  lemma SortedDisjointOrder(files: seq<File>, i: nat, j: nat)
    requires SortedDisjoint(files) && i < j < |files|
    ensures Less(files[i].largest, files[j].largest) && Less(files[i].smallest, files[j].smallest)
    ensures files[i].largest.user <= files[j].smallest.user
  {
  }

  /** FindFile: the first file whose largest key is at or after `key`, by binary search. */
  method FindFile(files: seq<File>, key: IKey) returns (index: nat)
    requires SortedDisjoint(files)
    ensures index <= |files|
    ensures forall i :: 0 <= i < index ==> Less(files[i].largest, key)
    ensures forall i :: index <= i < |files| ==> AtMost(key, files[i].largest)
  {
    var left, right := 0, |files|;
    while left < right
      invariant 0 <= left <= right <= |files|
      invariant forall i :: 0 <= i < left ==> Less(files[i].largest, key)
      invariant forall i :: right <= i < |files| ==> AtMost(key, files[i].largest)
    {
      var mid := (left + right) / 2;
      forall i | 0 <= i < |files| && i != mid
        ensures i < mid ==> Less(files[i].largest, files[mid].largest)
        ensures i > mid ==> Less(files[mid].largest, files[i].largest)
      {
        if i < mid { SortedDisjointOrder(files, i, mid); } else { SortedDisjointOrder(files, mid, i); }
      }
      if Less(files[mid].largest, key) {
        left := mid + 1;
      } else {
        right := mid;
      }
    }
    index := right;
  }

  /** SomeFileOverlapsRange: linear over level 0, binary search over a disjoint level. */
  method SomeFileOverlapsRange(disjoint: bool, files: seq<File>, lo: Option<UserKey>, hi: Option<UserKey>)
    returns (b: bool)
    requires forall f :: f in files ==> f.largest.sn <= MAX_SEQUENCE
    requires disjoint ==> SortedDisjoint(files)
    requires lo.Some? && hi.Some? ==> lo.value <= hi.value
    ensures b <==> exists f :: f in files && f.Overlaps(lo, hi)
  {
    if !disjoint {
      for i := 0 to |files|
        invariant forall j :: 0 <= j < i ==> !files[j].Overlaps(lo, hi)
      {
        var f := files[i];
        if (lo.Some? && lo.value > f.largest.user) || (hi.Some? && hi.value < f.smallest.user) {
        } else {
          assert f in files && f.Overlaps(lo, hi);
          return true;
        }
      }
      return false;
    }
    var index := 0;
    if lo.Some? {
      index := FindFile(files, LookupKey(lo.value, MAX_SEQUENCE));
      forall i | 0 <= i < |files| ensures i < index <==> files[i].largest.user < lo.value {
        assert files[i] in files;
      }
    }
    if index >= |files| {
      return false;
    }
    b := !(hi.Some? && hi.value < files[index].smallest.user);
    forall i | index < i < |files| ensures files[index].smallest.user <= files[i].smallest.user {
      SortedDisjointOrder(files, index, i);
    }
    assert files[index] in files;
  }

  /** TableCache::Get with SaveValue, and MemTable::Get: the entry found by seeking, if it
      carries the wanted user key. */
  method SearchSorted(es: seq<Entry>, u: UserKey, s: nat) returns (r: Option<Entry>)
    requires Sorted(es)
    ensures r.Some? ==> Hit(EntrySet(es), u, s, r.value)
    ensures r.None? ==> forall e :: e in es ==> !Visible(e, u, s)
  {
    var i := SeekIndex(es, LookupKey(u, s));
    if i < |es| && es[i].key.user == u {
      r := Some(es[i]);
    } else {
      r := None;
    }
  }

  predicate NewestFirst(files: seq<File>) {
    forall i, j :: 0 <= i < j < |files| ==> files[i].number > files[j].number
  }

  function InsertNewest(sorted: seq<File>, f: File): (r: seq<File>)
    requires NewestFirst(sorted) && forall g :: g in sorted ==> g.number != f.number
    ensures NewestFirst(r) && forall g :: g in r <==> g == f || g in sorted
  {
    if sorted == [] || f.number > sorted[0].number then [f] + sorted
    else
      var rest := InsertNewest(sorted[1..], f);
      NewestInFront(sorted[0], rest);
      [sorted[0]] + rest
  }

  lemma NewestInFront(f: File, rest: seq<File>)
    ensures NewestFirst(rest) && (forall g :: g in rest ==> f.number > g.number) ==> NewestFirst([f] + rest)
  {
    forall i | 0 <= i < |rest| ensures rest[i] in rest {
    }
  }

  /** std::sort with NewestFirst. */
  method SortNewestFirst(files: seq<File>) returns (sorted: seq<File>)
    requires forall i, j :: 0 <= i < j < |files| ==> files[i].number != files[j].number
    ensures NewestFirst(sorted) && forall g :: g in sorted <==> g in files
  {
    sorted := [];
    for n := 0 to |files|
      invariant NewestFirst(sorted) && forall g :: g in sorted <==> g in files[..n]
    {
      assert files[..n + 1] == files[..n] + [files[n]];
      sorted := InsertNewest(sorted, files[n]);
    }
    assert files[..|files|] == files;
  }

  datatype Version = Version(files: seq<seq<File>>) {

    ghost function View(): Levels {
      seq(|files|, l requires 0 <= l < |files| => set f | f in files[l])
    }

    ghost predicate Valid() {
      && |files| == NUM_LEVELS
      && WellFormed(View())
      && (forall l :: 1 <= l < NUM_LEVELS ==> SortedDisjoint(files[l]))
      && (forall i, j :: 0 <= i < j < |files[0]| ==> files[0][i] != files[0][j])
    }

    /** `e` was found in file `f` of `level`; nothing searched before holds a visible entry. */
    lemma FirstFoundIsNewest(level: nat, f: File, u: UserKey, s: nat, e: Entry)
      requires Valid() && level < NUM_LEVELS && f in files[level]
      requires Hit(EntrySet(f.entries), u, s, e)
      requires forall l, g, x :: 0 <= l < level && g in files[l] && x in g.entries ==> !Visible(x, u, s)
      requires level == 0 ==> forall g, x :: g in files[0] && g.number > f.number && x in g.entries ==> !Visible(x, u, s)
      requires level > 0 ==> AtMost(LookupKey(u, s), f.largest)
      requires level > 0 ==> forall g :: g in files[level] && Less(g.largest, f.smallest) ==> Less(g.largest, LookupKey(u, s))
      ensures Hit(Entries(View()), u, s, e)
    {
      var ls := View();
      assert f in ls[level];
      forall x | x in Entries(ls) && Visible(x, u, s) ensures x.key.sn <= e.key.sn {
        var l: nat, g: File :| l < |ls| && g in ls[l] && x in g.entries;
        assert g in files[l];
        if l > level {
          assert NewerFile(f, g);
        } else if g == f {
          assert x in EntrySet(f.entries);
        } else if level == 0 {
          assert g.number != f.number;
          assert NewerFile(f, g);
        } else {
          assert Apart(f, g);
          EntryWithin(g, x);
          EntryWithin(f, e);
        }
      }
    }

    lemma FileIsOk(level: nat, f: File)
      requires Valid() && level < NUM_LEVELS && f in files[level]
      ensures f.Ok()
    {
      assert f in View()[level];
    }

    /** Nothing in the levels above `level` is visible. */
    ghost predicate ClearAbove(level: nat, u: UserKey, s: nat) {
      level <= |files| && forall l, g, x :: 0 <= l < level && g in files[l] && x in g.entries ==> !Visible(x, u, s)
    }

    /** Get's turn at one level. */
    method SearchLevel(level: nat, u: UserKey, s: nat) returns (found: Option<Entry>)
      requires Valid() && level < NUM_LEVELS && ClearAbove(level, u, s)
      ensures if found.Some? then Hit(Entries(View()), u, s, found.value) else ClearAbove(level + 1, u, s)
    {
      var candidates := CandidateFiles(level, u, s);
      var i := 0;
      while i < |candidates|
        invariant i <= |candidates|
        invariant forall j, x :: 0 <= j < i && x in candidates[j].entries ==> !Visible(x, u, s)
      {
        var f := candidates[i];
        FileIsOk(level, f);
        found := SearchSorted(f.entries, u, s);
        if found.Some? {
          FirstFoundIsNewest(level, f, u, s, found.value);
          return;
        }
        i := i + 1;
      }
      found := None;
    }

    lemma NothingVisible(u: UserKey, s: nat)
      requires Valid() && ClearAbove(NUM_LEVELS, u, s)
      ensures Read(Entries(View()), u, s) == NotFound
    {
      var ls := View();
      forall x | x in Entries(ls) ensures !Visible(x, u, s) {
        var l: nat, g: File :| l < |ls| && g in ls[l] && x in g.entries;
        assert g in files[l];
      }
      ReadWithoutHit(Entries(ls), u, s);
    }

    /** Version::Get: level 0 newest file first, then one file per level. */
    method Get(u: UserKey, s: nat) returns (r: Answer)
      requires Valid() && Distinct(Entries(View()))
      ensures r == Read(Entries(View()), u, s)
    {
      var level := 0;
      while level < NUM_LEVELS
        invariant level <= NUM_LEVELS && ClearAbove(level, u, s)
      {
        var found := SearchLevel(level, u, s);
        if found.Some? {
          ReadAtHit(Entries(View()), u, s, found.value);
          return AnswerOf(found.value);
        }
        level := level + 1;
      }
      NothingVisible(u, s);
      r := NotFound;
    }

    /** The files of one level that Get searches, in search order.  When none of them holds a
        visible entry of `u`, the whole level holds none. */
    method CandidateFiles(level: nat, u: UserKey, s: nat) returns (r: seq<File>)
      requires Valid() && level < NUM_LEVELS
      ensures forall f :: f in r ==> f in files[level]
      ensures (forall f, x :: f in r && x in f.entries ==> !Visible(x, u, s)) ==>
                forall g, x :: g in files[level] && x in g.entries ==> !Visible(x, u, s)
      ensures level == 0 ==> NewestFirst(r)
      ensures level == 0 ==> forall g, x :: g in files[0] && g !in r && x in g.entries ==> x.key.user != u
      ensures level > 0 ==> |r| <= 1
      ensures level > 0 && |r| == 1 ==> AtMost(LookupKey(u, s), r[0].largest)
      ensures level > 0 && |r| == 1 ==>
        forall g :: g in files[level] && Less(g.largest, r[0].smallest) ==> Less(g.largest, LookupKey(u, s))
    {
      assert forall g :: g in files[level] <==> g in View()[level];
      if level == 0 {
        r := OverlappingLevel0(u);
      } else {
        var index := FindFile(files[level], LookupKey(u, s));
        r := [];
        if index < |files[level]| && !(u < files[level][index].smallest.user) {
          r := [files[level][index]];
        }
        NoCandidateNoEntry(level, index, u, s, r);
      }
    }

    method OverlappingLevel0(u: UserKey) returns (r: seq<File>)
      requires Valid()
      ensures forall f :: f in r ==> f in files[0]
      ensures NewestFirst(r)
      ensures forall g, x :: g in files[0] && g !in r && x in g.entries ==> x.key.user != u
    {
      assert forall g :: g in files[0] <==> g in View()[0];
      var tmp := [];
      for i := 0 to |files[0]|
        invariant forall j :: 0 <= j < |tmp| ==> tmp[j] in files[0][..i]
        invariant forall j, k :: 0 <= j < k < |tmp| ==> tmp[j] != tmp[k]
        invariant forall j :: 0 <= j < i && files[0][j] !in tmp ==>
          !(files[0][j].smallest.user <= u <= files[0][j].largest.user)
      {
        var f := files[0][i];
        if u >= f.smallest.user && u <= f.largest.user {
          tmp := tmp + [f];
        }
        assert files[0][..i + 1] == files[0][..i] + [f];
      }
      forall i, j | 0 <= i < j < |tmp| ensures tmp[i].number != tmp[j].number {
        assert tmp[i] in View()[0] && tmp[j] in View()[0];
      }
      r := SortNewestFirst(tmp);
      forall g, x | g in files[0] && g !in r && x in g.entries ensures x.key.user != u {
        EntryWithin(g, x);
      }
    }

    lemma NoCandidateNoEntry(level: nat, index: nat, u: UserKey, s: nat, r: seq<File>)
      requires Valid() && 1 <= level < NUM_LEVELS && index <= |files[level]|
      requires forall i :: 0 <= i < index ==> Less(files[level][i].largest, LookupKey(u, s))
      requires forall i :: index <= i < |files[level]| ==> AtMost(LookupKey(u, s), files[level][i].largest)
      requires r == if index < |files[level]| && !(u < files[level][index].smallest.user)
                    then [files[level][index]] else []
      ensures (forall f, x :: f in r && x in f.entries ==> !Visible(x, u, s)) ==>
                forall g, x :: g in files[level] && x in g.entries ==> !Visible(x, u, s)
      ensures |r| == 1 ==>
        forall g :: g in files[level] && Less(g.largest, r[0].smallest) ==> Less(g.largest, LookupKey(u, s))
    {
      var fs := files[level];
      assert SortedDisjoint(fs);
      forall g | g in fs ensures g.Ok() {
        assert g in View()[level];
      }
      forall g | |r| == 1 && g in fs && Less(g.largest, r[0].smallest) ensures Less(g.largest, LookupKey(u, s)) {
        var i :| 0 <= i < |fs| && fs[i] == g;
        if i >= index {
          if i > index { SortedDisjointOrder(fs, index, i); }
        }
      }
      if forall f, x :: f in r && x in f.entries ==> !Visible(x, u, s) {
        forall g, x | g in fs && x in g.entries ensures !Visible(x, u, s) {
          var i :| 0 <= i < |fs| && fs[i] == g;
          EntryWithin(g, x);
          if i >= index {
            assert fs[index] in fs;
            if r != [] {
              var last := fs[index].entries[|fs[index].entries| - 1];
              assert fs[index] in r && last in fs[index].entries && !Visible(last, u, s);
              assert u < fs[index].largest.user;
            }
            if i > index {
              SortedDisjointOrder(fs, index, i);
            }
          }
        }
      }
    }
  }
}
