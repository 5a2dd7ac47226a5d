/** Choosing the files of a compaction and the level of a flush (db/version_set.cc). */
module Inputs {
  import opened Keys
  import opened Reads
  import opened Versions

  const MAX_MEM_COMPACT_LEVEL: nat := 2

  function TotalFileSize(files: seq<File>): nat {
    if files == [] then 0 else files[0].size + TotalFileSize(files[1..])
  }

  // ---------- Files overlapping a user-key range ----------

  /** The files that meet [lo, hi], in order. */
  function Overlapping(files: seq<File>, lo: Option<UserKey>, hi: Option<UserKey>): seq<File> {
    if files == [] then []
    else
      var n := |files| - 1;
      Overlapping(files[..n], lo, hi) + if files[n].Overlaps(lo, hi) then [files[n]] else []
  }

  lemma {:induction false} OverlappingMembers(files: seq<File>, lo: Option<UserKey>, hi: Option<UserKey>)
    ensures forall f :: f in Overlapping(files, lo, hi) <==> f in files && f.Overlaps(lo, hi)
  {
    if files != [] {
      var n := |files| - 1;
      OverlappingMembers(files[..n], lo, hi);
      assert files == files[..n] + [files[n]];
    }
  }

  predicate Within(f: File, lo: Option<UserKey>, hi: Option<UserKey>) {
    && (lo.Some? ==> lo.value <= f.smallest.user)
    && (hi.Some? ==> f.largest.user <= hi.value)
  }

  /** Every file that meets the range lies inside it. */
  ghost predicate Closed(files: seq<File>, lo: Option<UserKey>, hi: Option<UserKey>) {
    forall f :: f in files && f.Overlaps(lo, hi) ==> Within(f, lo, hi)
  }

  /** [lo, hi] contains [b, e]. */
  predicate Contains(lo: Option<UserKey>, hi: Option<UserKey>, b: Option<UserKey>, e: Option<UserKey>) {
    && (lo.Some? ==> b.Some? && lo.value <= b.value)
    && (hi.Some? ==> e.Some? && e.value <= hi.value)
  }

  /** How many files still stick out of the range: what the restarting loop uses up. */
  function StickingOut(files: seq<File>, lo: Option<UserKey>, hi: Option<UserKey>): nat {
    if files == [] then 0
    else
      (if lo.Some? && files[0].smallest.user < lo.value then 1 else 0)
      + (if hi.Some? && files[0].largest.user > hi.value then 1 else 0)
      + StickingOut(files[1..], lo, hi)
  }

  lemma {:induction false} WideningUsesUp(files: seq<File>, lo: Option<UserKey>, hi: Option<UserKey>,
                                          lo': Option<UserKey>, hi': Option<UserKey>)
    requires Contains(lo', hi', lo, hi) && lo.Some? == lo'.Some? && hi.Some? == hi'.Some?
    ensures StickingOut(files, lo', hi') <= StickingOut(files, lo, hi)
    ensures forall f :: f in files && ((lo.Some? && lo'.value <= f.smallest.user < lo.value)
                                       || (hi.Some? && hi.value < f.largest.user <= hi'.value)) ==>
              StickingOut(files, lo', hi') < StickingOut(files, lo, hi)
  {
    if files != [] {
      WideningUsesUp(files[1..], lo, hi, lo', hi');
      forall f | f in files && ((lo.Some? && lo'.value <= f.smallest.user < lo.value)
                                || (hi.Some? && hi.value < f.largest.user <= hi'.value))
        ensures StickingOut(files, lo', hi') < StickingOut(files, lo, hi)
      {
        assert f == files[0] || f in files[1..];
      }
    }
  }

  function UserOf(k: Option<IKey>): Option<UserKey> {
    if k.Some? then Some(k.value.user) else None
  }

  lemma OverlappingSnoc(files: seq<File>, i: nat, lo: Option<UserKey>, hi: Option<UserKey>)
    requires i < |files|
    ensures Overlapping(files[..i + 1], lo, hi) ==
            Overlapping(files[..i], lo, hi) + if files[i].Overlaps(lo, hi) then [files[i]] else []
  {
    assert files[..i + 1][..i] == files[..i];
  }

  /** Every closed range around [b, e] contains [lo, hi]. */
  ghost predicate InEveryClosed(files: seq<File>, b: Option<UserKey>, e: Option<UserKey>,
                                lo: Option<UserKey>, hi: Option<UserKey>) {
    forall lo', hi' :: Closed(files, lo', hi') && Contains(lo', hi', b, e) ==> Contains(lo', hi', lo, hi)
  }

  lemma WideningStaysLeast(files: seq<File>, b: Option<UserKey>, e: Option<UserKey>,
                           lo: Option<UserKey>, hi: Option<UserKey>, f: File)
    requires InEveryClosed(files, b, e, lo, hi) && f in files && f.Overlaps(lo, hi)
    ensures InEveryClosed(files, b, e, Some(f.smallest.user), hi)
    ensures InEveryClosed(files, b, e, lo, Some(f.largest.user))
  {
    forall lo', hi' | Closed(files, lo', hi') && Contains(lo', hi', b, e)
      ensures Contains(lo', hi', Some(f.smallest.user), hi) && Contains(lo', hi', lo, Some(f.largest.user))
    {
      assert Contains(lo', hi', lo, hi);
      assert f.Overlaps(lo', hi');
    }
  }

  lemma WideningProgresses(files: seq<File>, lo: Option<UserKey>, hi: Option<UserKey>, f: File)
    requires f in files
    ensures lo.Some? && f.smallest.user < lo.value ==>
              StickingOut(files, Some(f.smallest.user), hi) < StickingOut(files, lo, hi)
    ensures hi.Some? && hi.value < f.largest.user ==>
              StickingOut(files, lo, Some(f.largest.user)) < StickingOut(files, lo, hi)
  {
    if lo.Some? && f.smallest.user < lo.value {
      WideningUsesUp(files, lo, hi, Some(f.smallest.user), hi);
    }
    if hi.Some? && hi.value < f.largest.user {
      WideningUsesUp(files, lo, hi, lo, Some(f.largest.user));
    }
  }

  /** Version::GetOverlappingInputs.  On level 0 every newly met file may widen the range, and
      the scan restarts; the range it stops at is the least closed one around [begin, end]. */
  method GetOverlappingInputs(files: seq<File>, level: nat, begin: Option<IKey>, end: Option<IKey>)
    returns (inputs: seq<File>, ghost lo: Option<UserKey>, ghost hi: Option<UserKey>)
    ensures inputs == Overlapping(files, lo, hi)
    ensures level > 0 ==> lo == UserOf(begin) && hi == UserOf(end)
    ensures level == 0 ==> Closed(files, lo, hi) && Contains(lo, hi, UserOf(begin), UserOf(end))
    ensures level == 0 ==> InEveryClosed(files, UserOf(begin), UserOf(end), lo, hi)
    ensures lo.Some? == begin.Some? && hi.Some? == end.Some?
    ensures level > 0 ==> inputs == Overlapping(files, UserOf(begin), UserOf(end))
    ensures level == 0 ==> forall f :: f in files && f.Overlaps(UserOf(begin), UserOf(end)) ==> f in inputs
  {
    inputs := [];
    var userBegin, userEnd := UserOf(begin), UserOf(end);
    var i := 0;
    while i < |files|
      invariant i <= |files|
      invariant inputs == Overlapping(files[..i], userBegin, userEnd)
      invariant level > 0 ==> userBegin == UserOf(begin) && userEnd == UserOf(end)
      invariant userBegin.Some? == begin.Some? && userEnd.Some? == end.Some?
      invariant level == 0 ==> forall j :: 0 <= j < i && files[j].Overlaps(userBegin, userEnd) ==>
        Within(files[j], userBegin, userEnd)
      invariant Contains(userBegin, userEnd, UserOf(begin), UserOf(end))
      invariant InEveryClosed(files, UserOf(begin), UserOf(end), userBegin, userEnd)
      decreases StickingOut(files, userBegin, userEnd), |files| - i
    {
      OverlappingSnoc(files, i, userBegin, userEnd);
      var f := files[i];
      i := i + 1;
      if userBegin.Some? && f.largest.user < userBegin.value {
      } else if userEnd.Some? && f.smallest.user > userEnd.value {
      } else {
        inputs := inputs + [f];
        if level == 0 {
          WideningProgresses(files, userBegin, userEnd, f);
          WideningStaysLeast(files, UserOf(begin), UserOf(end), userBegin, userEnd, f);
          if userBegin.Some? && f.smallest.user < userBegin.value {
            userBegin := Some(f.smallest.user);
            inputs := [];
            i := 0;
          } else if userEnd.Some? && f.largest.user > userEnd.value {
            userEnd := Some(f.largest.user);
            inputs := [];
            i := 0;
          }
        }
      }
    }
    assert files[..|files|] == files;
    lo, hi := userBegin, userEnd;
    OverlappingMembers(files, lo, hi);
  }

  // ---------- Key ranges of a set of files ----------

  /** `smallest` and `largest` are the extreme keys of the files. */
  ghost predicate IsRange(files: seq<File>, smallest: IKey, largest: IKey) {
    && (exists f :: f in files && f.smallest == smallest)
    && (exists f :: f in files && f.largest == largest)
    && (forall f :: f in files ==> AtMost(smallest, f.smallest) && AtMost(f.largest, largest))
  }

  /** VersionSet::GetRange. */
  method GetRange(inputs: seq<File>) returns (smallest: IKey, largest: IKey)
    requires inputs != []
    ensures IsRange(inputs, smallest, largest)
  {
    smallest, largest := inputs[0].smallest, inputs[0].largest;
    ghost var first, last := 0, 0;
    for i := 1 to |inputs|
      invariant 0 <= first < |inputs| && 0 <= last < |inputs|
      invariant smallest == inputs[first].smallest && largest == inputs[last].largest
      invariant forall j :: 0 <= j < i ==> AtMost(smallest, inputs[j].smallest)
      invariant forall j :: 0 <= j < i ==> AtMost(inputs[j].largest, largest)
    {
      var f := inputs[i];
      if Less(f.smallest, smallest) {
        smallest := f.smallest;
        first := i;
      }
      if Less(largest, f.largest) {
        largest := f.largest;
        last := i;
      }
    }
    assert inputs[first] in inputs && inputs[last] in inputs;
  }

  /** VersionSet::GetRange2. */
  method GetRange2(inputs1: seq<File>, inputs2: seq<File>) returns (smallest: IKey, largest: IKey)
    requires inputs1 != []
    ensures IsRange(inputs1 + inputs2, smallest, largest)
  {
    smallest, largest := GetRange(inputs1 + inputs2);
  }

  // ---------- Boundary files ----------

  /** `f` starts after `largest` but with the same user key: it holds older entries of it. */
  predicate IsBoundary(f: File, largest: IKey) {
    Less(largest, f.smallest) && f.smallest.user == largest.user
  }

  /** FindSmallestBoundaryFile. */
  method FindSmallestBoundaryFile(levelFiles: seq<File>, largest: IKey) returns (r: Option<File>)
    ensures r.Some? ==> r.value in levelFiles && IsBoundary(r.value, largest)
    ensures r.Some? ==> forall f :: f in levelFiles && IsBoundary(f, largest) ==> AtMost(r.value.smallest, f.smallest)
    ensures r.None? ==> forall f :: f in levelFiles ==> !IsBoundary(f, largest)
  {
    r := None;
    for i := 0 to |levelFiles|
      invariant r.Some? ==> r.value in levelFiles && IsBoundary(r.value, largest)
      invariant r.Some? ==> forall j :: 0 <= j < i && IsBoundary(levelFiles[j], largest) ==>
        AtMost(r.value.smallest, levelFiles[j].smallest)
      invariant r.None? ==> forall j :: 0 <= j < i ==> !IsBoundary(levelFiles[j], largest)
    {
      var f := levelFiles[i];
      if Less(largest, f.smallest) && f.smallest.user == largest.user {
        if r.None? || Less(f.smallest, r.value.smallest) {
          r := Some(f);
        }
      }
    }
  }

  function FilesBeyond(files: seq<File>, k: IKey): nat {
    if files == [] then 0
    else (if Less(k, files[0].largest) then 1 else 0) + FilesBeyond(files[1..], k)
  }

  lemma {:induction false} AdvancingUsesUp(files: seq<File>, k: IKey, k': IKey)
    requires Less(k, k')
    ensures FilesBeyond(files, k') <= FilesBeyond(files, k)
    ensures (exists f :: f in files && f.largest == k') ==> FilesBeyond(files, k') < FilesBeyond(files, k)
  {
    if files != [] {
      AdvancingUsesUp(files[1..], k, k');
      if f :| f in files && f.largest == k' {
        assert f == files[0] || f in files[1..];
      }
    }
  }

  /** The extreme keys of a slice of a disjoint level sit at its two ends. */
  lemma SliceRange(files: seq<File>, a: nat, b: nat, smallest: IKey, largest: IKey)
    requires SortedDisjoint(files) && a < b <= |files| && IsRange(files[a..b], smallest, largest)
    ensures smallest == files[a].smallest && largest == files[b - 1].largest
  {
    var part := files[a..b];
    assert files[a] in part by { assert part[0] == files[a]; }
    assert files[b - 1] in part by { assert part[b - 1 - a] == files[b - 1]; }
    var g :| g in part && g.smallest == smallest;
    var f :| f in part && f.largest == largest;
    SliceEnds(files, a, b, f);
    SliceEnds(files, a, b, g);
    CompareIsTotalOrder(f.largest, files[b - 1].largest, f.largest);
    CompareIsTotalOrder(g.smallest, files[a].smallest, g.smallest);
  }

  lemma SliceEnds(files: seq<File>, a: nat, b: nat, f: File)
    requires SortedDisjoint(files) && a < b <= |files| && f in files[a..b]
    ensures AtMost(f.largest, files[b - 1].largest) && AtMost(files[a].smallest, f.smallest)
  {
    var n :| a <= n < b && files[n] == f;
    if n < b - 1 {
      SortedDisjointOrder(files, n, b - 1);
    }
    if a < n {
      SortedDisjointOrder(files, a, n);
    }
  }

  /** The next boundary file of a slice of a disjoint level is the file right after it. */
  lemma BoundaryIsNextFile(files: seq<File>, b: nat, n: nat)
    requires SortedDisjoint(files) && 0 < b <= |files| && n < |files|
    requires IsBoundary(files[n], files[b - 1].largest)
    requires b < |files| && IsBoundary(files[b], files[b - 1].largest) ==> AtMost(files[n].smallest, files[b].smallest)
    ensures n == b
  {
  }

  /** `largest` is the greatest of the files' largest keys. */
  ghost predicate Attained(files: seq<File>, largest: IKey) {
    && (exists f :: f in files && f.largest == largest)
    && (forall f :: f in files ==> AtMost(f.largest, largest))
  }

  lemma AttainedIsUnique(files: seq<File>, l: IKey, largest: IKey)
    requires Attained(files, l) && Attained(files, largest)
    ensures l == largest
  {
    var f :| f in files && f.largest == l;
    var g :| g in files && g.largest == largest;
    CompareIsTotalOrder(l, largest, l);
  }

  lemma BoundaryAdvances(levelFiles: seq<File>, r: seq<File>, largest: IKey, f: File)
    requires Attained(r, largest) && f in levelFiles && IsBoundary(f, largest) && AtMost(f.smallest, f.largest)
    ensures Attained(r + [f], f.largest)
    ensures FilesBeyond(levelFiles, f.largest) < FilesBeyond(levelFiles, largest)
  {
    AdvancingUsesUp(levelFiles, largest, f.largest);
    assert (r + [f])[|r|] == f;
    forall g | g in r + [f] ensures AtMost(g.largest, f.largest) {
      if g in r { CompareIsTotalOrder(g.largest, largest, f.largest); }
    }
  }

  lemma BoundaryExtendsSlice(files: seq<File>, a: nat, b: nat, f: File)
    requires SortedDisjoint(files) && a < b <= |files| && f in files
    requires IsBoundary(f, files[b - 1].largest)
    requires forall g :: g in files && IsBoundary(g, files[b - 1].largest) ==> AtMost(f.smallest, g.smallest)
    ensures b < |files| && files[a..b] + [f] == files[a..b + 1] && files[b] == f
  {
    var n :| 0 <= n < |files| && files[n] == f;
    BoundaryIsNextFile(files, b, n);
  }

  /** What the search has found so far: `r` extends `given` by files of the level, the first of
      them a boundary file of `given`. */
  ghost predicate Extends(levelFiles: seq<File>, given: seq<File>, r: seq<File>, top0: IKey, largest: IKey) {
    && given <= r && Attained(given, top0) && Attained(r, largest)
    && (forall f :: f in r ==> f in given || f in levelFiles)
    && (r == given || IsBoundary(r[|given|], top0))
  }

  lemma ExtendsNext(levelFiles: seq<File>, given: seq<File>, r: seq<File>, top0: IKey, largest: IKey, f: File)
    requires Extends(levelFiles, given, r, top0, largest)
    requires f in levelFiles && IsBoundary(f, largest) && AtMost(f.smallest, f.largest)
    ensures Extends(levelFiles, given, r + [f], top0, f.largest)
    ensures FilesBeyond(levelFiles, f.largest) < FilesBeyond(levelFiles, largest)
  {
    BoundaryAdvances(levelFiles, r, largest, f);
    if r == given {
      AttainedIsUnique(r, top0, largest);
    }
  }

  /** When the given files are the slice [a, b) of a disjoint level, `r` is the slice [a, b'). */
  ghost predicate SliceState(levelFiles: seq<File>, given: seq<File>, a: nat, b: nat, r: seq<File>, b': nat, largest: IKey) {
    SortedDisjoint(levelFiles) && a < b <= |levelFiles| && given == levelFiles[a..b] ==>
      b <= b' <= |levelFiles| && r == levelFiles[a..b'] && largest == levelFiles[b' - 1].largest
  }

  lemma SliceNext(levelFiles: seq<File>, given: seq<File>, a: nat, b: nat, r: seq<File>, b': nat, largest: IKey, f: File)
    requires SliceState(levelFiles, given, a, b, r, b', largest)
    requires f in levelFiles && IsBoundary(f, largest)
    requires forall g :: g in levelFiles && IsBoundary(g, largest) ==> AtMost(f.smallest, g.smallest)
    ensures SliceState(levelFiles, given, a, b, r + [f], b' + 1, f.largest)
  {
    if SortedDisjoint(levelFiles) && a < b <= |levelFiles| && given == levelFiles[a..b] {
      BoundaryExtendsSlice(levelFiles, a, b', f);
    }
  }

  ghost predicate BoundaryState(levelFiles: seq<File>, given: seq<File>, a: nat, b: nat, r: seq<File>, b': nat,
                                top0: IKey, largest: IKey) {
    Extends(levelFiles, given, r, top0, largest) && SliceState(levelFiles, given, a, b, r, b', largest)
  }

  lemma BoundaryNext(levelFiles: seq<File>, given: seq<File>, a: nat, b: nat, r: seq<File>, b': nat,
                     top0: IKey, largest: IKey, f: File)
    requires BoundaryState(levelFiles, given, a, b, r, b', top0, largest)
    requires f in levelFiles && IsBoundary(f, largest) && AtMost(f.smallest, f.largest)
    requires forall g :: g in levelFiles && IsBoundary(g, largest) ==> AtMost(f.smallest, g.smallest)
    ensures BoundaryState(levelFiles, given, a, b, r + [f], b' + 1, top0, f.largest)
    ensures FilesBeyond(levelFiles, f.largest) < FilesBeyond(levelFiles, largest)
  {
    ExtendsNext(levelFiles, given, r, top0, largest, f);
    SliceNext(levelFiles, given, a, b, r, b', largest, f);
  }

  /** AddBoundaryInputs: keep adding the file that continues the last user key.  `top` is the
      largest key of the result, `top0` that of the files given. */
  method AddBoundaryInputs(levelFiles: seq<File>, compactionFiles: seq<File>, ghost a: nat, ghost b: nat)
    returns (r: seq<File>, ghost b': nat, ghost top0: IKey, ghost top: IKey)
    requires forall f :: f in levelFiles ==> AtMost(f.smallest, f.largest)
    ensures compactionFiles == [] ==> r == []
    ensures compactionFiles != [] ==> Extends(levelFiles, compactionFiles, r, top0, top)
    ensures compactionFiles != [] ==> forall f :: f in levelFiles ==> !IsBoundary(f, top)
    ensures compactionFiles != [] ==> SliceState(levelFiles, compactionFiles, a, b, r, b', top)
    ensures BoundaryChain(r, |compactionFiles|)
  {
    r, b', top0 := compactionFiles, b, IKey(0.0, 0, Deletion);
    top := top0;
    if r == [] { return; }
    var smallest, largest := GetRange(r);
    top0 := largest;
    if SortedDisjoint(levelFiles) && a < b <= |levelFiles| && compactionFiles == levelFiles[a..b] {
      SliceRange(levelFiles, a, b, smallest, largest);
    }
    r, b', top := FollowBoundary(levelFiles, compactionFiles, a, b, largest);
  }

  /** The loop of AddBoundaryInputs. */
  method FollowBoundary(levelFiles: seq<File>, compactionFiles: seq<File>, ghost a: nat, ghost b: nat, largestKey: IKey)
    returns (r: seq<File>, ghost b': nat, ghost top: IKey)
    requires forall f :: f in levelFiles ==> AtMost(f.smallest, f.largest)
    requires BoundaryState(levelFiles, compactionFiles, a, b, compactionFiles, b, largestKey, largestKey)
    ensures BoundaryState(levelFiles, compactionFiles, a, b, r, b', largestKey, top)
    ensures forall f :: f in levelFiles ==> !IsBoundary(f, top)
    ensures BoundaryChain(r, |compactionFiles|)
  {
    r, b' := compactionFiles, b;
    var largest := largestKey;
    var searching := true;
    while searching
      invariant BoundaryState(levelFiles, compactionFiles, a, b, r, b', largestKey, largest)
      invariant BoundaryChain(r, |compactionFiles|)
      invariant !searching ==> forall f :: f in levelFiles ==> !IsBoundary(f, largest)
      decreases FilesBeyond(levelFiles, largest), searching
    {
      var next := FindSmallestBoundaryFile(levelFiles, largest);
      if next.Some? {
        BoundaryNext(levelFiles, compactionFiles, a, b, r, b', largestKey, largest, next.value);
        ChainGrows(r, |compactionFiles|, largest, next.value);
        r := r + [next.value];
        b' := b' + 1;
        largest := next.value.largest;
      } else {
        searching := false;
      }
    }
    top := largest;
  }

  // ---------- The inputs of a compaction ----------

  ghost function FileSet(files: seq<File>): set<File> {
    set f | f in files
  }

  /** What input selection establishes for the inputs of `level` (in0) and `level + 1` (in1):
      nothing older than an input stays behind in `level`, and in1 is exactly the files of
      `level + 1` that meet the user-key hull of in0. */
  ghost predicate Selected(ls: Levels, level: nat, in0: set<File>, in1: set<File>)
    requires |ls| == NUM_LEVELS && level + 1 < NUM_LEVELS
  {
    && in0 != {} && in0 <= ls[level]
    && (forall f, g :: f in ls[level] && f !in in0 && g in in0 ==> NewerFile(f, g))
    && MeetsHull(ls[level + 1], in0, in1)
  }

  ghost predicate MeetsHull(files1: set<File>, in0: set<File>, in1: set<File>) {
    exists smallest, largest :: Hull(in0, smallest, largest) && in1 == Meeting(files1, smallest, largest)
  }

  ghost function Meeting(files1: set<File>, smallest: IKey, largest: IKey): set<File> {
    set f | f in files1 && f.Overlaps(Some(smallest.user), Some(largest.user))
  }

  ghost predicate Hull(files: set<File>, smallest: IKey, largest: IKey) {
    && (exists f :: f in files && f.smallest == smallest)
    && (exists f :: f in files && f.largest == largest)
    && (forall f :: f in files ==> AtMost(smallest, f.smallest) && AtMost(f.largest, largest))
  }

  // ---------- Selections without gaps ----------

  predicate HasKey(f: File, u: UserKey) {
    f.smallest.user <= u <= f.largest.user
  }

  ghost predicate CoveredAt(fs: set<File>, u: UserKey) {
    exists f :: f in fs && HasKey(f, u)
  }

  /** No user key of [lo, hi] lies outside all files. */
  ghost predicate Covers(fs: set<File>, lo: UserKey, hi: UserKey) {
    forall u :: lo <= u <= hi ==> CoveredAt(fs, u)
  }

  /** Between the inputs of `level` there is no room for a file that meets no input. */
  ghost predicate Gapless(in0: set<File>, in1: set<File>) {
    forall f, g :: f in in0 && g in in0 ==> Covers(in0 + in1, f.smallest.user, g.largest.user)
  }

  /** Some file of the levels up to `top` has the key in its range. */
  ghost predicate KeyWithin(ls: Levels, top: nat, u: UserKey) {
    exists l, f :: 0 <= l <= top && l < |ls| && f in ls[l] && HasKey(f, u)
  }

  ghost predicate KeysWithin(ls: Levels, top: nat, lo: UserKey, hi: UserKey) {
    forall u :: lo <= u <= hi ==> KeyWithin(ls, top, u)
  }

  /** Between the inputs of `level` a flushed table finds no room in `level + 1`. */
  ghost predicate NoRoomBetween(ls: Levels, level: nat, in0: set<File>) {
    level + 1 <= MAX_MEM_COMPACT_LEVEL ==>
      forall f, g :: f in in0 && g in in0 ==> KeysWithin(ls, level + 1, f.smallest.user, g.largest.user)
  }

  lemma CoveredByMore(fs: set<File>, more: set<File>, lo: UserKey, hi: UserKey)
    requires Covers(fs, lo, hi) && fs <= more
    ensures Covers(more, lo, hi)
  {
    forall u | lo <= u <= hi ensures CoveredAt(more, u) {
      assert CoveredAt(fs, u);
    }
  }

  lemma GaplessWithMore(in0: set<File>, in1: set<File>, more: set<File>)
    requires Gapless(in0, in1) && in1 <= more
    ensures Gapless(in0, more)
  {
    forall f, g | f in in0 && g in in0 ensures Covers(in0 + more, f.smallest.user, g.largest.user) {
      CoveredByMore(in0 + in1, in0 + more, f.smallest.user, g.largest.user);
    }
  }

  lemma OneFileIsGapless(f: File)
    ensures Gapless({f}, {})
  {
    forall u | f.smallest.user <= u <= f.largest.user ensures CoveredAt({f} + {}, u) {
      assert HasKey(f, u);
    }
  }

  /** Files that all meet a covered range leave no gap. */
  lemma MeetingIsGapless(in0: set<File>, in1: set<File>, lo: UserKey, hi: UserKey)
    requires Covers(in0 + in1, lo, hi) && forall f :: f in in0 ==> f.Overlaps(Some(lo), Some(hi))
    ensures Gapless(in0, in1)
  {
    forall f, g, u | f in in0 && g in in0 && f.smallest.user <= u <= g.largest.user ensures CoveredAt(in0 + in1, u) {
      if u < lo {
        assert HasKey(f, u);
      } else if hi < u {
        assert HasKey(g, u);
      }
    }
  }

  /** A file that begins with the last user key leaves no gap. */
  lemma BoundaryIsGapless(in0: set<File>, in1: set<File>, largest: IKey, f: File)
    requires Gapless(in0, in1) && (exists g :: g in in0 && g.largest == largest)
    requires (forall g :: g in in0 ==> AtMost(g.largest, largest)) && f.smallest.user == largest.user <= f.largest.user
    ensures Gapless(in0 + {f}, in1)
  {
    var last :| last in in0 && last.largest == largest;
    var all := in0 + {f} + in1;
    forall x, y, u | x in in0 + {f} && y in in0 + {f} && x.smallest.user <= u <= y.largest.user ensures CoveredAt(all, u) {
      if x in in0 && u <= largest.user {
        assert Covers(in0 + in1, x.smallest.user, last.largest.user);
        assert CoveredAt(in0 + in1, u);
      } else {
        assert HasKey(f, u);
      }
    }
  }

  /** From file `n` on, each file begins with the last user key of those before it. */
  ghost predicate BoundaryChain(r: seq<File>, n: nat) {
    n <= |r| && forall k: nat :: n <= k < |r| ==> ChainedAt(r, k)
  }

  ghost predicate ChainedAt(r: seq<File>, k: nat)
    requires k < |r|
  {
    exists largest :: Attained(r[..k], largest) && r[k].smallest.user == largest.user <= r[k].largest.user
  }

  lemma ChainGrows(r: seq<File>, n: nat, largest: IKey, f: File)
    requires BoundaryChain(r, n) && Attained(r, largest) && f.smallest.user == largest.user <= f.largest.user
    ensures BoundaryChain(r + [f], n)
  {
    var r' := r + [f];
    forall k: nat | n <= k < |r'| ensures ChainedAt(r', k) {
      if k < |r| {
        assert ChainedAt(r, k) && r'[..k] == r[..k];
      } else {
        assert r'[..k] == r;
      }
    }
  }

  lemma AttainedInSet(files: seq<File>, largest: IKey)
    requires Attained(files, largest)
    ensures exists g :: g in FileSet(files) && g.largest == largest
    ensures forall g :: g in FileSet(files) ==> AtMost(g.largest, largest)
  {
    var g :| g in files && g.largest == largest;
    assert g in FileSet(files);
  }

  lemma {:induction false} ChainIsGapless(r: seq<File>, n: nat, in1: set<File>)
    requires BoundaryChain(r, n) && Gapless(FileSet(r[..n]), in1)
    ensures Gapless(FileSet(r), in1)
    decreases |r|
  {
    if n == |r| {
      assert r[..n] == r;
    } else {
      hide Gapless, Attained;
      var k := |r| - 1;
      var init := r[..k];
      forall j: nat | n <= j < k ensures ChainedAt(init, j) {
        assert ChainedAt(r, j) && init[..j] == r[..j];
      }
      assert init[..n] == r[..n];
      ChainIsGapless(init, n, in1);
      assert ChainedAt(r, k);
      var largest :| Attained(init, largest) && r[k].smallest.user == largest.user <= r[k].largest.user;
      AttainedInSet(init, largest);
      BoundaryIsGapless(FileSet(init), in1, largest, r[k]);
      assert r == init + [r[k]];
      assert FileSet(r) == FileSet(init) + {r[k]};
    }
  }

  // ---------- The least closed range has no gap ----------

  /** The greatest end below `u`, but not below `e`. */
  function EndBelow(files: seq<File>, e: UserKey, u: UserKey): (h: UserKey)
    requires e < u
    ensures e <= h < u
    ensures forall f :: f in files && f.largest.user < u ==> f.largest.user <= h
  {
    if files == [] then e
    else
      var h := EndBelow(files[1..], e, u);
      if h < files[0].largest.user < u then files[0].largest.user else h
  }

  /** The least beginning above `u`, but not above `b`. */
  function StartAbove(files: seq<File>, b: UserKey, u: UserKey): (h: UserKey)
    requires u < b
    ensures u < h <= b
    ensures forall f :: f in files && u < f.smallest.user ==> h <= f.smallest.user
  {
    if files == [] then b
    else
      var h := StartAbove(files[1..], b, u);
      if u < files[0].smallest.user < h then files[0].smallest.user else h
  }

  /** A user key in no file would split the least closed range. */
  lemma LeastClosedIsCovered(files: seq<File>, in1: set<File>, b: UserKey, e: UserKey, lo: UserKey, hi: UserKey)
    requires forall f :: f in files ==> f.smallest.user <= f.largest.user
    requires b <= e && Contains(Some(lo), Some(hi), Some(b), Some(e))
    requires Closed(files, Some(lo), Some(hi)) && InEveryClosed(files, Some(b), Some(e), Some(lo), Some(hi))
    requires Covers(FileSet(files) + in1, b, e)
    ensures Covers(FileSet(files) + in1, lo, hi)
  {
    forall u | lo <= u <= hi ensures CoveredAt(FileSet(files) + in1, u) {
      if u < b {
        NoSplitBelow(files, in1, b, e, lo, hi, u);
      } else if e < u {
        NoSplitAbove(files, in1, b, e, lo, hi, u);
      }
    }
  }

  lemma NoSplitAbove(files: seq<File>, in1: set<File>, b: UserKey, e: UserKey, lo: UserKey, hi: UserKey, u: UserKey)
    requires Closed(files, Some(lo), Some(hi)) && InEveryClosed(files, Some(b), Some(e), Some(lo), Some(hi))
    requires lo <= b <= e < u <= hi
    ensures CoveredAt(FileSet(files) + in1, u)
  {
    var h := EndBelow(files, e, u);
    if forall f :: f in files ==> !HasKey(f, u) {
      assert Closed(files, Some(lo), Some(h));
      assert Contains(Some(lo), Some(h), Some(b), Some(e));
    } else {
      var f :| f in files && HasKey(f, u);
      assert f in FileSet(files) + in1;
    }
  }

  lemma NoSplitBelow(files: seq<File>, in1: set<File>, b: UserKey, e: UserKey, lo: UserKey, hi: UserKey, u: UserKey)
    requires Closed(files, Some(lo), Some(hi)) && InEveryClosed(files, Some(b), Some(e), Some(lo), Some(hi))
    requires lo <= u < b <= e <= hi
    ensures CoveredAt(FileSet(files) + in1, u)
  {
    var h := StartAbove(files, b, u);
    if forall f :: f in files ==> !HasKey(f, u) {
      assert Closed(files, Some(h), Some(hi));
      assert Contains(Some(h), Some(hi), Some(b), Some(e));
    } else {
      var f :| f in files && HasKey(f, u);
      assert f in FileSet(files) + in1;
    }
  }

  /** The inputs of level 0 are all the files meeting some closed range; those of a deeper level
      are a run of consecutive files with no boundary file after it. */
  ghost predicate GoodStart(files: seq<File>, level: nat, inputs: seq<File>, a: nat, b: nat,
                            lo: Option<UserKey>, hi: Option<UserKey>) {
    && inputs != []
    && (level == 0 ==> Closed(files, lo, hi) && inputs == Overlapping(files, lo, hi))
    && (level > 0 ==> a < b <= |files| && inputs == files[a..b])
  }

  /** The user-key ranges of a disjoint level, in order (neighbours may share an end). */
  ghost predicate UserSorted(files: seq<File>) {
    && (forall i :: 0 <= i < |files| ==> files[i].smallest.user <= files[i].largest.user)
    && (forall i, j :: 0 <= i < j < |files| ==> files[i].largest.user <= files[j].smallest.user)
  }

  lemma DisjointIsUserSorted(files: seq<File>)
    requires SortedDisjoint(files)
    ensures UserSorted(files)
  {
  }

  lemma {:induction false} OverlappingRun(files: seq<File>, lo: Option<UserKey>, hi: Option<UserKey>, a: nat, b: nat)
    requires a <= b <= |files|
    requires forall i :: 0 <= i < |files| ==> (files[i].Overlaps(lo, hi) <==> a <= i < b)
    ensures Overlapping(files, lo, hi) == files[a..b]
  {
    if files != [] {
      var n := |files| - 1;
      if a > n {
        OverlappingRun(files[..n], lo, hi, n, n);
      } else if b > n {
        OverlappingRun(files[..n], lo, hi, a, n);
        assert files[..n][a..n] + [files[n]] == files[a..b];
      } else {
        OverlappingRun(files[..n], lo, hi, a, b);
        assert files[..n][a..b] == files[a..b];
      }
    }
  }

  /** The files of a disjoint level that meet a range are consecutive. */
  lemma OverlappingIsSlice(files: seq<File>, lo: Option<UserKey>, hi: Option<UserKey>) returns (a: nat, b: nat)
    requires UserSorted(files)
    ensures a <= b <= |files| && Overlapping(files, lo, hi) == files[a..b]
  {
    a := 0;
    while a < |files| && lo.Some? && files[a].largest.user < lo.value
      invariant a <= |files|
      invariant forall i :: 0 <= i < a ==> lo.Some? && files[i].largest.user < lo.value
    {
      a := a + 1;
    }
    b := a;
    while b < |files| && !(hi.Some? && hi.value < files[b].smallest.user)
      invariant a <= b <= |files|
      invariant forall i :: a <= i < b ==> !(hi.Some? && hi.value < files[i].smallest.user)
    {
      b := b + 1;
    }
    OverlappingRun(files, lo, hi, a, b);
  }

  /** On level 0 a closed selection has no boundary file, so AddBoundaryInputs adds none. */
  lemma ClosedHasNoBoundary(files: seq<File>, inputs: seq<File>, lo: Option<UserKey>, hi: Option<UserKey>,
                            top: IKey, f: File)
    requires Closed(files, lo, hi) && inputs == Overlapping(files, lo, hi)
    requires Attained(inputs, top) && f in files && AtMost(f.smallest, f.largest)
    ensures !IsBoundary(f, top)
  {
    OverlappingMembers(files, lo, hi);
    var g :| g in inputs && g.largest == top;
    assert Within(g, lo, hi) && g.Overlaps(lo, hi);
    assert f.smallest.user == top.user ==> f.Overlaps(lo, hi) && f in inputs && AtMost(f.largest, top);
  }

  /** Level 0: a file left behind shares no user key with an input. */
  lemma NoSharedUser(files: seq<File>, inputs: seq<File>, lo: Option<UserKey>, hi: Option<UserKey>,
                     f: File, g: File, x: Entry, y: Entry)
    requires Closed(files, lo, hi) && inputs == Overlapping(files, lo, hi)
    requires f in files && f !in inputs && g in inputs && x in f.entries && y in g.entries
    requires f.Ok() && g.Ok()
    ensures x.key.user != y.key.user
  {
    OverlappingMembers(files, lo, hi);
    EntryWithin(f, x);
    EntryWithin(g, y);
    assert Within(g, lo, hi);
    assert !f.Overlaps(lo, hi);
  }

  lemma NothingOlderBehindLevel0(files: seq<File>, inputs: seq<File>, lo: Option<UserKey>, hi: Option<UserKey>)
    requires Closed(files, lo, hi) && inputs == Overlapping(files, lo, hi)
    requires forall f :: f in files ==> f.Ok()
    ensures forall f, g :: f in files && f !in inputs && g in inputs ==> NewerFile(f, g)
  {
    OverlappingMembers(files, lo, hi);
    forall f, g, x, y | f in files && f !in inputs && g in inputs && x in f.entries && y in g.entries
      ensures x.key.user != y.key.user
    {
      NoSharedUser(files, inputs, lo, hi, f, g, x, y);
    }
  }

  /** In a disjoint level, a file before a slice is newer than the slice's files, and a file
      after it shares no user key with them unless a boundary file follows the slice. */
  lemma OutsideSliceIsNewer(files: seq<File>, b: nat, n: nat, m: nat, x: Entry, y: Entry)
    requires SortedDisjoint(files) && n < |files| && m < b <= |files|
    requires n < m || n >= b
    requires n >= b ==> !IsBoundary(files[n], files[b - 1].largest)
    requires x in files[n].entries && y in files[m].entries && x.key.user == y.key.user
    requires x.key.sn == y.key.sn ==> x == y
    requires files[n].Ok() && files[m].Ok()
    ensures x.key.sn > y.key.sn
  {
    EntryWithin(files[n], x);
    EntryWithin(files[m], y);
  }

  ghost function Contents(files: seq<File>): set<Entry> {
    set f, e | f in files && e in f.entries :: e
  }

  lemma NothingOlderBehindSlice(files: seq<File>, a: nat, b: nat)
    requires SortedDisjoint(files) && a < b <= |files|
    requires Distinct(Contents(files)) && forall f :: f in files ==> f.Ok()
    requires forall f :: f in files ==> !IsBoundary(f, files[b - 1].largest)
    ensures forall f, g :: f in files && f !in files[a..b] && g in files[a..b] ==> NewerFile(f, g)
  {
    forall f, g | f in files && f !in files[a..b] && g in files[a..b] ensures NewerFile(f, g) {
      var n :| 0 <= n < |files| && files[n] == f;
      var m :| a <= m < b && files[m] == g;
      InSlice(files, a, b);
      OutsideSliceFileIsNewer(files, a, b, n, m);
    }
  }

  lemma InSlice(files: seq<File>, a: nat, b: nat)
    requires a <= b <= |files|
    ensures forall i :: a <= i < b ==> files[i] in files[a..b]
  {
    forall i | a <= i < b ensures files[i] in files[a..b] {
      assert files[a..b][i - a] == files[i];
    }
  }

  lemma OutsideSliceFileIsNewer(files: seq<File>, a: nat, b: nat, n: nat, m: nat)
    requires SortedDisjoint(files) && a < b <= |files|
    requires Distinct(Contents(files)) && forall f :: f in files ==> f.Ok()
    requires forall f :: f in files ==> !IsBoundary(f, files[b - 1].largest)
    requires n < |files| && (n < a || b <= n) && a <= m < b
    ensures NewerFile(files[n], files[m])
  {
    forall x, y | x in files[n].entries && y in files[m].entries && x.key.user == y.key.user ensures x.key.sn > y.key.sn {
      assert x in Contents(files) && y in Contents(files);
      OutsideSliceIsNewer(files, b, n, m, x, y);
    }
  }

  lemma RangeIsHull(files: seq<File>, smallest: IKey, largest: IKey)
    requires IsRange(files, smallest, largest)
    ensures Hull(FileSet(files), smallest, largest)
  {
    var f :| f in files && f.smallest == smallest;
    var g :| g in files && g.largest == largest;
    assert f in FileSet(files) && g in FileSet(files);
  }

  lemma OverlappingMeetsHull(files1: seq<File>, in0: seq<File>, in1: seq<File>, smallest: IKey, largest: IKey)
    requires IsRange(in0, smallest, largest)
    requires in1 == Overlapping(files1, Some(smallest.user), Some(largest.user))
    ensures MeetsHull(FileSet(files1), FileSet(in0), FileSet(in1))
  {
    RangeIsHull(in0, smallest, largest);
    OverlappingMembers(files1, Some(smallest.user), Some(largest.user));
    assert FileSet(in1) == Meeting(FileSet(files1), smallest, largest);
  }

  /** Establishes `Selected` from what one round of boundary search and overlap search gives. */
  lemma SelectedFrom(v: Version, level: nat, in0: seq<File>, in1: seq<File>, a: nat, b: nat,
                     lo: Option<UserKey>, hi: Option<UserKey>, smallest: IKey, largest: IKey)
    requires v.Valid() && Distinct(Entries(v.View())) && level + 1 < NUM_LEVELS
    requires GoodStart(v.files[level], level, in0, a, b, lo, hi)
    requires level > 0 ==> forall f :: f in v.files[level] ==> !IsBoundary(f, v.files[level][b - 1].largest)
    requires IsRange(in0, smallest, largest)
    requires in1 == Overlapping(v.files[level + 1], Some(smallest.user), Some(largest.user))
    ensures Selected(v.View(), level, FileSet(in0), FileSet(in1))
  {
    OverlappingMembers(v.files[level], lo, hi);
    NothingOlderBehind(v, level, in0, a, b, lo, hi);
    assert v.View()[level] == FileSet(v.files[level]) && v.View()[level + 1] == FileSet(v.files[level + 1]);
    SelectedFromParts(v.View(), level, v.files[level], v.files[level + 1], in0, in1, smallest, largest);
  }

  lemma SelectedFromParts(ls: Levels, level: nat, files: seq<File>, files1: seq<File>, in0: seq<File>, in1: seq<File>,
                          smallest: IKey, largest: IKey)
    requires |ls| == NUM_LEVELS && level + 1 < NUM_LEVELS
    requires ls[level] == FileSet(files) && ls[level + 1] == FileSet(files1)
    requires forall f :: f in in0 ==> f in files
    requires forall f, g :: f in files && f !in in0 && g in in0 ==> NewerFile(f, g)
    requires in0 != [] && IsRange(in0, smallest, largest)
    requires in1 == Overlapping(files1, Some(smallest.user), Some(largest.user))
    ensures Selected(ls, level, FileSet(in0), FileSet(in1))
  {
    OverlappingMeetsHull(files1, in0, in1, smallest, largest);
    assert in0[0] in FileSet(in0);
  }

  lemma NothingOlderBehind(v: Version, level: nat, in0: seq<File>, a: nat, b: nat, lo: Option<UserKey>, hi: Option<UserKey>)
    requires v.Valid() && Distinct(Entries(v.View())) && level + 1 < NUM_LEVELS
    requires GoodStart(v.files[level], level, in0, a, b, lo, hi)
    requires level > 0 ==> forall f :: f in v.files[level] ==> !IsBoundary(f, v.files[level][b - 1].largest)
    ensures forall f, g :: f in v.files[level] && f !in in0 && g in in0 ==> NewerFile(f, g)
  {
    var files := v.files[level];
    assert forall f :: f in files ==> f in v.View()[level];
    if level == 0 {
      NothingOlderBehindLevel0(files, in0, lo, hi);
    } else {
      assert Contents(files) <= Entries(v.View());
      NothingOlderBehindSlice(files, a, b);
    }
  }

  /** Boundary search on inputs of either kind keeps them good and leaves no boundary file. */
  method CompleteInputs(files: seq<File>, level: nat, inputs: seq<File>, ghost a: nat, ghost b: nat,
                        ghost lo: Option<UserKey>, ghost hi: Option<UserKey>)
    returns (r: seq<File>, ghost b': nat)
    requires GoodStart(files, level, inputs, a, b, lo, hi) && (level > 0 ==> SortedDisjoint(files))
    requires forall f :: f in files ==> AtMost(f.smallest, f.largest)
    ensures GoodStart(files, level, r, a, b', lo, hi)
    ensures level > 0 ==> forall f :: f in files ==> !IsBoundary(f, files[b' - 1].largest)
    ensures level == 0 ==> r == inputs
    ensures inputs <= r && BoundaryChain(r, |inputs|)
  {
    ghost var top0, top;
    r, b', top0, top := AddBoundaryInputs(files, inputs, a, b);
    if level == 0 && r != inputs {
      assert r[|inputs|] in files by { ClosedExtension(files, inputs, r, lo, hi, top0, top); }
      ClosedHasNoBoundary(files, inputs, lo, hi, top0, r[|inputs|]);
      assert false;
    }
  }

  /** A boundary file of a closed selection would be a file of the level. */
  lemma ClosedExtension(files: seq<File>, inputs: seq<File>, r: seq<File>, lo: Option<UserKey>, hi: Option<UserKey>,
                        top0: IKey, top: IKey)
    requires inputs == Overlapping(files, lo, hi) && Extends(files, inputs, r, top0, top) && r != inputs
    ensures r[|inputs|] in files
  {
    OverlappingMembers(files, lo, hi);
    assert r[|inputs|] in r;
  }

  /** The files of `level + 2` that meet the range of all inputs. */
  function Grandparents(v: Version, level: nat, smallest: IKey, largest: IKey): seq<File>
    requires |v.files| == NUM_LEVELS
  {
    if level + 2 < NUM_LEVELS then Overlapping(v.files[level + 2], Some(smallest.user), Some(largest.user)) else []
  }

  /** `r` is what a range picks up, level 0 widening it to the least closed one, with boundary files behind. */
  ghost predicate WidenedTo(files: seq<File>, level: nat, start: UserKey, limit: UserKey, lo: Option<UserKey>, hi: Option<UserKey>,
                            r: seq<File>) {
    && lo.Some? && hi.Some?
    && (level > 0 ==> lo.value == start && hi.value == limit)
    && (level == 0 ==> Closed(files, lo, hi) && Contains(lo, hi, Some(start), Some(limit))
                       && InEveryClosed(files, Some(start), Some(limit), lo, hi))
    && Overlapping(files, lo, hi) <= r && BoundaryChain(r, |Overlapping(files, lo, hi)|)
  }

  /** The range of all inputs has no gap, nor has what it picks up. */
  lemma WidenedIsGapless(files: seq<File>, level: nat, in0: seq<File>, in1: set<File>, smallest: IKey, largest: IKey,
                         start: IKey, limit: IKey, lo: Option<UserKey>, hi: Option<UserKey>, r: seq<File>)
    requires forall f :: f in files ==> f.smallest.user <= f.largest.user
    requires in0 != [] && (forall f :: f in in0 ==> f in files) && IsRange(in0, smallest, largest) && Gapless(FileSet(in0), in1)
    requires forall f :: f in in1 ==> f.smallest.user <= f.largest.user && f.Overlaps(Some(smallest.user), Some(largest.user))
    requires Hull(FileSet(in0) + in1, start, limit) && WidenedTo(files, level, start.user, limit.user, lo, hi, r)
    ensures Gapless(FileSet(r), in1)
  {
    var o := Overlapping(files, lo, hi);
    var all := FileSet(files) + in1;
    OverlappingMembers(files, lo, hi);
    HullIsCovered(in0, in1, smallest, largest, start, limit);
    CoveredByMore(FileSet(in0) + in1, all, start.user, limit.user);
    assert start.user <= limit.user by { HullIsOrdered(FileSet(in0) + in1, start, limit); }
    if level == 0 {
      LeastClosedIsCovered(files, in1, start.user, limit.user, lo.value, hi.value);
    }
    forall u | lo.value <= u <= hi.value ensures CoveredAt(FileSet(o) + in1, u) {
      assert CoveredAt(all, u);
      var f :| f in all && HasKey(f, u);
      assert f in FileSet(o) + in1;
    }
    MeetingIsGapless(FileSet(o), in1, lo.value, hi.value);
    assert r[..|o|] == o;
    ChainIsGapless(r, |o|, in1);
  }

  lemma HullIsOrdered(fs: set<File>, smallest: IKey, largest: IKey)
    requires Hull(fs, smallest, largest) && forall f :: f in fs ==> f.smallest.user <= f.largest.user
    ensures smallest.user <= largest.user
  {
  }

  lemma HullIsCovered(in0: seq<File>, in1: set<File>, smallest: IKey, largest: IKey, start: IKey, limit: IKey)
    requires IsRange(in0, smallest, largest) && Gapless(FileSet(in0), in1) && Hull(FileSet(in0) + in1, start, limit)
    requires forall f :: f in in1 ==> f.Overlaps(Some(smallest.user), Some(largest.user))
    ensures Covers(FileSet(in0) + in1, start.user, limit.user)
  {
    var all := FileSet(in0) + in1;
    var x :| x in all && x.smallest == start;
    var y :| y in all && y.largest == limit;
    var f :| f in in0 && f.smallest == smallest;
    var g :| g in in0 && g.largest == largest;
    assert f in FileSet(in0) && g in FileSet(in0);
    assert Covers(all, f.smallest.user, g.largest.user);
    forall u | start.user <= u <= limit.user ensures CoveredAt(all, u) {
      if u < smallest.user {
        assert x in in1 && HasKey(x, u);
      } else if largest.user < u {
        assert y in in1 && HasKey(y, u);
      }
    }
  }

  /** The files of `level` that a widened range picks up, completed by boundary files.  An
      empty result stands for a range that meets no file. */
  method WidenInputs(files: seq<File>, level: nat, start: IKey, limit: IKey)
    returns (r: seq<File>, ghost a: nat, ghost b: nat, ghost lo: Option<UserKey>, ghost hi: Option<UserKey>)
    requires level > 0 ==> SortedDisjoint(files)
    requires forall f :: f in files ==> AtMost(f.smallest, f.largest)
    ensures r != [] ==> GoodStart(files, level, r, a, b, lo, hi)
    ensures r != [] && level > 0 ==> forall f :: f in files ==> !IsBoundary(f, files[b - 1].largest)
    ensures r != [] ==> WidenedTo(files, level, start.user, limit.user, lo, hi, r)
  {
    r, lo, hi := GetOverlappingInputs(files, level, Some(start), Some(limit));
    a, b := 0, 0;
    if level > 0 {
      DisjointIsUserSorted(files);
      a, b := OverlappingIsSlice(files, lo, hi);
    }
    if r != [] {
      r, b := CompleteInputs(files, level, r, a, b, lo, hi);
    }
  }

  /** The inputs grown for free: as they were, or with more files in `level`, as many in `level + 1`, and a total that
      stays under 25 times the file size. */
  ghost predicate GrownFrom(given0: seq<File>, given1: seq<File>, in0: seq<File>, in1: seq<File>, maxFileSize: nat) {
    && (forall f :: f in given0 ==> f in in0)
    && ((in0 == given0 && in1 == given1)
        || (|in0| > |given0| && |in1| == |given1| && TotalFileSize(given1) + TotalFileSize(in0) < 25 * maxFileSize))
  }

  lemma GivenStays(v: Version, level: nat, given0: seq<File>, given1: seq<File>, start: IKey, limit: IKey,
                   lo: Option<UserKey>, hi: Option<UserKey>, expanded0: seq<File>)
    requires v.Valid() && level + 1 < NUM_LEVELS && Selected(v.View(), level, FileSet(given0), FileSet(given1))
    requires IsRange(given0 + given1, start, limit)
    requires WidenedTo(v.files[level], level, start.user, limit.user, lo, hi, expanded0)
    ensures forall f :: f in given0 ==> f in expanded0
  {
    GivenIsOfLevel(v, level, given0, given1);
    OverlappingMembers(v.files[level], lo, hi);
    forall f | f in given0 ensures f in expanded0 {
      assert f in given0 + given1;
      assert f in Overlapping(v.files[level], lo, hi);
    }
  }

  /** The second half of SetupOtherInputs: grow the selection in `level` when that costs no
      further file of `level + 1` and the total stays under 25 times the file size. */
  method GrowInputs(v: Version, level: nat, given0: seq<File>, given1: seq<File>, maxFileSize: nat,
                    smallest: IKey, largest: IKey)
    returns (in0: seq<File>, in1: seq<File>, pointer: IKey)
    requires v.Valid() && Distinct(Entries(v.View())) && level + 1 < NUM_LEVELS
    requires Selected(v.View(), level, FileSet(given0), FileSet(given1))
    requires IsRange(given0, smallest, largest)
    requires given1 == Overlapping(v.files[level + 1], Some(smallest.user), Some(largest.user))
    ensures Selected(v.View(), level, FileSet(in0), FileSet(in1))
    ensures Gapless(FileSet(given0), FileSet(given1)) ==> Gapless(FileSet(in0), FileSet(in1))
    ensures Attained(in0, pointer)
    ensures GrownFrom(given0, given1, in0, in1, maxFileSize)
  {
    in0, in1, pointer := given0, given1, largest;
    LevelIsOrdered(v, level);
    var allStart, allLimit := GetRange2(given0, given1);
    var expanded0;
    ghost var a, b, lo, hi;
    expanded0, a, b, lo, hi := WidenInputs(v.files[level], level, allStart, allLimit);
    if |expanded0| > |given0|
       && TotalFileSize(given1) + TotalFileSize(expanded0) < 25 * maxFileSize
    {
      var newStart, newLimit := GetRange(expanded0);
      var expanded1;
      ghost var lo1, hi1;
      expanded1, lo1, hi1 := GetOverlappingInputs(v.files[level + 1], level + 1, Some(newStart), Some(newLimit));
      if |expanded1| == |given1| {
        SelectedFrom(v, level, expanded0, expanded1, a, b, lo, hi, newStart, newLimit);
        if Gapless(FileSet(given0), FileSet(given1)) {
          GivenIsOfLevel(v, level, given0, given1);
          GrownIsGapless(v.files[level], v.files[level + 1], level, given0, given1, smallest, largest, allStart, allLimit,
                         lo, hi, expanded0, expanded1, newStart, newLimit);
        }
        GivenStays(v, level, given0, given1, allStart, allLimit, lo, hi, expanded0);
        in0, in1, pointer := expanded0, expanded1, newLimit;
      }
    }
  }

  lemma GivenIsOfLevel(v: Version, level: nat, given0: seq<File>, given1: seq<File>)
    requires v.Valid() && level + 1 < NUM_LEVELS && Selected(v.View(), level, FileSet(given0), FileSet(given1))
    ensures given0 != [] && (forall f :: f in given0 ==> f in v.files[level])
    ensures forall f :: f in v.files[level] ==> f.smallest.user <= f.largest.user
    ensures forall f :: f in v.files[level + 1] ==> f.smallest.user <= f.largest.user
  {
    LevelIsOrdered(v, level);
    LevelIsOrdered(v, level + 1);
    forall f | f in given0 ensures f in v.files[level] {
      assert f in FileSet(given0);
      assert f in v.View()[level];
    }
    assert FileSet([]) == {};
  }

  /** What the selection grows to leaves no gap if it had none. */
  lemma GrownIsGapless(files: seq<File>, files1: seq<File>, level: nat, given0: seq<File>, given1: seq<File>,
                       smallest: IKey, largest: IKey, start: IKey, limit: IKey, lo: Option<UserKey>, hi: Option<UserKey>,
                       expanded0: seq<File>, expanded1: seq<File>, newStart: IKey, newLimit: IKey)
    requires (forall f :: f in files ==> f.smallest.user <= f.largest.user)
    requires (forall f :: f in files1 ==> f.smallest.user <= f.largest.user)
    requires given0 != [] && (forall f :: f in given0 ==> f in files)
    requires IsRange(given0, smallest, largest) && Gapless(FileSet(given0), FileSet(given1))
    requires given1 == Overlapping(files1, Some(smallest.user), Some(largest.user))
    requires IsRange(given0 + given1, start, limit) && WidenedTo(files, level, start.user, limit.user, lo, hi, expanded0)
    requires IsRange(expanded0, newStart, newLimit)
    requires expanded1 == Overlapping(files1, Some(newStart.user), Some(newLimit.user))
    ensures Gapless(FileSet(expanded0), FileSet(expanded1))
  {
    hide Gapless, WidenedTo, IsRange, Hull;
    OverlappingMembers(files1, Some(smallest.user), Some(largest.user));
    OverlappingMembers(files1, Some(newStart.user), Some(newLimit.user));
    RangeIsHull(given0 + given1, start, limit);
    assert FileSet(given0 + given1) == FileSet(given0) + FileSet(given1);
    WidenedIsGapless(files, level, given0, FileSet(given1), smallest, largest, start, limit, lo, hi, expanded0);
    GivenIsKept(files, given0, given1, smallest, largest, start, limit, lo, hi, expanded0, newStart, newLimit, level);
    assert FileSet(given1) <= FileSet(expanded1);
    GaplessWithMore(FileSet(expanded0), FileSet(given1), FileSet(expanded1));
  }

  /** The widened range takes in the old one. */
  lemma GivenIsKept(files: seq<File>, given0: seq<File>, given1: seq<File>, smallest: IKey, largest: IKey, start: IKey, limit: IKey,
                    lo: Option<UserKey>, hi: Option<UserKey>, expanded0: seq<File>, newStart: IKey, newLimit: IKey, level: nat)
    requires forall f :: f in files ==> f.smallest.user <= f.largest.user
    requires forall f :: f in given0 ==> f in files
    requires IsRange(given0, smallest, largest) && IsRange(given0 + given1, start, limit)
    requires WidenedTo(files, level, start.user, limit.user, lo, hi, expanded0) && IsRange(expanded0, newStart, newLimit)
    ensures newStart.user <= smallest.user && largest.user <= newLimit.user
  {
    OverlappingMembers(files, lo, hi);
    var o := Overlapping(files, lo, hi);
    forall f | f in given0 ensures f in expanded0 {
      assert f in given0 + given1;
      assert f in o;
      var i :| 0 <= i < |o| && o[i] == f;
      assert expanded0[i] == f;
    }
  }

  lemma LevelIsOrdered(v: Version, level: nat)
    requires v.Valid() && level < NUM_LEVELS
    ensures forall f :: f in v.files[level] ==> f.Ok() && AtMost(f.smallest, f.largest)
  {
    forall f | f in v.files[level] ensures f.Ok() && AtMost(f.smallest, f.largest) {
      assert f in v.View()[level];
      OkIsOrdered(f);
    }
  }

  lemma CompletedIsGapless(inputs: seq<File>, in0: seq<File>, in1: set<File>)
    requires inputs <= in0 && BoundaryChain(in0, |inputs|)
    ensures Gapless(FileSet(inputs), {}) ==> Gapless(FileSet(in0), in1)
  {
    hide Gapless, BoundaryChain;
    if Gapless(FileSet(inputs), {}) {
      assert in0[..|inputs|] == inputs;
      ChainIsGapless(in0, |inputs|, {});
      GaplessWithMore(FileSet(in0), {}, in1);
    }
  }

  /** VersionSet::SetupOtherInputs.  `inputs` was picked in `level`; the inputs are completed,
      the overlapping files of `level + 1` are added, and the selection is grown if that is free.
      `pointer` is where the next compaction of the level will start. */
  method SetupOtherInputs(v: Version, level: nat, inputs: seq<File>, maxFileSize: nat,
                          ghost a: nat, ghost b: nat, ghost lo: Option<UserKey>, ghost hi: Option<UserKey>)
    returns (in0: seq<File>, in1: seq<File>, grandparents: seq<File>, pointer: IKey, ghost first0: seq<File>, ghost first1: seq<File>)
    requires v.Valid() && Distinct(Entries(v.View())) && level + 1 < NUM_LEVELS
    requires GoodStart(v.files[level], level, inputs, a, b, lo, hi)
    ensures inputs <= first0 && BoundaryChain(first0, |inputs|) && GrownFrom(first0, first1, in0, in1, maxFileSize)
    ensures Selected(v.View(), level, FileSet(in0), FileSet(in1))
    ensures Gapless(FileSet(inputs), {}) ==> Gapless(FileSet(in0), FileSet(in1))
    ensures Attained(in0, pointer)
    ensures exists s, l :: IsRange(in0 + in1, s, l) && grandparents == Grandparents(v, level, s, l)
  {
    hide Gapless, Selected, FileSet, Attained, Distinct, Entries, GoodStart;
    var smallest, largest;
    in0, in1, smallest, largest := FirstInputs(v, level, inputs, a, b, lo, hi);
    first0, first1 := in0, in1;
    pointer := largest;
    if in1 != [] {
      in0, in1, pointer := GrowInputs(v, level, in0, in1, maxFileSize, smallest, largest);
    }
    NotEmpty(v, level, in0, in1);
    var allStart, allLimit := GetRange2(in0, in1);
    grandparents := [];
    if level + 2 < NUM_LEVELS {
      ghost var glo, ghi;
      grandparents, glo, ghi := GetOverlappingInputs(v.files[level + 2], level + 2, Some(allStart), Some(allLimit));
    }
  }

  lemma NotEmpty(v: Version, level: nat, in0: seq<File>, in1: seq<File>)
    requires v.Valid() && level + 1 < NUM_LEVELS && Selected(v.View(), level, FileSet(in0), FileSet(in1))
    ensures in0 != []
  {
    assert FileSet([]) == {};
  }

  /** The first half of SetupOtherInputs: boundary files of `level`, then what they overlap in `level + 1`. */
  method FirstInputs(v: Version, level: nat, inputs: seq<File>, ghost a: nat, ghost b: nat,
                     ghost lo: Option<UserKey>, ghost hi: Option<UserKey>)
    returns (in0: seq<File>, in1: seq<File>, smallest: IKey, largest: IKey)
    requires v.Valid() && Distinct(Entries(v.View())) && level + 1 < NUM_LEVELS
    requires GoodStart(v.files[level], level, inputs, a, b, lo, hi)
    ensures Selected(v.View(), level, FileSet(in0), FileSet(in1))
    ensures Gapless(FileSet(inputs), {}) ==> Gapless(FileSet(in0), FileSet(in1))
    ensures IsRange(in0, smallest, largest) && Attained(in0, largest)
    ensures in1 == Overlapping(v.files[level + 1], Some(smallest.user), Some(largest.user))
    ensures inputs <= in0 && BoundaryChain(in0, |inputs|)
  {
    hide Gapless, BoundaryChain, Selected, Overlapping, FileSet, Distinct, Entries;
    LevelIsOrdered(v, level);
    ghost var b', glo, ghi;
    in0, b' := CompleteInputs(v.files[level], level, inputs, a, b, lo, hi);
    smallest, largest := GetRange(in0);
    in1, glo, ghi := GetOverlappingInputs(v.files[level + 1], level + 1, Some(smallest), Some(largest));
    SelectedFrom(v, level, in0, in1, a, b', lo, hi, smallest, largest);
    CompletedIsGapless(inputs, in0, FileSet(in1));
  }

  /** What makes a compaction due: too much data in a level, else a file that too many seeks have missed. */
  datatype Due = BySize(level: nat, pointer: Option<IKey>) | BySeeks(level: nat, file: File) | Nothing

  ghost predicate DueOk(v: Version, due: Due)
    requires v.Valid()
  {
    match due
    case BySize(level, _) => level + 1 < NUM_LEVELS && v.files[level] != []
    case BySeeks(level, f) => level + 1 < NUM_LEVELS && f in v.files[level]
    case Nothing => true
  }

  predicate IsBehind(f: File, pointer: Option<IKey>) {
    pointer.None? || Less(pointer.value, f.largest)
  }

  /** File `i` is the first behind the compaction pointer, or the first of the level when there is none. */
  ghost predicate IsNext(files: seq<File>, pointer: Option<IKey>, i: nat) {
    && i < |files|
    && (forall j :: 0 <= j < i ==> !IsBehind(files[j], pointer))
    && (IsBehind(files[i], pointer) || (i == 0 && forall j :: 0 <= j < |files| ==> !IsBehind(files[j], pointer)))
  }

  /** VersionSet::PickCompaction: the first file past the compaction pointer, or the first file of the level; or the
      file that seeks have singled out; on level 0 everything it overlaps. */
  method PickCompaction(v: Version, due: Due, maxFileSize: nat)
    returns (picked: bool, in0: seq<File>, in1: seq<File>, grandparents: seq<File>, pointer: IKey)
    requires v.Valid() && Distinct(Entries(v.View())) && DueOk(v, due)
    ensures picked <==> !due.Nothing?
    ensures picked ==> Selected(v.View(), due.level, FileSet(in0), FileSet(in1)) && Gapless(FileSet(in0), FileSet(in1))
    ensures picked ==> Attained(in0, pointer)
    ensures due.BySeeks? ==> due.file in in0
    ensures due.BySize? ==> exists i: nat :: IsNext(v.files[due.level], due.pointer, i) && v.files[due.level][i] in in0
  {
    in0, in1, grandparents, pointer := [], [], [], IKey(0.0, 0, Deletion);
    if due.Nothing? {
      picked := false;
      return;
    }
    var level := due.level;
    var files := v.files[level];
    var i := 0;
    if due.BySize? {
      while i < |files| && !(due.pointer.None? || Less(due.pointer.value, files[i].largest))
        invariant i <= |files| && forall j :: 0 <= j < i ==> !IsBehind(files[j], due.pointer)
      {
        i := i + 1;
      }
      if i == |files| {
        i := 0;
      }
      assert IsNext(files, due.pointer, i);
    } else {
      i :| 0 <= i < |files| && files[i] == due.file;
    }
    picked := true;
    in0, in1, grandparents, pointer := StartWith(v, level, i, maxFileSize);
  }

  lemma PrefixIsIn(part: seq<File>, whole: seq<File>, f: File)
    requires part <= whole && f in part
    ensures f in whole
  {
    var i :| 0 <= i < |part| && part[i] == f;
    assert whole[i] == f;
  }

  /** The rest of PickCompaction: the inputs grown from one file. */
  method StartWith(v: Version, level: nat, i: nat, maxFileSize: nat)
    returns (in0: seq<File>, in1: seq<File>, grandparents: seq<File>, pointer: IKey)
    requires v.Valid() && Distinct(Entries(v.View())) && level + 1 < NUM_LEVELS && i < |v.files[level]|
    ensures Selected(v.View(), level, FileSet(in0), FileSet(in1)) && Gapless(FileSet(in0), FileSet(in1))
    ensures Attained(in0, pointer) && v.files[level][i] in in0
  {
    var files := v.files[level];
    var inputs := [files[i]];
    LevelIsOrdered(v, level);
    ghost var lo, hi := None, None;
    OneFileIsGapless(files[i]);
    assert FileSet(inputs) == {files[i]};
    if level == 0 {
      var smallest, largest := GetRange(inputs);
      inputs, lo, hi := GetOverlappingInputs(files, 0, Some(smallest), Some(largest));
      assert files[i] in inputs by { RangeOfOne(files[i], smallest, largest, files, lo, hi); }
      ClosureIsGapless(files, files[i], lo.value, hi.value);
    }
    ghost var first0, first1;
    in0, in1, grandparents, pointer, first0, first1 := SetupOtherInputs(v, level, inputs, maxFileSize, i, i + 1, lo, hi);
    PrefixIsIn(inputs, first0, files[i]);
  }

  /** What one file of level 0 overlaps, and what that overlaps, has no gap. */
  lemma ClosureIsGapless(files: seq<File>, f: File, lo: UserKey, hi: UserKey)
    requires (forall g :: g in files ==> AtMost(g.smallest, g.largest)) && f in files
    requires Closed(files, Some(lo), Some(hi)) && Contains(Some(lo), Some(hi), Some(f.smallest.user), Some(f.largest.user))
    requires InEveryClosed(files, Some(f.smallest.user), Some(f.largest.user), Some(lo), Some(hi))
    ensures Gapless(FileSet(Overlapping(files, Some(lo), Some(hi))), {})
  {
    var o := FileSet(Overlapping(files, Some(lo), Some(hi)));
    OverlappingMembers(files, Some(lo), Some(hi));
    forall u | f.smallest.user <= u <= f.largest.user ensures CoveredAt(FileSet(files) + {}, u) {
      assert f in FileSet(files) + {} && HasKey(f, u);
    }
    LeastClosedIsCovered(files, {}, f.smallest.user, f.largest.user, lo, hi);
    forall u | lo <= u <= hi ensures CoveredAt(o + {}, u) {
      assert CoveredAt(FileSet(files) + {}, u);
      var g :| g in FileSet(files) + {} && HasKey(g, u);
      assert g in o + {};
    }
    MeetingIsGapless(o, {}, lo, hi);
  }

  lemma RangeOfOne(f: File, smallest: IKey, largest: IKey, files: seq<File>, lo: Option<UserKey>, hi: Option<UserKey>)
    requires f in files && IsRange([f], smallest, largest) && AtMost(f.smallest, f.largest)
    requires Contains(lo, hi, Some(smallest.user), Some(largest.user))
    ensures f in Overlapping(files, lo, hi)
  {
    OverlappingMembers(files, lo, hi);
  }

  /** Of the files met, in order, those up to the first at which the sizes reach the limit. */
  ghost predicate CutAtLimit(met: seq<File>, maxFileSize: nat, chosen: seq<File>) {
    && chosen <= met
    && forall j :: 0 <= j < |met| ==> (j < |chosen| <==> j == 0 || TotalFileSize(met[..j]) < maxFileSize)
  }

  lemma {:induction false} SizesGrow(files: seq<File>, i: nat, j: nat)
    requires i <= j <= |files|
    ensures TotalFileSize(files[..i]) <= TotalFileSize(files[..j])
  {
    if i > 0 {
      assert files[..i][1..] == files[1..][..i - 1] && files[..j][1..] == files[1..][..j - 1];
      SizesGrow(files[1..], i - 1, j - 1);
    }
  }

  lemma {:induction false} OneMoreSize(files: seq<File>, i: nat)
    requires i < |files|
    ensures TotalFileSize(files[..i + 1]) == TotalFileSize(files[..i]) + files[i].size
  {
    if i > 0 {
      assert files[..i + 1][1..] == files[1..][..i] && files[..i][1..] == files[1..][..i - 1];
      OneMoreSize(files[1..], i - 1);
    } else {
      assert files[..1] == [files[0]] && [files[0]][1..] == [];
    }
  }

  /** The loop that truncates a manual range. */
  method CutToLimit(met: seq<File>, maxFileSize: nat) returns (chosen: seq<File>)
    requires met != []
    ensures CutAtLimit(met, maxFileSize, chosen) && chosen != []
  {
    var total := 0;
    for i := 0 to |met|
      invariant total == TotalFileSize(met[..i])
      invariant forall j :: 0 < j <= i ==> TotalFileSize(met[..j]) < maxFileSize
    {
      OneMoreSize(met, i);
      total := total + met[i].size;
      if total >= maxFileSize {
        forall j | i < j < |met| ensures TotalFileSize(met[..j]) >= maxFileSize {
          SizesGrow(met, i + 1, j);
        }
        return met[..i + 1];
      }
    }
    chosen := met;
  }

  lemma FirstIsIn(files: seq<File>)
    ensures files != [] ==> files[0] in files
  {
  }

  /** A range that no file meets is closed, and stays as it is. */
  lemma NothingMet(files: seq<File>, b: Option<UserKey>, e: Option<UserKey>, lo: Option<UserKey>, hi: Option<UserKey>)
    requires InEveryClosed(files, b, e, lo, hi) && Overlapping(files, b, e) == []
    requires lo.Some? == b.Some? && hi.Some? == e.Some?
    ensures Overlapping(files, lo, hi) == []
  {
    OverlappingMembers(files, b, e);
    OverlappingMembers(files, lo, hi);
    forall f | f in files ensures !f.Overlaps(lo, hi) {
      assert !(f in Overlapping(files, b, e));
      assert Closed(files, b, e);
    }
    FirstIsIn(Overlapping(files, lo, hi));
  }

  /** VersionSet::CompactRange (a manual compaction): every file that meets the range, but beyond level 0 no more of them
      than reach the file size limit; boundary files and what growing for free adds come on top.  `chosen` is what the
      selection starts from, `first0` and `first1` what it is before it grows. */
  method CompactRange(v: Version, level: nat, begin: Option<IKey>, end: Option<IKey>, maxFileSize: nat)
    returns (found: bool, in0: seq<File>, in1: seq<File>, ghost chosen: seq<File>, ghost first0: seq<File>, ghost first1: seq<File>)
    requires v.Valid() && Distinct(Entries(v.View())) && level + 1 < NUM_LEVELS
    ensures found <==> exists f :: f in v.files[level] && f.Overlaps(UserOf(begin), UserOf(end))
    ensures found ==> Selected(v.View(), level, FileSet(in0), FileSet(in1))
    ensures found && level == 0 ==> forall f :: f in v.files[0] && f.Overlaps(UserOf(begin), UserOf(end)) ==> f in in0
    ensures found && level > 0 ==> CutAtLimit(Overlapping(v.files[level], UserOf(begin), UserOf(end)), maxFileSize, chosen)
    ensures found ==> (forall f :: f in chosen ==> f in in0)
    ensures found ==> chosen <= first0 && BoundaryChain(first0, |chosen|) && GrownFrom(first0, first1, in0, in1, maxFileSize)
  {
    var files := v.files[level];
    var inputs;
    ghost var lo, hi;
    inputs, lo, hi := GetOverlappingInputs(files, level, begin, end);
    OverlappingMembers(files, lo, hi);
    OverlappingMembers(files, UserOf(begin), UserOf(end));
    in0, in1, chosen, first0, first1 := [], [], [], [], [];
    if inputs == [] {
      found := false;
      return;
    }
    if level == 0 && Overlapping(files, UserOf(begin), UserOf(end)) == [] {
      NothingMet(files, UserOf(begin), UserOf(end), lo, hi);
      assert false;
    }
    FirstIsIn(Overlapping(files, UserOf(begin), UserOf(end)));
    ghost var a, b := 0, 0;
    if level > 0 {
      DisjointIsUserSorted(files);
      a, b := OverlappingIsSlice(files, lo, hi);
      inputs := CutToLimit(inputs, maxFileSize);
      b := a + |inputs|;
    }
    found, chosen := true, inputs;
    var grandparents, pointer;
    in0, in1, grandparents, pointer, first0, first1 := SetupOtherInputs(v, level, inputs, maxFileSize, a, b, lo, hi);
    forall f | f in inputs ensures f in in0 {
      PrefixIsIn(inputs, first0, f);
    }
  }

  // ---------- Where a flushed memtable goes ----------

  /** Version::OverlapInLevel. */
  method OverlapInLevel(v: Version, level: nat, lo: UserKey, hi: UserKey) returns (b: bool)
    requires v.Valid() && level < NUM_LEVELS && lo <= hi
    requires forall l, f :: 0 <= l < NUM_LEVELS && f in v.files[l] ==> f.largest.sn <= MAX_SEQUENCE
    ensures b <==> exists f :: f in v.files[level] && f.Overlaps(Some(lo), Some(hi))
  {
    b := SomeFileOverlapsRange(level > 0, v.files[level], Some(lo), Some(hi));
  }

  /** From `level` a new table may go one deeper: nothing there meets it, and in the level below that it does not meet
      more than ten times the file size. */
  ghost predicate MayDescend(v: Version, level: nat, smallest: UserKey, largest: UserKey, maxFileSize: nat)
    requires |v.files| == NUM_LEVELS
  {
    && level + 1 < NUM_LEVELS
    && (forall f :: f in v.files[level + 1] ==> !f.Overlaps(Some(smallest), Some(largest)))
    && (level + 2 < NUM_LEVELS ==> TotalFileSize(Overlapping(v.files[level + 2], Some(smallest), Some(largest))) <= 10 * maxFileSize)
  }

  /** Version::PickLevelForMemTableOutput: a table placed above level 0 meets no file of its own
      level or of any level above it, and goes as deep as the two rules let it. */
  method PickLevelForMemTableOutput(v: Version, smallest: UserKey, largest: UserKey, maxFileSize: nat)
    returns (level: nat)
    requires v.Valid() && smallest <= largest
    requires forall l, f :: 0 <= l < NUM_LEVELS && f in v.files[l] ==> f.largest.sn <= MAX_SEQUENCE
    ensures level <= MAX_MEM_COMPACT_LEVEL
    ensures level > 0 ==> forall l, f :: 0 <= l <= level && f in v.files[l] ==> !f.Overlaps(Some(smallest), Some(largest))
    ensures (exists f :: f in v.files[0] && f.Overlaps(Some(smallest), Some(largest))) ==> level == 0
    ensures (forall f :: f in v.files[0] ==> !f.Overlaps(Some(smallest), Some(largest))) ==>
      && (forall l :: 0 <= l < level ==> MayDescend(v, l, smallest, largest, maxFileSize))
      && (level < MAX_MEM_COMPACT_LEVEL ==> !MayDescend(v, level, smallest, largest, maxFileSize))
  {
    level := 0;
    var overlap := OverlapInLevel(v, 0, smallest, largest);
    if !overlap {
      var start, limit := IKey(smallest, MAX_SEQUENCE, Value), IKey(largest, 0, Deletion);
      while level < MAX_MEM_COMPACT_LEVEL
        invariant level <= MAX_MEM_COMPACT_LEVEL
        invariant forall l, f :: 0 <= l <= level && f in v.files[l] ==> !f.Overlaps(Some(smallest), Some(largest))
        invariant forall l :: 0 <= l < level ==> MayDescend(v, l, smallest, largest, maxFileSize)
      {
        overlap := OverlapInLevel(v, level + 1, smallest, largest);
        if overlap { break; }
        if level + 2 < NUM_LEVELS {
          var overlaps;
          ghost var lo, hi;
          overlaps, lo, hi := GetOverlappingInputs(v.files[level + 2], level + 2, Some(start), Some(limit));
          if TotalFileSize(overlaps) > 10 * maxFileSize { break; }
        }
        level := level + 1;
      }
    }
  }
}
