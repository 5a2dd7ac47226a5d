/** Building a version out of edits (db/version_set.cc: VersionSet::Builder, Recover): one Builder fed
    the whole MANIFEST gives the version that applying the edits one version at a time gives. */
module Builders {
  import opened Keys
  import opened Versions
  import Installs

  /** What a VersionEdit says of levels: compaction pointers, deletions and additions, each with its level. */
  datatype FileEdit = FileEdit(pointers: seq<(nat, IKey)>, deletedFiles: set<(nat, nat)>, newFiles: seq<(nat, File)>)
  {
    ghost predicate Valid() {
      && (forall i :: 0 <= i < |pointers| ==> pointers[i].0 < NUM_LEVELS)
      && (forall p :: p in deletedFiles ==> p.0 < NUM_LEVELS)
      && (forall i :: 0 <= i < |newFiles| ==> newFiles[i].0 < NUM_LEVELS)
    }
  }

  /** BySmallestKey. */
  predicate Before(f: File, g: File) {
    Less(f.smallest, g.smallest) || (!Less(g.smallest, f.smallest) && f.number < g.number)
  }

  ghost predicate Ascending(fs: seq<File>) {
    forall i, j :: 0 <= i < j < |fs| ==> Before(fs[i], fs[j])
  }

  ghost function Members(fs: seq<File>): set<File> {
    set i | 0 <= i < |fs| :: fs[i]
  }

  ghost function Numbers(fs: set<File>): set<nat> {
    set f | f in fs :: f.number
  }

  /** The files whose numbers are not gone. */
  ghost function Kept(fs: set<File>, gone: set<nat>): set<File> {
    set f | f in fs && f.number !in gone
  }

  /** What the Builder holds for a level: `added` is a std::set, so it is ascending and has no duplicates. */
  datatype LevelState = LevelState(deleted: set<nat>, added: seq<File>)

  /** std::set::insert: in its place, unless an equivalent file is there. */
  function Inserted(fs: seq<File>, f: File): seq<File> {
    if fs == [] then [f]
    else
      var last := fs[|fs| - 1];
      if Before(last, f) then fs + [f]
      else if Before(f, last) then Inserted(fs[..|fs| - 1], f) + [last]
      else fs
  }

  function WithFile(st: LevelState, f: File): LevelState {
    LevelState(st.deleted - {f.number}, Inserted(st.added, f))
  }

  function WithFiles(st: LevelState, fs: seq<File>): LevelState {
    if fs == [] then st else WithFile(WithFiles(st, fs[..|fs| - 1]), fs[|fs| - 1])
  }

  function DeletedAt(level: nat, deletedFiles: set<(nat, nat)>): set<nat> {
    set p | p in deletedFiles && p.0 == level :: p.1
  }

  function AddedAt(level: nat, newFiles: seq<(nat, File)>): seq<File> {
    if newFiles == [] then []
    else
      var p := newFiles[|newFiles| - 1];
      AddedAt(level, newFiles[..|newFiles| - 1]) + if p.0 == level then [p.1] else []
  }

  function Applied(st: LevelState, level: nat, edit: FileEdit): LevelState {
    WithFiles(st.(deleted := st.deleted + DeletedAt(level, edit.deletedFiles)), AddedAt(level, edit.newFiles))
  }

  /** The merge that SaveTo makes: all of `base`, each file of `added` after the base files not after it. */
  function Merged(base: seq<File>, added: seq<File>): seq<File>
    decreases |base| + |added|
  {
    if added == [] then base
    else if base == [] then added
    else
      var b, a := base[|base| - 1], added[|added| - 1];
      if Before(a, b) then Merged(base[..|base| - 1], added) + [b]
      else Merged(base, added[..|added| - 1]) + [a]
  }

  /** MaybeAddFile for each. */
  function Surviving(fs: seq<File>, deleted: set<nat>): seq<File> {
    if fs == [] then []
    else
      var f := fs[|fs| - 1];
      Surviving(fs[..|fs| - 1], deleted) + if f.number in deleted then [] else [f]
  }

  function Saved(base: seq<File>, st: LevelState): seq<File> {
    Surviving(Merged(base, st.added), st.deleted)
  }

  // ---------- The order of files ----------

  lemma BeforeIsStrictOrder(f: File, g: File, h: File)
    ensures !Before(f, f)
    ensures Before(f, g) ==> !Before(g, f)
    ensures Before(f, g) && Before(g, h) ==> Before(f, h)
    ensures f.number != g.number ==> Before(f, g) || Before(g, f)
  {
  }

  ghost predicate NumbersDiffer(fs: set<File>) {
    forall f, g :: f in fs && g in fs && f.number == g.number ==> f == g
  }

  lemma LastIsGreatest(fs: seq<File>, f: File)
    requires Ascending(fs) && fs != [] && f in Members(fs)
    ensures f == fs[|fs| - 1] || Before(f, fs[|fs| - 1])
  {
  }

  lemma MembersSplit(fs: seq<File>)
    requires fs != []
    ensures Members(fs) == Members(fs[..|fs| - 1]) + {fs[|fs| - 1]}
  {
    var init := fs[..|fs| - 1];
    forall f | f in Members(fs) ensures f in Members(init) + {fs[|fs| - 1]} {
      var i :| 0 <= i < |fs| && fs[i] == f;
      assert i < |init| ==> init[i] == f;
    }
    forall f | f in Members(init) ensures f in Members(fs) {
      var i :| 0 <= i < |init| && init[i] == f;
      assert fs[i] == f;
    }
  }

  lemma MembersOfSnoc(fs: seq<File>, f: File)
    ensures Members(fs + [f]) == Members(fs) + {f}
  {
    MembersSplit(fs + [f]);
    assert (fs + [f])[..|fs|] == fs;
  }

  lemma HasMember(fs: seq<File>)
    ensures fs != [] ==> Members(fs) != {}
  {
    if fs != [] {
      assert fs[0] in Members(fs);
    }
  }

  /** An ascending list is determined by its members. */
  lemma {:induction false} AscendingIsUnique(fs: seq<File>, gs: seq<File>)
    requires Ascending(fs) && Ascending(gs) && Members(fs) == Members(gs)
    ensures fs == gs
  {
    HasMember(fs);
    HasMember(gs);
    if fs != [] && gs != [] {
      var f, g := fs[|fs| - 1], gs[|gs| - 1];
      assert f in Members(fs) && g in Members(gs);
      LastIsGreatest(fs, g);
      LastIsGreatest(gs, f);
      BeforeIsStrictOrder(f, g, f);
      MembersSplit(fs);
      MembersSplit(gs);
      LastIsNotBefore(fs);
      LastIsNotBefore(gs);
      AscendingIsUnique(fs[..|fs| - 1], gs[..|gs| - 1]);
    }
  }

  lemma LastIsNotBefore(fs: seq<File>)
    requires Ascending(fs) && fs != []
    ensures fs[|fs| - 1] !in Members(fs[..|fs| - 1])
  {
    BeforeIsStrictOrder(fs[|fs| - 1], fs[|fs| - 1], fs[|fs| - 1]);
  }

  lemma AscendingSnoc(fs: seq<File>, f: File)
    requires Ascending(fs) && forall g :: g in Members(fs) ==> Before(g, f)
    ensures Ascending(fs + [f])
  {
    forall i | 0 <= i < |fs| ensures Before(fs[i], f) {
      assert fs[i] in Members(fs);
    }
  }

  /** A level of disjoint files in this order can be searched as versions are: each ends before the next begins. */
  lemma AscendingIsSearchable(fs: seq<File>)
    requires Ascending(fs) && forall i :: 0 <= i < |fs| ==> AtMost(fs[i].smallest, fs[i].largest)
    requires forall i, j :: 0 <= i < j < |fs| ==> Apart(fs[i], fs[j])
    ensures SortedDisjoint(fs)
  {
    forall i, j | 0 <= i < j < |fs| ensures Less(fs[i].largest, fs[j].smallest) {
      assert Before(fs[i], fs[j]) && Apart(fs[i], fs[j]);
      CompareIsTotalOrder(fs[i].smallest, fs[j].smallest, fs[j].largest);
      CompareIsTotalOrder(fs[j].smallest, fs[j].largest, fs[i].smallest);
    }
  }

  // ---------- Insert, merge, filter ----------

  lemma {:induction false} InsertedInPlace(fs: seq<File>, f: File)
    requires Ascending(fs) && forall g :: g in Members(fs) ==> g.number != f.number
    ensures Ascending(Inserted(fs, f)) && Members(Inserted(fs, f)) == Members(fs) + {f}
  {
    if fs == [] {
      assert Inserted(fs, f) == [] + [f];
      MembersOfSnoc([], f);
    } else {
      var init, last := fs[..|fs| - 1], fs[|fs| - 1];
      MembersSplit(fs);
      assert last in Members(fs);
      BeforeIsStrictOrder(last, f, f);
      if Before(last, f) {
        MembersOfSnoc(fs, f);
        forall g | g in Members(fs) ensures Before(g, f) {
          LastIsGreatest(fs, g);
          BeforeIsStrictOrder(g, last, f);
        }
        AscendingSnoc(fs, f);
      } else {
        InsertedInPlace(init, f);
        MembersOfSnoc(Inserted(init, f), last);
        forall g | g in Members(init) ensures Before(g, last) {
          LastIsNotBefore(fs);
          LastIsGreatest(fs, g);
        }
        AscendingSnoc(Inserted(init, f), last);
      }
    }
  }

  lemma {:induction false} MergedInOrder(base: seq<File>, added: seq<File>)
    requires Ascending(base) && Ascending(added)
    requires forall f, g :: f in Members(base) && g in Members(added) ==> f.number != g.number
    ensures Ascending(Merged(base, added)) && Members(Merged(base, added)) == Members(base) + Members(added)
    decreases |base| + |added|
  {
    if added != [] && base != [] {
      var b, a := base[|base| - 1], added[|added| - 1];
      MembersSplit(base);
      MembersSplit(added);
      BeforeIsStrictOrder(a, b, a);
      if Before(a, b) {
        MergedInOrder(base[..|base| - 1], added);
        MergeEnds(base, added, Merged(base[..|base| - 1], added), a, b);
      } else {
        MergedInOrder(base, added[..|added| - 1]);
        MergeEnds(added, base, Merged(base, added[..|added| - 1]), b, a);
      }
    }
  }

  /** The greater of the two lists' last files goes last. */
  lemma MergeEnds(fs: seq<File>, gs: seq<File>, merged: seq<File>, g: File, f: File)
    requires Ascending(fs) && Ascending(gs) && fs != [] && gs != []
    requires f == fs[|fs| - 1] && g == gs[|gs| - 1] && Before(g, f)
    requires Ascending(merged) && Members(merged) == Members(fs[..|fs| - 1]) + Members(gs)
    ensures Ascending(merged + [f]) && Members(merged + [f]) == Members(fs) + Members(gs)
  {
    MembersSplit(fs);
    LastIsNotBefore(fs);
    forall h | h in Members(merged) ensures Before(h, f) {
      if h in Members(gs) {
        LastIsGreatest(gs, h);
        BeforeIsStrictOrder(h, g, f);
      } else {
        LastIsGreatest(fs, h);
      }
    }
    AscendingSnoc(merged, f);
    MembersOfSnoc(merged, f);
  }

  lemma {:induction false} SurvivingInOrder(fs: seq<File>, deleted: set<nat>)
    requires Ascending(fs)
    ensures Ascending(Surviving(fs, deleted))
    ensures Members(Surviving(fs, deleted)) == Kept(Members(fs), deleted)
  {
    if fs != [] {
      var init, f := fs[..|fs| - 1], fs[|fs| - 1];
      SurvivingInOrder(init, deleted);
      MembersSplit(fs);
      LastIsNotBefore(fs);
      var kept := Surviving(init, deleted);
      forall g | g in Members(kept) ensures Before(g, f) {
        LastIsGreatest(fs, g);
      }
      AscendingSnoc(kept, f);
      MembersOfSnoc(kept, f);
      assert kept + [] == kept;
    }
  }

  lemma SavedInOrder(base: seq<File>, st: LevelState)
    requires Ascending(base) && Ascending(st.added)
    requires forall f, g :: f in Members(base) && g in Members(st.added) ==> f.number != g.number
    ensures Ascending(Saved(base, st))
    ensures Members(Saved(base, st)) == Kept(Members(base) + Members(st.added), st.deleted)
  {
    MergedInOrder(base, st.added);
    SurvivingInOrder(Merged(base, st.added), st.deleted);
  }

  // ---------- All edits at once, or one version for each ----------

  /** The state of one level in a Builder fed with all of `edits`. */
  function Accumulated(level: nat, edits: seq<FileEdit>): LevelState {
    if edits == [] then LevelState({}, [])
    else Applied(Accumulated(level, edits[..|edits| - 1]), level, edits[|edits| - 1])
  }

  /** A level after all of `edits`, each applied to its own version by a Builder of its own (LogAndApply). */
  function OneByOne(base: seq<File>, level: nat, edits: seq<FileEdit>): seq<File> {
    if edits == [] then base
    else Saved(OneByOne(base, level, edits[..|edits| - 1]), Applied(LevelState({}, []), level, edits[|edits| - 1]))
  }

  ghost function Adds(level: nat, edits: seq<FileEdit>): set<File> {
    if edits == [] then {}
    else Adds(level, edits[..|edits| - 1]) + Members(AddedAt(level, edits[|edits| - 1].newFiles))
  }

  ghost predicate AllNew(fs: seq<File>, known: set<nat>) {
    && (forall i :: 0 <= i < |fs| ==> fs[i].number !in known)
    && (forall i, j :: 0 <= i < j < |fs| ==> fs[i].number != fs[j].number)
  }

  /** Each edit adds files under numbers that the level does not have at that time, each number once. */
  ghost predicate NewEachTime(base: seq<File>, level: nat, edits: seq<FileEdit>) {
    edits == [] || (
      var init, edit := edits[..|edits| - 1], edits[|edits| - 1];
      && NewEachTime(base, level, init)
      && AllNew(AddedAt(level, edit.newFiles), Numbers(Members(OneByOne(base, level, init)))))
  }

  /** No number is given to two different files, nor one of the base's to any. */
  ghost predicate OneFilePerNumber(base: seq<File>, level: nat, edits: seq<FileEdit>) {
    && NumbersDiffer(Adds(level, edits))
    && forall f, g :: f in Members(base) && g in Adds(level, edits) ==> f.number != g.number
  }

  lemma {:induction false} InsertedAgain(fs: seq<File>, f: File)
    requires Ascending(fs) && f in Members(fs)
    ensures Inserted(fs, f) == fs
  {
    var init, last := fs[..|fs| - 1], fs[|fs| - 1];
    MembersSplit(fs);
    LastIsGreatest(fs, f);
    BeforeIsStrictOrder(f, last, f);
    if f != last {
      InsertedAgain(init, f);
    }
  }

  /** Files join the state where a file of the same number can only be the same file; none of them stays deleted. */
  lemma {:induction false} FilesJoin(st: LevelState, fs: seq<File>)
    requires Ascending(st.added) && AllNew(fs, {})
    requires forall f, i :: f in Members(st.added) && 0 <= i < |fs| && f.number == fs[i].number ==> f == fs[i]
    ensures var r := WithFiles(st, fs);
      && r.deleted == st.deleted - Numbers(Members(fs))
      && Ascending(r.added) && Members(r.added) == Members(st.added) + Members(fs)
  {
    if fs != [] {
      var init, f := fs[..|fs| - 1], fs[|fs| - 1];
      FilesJoin(st, init);
      MembersSplit(fs);
      var added := WithFiles(st, init).added;
      if f in Members(added) {
        InsertedAgain(added, f);
      } else {
        InsertedInPlace(added, f);
      }
      assert Numbers(Members(fs)) == Numbers(Members(init)) + {f.number};
    }
  }

  lemma OneEditIs(level: nat, edit: FileEdit)
    requires AllNew(AddedAt(level, edit.newFiles), {})
    ensures var st := Applied(LevelState({}, []), level, edit);
      && st.deleted == DeletedAt(level, edit.deletedFiles) - Numbers(Members(AddedAt(level, edit.newFiles)))
      && Ascending(st.added) && Members(st.added) == Members(AddedAt(level, edit.newFiles))
  {
    var st := LevelState({}, []);
    assert Members(st.added) == {};
    FilesJoin(st.(deleted := st.deleted + DeletedAt(level, edit.deletedFiles)), AddedAt(level, edit.newFiles));
  }

  /** What one edit makes of a version: the deleted files go, the added ones come. */
  lemma OneEditSaved(files: seq<File>, level: nat, edit: FileEdit)
    requires Ascending(files) && NumbersDiffer(Members(files))
    requires AllNew(AddedAt(level, edit.newFiles), Numbers(Members(files)))
    ensures var saved := Saved(files, Applied(LevelState({}, []), level, edit));
            var added := Members(AddedAt(level, edit.newFiles));
      && Ascending(saved) && NumbersDiffer(Members(saved))
      && Members(saved) == Kept(Members(files), DeletedAt(level, edit.deletedFiles)) + added
  {
    OneEditIs(level, edit);
    SavedInOrder(files, Applied(LevelState({}, []), level, edit));
    AddedAreKept(Members(files), Members(AddedAt(level, edit.newFiles)), DeletedAt(level, edit.deletedFiles));
  }

  lemma AddedAreKept(files: set<File>, added: set<File>, deleted: set<nat>)
    requires forall f, g :: f in files && g in added ==> f.number != g.number
    ensures Kept(files + added, deleted - Numbers(added)) == Kept(files, deleted) + added
  {
    forall f | f in files ensures f.number !in Numbers(added) {
      NumberIsNew(f, added);
    }
  }

  lemma NumberIsNew(f: File, added: set<File>)
    requires forall g :: g in added ==> f.number != g.number
    ensures f.number !in Numbers(added)
  {
  }

  /** Applied one by one, the edits keep the level in order and its numbers apart. */
  lemma {:induction false} OneByOneIsSound(base: seq<File>, level: nat, edits: seq<FileEdit>)
    requires Ascending(base) && NumbersDiffer(Members(base)) && NewEachTime(base, level, edits)
    ensures Ascending(OneByOne(base, level, edits)) && NumbersDiffer(Members(OneByOne(base, level, edits)))
  {
    if edits != [] {
      var init, edit := edits[..|edits| - 1], edits[|edits| - 1];
      OneByOneIsSound(base, level, init);
      OneEditSaved(OneByOne(base, level, init), level, edit);
    }
  }

  /** One more edit does the same to what a Builder has gathered as to the version saved from it. */
  lemma SameEffect(present: set<File>, added: set<File>, before: set<nat>, deleted: set<nat>)
    requires forall f, g :: f in present && g in added && f.number == g.number ==> f == g
    ensures Kept(present + added, (before + deleted) - Numbers(added)) == Kept(Kept(present, before), deleted) + added
  {
    forall f | f in present && f.number in Numbers(added) ensures f in added {
      var g :| g in added && g.number == f.number;
    }
  }

  lemma AccumulatedSaved(base: seq<File>, level: nat, edits: seq<FileEdit>)
    requires Ascending(base) && OneFilePerNumber(base, level, edits)
    requires var st := Accumulated(level, edits); Ascending(st.added) && Members(st.added) == Adds(level, edits)
    ensures var st := Accumulated(level, edits);
      && Ascending(Saved(base, st))
      && Members(Saved(base, st)) == Kept(Members(base) + Adds(level, edits), st.deleted)
  {
    SavedInOrder(base, Accumulated(level, edits));
  }

  /** With one file per number, the version recovered from a MANIFEST is, file for file and in the same order, the
      version that was current when its last edit was logged. */
  lemma {:induction false} ReplayIsOneByOne(base: seq<File>, level: nat, edits: seq<FileEdit>)
    requires Ascending(base) && NumbersDiffer(Members(base)) && NewEachTime(base, level, edits)
    requires OneFilePerNumber(base, level, edits)
    ensures var st := Accumulated(level, edits); Ascending(st.added) && Members(st.added) == Adds(level, edits)
    ensures Saved(base, Accumulated(level, edits)) == OneByOne(base, level, edits)
  {
    if edits == [] {
      AccumulatedSaved(base, level, edits);
      assert Members(base) == Kept(Members(base) + {}, {});
      AscendingIsUnique(Saved(base, Accumulated(level, edits)), base);
    } else {
      var init, edit := edits[..|edits| - 1], edits[|edits| - 1];
      ReplayIsOneByOne(base, level, init);
      GatheredMore(base, level, init, edit, edits);
      SavedMore(base, level, init, edit, edits);
      OneByOneIsSound(base, level, edits);
      AccumulatedSaved(base, level, edits);
      AscendingIsUnique(Saved(base, Accumulated(level, edits)), OneByOne(base, level, edits));
    }
  }

  /** One more edit in what the Builder has gathered. */
  lemma GatheredMore(base: seq<File>, level: nat, init: seq<FileEdit>, edit: FileEdit, edits: seq<FileEdit>)
    requires edits != [] && init == edits[..|edits| - 1] && edit == edits[|edits| - 1]
    requires OneFilePerNumber(base, level, edits) && AllNew(AddedAt(level, edit.newFiles), {})
    requires var st := Accumulated(level, init); Ascending(st.added) && Members(st.added) == Adds(level, init)
    ensures var st := Accumulated(level, edits);
            var fs := AddedAt(level, edit.newFiles);
      && Ascending(st.added) && Members(st.added) == Adds(level, edits) && Adds(level, edits) == Adds(level, init) + Members(fs)
      && st.deleted == (Accumulated(level, init).deleted + DeletedAt(level, edit.deletedFiles)) - Numbers(Members(fs))
  {
    var st := Accumulated(level, init);
    FilesJoin(st.(deleted := st.deleted + DeletedAt(level, edit.deletedFiles)), AddedAt(level, edit.newFiles));
  }

  lemma NewEachTimeSplits(base: seq<File>, level: nat, init: seq<FileEdit>, edit: FileEdit, edits: seq<FileEdit>)
    requires edits != [] && init == edits[..|edits| - 1] && edit == edits[|edits| - 1] && NewEachTime(base, level, edits)
    ensures NewEachTime(base, level, init)
    ensures AllNew(AddedAt(level, edit.newFiles), Numbers(Members(OneByOne(base, level, init))))
    ensures OneByOne(base, level, edits) == Saved(OneByOne(base, level, init), Applied(LevelState({}, []), level, edit))
  {
  }

  lemma PrefixHasOneFile(base: seq<File>, level: nat, init: seq<FileEdit>, edit: FileEdit, edits: seq<FileEdit>)
    requires edits != [] && init == edits[..|edits| - 1] && edit == edits[|edits| - 1] && OneFilePerNumber(base, level, edits)
    ensures OneFilePerNumber(base, level, init)
    ensures Adds(level, edits) == Adds(level, init) + Members(AddedAt(level, edit.newFiles))
    ensures forall f, g :: f in Members(base) + Adds(level, init) && g in Members(AddedAt(level, edit.newFiles)) && f.number == g.number ==>
              f == g
  {
  }

  /** One more edit in the version saved. */
  lemma SavedMore(base: seq<File>, level: nat, init: seq<FileEdit>, edit: FileEdit, edits: seq<FileEdit>)
    requires edits != [] && init == edits[..|edits| - 1] && edit == edits[|edits| - 1]
    requires Ascending(base) && NumbersDiffer(Members(base)) && NewEachTime(base, level, edits)
    requires OneFilePerNumber(base, level, edits)
    requires var st := Accumulated(level, init); Ascending(st.added) && Members(st.added) == Adds(level, init)
    requires Saved(base, Accumulated(level, init)) == OneByOne(base, level, init)
    ensures Members(OneByOne(base, level, edits))
         == Kept(Members(base) + Adds(level, edits),
                 (Accumulated(level, init).deleted + DeletedAt(level, edit.deletedFiles)) - Numbers(Members(AddedAt(level, edit.newFiles))))
  {
    hide *;
    NewEachTimeSplits(base, level, init, edit, edits);
    PrefixHasOneFile(base, level, init, edit, edits);
    var fs := AddedAt(level, edit.newFiles);
    OneByOneIsSound(base, level, init);
    OneEditSaved(OneByOne(base, level, init), level, edit);
    AccumulatedSaved(base, level, init);
    SameEffect(Members(base) + Adds(level, init), Members(fs), Accumulated(level, init).deleted, DeletedAt(level, edit.deletedFiles));
    assert Members(base) + Adds(level, edits) == Members(base) + Adds(level, init) + Members(fs);
  }

  // ---------- Exactly when ----------

  /** Insertion loses nothing and leaves a file of that number. */
  lemma {:induction false} InsertedKeeps(fs: seq<File>, f: File)
    ensures Members(fs) <= Members(Inserted(fs, f)) && f.number in Numbers(Members(Inserted(fs, f)))
  {
    if fs == [] {
      assert Inserted(fs, f)[0] == f;
      assert f in Members(Inserted(fs, f));
    } else {
      var init, last := fs[..|fs| - 1], fs[|fs| - 1];
      MembersSplit(fs);
      if Before(last, f) {
        MembersOfSnoc(fs, f);
        assert f in Members(Inserted(fs, f));
      } else if Before(f, last) {
        InsertedKeeps(init, f);
        MembersOfSnoc(Inserted(init, f), last);
      } else {
        BeforeIsStrictOrder(f, last, f);
        assert last in Members(fs);
      }
    }
  }

  lemma {:induction false} FilesStay(st: LevelState, fs: seq<File>)
    ensures var r := WithFiles(st, fs);
      && r.deleted == st.deleted - Numbers(Members(fs))
      && Members(st.added) <= Members(r.added) && Numbers(Members(fs)) <= Numbers(Members(r.added))
  {
    if fs != [] {
      var init, f := fs[..|fs| - 1], fs[|fs| - 1];
      FilesStay(st, init);
      MembersSplit(fs);
      InsertedKeeps(WithFiles(st, init).added, f);
      assert Numbers(Members(fs)) == Numbers(Members(init)) + {f.number};
    }
  }

  lemma {:induction false} MergedKeepsAll(base: seq<File>, added: seq<File>)
    ensures multiset(Merged(base, added)) == multiset(base) + multiset(added)
    decreases |base| + |added|
  {
    if added != [] && base != [] {
      var b, a := base[|base| - 1], added[|added| - 1];
      assert base == base[..|base| - 1] + [b] && added == added[..|added| - 1] + [a];
      if Before(a, b) {
        MergedKeepsAll(base[..|base| - 1], added);
      } else {
        MergedKeepsAll(base, added[..|added| - 1]);
      }
    }
  }

  lemma {:induction false} SurvivingKeeps(fs: seq<File>, deleted: set<nat>, f: File)
    requires f.number !in deleted
    ensures multiset(Surviving(fs, deleted))[f] == multiset(fs)[f]
  {
    if fs != [] {
      var init, last := fs[..|fs| - 1], fs[|fs| - 1];
      SurvivingKeeps(init, deleted, f);
      assert fs == init + [last];
      assert Surviving(init, deleted) + [] == Surviving(init, deleted);
    }
  }

  /** A file that is not deleted is saved as often as base and additions hold it. */
  lemma SavedCount(base: seq<File>, st: LevelState, f: File)
    requires f.number !in st.deleted
    ensures multiset(Saved(base, st))[f] == multiset(base)[f] + multiset(st.added)[f]
  {
    MergedKeepsAll(base, st.added);
    SurvivingKeeps(Merged(base, st.added), st.deleted, f);
  }

  lemma CountOfMember(fs: seq<File>, f: File)
    ensures f in Members(fs) <==> multiset(fs)[f] > 0
  {
    assert f in Members(fs) <==> f in fs;
  }

  lemma {:induction false} OnceInOrder(fs: seq<File>, f: File)
    requires Ascending(fs)
    ensures multiset(fs)[f] <= 1
  {
    if fs != [] {
      var init, last := fs[..|fs| - 1], fs[|fs| - 1];
      OnceInOrder(init, f);
      LastIsNotBefore(fs);
      CountOfMember(init, f);
      assert fs == init + [last];
    }
  }

  /** Two files under one number, or one file twice, are never what edits applied one by one leave. */
  lemma NeverSaved(base: seq<File>, st: LevelState, files: seq<File>, f: File, g: File)
    requires Ascending(files) && NumbersDiffer(Members(files)) && g in Members(files)
    requires f.number == g.number && g.number !in st.deleted && g.number in Numbers(Members(st.added))
    requires f in Members(base) || (f in Members(st.added) && f != g)
    ensures Saved(base, st) != files
  {
    var h :| h in Members(st.added) && h.number == g.number;
    forall x | x == f || x == g || x == h
      ensures multiset(Saved(base, st))[x] == multiset(base)[x] + multiset(st.added)[x]
      ensures (x in Members(base) <==> multiset(base)[x] > 0) && (x in Members(st.added) <==> multiset(st.added)[x] > 0)
      ensures (x in Members(files) <==> multiset(files)[x] > 0) && multiset(files)[x] <= 1
    {
      SavedCount(base, st, x);
      CountOfMember(base, x);
      CountOfMember(st.added, x);
      CountOfMember(files, x);
      OnceInOrder(files, x);
    }
  }

  /** An edit that gives a used number to another file parts the two ways at once. */
  lemma ReusedNumberShows(base: seq<File>, level: nat, edits: seq<FileEdit>)
    requires Ascending(base) && NumbersDiffer(Members(base)) && NewEachTime(base, level, edits) && edits != []
    requires OneFilePerNumber(base, level, edits[..|edits| - 1]) && !OneFilePerNumber(base, level, edits)
    ensures Saved(base, Accumulated(level, edits)) != OneByOne(base, level, edits)
  {
    var init, edit := edits[..|edits| - 1], edits[|edits| - 1];
    var fs := AddedAt(level, edit.newFiles);
    var f, g := ReusedNumber(base, level, edits);
    ReplayIsOneByOne(base, level, init);
    OneByOneIsSound(base, level, edits);
    OneByOneIsSound(base, level, init);
    OneEditSaved(OneByOne(base, level, init), level, edit);
    var st := Accumulated(level, init);
    FilesStay(st.(deleted := st.deleted + DeletedAt(level, edit.deletedFiles)), fs);
    NeverSaved(base, Accumulated(level, edits), OneByOne(base, level, edits), f, g);
  }

  lemma ReusedNumber(base: seq<File>, level: nat, edits: seq<FileEdit>) returns (f: File, g: File)
    requires NewEachTime(base, level, edits) && edits != []
    requires OneFilePerNumber(base, level, edits[..|edits| - 1]) && !OneFilePerNumber(base, level, edits)
    ensures g in Members(AddedAt(level, edits[|edits| - 1].newFiles)) && f.number == g.number
    ensures f in Members(base) || (f in Adds(level, edits[..|edits| - 1]) && f != g)
  {
    var init, fs := edits[..|edits| - 1], AddedAt(level, edits[|edits| - 1].newFiles);
    OncePerEdit(fs);
    if x, y :| x in Members(base) && y in Adds(level, edits) && x.number == y.number {
      f, g := x, y;
    } else {
      var x, y :| x in Adds(level, edits) && y in Adds(level, edits) && x.number == y.number && x != y;
      if x in Members(fs) {
        f, g := y, x;
      } else {
        f, g := x, y;
      }
    }
  }

  lemma OncePerEdit(fs: seq<File>)
    requires AllNew(fs, {})
    ensures NumbersDiffer(Members(fs))
  {
  }

  /** After the first `k` edits the Builder's version is the one that edits one by one give. */
  ghost predicate ReplayedUpTo(base: seq<File>, level: nat, edits: seq<FileEdit>, k: nat)
    requires k <= |edits|
  {
    Saved(base, Accumulated(level, edits[..k])) == OneByOne(base, level, edits[..k])
  }

  lemma {:induction false} FirstReuseShows(base: seq<File>, level: nat, edits: seq<FileEdit>) returns (k: nat)
    requires Ascending(base) && NumbersDiffer(Members(base)) && NewEachTime(base, level, edits)
    requires !OneFilePerNumber(base, level, edits)
    ensures k <= |edits| && !ReplayedUpTo(base, level, edits, k)
  {
    assert edits != [];
    var init := edits[..|edits| - 1];
    if OneFilePerNumber(base, level, init) {
      ReusedNumberShows(base, level, edits);
      k := |edits|;
      assert edits[..k] == edits;
    } else {
      hide *;
      k := FirstReuseShows(base, level, init);
      SamePrefix(base, level, init, edits, k);
    }
  }

  lemma SamePrefix(base: seq<File>, level: nat, init: seq<FileEdit>, edits: seq<FileEdit>, k: nat)
    requires k <= |init| && init <= edits
    ensures ReplayedUpTo(base, level, edits, k) <==> ReplayedUpTo(base, level, init, k)
  {
    assert edits[..k] == init[..k];
  }

  lemma {:induction false} PrefixIsSound(base: seq<File>, level: nat, edits: seq<FileEdit>, k: nat)
    requires NewEachTime(base, level, edits) && OneFilePerNumber(base, level, edits) && k <= |edits|
    ensures NewEachTime(base, level, edits[..k]) && OneFilePerNumber(base, level, edits[..k])
  {
    if k < |edits| {
      PrefixIsSound(base, level, edits[..|edits| - 1], k);
      assert edits[..|edits| - 1][..k] == edits[..k];
    } else {
      assert edits[..k] == edits;
    }
  }

  /** Where each edit adds numbers that the level does not have at that time: a Builder fed with the edits is at
      every point where edits one by one are, if and only if no number is ever given to two different files, nor
      one of the base's to any. */
  lemma ReplayIsOneByOneIff(base: seq<File>, level: nat, edits: seq<FileEdit>)
    requires Ascending(base) && NumbersDiffer(Members(base)) && NewEachTime(base, level, edits)
    ensures (forall k :: 0 <= k <= |edits| ==> ReplayedUpTo(base, level, edits, k)) <==> OneFilePerNumber(base, level, edits)
  {
    if OneFilePerNumber(base, level, edits) {
      forall k | 0 <= k <= |edits| ensures ReplayedUpTo(base, level, edits, k) {
        PrefixIsSound(base, level, edits, k);
        ReplayIsOneByOne(base, level, edits[..k]);
      }
    } else {
      var k := FirstReuseShows(base, level, edits);
    }
  }

  // ---------- The Builder itself ----------

  /** The compaction pointers after these have been set. */
  function Pointed(pointers: map<nat, IKey>, news: seq<(nat, IKey)>): map<nat, IKey> {
    if news == [] then pointers
    else
      var last := news[|news| - 1];
      Pointed(pointers, news[..|news| - 1])[last.0 := last.1]
  }

  class Builder {
    const base: seq<seq<File>>
    var levels: seq<LevelState>
    /** compact_pointer_ of the version set. */
    var pointers: map<nat, IKey>

    ghost predicate Valid()
      reads this
    {
      && |base| == NUM_LEVELS && |levels| == NUM_LEVELS
      && forall l :: 0 <= l < NUM_LEVELS ==> Ascending(base[l]) && Ascending(levels[l].added)
    }

    constructor (base: seq<seq<File>>, pointers: map<nat, IKey>)
      requires |base| == NUM_LEVELS && forall l :: 0 <= l < NUM_LEVELS ==> Ascending(base[l])
      ensures Valid() && this.base == base && this.pointers == pointers
      ensures forall l :: 0 <= l < NUM_LEVELS ==> levels[l] == LevelState({}, [])
    {
      this.base, this.pointers := base, pointers;
      levels := seq(NUM_LEVELS, _ => LevelState({}, []));
    }

    method Apply(edit: FileEdit)
      requires Valid() && edit.Valid()
      modifies this
      ensures Valid()
      ensures forall l :: 0 <= l < NUM_LEVELS ==> levels[l] == Applied(old(levels[l]), l, edit)
      ensures pointers == Pointed(old(pointers), edit.pointers)
    {
      SetPointers(edit.pointers);
      DeleteFiles(edit.deletedFiles);
      ghost var deleted := levels;
      var i := 0;
      while i < |edit.newFiles|
        invariant i <= |edit.newFiles| && Valid() && NewFilesIn(deleted, levels, edit.newFiles[..i])
        invariant pointers == Pointed(old(pointers), edit.pointers)
      {
        var (level, f) := edit.newFiles[i];
        OneMoreFile(deleted, levels, edit.newFiles, i);
        InsertedStaysAscending(levels[level].added, f);
        levels := levels[level := WithFile(levels[level], f)];
        i := i + 1;
      }
      assert edit.newFiles[..i] == edit.newFiles;
    }

    method SetPointers(news: seq<(nat, IKey)>)
      modifies this`pointers
      ensures pointers == Pointed(old(pointers), news)
    {
      var i := 0;
      while i < |news|
        invariant i <= |news| && pointers == Pointed(old(pointers), news[..i])
      {
        assert news[..i + 1][..i] == news[..i];
        pointers := pointers[news[i].0 := news[i].1];
        i := i + 1;
      }
      assert news[..i] == news;
    }

    method DeleteFiles(deletedFiles: set<(nat, nat)>)
      requires Valid() && forall p :: p in deletedFiles ==> p.0 < NUM_LEVELS
      modifies this`levels
      ensures Valid()
      ensures forall l :: 0 <= l < NUM_LEVELS ==>
                levels[l] == old(levels[l]).(deleted := old(levels[l].deleted) + DeletedAt(l, deletedFiles))
    {
      var rest := deletedFiles;
      while rest != {}
        invariant rest <= deletedFiles && Valid()
        invariant forall l :: 0 <= l < NUM_LEVELS ==>
                    levels[l] == old(levels[l]).(deleted := old(levels[l].deleted) + DeletedAt(l, deletedFiles - rest))
        decreases rest
      {
        var p :| p in rest;
        DeletedAtMore(deletedFiles - rest, p);
        rest := rest - {p};
        assert deletedFiles - rest == deletedFiles - (rest + {p}) + {p};
        levels := levels[p.0 := levels[p.0].(deleted := levels[p.0].deleted + {p.1})];
      }
      assert deletedFiles - rest == deletedFiles;
    }

    method SaveTo() returns (files: seq<seq<File>>)
      requires Valid()
      ensures |files| == NUM_LEVELS
      ensures forall l :: 0 <= l < NUM_LEVELS ==> files[l] == Saved(base[l], levels[l])
    {
      files := [];
      while |files| < NUM_LEVELS
        invariant |files| <= NUM_LEVELS
        invariant forall l :: 0 <= l < |files| ==> files[l] == Saved(base[l], levels[l])
      {
        var saved := SaveLevel(base[|files|], levels[|files|]);
        files := files + [saved];
      }
    }
  }

  ghost predicate NewFilesIn(before: seq<LevelState>, after: seq<LevelState>, newFiles: seq<(nat, File)>) {
    && |before| == NUM_LEVELS && |after| == NUM_LEVELS
    && forall l :: 0 <= l < NUM_LEVELS ==> after[l] == WithFiles(before[l], AddedAt(l, newFiles))
  }

  lemma OneMoreFile(before: seq<LevelState>, after: seq<LevelState>, newFiles: seq<(nat, File)>, i: nat)
    requires i < |newFiles| && newFiles[i].0 < NUM_LEVELS && NewFilesIn(before, after, newFiles[..i])
    ensures var (level, f) := newFiles[i];
      NewFilesIn(before, after[level := WithFile(after[level], f)], newFiles[..i + 1])
  {
    var (level, f) := newFiles[i];
    var next := after[level := WithFile(after[level], f)];
    assert newFiles[..i + 1][..i] == newFiles[..i];
    forall l | 0 <= l < NUM_LEVELS ensures next[l] == WithFiles(before[l], AddedAt(l, newFiles[..i + 1])) {
      var fs := AddedAt(l, newFiles[..i]);
      if l == level {
        assert (fs + [f])[..|fs|] == fs;
      } else {
        assert fs + [] == fs;
      }
    }
  }

  lemma DeletedAtMore(done: set<(nat, nat)>, p: (nat, nat))
    ensures forall l: nat :: DeletedAt(l, done + {p}) == DeletedAt(l, done) + if p.0 == l then {p.1} else {}
  {
  }

  lemma {:induction false} InsertedStaysAscending(fs: seq<File>, f: File)
    requires Ascending(fs)
    ensures Ascending(Inserted(fs, f)) && Members(Inserted(fs, f)) <= Members(fs) + {f}
  {
    if fs == [] {
      MembersOfSnoc([], f);
      assert [] + [f] == [f];
    } else {
      var init, last := fs[..|fs| - 1], fs[|fs| - 1];
      MembersSplit(fs);
      LastIsNotBefore(fs);
      if Before(last, f) {
        forall g | g in Members(fs) ensures Before(g, f) {
          LastIsGreatest(fs, g);
          BeforeIsStrictOrder(g, last, f);
        }
        AscendingSnoc(fs, f);
        MembersOfSnoc(fs, f);
      } else if Before(f, last) {
        InsertedStaysAscending(init, f);
        forall g | g in Members(Inserted(init, f)) ensures Before(g, last) {
          if g != f {
            LastIsGreatest(fs, g);
          }
        }
        AscendingSnoc(Inserted(init, f), last);
        MembersOfSnoc(Inserted(init, f), last);
      }
    }
  }

  /** Where the merge of SaveTo stands between `base[..i]` and `added[..j]`. */
  ghost predicate MergePoint(base: seq<File>, added: seq<File>, i: nat, j: nat) {
    && i <= |base| && j <= |added|
    && (i > 0 && j < |added| ==> !Before(added[j], base[i - 1]))
    && (i < |base| && j > 0 ==> Before(added[j - 1], base[i]))
  }

  lemma MergeBase(base: seq<File>, added: seq<File>, i: nat, j: nat, deleted: set<nat>)
    requires i < |base| && j <= |added| && (j > 0 ==> Before(added[j - 1], base[i]))
    ensures Surviving(Merged(base[..i + 1], added[..j]), deleted)
         == Surviving(Merged(base[..i], added[..j]), deleted) + if base[i].number in deleted then [] else [base[i]]
  {
    assert base[..i + 1][..i] == base[..i];
    assert Merged(base[..i + 1], added[..j]) == Merged(base[..i], added[..j]) + [base[i]];
    SurvivingSnoc(Merged(base[..i], added[..j]), base[i], deleted);
  }

  lemma MergeAdded(base: seq<File>, added: seq<File>, i: nat, j: nat, deleted: set<nat>)
    requires i <= |base| && j < |added| && (i > 0 ==> !Before(added[j], base[i - 1]))
    ensures Surviving(Merged(base[..i], added[..j + 1]), deleted)
         == Surviving(Merged(base[..i], added[..j]), deleted) + if added[j].number in deleted then [] else [added[j]]
  {
    assert added[..j + 1][..j] == added[..j];
    MergedWithNone(added[..j]);
    MergedWithNone(added[..j + 1]);
    assert Merged(base[..i], added[..j + 1]) == Merged(base[..i], added[..j]) + [added[j]];
    SurvivingSnoc(Merged(base[..i], added[..j]), added[j], deleted);
  }

  lemma MergedWithNone(added: seq<File>)
    ensures Merged([], added) == added
  {
  }

  lemma SurvivingSnoc(fs: seq<File>, f: File, deleted: set<nat>)
    ensures Surviving(fs + [f], deleted) == Surviving(fs, deleted) + if f.number in deleted then [] else [f]
  {
    assert (fs + [f])[..|fs|] == fs;
  }

  /** MaybeAddFile. */
  function MaybeAdded(files: seq<File>, f: File, deleted: set<nat>): seq<File> {
    if f.number in deleted then files else files + [f]
  }

  ghost predicate InMerge(base: seq<File>, st: LevelState, i: nat, j: nat, files: seq<File>) {
    MergePoint(base, st.added, i, j) && files == Surviving(Merged(base[..i], st.added[..j]), st.deleted)
  }

  lemma BaseIsNext(base: seq<File>, st: LevelState, i: nat, j: nat, files: seq<File>)
    requires Ascending(base) && i < |base| && InMerge(base, st, i, j, files)
    requires j < |st.added| ==> !Before(st.added[j], base[i])
    ensures InMerge(base, st, i + 1, j, MaybeAdded(files, base[i], st.deleted))
  {
    MergeBase(base, st.added, i, j, st.deleted);
    if i + 1 < |base| && j > 0 {
      BeforeIsStrictOrder(st.added[j - 1], base[i], base[i + 1]);
    }
  }

  /** Add all smaller files listed in base: those up to std::upper_bound of the next added file,
      or, when there is none, all that remain. */
  method AddSmaller(base: seq<File>, st: LevelState, from: nat, j: nat, files: seq<File>)
      returns (i: nat, more: seq<File>)
    requires Ascending(base) && Ascending(st.added) && InMerge(base, st, from, j, files)
    ensures InMerge(base, st, i, j, more)
    ensures i < |base| ==> j < |st.added| && Before(st.added[j], base[i])
  {
    i, more := from, files;
    while i < |base| && (j < |st.added| ==> !Before(st.added[j], base[i]))
      invariant InMerge(base, st, i, j, more)
      decreases |base| - i
    {
      BaseIsNext(base, st, i, j, more);
      more := MaybeAdded(more, base[i], st.deleted);
      i := i + 1;
    }
  }

  lemma AddedIsNext(base: seq<File>, st: LevelState, i: nat, j: nat, files: seq<File>)
    requires Ascending(st.added) && j < |st.added| && InMerge(base, st, i, j, files)
    requires i < |base| ==> Before(st.added[j], base[i])
    ensures InMerge(base, st, i, j + 1, MaybeAdded(files, st.added[j], st.deleted))
  {
    MergeAdded(base, st.added, i, j, st.deleted);
    if i > 0 && j + 1 < |st.added| {
      BeforeIsStrictOrder(st.added[j], st.added[j + 1], base[i - 1]);
    }
  }

  /** One level of SaveTo. */
  method SaveLevel(base: seq<File>, st: LevelState) returns (files: seq<File>)
    requires Ascending(base) && Ascending(st.added)
    ensures files == Saved(base, st)
  {
    files := [];
    var i, j := 0, 0;
    while j < |st.added|
      invariant j <= |st.added| && InMerge(base, st, i, j, files)
    {
      i, files := AddSmaller(base, st, i, j, files);
      AddedIsNext(base, st, i, j, files);
      files := MaybeAdded(files, st.added[j], st.deleted);
      j := j + 1;
    }
    i, files := AddSmaller(base, st, i, j, files);
    assert base[..|base|] == base && st.added[..|st.added|] == st.added;
  }

  // ---------- A number given to another file ----------

  lemma OneMoreOfEach(base: seq<File>, level: nat, edits: seq<FileEdit>, e: FileEdit)
    ensures Accumulated(level, edits + [e]) == Applied(Accumulated(level, edits), level, e)
    ensures OneByOne(base, level, edits + [e]) == Saved(OneByOne(base, level, edits), Applied(LevelState({}, []), level, e))
    ensures NewEachTime(base, level, edits + [e]) <==>
              NewEachTime(base, level, edits) && AllNew(AddedAt(level, e.newFiles), Numbers(Members(OneByOne(base, level, edits))))
  {
    assert (edits + [e])[..|edits|] == edits;
  }

  function Deleting(n: nat): FileEdit {
    FileEdit([], {(1, n)}, [])
  }

  function Adding(f: File): FileEdit {
    FileEdit([], {}, [(1, f)])
  }

  lemma DeletingEdit(st: LevelState, n: nat)
    ensures Applied(st, 1, Deleting(n)) == LevelState(st.deleted + {n}, st.added) && AddedAt(1, Deleting(n).newFiles) == []
  {
    assert DeletedAt(1, {(1, n)}) == {n};
  }

  lemma AddingEdit(st: LevelState, f: File)
    ensures Applied(st, 1, Adding(f)) == LevelState(st.deleted - {f.number}, Inserted(st.added, f))
    ensures AddedAt(1, Adding(f).newFiles) == [f]
  {
    assert DeletedAt(1, {}) == {} && st.deleted + {} == st.deleted;
    assert [(1, f)][..0] == [] && [f][..0] == [];
    assert AddedAt(1, [(1, f)]) == [] + [f] == [f];
    assert WithFiles(st, [f]) == WithFile(st, f);
  }

  lemma SavedOne(f: File, deleted: set<nat>)
    ensures Saved([], LevelState(deleted, [f])) == if f.number in deleted then [] else [f]
    ensures Saved([f], LevelState(deleted, [])) == if f.number in deleted then [] else [f]
  {
    assert [f][..0] == [];
    assert Surviving([f], deleted) == Surviving([], deleted) + if f.number in deleted then [] else [f];
  }

  lemma SavedTwo(f: File, g: File)
    ensures Saved([], LevelState({}, [f, g])) == [f, g]
  {
    assert [f, g][..1] == [f] && [f][..0] == [];
    assert Surviving([f, g], {}) == Surviving([f], {}) + [g];
    assert Surviving([f], {}) == Surviving([], {}) + [f];
  }

  lemma AddingOne(edits: seq<FileEdit>, f: File, st: LevelState)
    requires Accumulated(1, edits) == st && OneByOne([], 1, edits) == [] && NewEachTime([], 1, edits)
    ensures Accumulated(1, edits + [Adding(f)]) == LevelState(st.deleted - {f.number}, Inserted(st.added, f))
    ensures OneByOne([], 1, edits + [Adding(f)]) == [f] && NewEachTime([], 1, edits + [Adding(f)])
  {
    hide *;
    OneMoreOfEach([], 1, edits, Adding(f));
    AddingEdit(st, f);
    AddingEdit(LevelState({}, []), f);
    NewToNone(f);
    assert {} - {f.number} == {};
    SavedOne(f, {});
  }

  lemma NewToNone(f: File)
    ensures AllNew([f], Numbers(Members([]))) && Inserted([], f) == [f]
    ensures AllNew([], Numbers(Members([f])))
  {
  }

  lemma DeletingOne(edits: seq<FileEdit>, f: File, st: LevelState)
    requires Accumulated(1, edits) == st && OneByOne([], 1, edits) == [f] && NewEachTime([], 1, edits)
    ensures Accumulated(1, edits + [Deleting(f.number)]) == LevelState(st.deleted + {f.number}, st.added)
    ensures OneByOne([], 1, edits + [Deleting(f.number)]) == [] && NewEachTime([], 1, edits + [Deleting(f.number)])
  {
    hide *;
    NewToNone(f);
    OneMoreOfEach([], 1, edits, Deleting(f.number));
    DeletingEdit(st, f.number);
    DeletingEdit(LevelState({}, []), f.number);
    assert {} + {f.number} == {f.number};
    SavedOne(f, {f.number});
  }

  lemma NoEditsYet(f: File, g: File)
    ensures Accumulated(1, []) == LevelState({}, []) && OneByOne([], 1, []) == [] && NewEachTime([], 1, [])
    ensures Inserted([], f) == [f] && (Before(f, g) ==> Inserted([f], g) == [f, g])
  {
  }

  /** From the empty version that Recover starts with: a number that is added, deleted, and then given to another
      file brings the first file back. */
  lemma ReusedNumberRevives(f: File, g: File)
    requires f.number == g.number && Before(f, g)
    ensures var edits := [Adding(f), Deleting(f.number), Adding(g)];
      && NewEachTime([], 1, edits)
      && OneByOne([], 1, edits) == [g]
      && Saved([], Accumulated(1, edits)) == [f, g]
  {
    hide *;
    var n := f.number;
    NoEditsYet(f, g);
    AddingOne([], f, LevelState({}, []));
    DeletingOne([] + [Adding(f)], f, LevelState({} - {n}, Inserted([], f)));
    AddingOne([] + [Adding(f)] + [Deleting(n)], g, LevelState({} - {n} + {n}, Inserted([], f)));
    assert {} - {n} + {n} - {n} == {};
    assert [] + [Adding(f)] + [Deleting(n)] + [Adding(g)] == [Adding(f), Deleting(n), Adding(g)];
    SavedTwo(f, g);
  }

  // ---------- What a compaction's edit does ----------

  /** InstallCompactionResults: AddInputDeletions, then the outputs at the next level; the pointer was set with the
      inputs. */
  ghost function CompactionEdit(level: nat, in0: set<File>, in1: set<File>, outs: seq<File>, pointer: IKey): FileEdit {
    FileEdit([(level, pointer)], (set f | f in in0 :: (level, f.number)) + (set f | f in in1 :: (level + 1, f.number)),
                seq(|outs|, i requires 0 <= i < |outs| => (level + 1, outs[i])))
  }

  lemma {:induction false} AddedAtOneLevel(l: nat, level: nat, outs: seq<File>, newFiles: seq<(nat, File)>)
    requires |newFiles| == |outs| && forall i :: 0 <= i < |outs| ==> newFiles[i] == (level, outs[i])
    ensures AddedAt(l, newFiles) == if l == level then outs else []
  {
    if outs != [] {
      var n := |outs| - 1;
      AddedAtOneLevel(l, level, outs[..n], newFiles[..n]);
      assert outs[..n] + [outs[n]] == outs;
    }
  }

  /** Applied to the current version, it replaces the inputs by the outputs: the sets `Installs` reasons about. */
  lemma CompactionEditInstalls(base: seq<seq<File>>, sets: Levels, level: nat, in0: set<File>, in1: set<File>,
                               outs: seq<File>, pointer: IKey, l: nat)
    requires |base| == NUM_LEVELS && |sets| == NUM_LEVELS && l < NUM_LEVELS && level + 1 < NUM_LEVELS
    requires forall k :: 0 <= k < NUM_LEVELS ==> sets[k] == Members(base[k])
    requires Ascending(base[l]) && NumbersDiffer(sets[l])
    requires in0 <= sets[level] && in1 <= sets[level + 1] && AllNew(outs, Numbers(sets[level + 1]))
    ensures Members(Saved(base[l], Applied(LevelState({}, []), l, CompactionEdit(level, in0, in1, outs, pointer))))
         == Installs.Installed(sets, level, in0, in1, Members(outs))[l]
  {
    var edit := CompactionEdit(level, in0, in1, outs, pointer);
    var gone := if l == level then in0 else if l == level + 1 then in1 else {};
    var added := if l == level + 1 then outs else [];
    AddedAtOneLevel(l, level + 1, outs, edit.newFiles);
    DeletedAtLevel(level, in0, in1, outs, pointer, l);
    ReplacedFiles(base[l], sets[l], l, edit, gone, added);
    InstalledAt(sets, level, in0, in1, Members(outs), l);
  }

  lemma InstalledAt(sets: Levels, level: nat, in0: set<File>, in1: set<File>, outs: set<File>, l: nat)
    requires |sets| == NUM_LEVELS && l < NUM_LEVELS && level + 1 < NUM_LEVELS
    ensures Installs.Installed(sets, level, in0, in1, outs)[l]
         == if l == level then sets[l] - in0 else if l == level + 1 then (sets[l] - in1) + outs else sets[l]
  {
  }

  lemma ReplacedFiles(base: seq<File>, files: set<File>, l: nat, edit: FileEdit, gone: set<File>, outs: seq<File>)
    requires Ascending(base) && files == Members(base) && NumbersDiffer(files)
    requires gone <= files && AllNew(outs, Numbers(files))
    requires AddedAt(l, edit.newFiles) == outs && DeletedAt(l, edit.deletedFiles) == Numbers(gone)
    ensures Members(Saved(base, Applied(LevelState({}, []), l, edit))) == (files - gone) + Members(outs)
  {
    OneEditIs(l, edit);
    SavedInOrder(base, Applied(LevelState({}, []), l, edit));
    GoneByNumber(files, gone, Members(outs));
  }

  /** Where numbers differ, taking files away by number takes away just those files. */
  lemma GoneByNumber(files: set<File>, gone: set<File>, outs: set<File>)
    requires NumbersDiffer(files) && gone <= files && forall f :: f in outs ==> f.number !in Numbers(files)
    ensures (set f | f in files + outs && f.number !in Numbers(gone)) == (files - gone) + outs
  {
  }

  lemma DeletedAtLevel(level: nat, in0: set<File>, in1: set<File>, outs: seq<File>, pointer: IKey, l: nat)
    ensures DeletedAt(l, CompactionEdit(level, in0, in1, outs, pointer).deletedFiles)
         == Numbers(if l == level then in0 else if l == level + 1 then in1 else {})
  {
    var d := CompactionEdit(level, in0, in1, outs, pointer).deletedFiles;
    forall f: File | f in in0 && l == level ensures f.number in DeletedAt(l, d) {
      assert (level, f.number) in d;
    }
    forall f: File | f in in1 && l == level + 1 ensures f.number in DeletedAt(l, d) {
      assert (level + 1, f.number) in d;
    }
  }
}
