/** The skip list (db/skiplist.h): one writer storing pointers one at a time, readers that search
    meanwhile without a lock.

    Nodes live in an arena and are known by their index in it; no node is ever freed. Loads and stores
    of one pointer are atomic. `levels[i]` is the set of nodes published at level `i`. */
module SkipLists {

  /** A key's place in the comparator's order; every countable order embeds into the reals. */
  type Key = real

  const MAX_HEIGHT: nat := 12
  const HEAD: nat := 0
  const NIL: int := -1

  datatype Node = Node(key: Key, next: seq<int>)

  type Levels = seq<set<nat>>

  /** The order of nodes; the head comes before every key. */
  predicate After(m: seq<Node>, y: nat, x: nat)
    requires y < |m| && x < |m|
  {
    y != HEAD && (x == HEAD || m[x].key < m[y].key)
  }

  ghost predicate InArena(m: seq<Node>, nodes: set<nat>, i: nat) {
    forall x :: x in nodes ==> x != HEAD && x < |m| && i < |m[x].next|
  }

  ghost predicate KeysDiffer(m: seq<Node>, nodes: set<nat>)
    requires forall x :: x in nodes ==> x < |m|
  {
    forall x, y :: x in nodes && y in nodes && m[x].key == m[y].key ==> x == y
  }

  /** `y` is the node of `nodes` that follows `x`, NIL if none does. */
  ghost predicate Follows(m: seq<Node>, nodes: set<nat>, x: nat, y: int)
    requires x < |m| && forall z :: z in nodes ==> z < |m|
  {
    if y == NIL then forall z :: z in nodes ==> !After(m, z, x)
    else y >= 0 && y in nodes && After(m, y, x) && forall z :: z in nodes && After(m, z, x) ==> m[y].key <= m[z].key
  }

  ghost predicate Linked(m: seq<Node>, nodes: set<nat>, i: nat, x: nat) {
    && InArena(m, nodes, i)
    && x < |m| && i < |m[x].next|
    && Follows(m, nodes, x, m[x].next[i])
  }

  /** Level `i` is a sorted list of exactly `nodes`. */
  ghost predicate LevelOk(m: seq<Node>, nodes: set<nat>, i: nat) {
    && InArena(m, nodes, i)
    && KeysDiffer(m, nodes)
    && forall x {:trigger Linked(m, nodes, i, x)} :: x == HEAD || x in nodes ==> Linked(m, nodes, i, x)
  }

  /** Each level is a sorted list and holds only nodes of the level below. */
  ghost predicate ListOk(m: seq<Node>, levels: Levels) {
    && |levels| == MAX_HEIGHT
    && (forall i {:trigger LevelOk(m, levels[i], i)} :: 0 <= i < MAX_HEIGHT ==> LevelOk(m, levels[i], i))
    && (forall i, j :: 0 <= i <= j < MAX_HEIGHT ==> levels[j] <= levels[i])
  }

  // ---------- The writer ----------

  /** What Insert is doing: nothing, or linking `node` at level `i`, whose own pointer is `prepared` or not. */
  datatype Writer = Idle | Linking(node: nat, prev: seq<nat>, i: nat, prepared: bool)

  /** `p` is the last node of `nodes` before `key`, and no node of `nodes` has that key. */
  ghost predicate IsPrev(m: seq<Node>, nodes: set<nat>, i: nat, key: Key, p: nat) {
    && InArena(m, nodes, i)
    && (p == HEAD || p in nodes) && p < |m| && i < |m[p].next|
    && (p == HEAD || m[p].key < key)
    && forall z :: z in nodes && After(m, z, p) ==> key < m[z].key
  }

  ghost predicate WriterOk(m: seq<Node>, levels: Levels, w: Writer)
    requires |levels| == MAX_HEIGHT
  {
    w.Linking? ==>
      && w.node != HEAD && w.node < |m|
      && w.i < |m[w.node].next| == |w.prev| <= MAX_HEIGHT
      && (forall j :: w.i <= j < MAX_HEIGHT ==> w.node !in levels[j])
      && (forall j {:trigger w.prev[j]} :: w.i <= j < |w.prev| ==> IsPrev(m, levels[j], j, m[w.node].key, w.prev[j]))
      && (forall j :: 0 <= j < w.i ==> w.node in levels[j])
      && (w.prepared ==> m[w.node].next[w.i] == m[w.prev[w.i]].next[w.i])
  }

  function SetNext(m: seq<Node>, x: nat, i: nat, y: int): seq<Node>
    requires x < |m| && i < |m[x].next|
  {
    m[x := m[x].(next := m[x].next[i := y])]
  }

  /** NewNode, after the search that filled `prev`. */
  ghost predicate Allocates(m: seq<Node>, levels: Levels, w: Writer, key: Key, prev: seq<nat>, m': seq<Node>, w': Writer)
    requires |levels| == MAX_HEIGHT
  {
    && w.Idle?
    && 0 < |prev| <= MAX_HEIGHT
    && (forall j {:trigger prev[j]} :: 0 <= j < |prev| ==> IsPrev(m, levels[j], j, key, prev[j]))
    && |m'| == |m| + 1 && m'[..|m|] == m && m'[|m|].key == key && |m'[|m|].next| == |prev|
    && w' == Linking(|m|, prev, 0, false)
  }

  /** The new node, not reachable yet at this level, takes over its predecessor's successor. */
  ghost predicate Prepares(m: seq<Node>, levels: Levels, w: Writer, m': seq<Node>, w': Writer)
    requires |levels| == MAX_HEIGHT && WriterOk(m, levels, w)
  {
    && w.Linking? && !w.prepared
    && m' == SetNext(m, w.node, w.i, m[w.prev[w.i]].next[w.i])
    && w' == w.(prepared := true)
  }

  /** The releasing store into the predecessor, which makes the node reachable at this level. */
  ghost predicate Publishes(m: seq<Node>, levels: Levels, w: Writer, m': seq<Node>, levels': Levels, w': Writer)
    requires |levels| == MAX_HEIGHT && WriterOk(m, levels, w)
  {
    && w.Linking? && w.prepared
    && m' == SetNext(m, w.prev[w.i], w.i, w.node)
    && levels' == levels[w.i := levels[w.i] + {w.node}]
    && w' == if w.i + 1 == |w.prev| then Idle else w.(i := w.i + 1, prepared := false)
  }

  // ---------- Stores keep the lists ----------

  /** A store into a node that level `j` does not use, or at another level, does not touch level `j`. */
  lemma LevelUntouched(m: seq<Node>, nodes: set<nat>, j: nat, m': seq<Node>)
    requires LevelOk(m, nodes, j) && |m| <= |m'|
    requires forall x :: 0 <= x < |m| ==> m'[x].key == m[x].key && |m'[x].next| == |m[x].next|
    requires forall x :: (x == HEAD || x in nodes) && x < |m| && j < |m[x].next| ==> m'[x].next[j] == m[x].next[j]
    ensures LevelOk(m', nodes, j)
  {
    assert Linked(m, nodes, j, HEAD);
    forall x | x == HEAD || x in nodes ensures Linked(m', nodes, j, x) {
      assert Linked(m, nodes, j, x);
    }
  }

  /** Nothing but the keys of other nodes matters for where a node's pointer should lead. */
  ghost predicate SameNodes(m: seq<Node>, m': seq<Node>) {
    && |m| <= |m'|
    && forall x :: 0 <= x < |m| ==> m'[x].key == m[x].key && |m'[x].next| == |m[x].next|
  }

  lemma OthersKeepTheirNext(m: seq<Node>, nodes: set<nat>, i: nat, p: nat, n: nat, x: nat, m': seq<Node>)
    requires LevelOk(m, nodes, i) && SameNodes(m, m')
    requires n != HEAD && n < |m| && i < |m[n].next|
    requires IsPrev(m, nodes, i, m[n].key, p)
    requires (x == HEAD || x in nodes) && x != p && x < |m| && i < |m[x].next| && m'[x].next[i] == m[x].next[i]
    ensures Linked(m', nodes + {n}, i, x)
  {
    assert Linked(m, nodes, i, x);
    if After(m, n, x) {
      assert p in nodes && After(m, p, x);
    }
  }

  lemma PublishedNodeIsLinked(m: seq<Node>, nodes: set<nat>, i: nat, p: nat, n: nat, m': seq<Node>)
    requires InArena(m, nodes, i) && SameNodes(m, m')
    requires n != HEAD && n < |m| && i < |m[n].next| && n !in nodes
    requires IsPrev(m, nodes, i, m[n].key, p) && Linked(m, nodes, i, p)
    requires m'[n].next[i] == m[p].next[i]
    ensures Linked(m', nodes + {n}, i, n)
  {
  }

  lemma PrevLeadsToPublished(m: seq<Node>, nodes: set<nat>, i: nat, p: nat, n: nat, m': seq<Node>)
    requires InArena(m, nodes, i) && SameNodes(m, m')
    requires n != HEAD && n < |m| && i < |m[n].next| && n !in nodes
    requires IsPrev(m, nodes, i, m[n].key, p)
    requires m'[p].next[i] == n
    ensures Linked(m', nodes + {n}, i, p)
  {
  }

  lemma PublishKeepsKeysApart(m: seq<Node>, nodes: set<nat>, i: nat, p: nat, n: nat)
    requires InArena(m, nodes, i) && KeysDiffer(m, nodes)
    requires n < |m| && IsPrev(m, nodes, i, m[n].key, p)
    ensures KeysDiffer(m, nodes + {n})
  {
  }

  /** The store that publishes `n` after `p` makes it a member of the list, in its place. */
  lemma PublishLinks(m: seq<Node>, nodes: set<nat>, i: nat, p: nat, n: nat, m': seq<Node>)
    requires LevelOk(m, nodes, i)
    requires n != HEAD && n < |m| && i < |m[n].next| && n !in nodes
    requires IsPrev(m, nodes, i, m[n].key, p) && m[n].next[i] == m[p].next[i]
    requires m' == SetNext(m, p, i, n)
    ensures LevelOk(m', nodes + {n}, i)
  {
    PublishKeepsKeysApart(m, nodes, i, p, n);
    forall x | x == HEAD || x in nodes + {n} ensures Linked(m', nodes + {n}, i, x) {
      if x == n {
        assert Linked(m, nodes, i, p);
        PublishedNodeIsLinked(m, nodes, i, p, n, m');
      } else if x == p {
        PrevLeadsToPublished(m, nodes, i, p, n, m');
      } else {
        assert Linked(m, nodes, i, x);
        OthersKeepTheirNext(m, nodes, i, p, n, x, m');
      }
    }
  }

  /** What a search depends on in a level is not changed by a store elsewhere. */
  lemma PrevKept(m: seq<Node>, nodes: set<nat>, i: nat, key: Key, p: nat, m': seq<Node>)
    requires IsPrev(m, nodes, i, key, p) && SameNodes(m, m')
    ensures IsPrev(m', nodes, i, key, p)
  {
  }

  // ---------- Every step of the writer keeps the lists ----------

  lemma AllocateKeeps(m: seq<Node>, levels: Levels, w: Writer, key: Key, prev: seq<nat>, m': seq<Node>, w': Writer)
    requires ListOk(m, levels) && WriterOk(m, levels, w)
    requires Allocates(m, levels, w, key, prev, m', w')
    ensures ListOk(m', levels) && WriterOk(m', levels, w')
  {
    assert SameNodes(m, m');
    assert LevelOk(m, levels[0], 0) && Linked(m, levels[0], 0, HEAD);
    forall j | 0 <= j < MAX_HEIGHT ensures LevelOk(m', levels[j], j) && |m| !in levels[j] {
      assert LevelOk(m, levels[j], j);
      LevelUntouched(m, levels[j], j, m');
    }
    forall j | 0 <= j < |prev| ensures IsPrev(m', levels[j], j, key, prev[j]) {
      PrevKept(m, levels[j], j, key, prev[j], m');
    }
  }

  lemma PrepareKeeps(m: seq<Node>, levels: Levels, w: Writer, m': seq<Node>, w': Writer)
    requires ListOk(m, levels) && WriterOk(m, levels, w)
    requires Prepares(m, levels, w, m', w')
    ensures ListOk(m', levels) && WriterOk(m', levels, w')
  {
    assert SameNodes(m, m');
    forall j | 0 <= j < MAX_HEIGHT ensures LevelOk(m', levels[j], j) {
      assert LevelOk(m, levels[j], j);
      LevelUntouched(m, levels[j], j, m');
    }
    forall j | w.i <= j < |w.prev| ensures IsPrev(m', levels[j], j, m'[w.node].key, w.prev[j]) {
      PrevKept(m, levels[j], j, m[w.node].key, w.prev[j], m');
    }
  }

  lemma PublishKeepsLists(m: seq<Node>, levels: Levels, w: Writer, m': seq<Node>, levels': Levels, w': Writer)
    requires ListOk(m, levels) && WriterOk(m, levels, w)
    requires Publishes(m, levels, w, m', levels', w')
    ensures ListOk(m', levels')
  {
    var i, p, n := w.i, w.prev[w.i], w.node;
    assert SameNodes(m, m');
    assert IsPrev(m, levels[i], i, m[n].key, w.prev[i]);
    forall j | 0 <= j < MAX_HEIGHT ensures LevelOk(m', levels'[j], j) {
      assert LevelOk(m, levels[j], j);
      if j == i {
        PublishLinks(m, levels[i], i, p, n, m');
      } else {
        LevelUntouched(m, levels[j], j, m');
      }
    }
  }

  lemma PublishKeepsWriter(m: seq<Node>, levels: Levels, w: Writer, m': seq<Node>, levels': Levels, w': Writer)
    requires ListOk(m, levels) && WriterOk(m, levels, w)
    requires Publishes(m, levels, w, m', levels', w')
    ensures |levels'| == MAX_HEIGHT && WriterOk(m', levels', w')
  {
    var i, n := w.i, w.node;
    assert IsPrev(m, levels[i], i, m[n].key, w.prev[i]);
    assert SameNodes(m, m');
    forall j | i < j < |w.prev| ensures IsPrev(m', levels'[j], j, m'[n].key, w.prev[j]) {
      PrevKept(m, levels[j], j, m[n].key, w.prev[j], m');
    }
  }

  // ---------- Readers ----------

  /** What is searched for: a key, or (FindLast) the end. */
  datatype Target = At(key: Key) | End

  /** KeyIsAfterNode: `target` is after node `y`. */
  predicate Behind(m: seq<Node>, y: int, target: Target)
    requires y == NIL || 0 <= y < |m|
  {
    y != NIL && (target.End? || m[y].key < target.key)
  }

  /** A search under way at node `x` of `level`, or over: between `x` and `next`. */
  datatype Search = Searching(target: Target, x: nat, level: nat) | Found(target: Target, x: nat, next: int)

  ghost predicate SearchOk(m: seq<Node>, levels: Levels, r: Search)
    requires |levels| == MAX_HEIGHT
  {
    r.Searching? ==>
      && r.level < MAX_HEIGHT && r.x < |m|
      && (r.x == HEAD || (r.x in levels[r.level] && Behind(m, r.x, r.target)))
  }

  /** One turn of the search loop: one load, then a move along the level, or down, or the end. */
  ghost predicate Loads(m: seq<Node>, r: Search, r': Search) {
    && r.Searching? && r.x < |m| && r.level < |m[r.x].next|
    && var next := m[r.x].next[r.level];
    && (next == NIL || 0 <= next < |m|)
    && r' == if Behind(m, next, r.target) then Searching(r.target, next, r.level)
             else if r.level == 0 then Found(r.target, r.x, next)
             else Searching(r.target, r.x, r.level - 1)
  }

  /** The last load can always be made, and leads to the next. */
  lemma LoadIsSafe(m: seq<Node>, levels: Levels, r: Search) returns (r': Search)
    requires ListOk(m, levels) && SearchOk(m, levels, r) && r.Searching?
    ensures Loads(m, r, r')
  {
    assert LevelOk(m, levels[r.level], r.level);
    assert Linked(m, levels[r.level], r.level, r.x);
    var next := m[r.x].next[r.level];
    r' := if Behind(m, next, r.target) then Searching(r.target, next, r.level)
          else if r.level == 0 then Found(r.target, r.x, next)
          else Searching(r.target, r.x, r.level - 1);
  }

  /** `next` is the first of `nodes` not before the target, and `x` the last one before it (or the head). */
  ghost predicate Splits(m: seq<Node>, nodes: set<nat>, target: Target, x: nat, next: int)
    requires InArena(m, nodes, 0)
  {
    && (x == HEAD || (x in nodes && Behind(m, x, target)))
    && (next == NIL || (next >= 0 && next in nodes && !Behind(m, next, target)))
    && (forall z :: z in nodes && Behind(m, z, target) ==> x != HEAD && m[z].key <= m[x].key)
    && (forall z :: z in nodes && !Behind(m, z, target) ==> next >= 0 && next in nodes && m[next].key <= m[z].key)
  }

  lemma LoadKeepsSearch(m: seq<Node>, levels: Levels, r: Search, r': Search)
    requires ListOk(m, levels) && SearchOk(m, levels, r) && Loads(m, r, r')
    ensures SearchOk(m, levels, r')
    ensures r'.Found? ==> InArena(m, levels[0], 0) && Splits(m, levels[0], r'.target, r'.x, r'.next)
  {
    var level := r.level;
    assert LevelOk(m, levels[level], level);
    assert Linked(m, levels[level], level, r.x);
    if r'.Found? {
      FoundSplits(m, levels[0], r);
    }
  }

  lemma FoundSplits(m: seq<Node>, nodes: set<nat>, r: Search)
    requires LevelOk(m, nodes, 0)
    requires r.Searching? && r.level == 0 && r.x < |m| && 0 < |m[r.x].next|
    requires r.x == HEAD || (r.x in nodes && Behind(m, r.x, r.target))
    requires Linked(m, nodes, 0, r.x) && !Behind(m, m[r.x].next[0], r.target)
    ensures Splits(m, nodes, r.target, r.x, m[r.x].next[0])
  {
    forall z | z in nodes && Behind(m, z, r.target) ensures r.x != HEAD && m[z].key <= m[r.x].key {
      assert !After(m, z, r.x);
    }
    forall z | z in nodes && !Behind(m, z, r.target)
      ensures var next := m[r.x].next[0]; next >= 0 && next in nodes && m[next].key <= m[z].key
    {
      assert After(m, z, r.x);
    }
  }

  // ---------- Runs ----------

  datatype State = State(m: seq<Node>, levels: Levels, w: Writer, r: Search)

  datatype Step = Allocate(key: Key, prev: seq<nat>) | Prepare | Publish | Load

  ghost predicate Inv(s: State) {
    ListOk(s.m, s.levels) && WriterOk(s.m, s.levels, s.w) && SearchOk(s.m, s.levels, s.r)
  }

  ghost predicate Next(s: State, step: Step, s': State)
    requires |s.levels| == MAX_HEIGHT && WriterOk(s.m, s.levels, s.w)
  {
    match step
    case Allocate(key, prev) =>
      s'.levels == s.levels && s'.r == s.r && Allocates(s.m, s.levels, s.w, key, prev, s'.m, s'.w)
    case Prepare =>
      s'.levels == s.levels && s'.r == s.r && Prepares(s.m, s.levels, s.w, s'.m, s'.w)
    case Publish =>
      s'.r == s.r && Publishes(s.m, s.levels, s.w, s'.m, s'.levels, s'.w)
    case Load =>
      s'.m == s.m && s'.levels == s.levels && s'.w == s.w && Loads(s.m, s.r, s'.r)
  }

  /** Stores do not disturb a search under way. */
  lemma StoresKeepSearch(m: seq<Node>, levels: Levels, r: Search, m': seq<Node>, levels': Levels)
    requires |levels| == MAX_HEIGHT && |levels'| == MAX_HEIGHT
    requires SearchOk(m, levels, r) && SameNodes(m, m')
    requires forall i :: 0 <= i < MAX_HEIGHT ==> levels[i] <= levels'[i]
    ensures SearchOk(m', levels', r)
  {
  }

  ghost predicate Grows(levels: Levels, levels': Levels) {
    && |levels| == MAX_HEIGHT && |levels'| == MAX_HEIGHT
    && forall i :: 0 <= i < MAX_HEIGHT ==> levels[i] <= levels'[i]
  }

  /** Every step, a store of the writer or a load of the reader, keeps every level a sorted list
      and a sublist of the level below, and the search on its way. */
  lemma StepKeepsInv(s: State, step: Step, s': State)
    requires Inv(s) && Next(s, step, s')
    ensures Inv(s') && Grows(s.levels, s'.levels) && SameNodes(s.m, s'.m)
  {
    match step
    case Allocate(key, prev) =>
      AllocateKeeps(s.m, s.levels, s.w, key, prev, s'.m, s'.w);
      StoresKeepSearch(s.m, s.levels, s.r, s'.m, s'.levels);
    case Prepare =>
      PrepareKeeps(s.m, s.levels, s.w, s'.m, s'.w);
      StoresKeepSearch(s.m, s.levels, s.r, s'.m, s'.levels);
    case Publish =>
      PublishKeepsLists(s.m, s.levels, s.w, s'.m, s'.levels, s'.w);
      PublishKeepsWriter(s.m, s.levels, s.w, s'.m, s'.levels, s'.w);
      StoresKeepSearch(s.m, s.levels, s.r, s'.m, s'.levels);
    case Load =>
      LoadKeepsSearch(s.m, s.levels, s.r, s'.r);
  }

  ghost predicate IsRun(run: seq<State>, steps: seq<Step>) {
    && |run| == |steps| + 1 && Inv(run[0])
    && forall i :: 0 <= i < |steps| ==> StepAt(run, steps, i)
  }

  ghost predicate StepAt(run: seq<State>, steps: seq<Step>, i: nat)
    requires i < |steps| && |run| == |steps| + 1
  {
    Inv(run[i]) ==> Next(run[i], steps[i], run[i + 1])
  }

  lemma {:induction false} RunKeepsInv(run: seq<State>, steps: seq<Step>, i: nat)
    requires IsRun(run, steps) && i < |run|
    ensures Inv(run[i]) && Grows(run[0].levels, run[i].levels) && SameNodes(run[0].m, run[i].m)
  {
    if i > 0 {
      RunKeepsInv(run, steps, i - 1);
      assert StepAt(run, steps, i - 1);
      StepKeepsInv(run[i - 1], steps[i - 1], run[i]);
    }
  }

  /** A search that ends answers for the list as it is at its last load, whatever was stored meanwhile:
      so no node that was in the list when the search began is missed. */
  lemma SearchMissesNothing(run: seq<State>, steps: seq<Step>, i: nat)
    requires IsRun(run, steps) && i < |steps| && steps[i].Load? && run[i + 1].r.Found?
    ensures Inv(run[i]) && Inv(run[i + 1])
    ensures var s, r := run[i], run[i + 1].r;
      && InArena(s.m, s.levels[0], 0) && Splits(s.m, s.levels[0], r.target, r.x, r.next)
      && forall z :: z in run[0].levels[0] ==>
           z < |s.m| &&
           if Behind(s.m, z, r.target) then r.x != HEAD && s.m[z].key <= s.m[r.x].key
           else r.next >= 0 && r.next in s.levels[0] && s.m[r.next].key <= s.m[z].key
  {
    RunKeepsInv(run, steps, i);
    RunKeepsInv(run, steps, i + 1);
    assert StepAt(run, steps, i);
    LoadKeepsSearch(run[i].m, run[i].levels, run[i].r, run[i + 1].r);
  }

  // ---------- The list itself ----------

  class SkipList {
    var nodes: seq<Node>
    var maxHeight: nat
    ghost var levels: Levels

    ghost predicate Valid()
      reads this
    {
      ListOk(nodes, levels) && 0 < maxHeight <= MAX_HEIGHT
      && forall i :: maxHeight <= i < MAX_HEIGHT ==> levels[i] == {}
    }

    /** The keys in the list. */
    ghost function Keys(): set<Key>
      reads this
    {
      if |levels| == MAX_HEIGHT then set x | x in levels[0] && x < |nodes| :: nodes[x].key else {}
    }

    constructor ()
      ensures Valid() && Keys() == {}
    {
      nodes := [Node(0.0, seq(MAX_HEIGHT, _ => NIL))];
      maxHeight := 1;
      levels := seq(MAX_HEIGHT, _ => {});
      new;
      forall i | 0 <= i < MAX_HEIGHT ensures LevelOk(nodes, levels[i], i) {
        assert Linked(nodes, levels[i], i, HEAD);
      }
    }

    /** The search loop shared by FindGreaterOrEqual, FindLessThan and FindLast: the node before the
        target and the one at or after it; `prev` is where the search went down at each level. */
    method Find(target: Target) returns (x: nat, next: int, prev: seq<nat>)
      requires Valid()
      ensures InArena(nodes, levels[0], 0) && Splits(nodes, levels[0], target, x, next)
      ensures |prev| == maxHeight
      ensures target.At? ==> forall i {:trigger prev[i]} :: 0 <= i < maxHeight ==> WentDown(nodes, levels[i], i, target.key, prev[i])
    {
      x := HEAD;
      var level := maxHeight - 1;
      prev := seq(maxHeight, _ => HEAD);
      ghost var r := Searching(target, x, level);
      assert LevelOk(nodes, levels[level], level) && Linked(nodes, levels[level], level, HEAD);
      while true
        invariant 0 <= level < maxHeight && |prev| == maxHeight
        invariant r == Searching(target, x, level) && SearchOk(nodes, levels, r)
        invariant target.At? ==> forall i {:trigger prev[i]} :: level < i < maxHeight ==> WentDown(nodes, levels[i], i, target.key, prev[i])
        decreases level, Rest(nodes, levels[level], x)
      {
        ghost var r' := LoadIsSafe(nodes, levels, r);
        LoadKeepsSearch(nodes, levels, r, r');
        assert LevelOk(nodes, levels[level], level) && Linked(nodes, levels[level], level, x);
        next := nodes[x].next[level];
        if Behind(nodes, next, target) {
          FewerLeft(nodes, levels[level], x, next);
          x := next;
        } else {
          prev := prev[level := x];
          assert target.At? ==> WentDown(nodes, levels[level], level, target.key, x);
          if level == 0 {
            return;
          }
          level := level - 1;
        }
        r := r';
      }
    }

    method FindGreaterOrEqual(key: Key) returns (next: int, prev: seq<nat>)
      requires Valid()
      ensures next == NIL || (0 <= next < |nodes| && next in levels[0] && nodes[next].key >= key)
      ensures forall k :: k in Keys() && k >= key ==> next >= 0 && nodes[next].key <= k
      ensures |prev| == maxHeight
      ensures forall i {:trigger prev[i]} :: 0 <= i < maxHeight ==> WentDown(nodes, levels[i], i, key, prev[i])
    {
      var x;
      x, next, prev := Find(At(key));
    }

    /** The last node before `key`, the head if there is none. */
    method FindLessThan(key: Key) returns (x: nat)
      requires Valid()
      ensures x == HEAD || (x in levels[0] && x < |nodes| && nodes[x].key < key)
      ensures forall k :: k in Keys() && k < key ==> x != HEAD && x < |nodes| && k <= nodes[x].key
    {
      var next, prev;
      x, next, prev := Find(At(key));
    }

    method FindLast() returns (x: nat)
      requires Valid()
      ensures x == HEAD || (x in levels[0] && x < |nodes|)
      ensures forall k :: k in Keys() ==> x != HEAD && x < |nodes| && k <= nodes[x].key
    {
      var next, prev;
      x, next, prev := Find(End);
    }

    method Contains(key: Key) returns (found: bool)
      requires Valid()
      ensures found <==> key in Keys()
    {
      var next, prev := FindGreaterOrEqual(key);
      found := next != NIL && nodes[next].key == key;
    }

    /** Insert, of a key the list does not hold yet; `height` is RandomHeight's answer. */
    method Insert(key: Key, height: nat)
      requires Valid() && 0 < height <= MAX_HEIGHT && key !in Keys()
      modifies this
      ensures Valid() && Keys() == old(Keys()) + {key}
      ensures SameNodes(old(nodes), nodes) && Grows(old(levels), levels)
      ensures nodes[|nodes| - 1].key == key && forall i :: 0 <= i < MAX_HEIGHT ==>
                levels[i] == old(levels[i]) + if i < height then {|nodes| - 1} else {}
    {
      var next, prev := FindGreaterOrEqual(key);
      ghost var found := prev;
      if height > maxHeight {
        prev := prev + seq(height - maxHeight, _ => HEAD);
        maxHeight := height;
      }
      prev := prev[..height];
      forall i {:trigger prev[i]} | 0 <= i < |prev| ensures IsPrev(nodes, levels[i], i, key, prev[i]) {
        assert LevelOk(nodes, levels[i], i) && Linked(nodes, levels[i], i, HEAD);
        if i < |found| {
          assert WentDown(nodes, levels[i], i, key, found[i]);
          NewKeyIsBetween(i, key, found[i]);
        }
      }
      Link(key, prev);
    }

    lemma NewKeyIsBetween(i: nat, key: Key, p: nat)
      requires ListOk(nodes, levels) && i < MAX_HEIGHT && key !in Keys()
      requires WentDown(nodes, levels[i], i, key, p)
      ensures IsPrev(nodes, levels[i], i, key, p)
    {
      assert LevelOk(nodes, levels[0], 0);
      forall z | z in levels[i] && After(nodes, z, p) ensures key < nodes[z].key {
        assert z in levels[0] && nodes[z].key in Keys();
      }
    }

    /** Where `key` goes at each level. */
    ghost predicate Places(key: Key, prev: seq<nat>)
      requires |levels| == MAX_HEIGHT
      reads this
    {
      && 0 < |prev| <= MAX_HEIGHT
      && forall i {:trigger prev[i]} :: 0 <= i < |prev| ==> IsPrev(nodes, levels[i], i, key, prev[i])
    }

    /** The stores that Insert makes, one at a time, after its search. */
    method Link(key: Key, prev: seq<nat>)
      requires ListOk(nodes, levels) && 0 < maxHeight <= MAX_HEIGHT && |prev| <= maxHeight
      requires forall i :: maxHeight <= i < MAX_HEIGHT ==> levels[i] == {}
      requires Places(key, prev)
      modifies this`nodes, this`levels
      ensures Valid() && SameNodes(old(nodes), nodes) && Grows(old(levels), levels)
      ensures |nodes| == old(|nodes|) + 1 && nodes[|nodes| - 1].key == key
      ensures forall i :: 0 <= i < MAX_HEIGHT ==>
                levels[i] == old(levels[i]) + if i < |prev| then {|nodes| - 1} else {}
    {
      var x := |nodes|;
      ghost var m, l := nodes, levels;
      nodes := nodes + [Node(key, seq(|prev|, _ => NIL))];
      AllocateKeeps(m, levels, Idle, key, prev, nodes, Linking(x, prev, 0, false));
      var i := 0;
      while i < |prev|
        invariant i <= |prev| && |nodes| == x + 1 && nodes[x].key == key
        invariant ListOk(nodes, levels) && SameNodes(m, nodes)
        invariant WriterOk(nodes, levels, if i < |prev| then Linking(x, prev, i, false) else Idle)
        invariant forall j :: 0 <= j < MAX_HEIGHT ==> levels[j] == l[j] + if j < i then {x} else {}
      {
        LinkLevel(x, prev, i);
        i := i + 1;
      }
    }

    /** The two stores that Insert makes at level `i`. */
    method LinkLevel(x: nat, prev: seq<nat>, i: nat)
      requires ListOk(nodes, levels) && i < |prev| <= MAX_HEIGHT
      requires WriterOk(nodes, levels, Linking(x, prev, i, false))
      modifies this`nodes, this`levels
      ensures ListOk(nodes, levels) && SameNodes(old(nodes), nodes) && |nodes| == old(|nodes|)
      ensures WriterOk(nodes, levels, if i + 1 < |prev| then Linking(x, prev, i + 1, false) else Idle)
      ensures levels == old(levels)[i := old(levels[i]) + {x}]
    {
      ghost var w, w1 := Linking(x, prev, i, false), Linking(x, prev, i, true);
      ghost var w2 := if i + 1 < |prev| then Linking(x, prev, i + 1, false) else Idle;
      assert IsPrev(nodes, levels[i], i, nodes[x].key, prev[i]);
      ghost var m := nodes;
      nodes := SetNext(nodes, x, i, nodes[prev[i]].next[i]);
      PrepareKeeps(m, levels, w, nodes, w1);
      ghost var m1, l := nodes, levels;
      assert IsPrev(nodes, levels[i], i, nodes[x].key, prev[i]);
      nodes := SetNext(nodes, prev[i], i, x);
      levels := levels[i := levels[i] + {x}];
      PublishKeepsLists(m1, l, w1, nodes, levels, w2);
      PublishKeepsWriter(m1, l, w1, nodes, levels, w2);
    }
  }

  /** The nodes of a level after `x`: what the search can still pass. */
  ghost function Rest(m: seq<Node>, nodes: set<nat>, x: nat): set<nat> {
    set z | z in nodes && z < |m| && x < |m| && After(m, z, x)
  }

  lemma FewerLeft(m: seq<Node>, nodes: set<nat>, x: nat, y: nat)
    requires x < |m| && y < |m| && y in nodes && After(m, y, x)
    ensures Rest(m, nodes, y) < Rest(m, nodes, x)
  {
    assert y in Rest(m, nodes, x) && y !in Rest(m, nodes, y);
  }

  /** Where a search for `key` left level `i`: at the last node before it. */
  ghost predicate WentDown(m: seq<Node>, nodes: set<nat>, i: nat, key: Key, p: nat) {
    && InArena(m, nodes, i)
    && (p == HEAD || p in nodes) && p < |m| && i < |m[p].next|
    && (p == HEAD || m[p].key < key)
    && forall z :: z in nodes && After(m, z, p) ==> key <= m[z].key
  }
}
