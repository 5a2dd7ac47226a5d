/** The LRU cache (util/cache.cc: LRUCache): reference-counted handles in a hash table and on two circular
    lists, one for handles that clients hold and one, oldest first, for those that may be evicted.

    A handle is known by number and its memory is never reused here, so that "freed" can be said of it:
    `deleted` lists the handles passed to their deleters, in order. */
module LruCache {
  import opened Keys
  import opened HandleTables
  import opened Rings

  /** The dummy heads `lru_` and `in_use_`. */
  const LRU: nat := 0
  const IN_USE: nat := 1

  datatype Handle = Handle(value: nat, charge: nat, refs: nat, inCache: bool)

  function Total(handles: seq<Handle>, s: seq<nat>): nat {
    if s == [] then 0
    else Total(handles, s[..|s| - 1]) + if s[|s| - 1] < |handles| then handles[s[|s| - 1]].charge else 0
  }

  ghost predicate OneList(lru: seq<nat>, inUse: seq<nat>, h: nat) {
    h !in lru || h !in inUse
  }

  /** Two lists, and no handle on both. */
  ghost predicate ListsOk(links: Links, lru: seq<nat>, inUse: seq<nat>) {
    && Ring(links, LRU, lru) && Ring(links, IN_USE, inUse)
    && LRU !in inUse && IN_USE !in lru
    && forall h {:trigger OneList(lru, inUse, h)} :: OneList(lru, inUse, h)
  }

  /** What the counts of handle `h` say; `slack` has one reference more that is about to be dropped. */
  ghost predicate HandleOk(h: nat, x: Handle, held: nat, onLru: bool, onInUse: bool, isDeleted: bool, slack: int) {
    && x.refs == held + (if x.inCache then 1 else 0) + (if h == slack then 1 else 0)
    && (x.inCache <==> onLru || onInUse)
    && (onLru ==> x.refs == 1) && (onInUse ==> x.refs >= 2)
    && (isDeleted <==> x.refs == 0)
  }

  ghost predicate HandleAt(handles: seq<Handle>, held: seq<nat>, lru: seq<nat>, inUse: seq<nat>, deleted: seq<nat>, slack: int, h: nat)
    requires h < |handles| && h < |held|
  {
    HandleOk(h, handles[h], held[h], h in lru, h in inUse, h in deleted, slack)
  }

  ghost predicate CountsOk(handles: seq<Handle>, held: seq<nat>, lru: seq<nat>, inUse: seq<nat>, deleted: seq<nat>, slack: int) {
    && |held| == |handles| >= 2
    && (forall h {:trigger HandleAt(handles, held, lru, inUse, deleted, slack, h)} :: 2 <= h < |handles| ==>
          HandleAt(handles, held, lru, inUse, deleted, slack, h))
    && (forall h :: h in deleted ==> 2 <= h < |handles|)
    && (forall i, j :: 0 <= i < j < |deleted| ==> deleted[i] != deleted[j])
  }

  lemma {:induction false} TotalOfJoin(handles: seq<Handle>, s: seq<nat>, t: seq<nat>)
    ensures Total(handles, s + t) == Total(handles, s) + Total(handles, t)
  {
    if t == [] {
      assert s + t == s;
    } else {
      var n := |t| - 1;
      assert (s + t)[..|s + t| - 1] == s + t[..n];
      TotalOfJoin(handles, s, t[..n]);
    }
  }

  lemma TotalWithout(handles: seq<Handle>, s: seq<nat>, k: nat)
    requires k < |s| && s[k] < |handles|
    ensures Total(handles, s) == Total(handles, Without(s, k)) + handles[s[k]].charge
  {
    var front, back := s[..k], s[k + 1..];
    assert s == front + ([s[k]] + back) && Without(s, k) == front + back;
    TotalOfJoin(handles, front, [s[k]] + back);
    TotalOfJoin(handles, [s[k]], back);
    TotalOfJoin(handles, front, back);
    assert [s[k]][..0] == [];
  }

  lemma TotalSnoc(handles: seq<Handle>, s: seq<nat>, e: nat)
    requires e < |handles|
    ensures Total(handles, s + [e]) == Total(handles, s) + handles[e].charge
  {
    assert (s + [e])[..|s|] == s;
  }

  /** Only charges matter for the total. */
  lemma {:induction false} TotalSame(handles: seq<Handle>, handles': seq<Handle>, s: seq<nat>)
    requires |handles| <= |handles'|
    requires forall h :: 0 <= h < |handles| ==> handles'[h].charge == handles[h].charge
    requires forall k :: 0 <= k < |s| ==> s[k] < |handles|
    ensures Total(handles', s) == Total(handles, s)
  {
    if s != [] {
      TotalSame(handles, handles', s[..|s| - 1]);
    }
  }

  /** Lists, counts and usage together. */
  ghost predicate Books(handles: seq<Handle>, held: seq<nat>, links: Links, lru: seq<nat>, inUse: seq<nat>,
                        deleted: seq<nat>, usage: nat, slack: int)
  {
    && |links.next| == |handles| && ListsOk(links, lru, inUse)
    && CountsOk(handles, held, lru, inUse, deleted, slack)
    && usage == Total(handles, lru) + Total(handles, inUse)
  }

  ghost function SetOf(s: seq<nat>): set<nat> {
    set h | h in s
  }

  ghost function Listing(lru: seq<nat>, inUse: seq<nat>): set<nat> {
    SetOf(lru) + SetOf(inUse)
  }

  // ---------- Moving a handle between the lists ----------

  lemma NotOnBoth(lru: seq<nat>, inUse: seq<nat>)
    requires forall h {:trigger OneList(lru, inUse, h)} :: OneList(lru, inUse, h)
    ensures forall h: nat :: h in lru ==> h !in inUse
  {
    forall h: nat | h in lru ensures h !in inUse {
      assert OneList(lru, inUse, h);
    }
  }

  /** Lists that only get shorter keep apart. */
  lemma StaysOnOne(lru: seq<nat>, inUse: seq<nat>, lru': seq<nat>, inUse': seq<nat>)
    requires forall h {:trigger OneList(lru, inUse, h)} :: OneList(lru, inUse, h)
    requires forall h: nat :: (h in lru' ==> h in lru) && (h in inUse' ==> h in inUse)
    ensures forall h {:trigger OneList(lru', inUse', h)} :: OneList(lru', inUse', h)
    ensures forall h: nat :: h in lru ==> h !in inUse
  {
    NotOnBoth(lru, inUse);
  }

  lemma RemoveFromLru(links: Links, lru: seq<nat>, inUse: seq<nat>, k: nat)
    requires ListsOk(links, lru, inUse) && k < |lru|
    ensures lru[k] < |links.next| && links.next[lru[k]] < |links.prev| && links.prev[lru[k]] < |links.next|
    ensures ListsOk(LruRemove(links, lru[k]), Without(lru, k), inUse)
    ensures lru[k] !in Without(lru, k) && lru[k] != LRU && lru[k] != IN_USE && lru[k] !in inUse
    ensures forall h :: h in lru <==> h in Without(lru, k) || h == lru[k]
  {
    RemoveKeepsRing(links, LRU, lru, k);
    WithoutMembers(LRU, lru, k);
    NodeAt(links, LRU, lru, k);
    RoundMembers(LRU, lru);
    StaysOnOne(lru, inUse, Without(lru, k), inUse);
    RingUntouched(links, IN_USE, inUse, LruRemove(links, lru[k]));
  }

  lemma RemoveFromInUse(links: Links, lru: seq<nat>, inUse: seq<nat>, k: nat)
    requires ListsOk(links, lru, inUse) && k < |inUse|
    ensures inUse[k] < |links.next| && links.next[inUse[k]] < |links.prev| && links.prev[inUse[k]] < |links.next|
    ensures ListsOk(LruRemove(links, inUse[k]), lru, Without(inUse, k))
    ensures inUse[k] !in Without(inUse, k) && inUse[k] != LRU && inUse[k] != IN_USE && inUse[k] !in lru
    ensures forall h :: h in inUse <==> h in Without(inUse, k) || h == inUse[k]
  {
    RemoveKeepsRing(links, IN_USE, inUse, k);
    WithoutMembers(IN_USE, inUse, k);
    NodeAt(links, IN_USE, inUse, k);
    RoundMembers(IN_USE, inUse);
    StaysOnOne(lru, inUse, lru, Without(inUse, k));
    RingUntouched(links, LRU, lru, LruRemove(links, inUse[k]));
  }

  lemma RoundMembers(head: nat, s: seq<nat>)
    ensures forall i :: 0 <= i < |s| + 2 ==> Round(head, s)[i] == head || Round(head, s)[i] in s
  {
  }

  lemma AppendToLru(links: Links, lru: seq<nat>, inUse: seq<nat>, e: nat)
    requires ListsOk(links, lru, inUse) && 2 <= e < |links.next| && e !in lru && e !in inUse
    ensures LRU < |links.next| && links.prev[LRU] < |links.next|
    ensures ListsOk(LruAppend(links, LRU, e), lru + [e], inUse)
  {
    AppendKeepsRing(links, LRU, lru, e);
    NotOnBoth(lru, inUse);
    RingNodes(links, LRU, lru);
    RingUntouched(links, IN_USE, inUse, LruAppend(links, LRU, e));
  }

  lemma AppendToInUse(links: Links, lru: seq<nat>, inUse: seq<nat>, e: nat)
    requires ListsOk(links, lru, inUse) && 2 <= e < |links.next| && e !in lru && e !in inUse
    ensures IN_USE < |links.next| && links.prev[IN_USE] < |links.next|
    ensures ListsOk(LruAppend(links, IN_USE, e), lru, inUse + [e])
  {
    AppendKeepsRing(links, IN_USE, inUse, e);
    NotOnBoth(lru, inUse);
    RingNodes(links, IN_USE, inUse);
    RingUntouched(links, LRU, lru, LruAppend(links, IN_USE, e));
  }

  ghost function IndexOf(s: seq<nat>, e: nat): (k: nat)
    requires e in s
    ensures k < |s| && s[k] == e
  {
    if s[0] == e then 0 else 1 + IndexOf(s[1..], e)
  }

  /** The list without `e`, the others in their order. */
  ghost function Taken(s: seq<nat>, e: nat): seq<nat> {
    if e in s then Without(s, IndexOf(s, e)) else s
  }

  lemma OthersStay(s: seq<nat>, e: nat)
    ensures forall h: nat :: h in s && h != e ==> h in Taken(s, e)
  {
    if e in s {
      var k := IndexOf(s, e);
      forall h: nat | h in s && h != e ensures h in Without(s, k) {
        var i :| 0 <= i < |s| && s[i] == h;
        assert Without(s, k)[if i < k then i else i - 1] == h;
      }
    }
  }

  /** A change to one handle only. */
  lemma CountsChange(handles: seq<Handle>, held: seq<nat>, lru: seq<nat>, inUse: seq<nat>, deleted: seq<nat>, slack: int,
                     e: nat, x: Handle, refs: nat, lru': seq<nat>, inUse': seq<nat>, deleted': seq<nat>, slack': int)
    requires CountsOk(handles, held, lru, inUse, deleted, slack) && 2 <= e < |handles|
    requires forall h: nat :: h != e ==> (h in lru' <==> h in lru) && (h in inUse' <==> h in inUse)
    requires deleted' == deleted || (deleted' == deleted + [e] && e !in deleted)
    requires (slack == e || slack == -1) && (slack' == e || slack' == -1)
    requires HandleOk(e, x, refs, e in lru', e in inUse', e in deleted', slack')
    ensures CountsOk(handles[e := x], held[e := refs], lru', inUse', deleted', slack')
  {
    var handles', held' := handles[e := x], held[e := refs];
    forall h | 2 <= h < |handles| ensures HandleAt(handles', held', lru', inUse', deleted', slack', h) {
      if h != e {
        assert HandleAt(handles, held, lru, inUse, deleted, slack, h);
      }
    }
  }

  /** Moving a handle from one list to the other does not change the sum of the totals. */
  lemma MovedTotals(handles: seq<Handle>, from: seq<nat>, to: seq<nat>, e: nat)
    requires e in from && e < |handles|
    ensures Total(handles, Taken(from, e)) + Total(handles, to + [e]) == Total(handles, from) + Total(handles, to)
  {
    TotalWithout(handles, from, IndexOf(from, e));
    TotalSnoc(handles, to, e);
  }

  /** Counts do not matter for the totals. */
  lemma TotalsKept(links: Links, lru: seq<nat>, inUse: seq<nat>, handles: seq<Handle>, e: nat, x: Handle)
    requires ListsOk(links, lru, inUse) && |links.next| == |handles| && e < |handles| && x.charge == handles[e].charge
    ensures Total(handles[e := x], lru) == Total(handles, lru) && Total(handles[e := x], inUse) == Total(handles, inUse)
  {
    RingNodes(links, LRU, lru);
    RingNodes(links, IN_USE, inUse);
    forall k | 0 <= k < |lru| ensures lru[k] < |handles| {
      assert lru[k] in lru;
    }
    forall k | 0 <= k < |inUse| ensures inUse[k] < |handles| {
      assert inUse[k] in inUse;
    }
    TotalSame(handles, handles[e := x], lru);
    TotalSame(handles, handles[e := x], inUse);
  }

  lemma TakenMembers(links: Links, head: nat, s: seq<nat>, e: nat)
    requires Ring(links, head, s)
    ensures forall h: nat :: h in Taken(s, e) <==> h in s && h != e
  {
    if e in s {
      WithoutMembers(head, s, IndexOf(s, e));
    }
  }

  lemma RefKeepsBooks(handles: seq<Handle>, held: seq<nat>, links: Links, lru: seq<nat>, inUse: seq<nat>, deleted: seq<nat>,
                      usage: nat, e: nat, x: Handle, links': Links, lru': seq<nat>, inUse': seq<nat>)
    requires Books(handles, held, links, lru, inUse, deleted, usage, -1) && 2 <= e < |handles| && handles[e].refs > 0
    requires ListsOk(links', lru', inUse') && |links'.next| == |handles|
    requires x == handles[e].(refs := handles[e].refs + 1)
    requires if handles[e].refs == 1 && handles[e].inCache then e in lru && lru' == Taken(lru, e) && inUse' == inUse + [e]
             else lru' == lru && inUse' == inUse
    ensures Books(handles[e := x], held[e := held[e] + 1], links', lru', inUse', deleted, usage, -1)
    ensures Listing(lru', inUse') == Listing(lru, inUse) && lru' == Taken(lru, e)
  {
    assert HandleAt(handles, held, lru, inUse, deleted, -1, e);
    TakenMembers(links, LRU, lru, e);
    CountsChange(handles, held, lru, inUse, deleted, -1, e, x, held[e] + 1, lru', inUse', deleted, -1);
    TotalsKept(links', lru', inUse', handles, e, x);
    if e in lru {
      MovedTotals(handles, lru, inUse, e);
    }
  }

  lemma UnrefKeepsBooks(handles: seq<Handle>, held: seq<nat>, links: Links, lru: seq<nat>, inUse: seq<nat>, deleted: seq<nat>,
                        usage: nat, e: nat, x: Handle, links': Links, lru': seq<nat>, inUse': seq<nat>)
    requires Books(handles, held, links, lru, inUse, deleted, usage, e) && 2 <= e < |handles| && handles[e].refs > 0
    requires ListsOk(links', lru', inUse') && |links'.next| == |handles|
    requires x == handles[e].(refs := handles[e].refs - 1)
    requires if x.refs == 1 && x.inCache then e in inUse && lru' == lru + [e] && inUse' == Taken(inUse, e)
             else lru' == lru && inUse' == inUse
    ensures Books(handles[e := x], held, links', lru', inUse', if x.refs == 0 then deleted + [e] else deleted, usage, -1)
    ensures Listing(lru', inUse') == Listing(lru, inUse)
  {
    hide Total, IndexOf, Ring;
    assert HandleAt(handles, held, lru, inUse, deleted, e, e);
    TakenMembers(links, IN_USE, inUse, e);
    CountsChange(handles, held, lru, inUse, deleted, e, e, x, held[e], lru', inUse',
                 if x.refs == 0 then deleted + [e] else deleted, -1);
    assert held[e := held[e]] == held;
    TotalsKept(links', lru', inUse', handles, e, x);
    if x.refs == 1 && x.inCache {
      MovedTotals(handles, inUse, lru, e);
    }
  }

  /** Who is where, by the counts. */
  lemma CountsTell(handles: seq<Handle>, held: seq<nat>, lru: seq<nat>, inUse: seq<nat>, deleted: seq<nat>, slack: int, e: nat)
    requires CountsOk(handles, held, lru, inUse, deleted, slack) && 2 <= e < |handles|
    ensures handles[e].inCache && handles[e].refs == 1 ==> e in lru
    ensures slack == e && handles[e].inCache && handles[e].refs == 2 ==> e in inUse
    ensures slack == e && handles[e].inCache ==> handles[e].refs >= 2
  {
    assert HandleAt(handles, held, lru, inUse, deleted, slack, e);
  }

  /** The list without the handle that a pointer of the table names, if it names one. */
  ghost function LruLess(lru: seq<nat>, h: int): seq<nat> {
    if h >= 0 then Taken(lru, h) else lru
  }

  /** The handle that a pointer of the table names. */
  ghost function Named(h: int): set<nat> {
    if h >= 0 then {h as nat} else {}
  }

  /** The in-use list once handle `e` is in a cache of this capacity. */
  ghost function WithNew(capacity: nat, inUse: seq<nat>, e: nat): seq<nat> {
    if capacity > 0 then inUse + [e] else inUse
  }

  /** Handles keep their values and charges. */
  ghost predicate SameContents(handles: seq<Handle>, handles': seq<Handle>) {
    && |handles| == |handles'|
    && forall h :: 0 <= h < |handles| ==> handles'[h].value == handles[h].value && handles'[h].charge == handles[h].charge
  }

  // ---------- What the cache holds ----------

  ghost function KeysOf(info: seq<Info>, s: set<nat>): set<Info> {
    set h | h in s && h < |info| :: info[h]
  }

  ghost predicate Differ(info: seq<Info>, s: set<nat>) {
    forall h, g :: h in s && g in s && h < |info| && g < |info| && info[h] == info[g] ==> h == g
  }

  ghost function HandleOf(info: seq<Info>, s: set<nat>, k: Info): (h: nat)
    requires k in KeysOf(info, s)
    ensures h in s && h < |info| && info[h] == k
  {
    var h :| h in s && h < |info| && info[h] == k;
    h
  }

  /** From key and hash to value: the cache as a map. */
  ghost function Cached(info: seq<Info>, handles: seq<Handle>, s: set<nat>): map<Info, nat> {
    map k | k in KeysOf(info, s) :: if HandleOf(info, s, k) < |handles| then handles[HandleOf(info, s, k)].value else 0
  }

  lemma CachedAt(info: seq<Info>, handles: seq<Handle>, s: set<nat>, h: nat)
    requires Differ(info, s) && h in s && h < |info| == |handles|
    ensures info[h] in Cached(info, handles, s) && Cached(info, handles, s)[info[h]] == handles[h].value
  {
    assert info[h] in KeysOf(info, s);
  }

  lemma CachedSame(info: seq<Info>, handles: seq<Handle>, info': seq<Info>, handles': seq<Handle>, s: set<nat>)
    requires info <= info' && |handles| == |info| && |handles'| == |info'| && Differ(info, s)
    requires forall h :: h in s ==> h < |info|
    requires forall h :: 0 <= h < |handles| ==> handles'[h].value == handles[h].value
    ensures Cached(info', handles', s) == Cached(info, handles, s) && Differ(info', s)
  {
    assert KeysOf(info', s) == KeysOf(info, s);
    forall k | k in KeysOf(info, s) ensures HandleOf(info', s, k) == HandleOf(info, s, k) {
      assert info[HandleOf(info', s, k)] == info[HandleOf(info, s, k)];
    }
  }

  /** A handle that leaves takes its key with it. */
  lemma CachedWithout(info: seq<Info>, handles: seq<Handle>, s: set<nat>, e: nat)
    requires Differ(info, s) && e in s && e < |info|
    ensures Cached(info, handles, s - {e}) == Cached(info, handles, s) - {info[e]} && Differ(info, s - {e})
  {
    var s' := s - {e};
    forall k | k in KeysOf(info, s) ensures k in KeysOf(info, s') <==> k != info[e] {
      assert HandleOf(info, s, k) == e || HandleOf(info, s, k) in s';
    }
    forall k | k in KeysOf(info, s') ensures k in KeysOf(info, s) && HandleOf(info, s', k) == HandleOf(info, s, k) {
      assert HandleOf(info, s', k) in s;
    }
  }

  /** A handle that joins maps its key to its value. */
  lemma CachedWith(info: seq<Info>, handles: seq<Handle>, s: set<nat>, e: nat)
    requires Differ(info, s + {e}) && e !in s && e < |info| == |handles|
    ensures Cached(info, handles, s + {e}) == Cached(info, handles, s)[info[e] := handles[e].value]
  {
    CachedAt(info, handles, s + {e}, e);
    assert s + {e} - {e} == s;
    CachedWithout(info, handles, s + {e}, e);
    var m, m' := Cached(info, handles, s), Cached(info, handles, s + {e});
    assert m' == (m' - {info[e]})[info[e] := m'[info[e]]];
  }

  /** A handle that leaves while counts change. */
  lemma CachedDropped(info: seq<Info>, handles: seq<Handle>, handles': seq<Handle>, s: set<nat>, e: nat)
    requires Differ(info, s) && e in s && (forall h :: h in s ==> h < |info|)
    requires |handles| == |info| && SameContents(handles, handles')
    ensures Cached(info, handles', s - {e}) == Cached(info, handles, s) - {info[e]}
  {
    CachedWithout(info, handles, s, e);
    CachedSame(info, handles, info, handles', s - {e});
  }

  /** A new handle that joins, and the one of equal key that leaves. */
  lemma CachedPlaced(info: seq<Info>, handles: seq<Handle>, handles': seq<Handle>, s: set<nat>, e: nat, replaced: int)
    requires Differ(info, s) && (forall h :: h in s ==> h < |info|) && e !in s && e < |info|
    requires |handles| == |info| && SameContents(handles, handles')
    requires Named(replaced) <= s && (replaced >= 0 ==> info[replaced] == info[e])
    requires Differ(info, s + {e} - Named(replaced))
    ensures Cached(info, handles', s + {e} - Named(replaced)) == Cached(info, handles, s)[info[e] := handles'[e].value]
  {
    var rest := s - Named(replaced);
    assert s + {e} - Named(replaced) == rest + {e};
    if replaced >= 0 {
      CachedDropped(info, handles, handles', s, replaced);
    } else {
      assert rest == s;
      CachedSame(info, handles, info, handles', s);
    }
    CachedWith(info, handles', rest, e);
  }

  lemma CachedKept(info: seq<Info>, handles: seq<Handle>, handles': seq<Handle>, s: set<nat>)
    requires |handles| == |info| && SameContents(handles, handles') && Differ(info, s) && forall h :: h in s ==> h < |info|
    ensures Cached(info, handles', s) == Cached(info, handles, s)
  {
    CachedSame(info, handles, info, handles', s);
  }

  lemma CachedGrown(info: seq<Info>, handles: seq<Handle>, k: Info, x: Handle, s: set<nat>)
    requires |handles| == |info| && Differ(info, s) && forall h :: h in s ==> h < |info|
    ensures Cached(info + [k], handles + [x], s) == Cached(info, handles, s) && Differ(info + [k], s)
    ensures forall h :: h in s ==> h < |info + [k]|
  {
    CachedSame(info, handles, info + [k], handles + [x], s);
  }

  lemma SameContentsAfterAll(handles: seq<Handle>, x: Handle, placed: seq<Handle>, fitted: seq<Handle>)
    requires SameContents(handles + [x], placed) && SameContents(placed, fitted)
    ensures |fitted| == |handles| + 1 && SameContents(handles, fitted[..|handles|])
    ensures placed[|handles|].value == x.value == fitted[|handles|].value && fitted[|handles|].charge == x.charge
  {
    forall h | 0 <= h < |handles| ensures fitted[h].value == handles[h].value && fitted[h].charge == handles[h].charge {
      assert (handles + [x])[h] == handles[h];
    }
  }

  lemma ErasedContents(info: seq<Info>, handles: seq<Handle>, handles': seq<Handle>, s: set<nat>, e: int, key: Bytes, hash: nat, s': set<nat>)
    requires |handles| == |info| && SameContents(handles, handles') && Differ(info, s) && forall h :: h in s ==> h < |info|
    requires forall h :: h in s' ==> !Matches(info, h, key, hash)
    requires e == NIL ==> s' == s
    requires e != NIL ==> e >= 0 && e in s && Matches(info, e, key, hash) && s' == s - {e as nat}
    ensures Cached(info, handles', s') == Cached(info, handles, s) - {Info(key, hash)}
  {
    if e != NIL {
      assert info[e] == Info(key, hash);
      CachedDropped(info, handles, handles', s, e);
    } else {
      CachedKept(info, handles, handles', s);
      if Info(key, hash) in KeysOf(info, s) {
        assert Matches(info, HandleOf(info, s, Info(key, hash)), key, hash);
      }
    }
  }

  lemma PlacedContents(info: seq<Info>, handles: seq<Handle>, handles': seq<Handle>, s: set<nat>, e: nat, replaced: int, s': set<nat>, cached: bool)
    requires Differ(info, s) && (forall h :: h in s ==> h < |info|) && e !in s && e < |info|
    requires |handles| == |info| && SameContents(handles, handles') && Differ(info, s')
    requires !cached ==> s' == s
    requires cached ==> s' == s + {e} - Named(replaced) && Named(replaced) <= s && (replaced == NIL || (replaced >= 0 && info[replaced] == info[e]))
    ensures Cached(info, handles', s') == if cached then Cached(info, handles, s)[info[e] := handles'[e].value] else Cached(info, handles, s)
  {
    if cached {
      CachedPlaced(info, handles, handles', s, e, replaced);
    } else {
      CachedKept(info, handles, handles', s);
    }
  }

  lemma KeysOfOneMore(info: seq<Info>, gone: seq<nat>, n: nat)
    requires n < |gone| && gone[n] < |info|
    ensures KeysOf(info, SetOf(gone[..n + 1])) == KeysOf(info, SetOf(gone[..n])) + {info[gone[n]]}
  {
    assert gone[..n + 1] == gone[..n] + [gone[n]];
    assert SetOf(gone[..n + 1]) == SetOf(gone[..n]) + {gone[n]};
  }

  class LRUCache {
    /** Set once, before use. */
    const capacity: nat
    var usage: nat
    const table: HandleTable
    var info: seq<Info>
    var handles: seq<Handle>
    var links: Links
    var deleted: seq<nat>
    ghost var lru: seq<nat>
    ghost var inUse: seq<nat>
    /** How many references clients hold to each handle. */
    ghost var held: seq<nat>

    /** The handles on the two lists. */
    ghost function Listed(): set<nat>
      reads this
    {
      Listing(lru, inUse)
    }

    /** What the cache holds, by key and hash. */
    ghost function Contents(): map<Info, nat>
      reads this
    {
      Cached(info, handles, Listing(lru, inUse))
    }

    /** The handles in the cache are real and have keys of their own. */
    lemma ContentsAreSound()
      requires Valid()
      ensures Differ(info, Listing(lru, inUse)) && |info| == |handles| && forall h :: h in Listing(lru, inUse) ==> h < |info|
    {
      AllDiffer();
      assert Listing(lru, inUse) - {} == Listing(lru, inUse);
    }

    /** All is well but for: `pending` handles that have left the table and not yet the lists, and a reference
        to `slack` that is about to be dropped. */
    ghost predicate Inv(pending: set<nat>, slack: int)
      reads this, table
    {
      && table.Valid(info) && |info| == |handles|
      && Books(handles, held, links, lru, inUse, deleted, usage, slack)
      && table.Members(info) == Listing(lru, inUse) - pending
    }

    ghost predicate Valid()
      reads this, table
    {
      Inv({}, -1)
    }

    constructor (capacity: nat)
      ensures Valid() && fresh(table) && this.capacity == capacity && lru == [] && inUse == [] && deleted == []
      ensures |handles| == 2
    {
      this.capacity := capacity;
      usage := 0;
      table := new HandleTable();
      info := [Info([], 0), Info([], 0)];
      handles := [Handle(0, 0, 0, false), Handle(0, 0, 0, false)];
      links := Links([LRU, IN_USE], [LRU, IN_USE]);
      deleted, lru, inUse, held := [], [], [], [0, 0];
      new;
      EmptyBooks();
      assert Listed() == {};
    }

    lemma EmptyBooks()
      ensures Books([Handle(0, 0, 0, false), Handle(0, 0, 0, false)], [0, 0], Links([LRU, IN_USE], [LRU, IN_USE]), [], [], [], 0, -1)
    {
      var l := Links([LRU, IN_USE], [LRU, IN_USE]);
      assert Round(LRU, []) == [LRU, LRU] && Round(IN_USE, []) == [IN_USE, IN_USE];
      assert Linked(l, LRU, LRU) && Linked(l, IN_USE, IN_USE);
    }

    /** LRU_Remove and LRU_Append of a handle that becomes used. */
    method MoveToInUse(e: nat)
      requires ListsOk(links, lru, inUse) && e in lru
      modifies this`links, this`lru, this`inUse
      ensures ListsOk(links, lru, inUse) && |links.next| == old(|links.next|)
      ensures lru == Taken(old(lru), e) && inUse == old(inUse) + [e]
      ensures forall h :: h in lru <==> h in old(lru) && h != e
    {
      ghost var k := IndexOf(lru, e);
      RingNodes(links, LRU, lru);
      RemoveFromLru(links, lru, inUse, k);
      links := LruRemove(links, e);
      lru := Without(lru, k);
      AppendToInUse(links, lru, inUse, e);
      links := LruAppend(links, IN_USE, e);
      inUse := inUse + [e];
    }

    /** LRU_Remove and LRU_Append of a handle that nobody uses any more: it becomes the newest. */
    method MoveToLru(e: nat)
      requires ListsOk(links, lru, inUse) && e in inUse
      modifies this`links, this`lru, this`inUse
      ensures ListsOk(links, lru, inUse) && |links.next| == old(|links.next|)
      ensures inUse == Taken(old(inUse), e) && lru == old(lru) + [e]
      ensures forall h :: h in inUse <==> h in old(inUse) && h != e
    {
      ghost var k := IndexOf(inUse, e);
      RingNodes(links, IN_USE, inUse);
      RemoveFromInUse(links, lru, inUse, k);
      links := LruRemove(links, e);
      inUse := Without(inUse, k);
      AppendToLru(links, lru, inUse, e);
      links := LruAppend(links, LRU, e);
      lru := lru + [e];
    }

    /** A handle that is listed is a real one, in the table unless it is pending. */
    lemma ListedIsReal(e: nat)
      requires ListsOk(links, lru, inUse) && |links.next| == |handles|
      ensures e in lru || e in inUse ==> 2 <= e < |handles|
    {
      RingNodes(links, LRU, lru);
      RingNodes(links, IN_USE, inUse);
      if e in lru {
        var k := IndexOf(lru, e);
        WithoutMembers(LRU, lru, k);
      }
      if e in inUse {
        var k := IndexOf(inUse, e);
        WithoutMembers(IN_USE, inUse, k);
      }
    }

    ghost predicate BooksOk(slack: int)
      reads this
    {
      Books(handles, held, links, lru, inUse, deleted, usage, slack)
    }

    /** Ref, for a client. */
    method Ref(e: nat)
      requires BooksOk(-1) && 2 <= e < |handles| && handles[e].refs > 0
      modifies this`handles, this`links, this`lru, this`inUse, this`held
      ensures BooksOk(-1) && held == old(held)[e := old(held[e]) + 1]
      ensures lru == Taken(old(lru), e) && Listing(lru, inUse) == old(Listing(lru, inUse))
      ensures handles == old(handles)[e := old(handles[e]).(refs := old(handles[e].refs) + 1)]
    {
      ghost var k0, l0, u0 := links, lru, inUse;
      CountsTell(handles, held, lru, inUse, deleted, -1, e);
      if handles[e].refs == 1 && handles[e].inCache {
        MoveToInUse(e);
      }
      var x := handles[e].(refs := handles[e].refs + 1);
      RefKeepsBooks(handles, held, k0, l0, u0, deleted, usage, e, x, links, lru, inUse);
      handles := handles[e := x];
      held := held[e := held[e] + 1];
    }

    /** Unref, of the reference that is `slack`. */
    method Unref(e: nat)
      requires BooksOk(e) && 2 <= e < |handles| && handles[e].refs > 0
      modifies this`handles, this`links, this`lru, this`inUse, this`deleted
      ensures BooksOk(-1) && Listing(lru, inUse) == old(Listing(lru, inUse))
      ensures handles == old(handles)[e := old(handles[e]).(refs := old(handles[e].refs) - 1)]
      ensures deleted == old(deleted) + if handles[e].refs == 0 then [e] else []
      ensures if handles[e].inCache && handles[e].refs == 1 then lru == old(lru) + [e] && inUse == Taken(old(inUse), e)
              else lru == old(lru) && inUse == old(inUse)
    {
      ghost var h0, k0, l0, u0, d0 := handles, links, lru, inUse, deleted;
      CountsTell(handles, held, lru, inUse, deleted, e, e);
      var x := handles[e].(refs := handles[e].refs - 1);
      handles := handles[e := x];
      if x.refs == 0 {
        deleted := deleted + [e];
      } else if x.inCache && x.refs == 1 {
        MoveToLru(e);
      }
      UnrefKeepsBooks(h0, held, k0, l0, u0, d0, usage, e, x, links, lru, inUse);
    }

    /** A client that looks a key up gets the handle in the table, and a reference to it. */
    method Lookup(key: Bytes, hash: nat) returns (e: int)
      requires Valid()
      modifies this`handles, this`links, this`lru, this`inUse, this`held
      ensures Valid()
      ensures e == NIL ==> forall h :: h in table.Members(info) ==> !Matches(info, h, key, hash)
      ensures e == NIL ==> handles == old(handles) && held == old(held) && lru == old(lru)
      ensures e != NIL ==> e >= 0 && e in table.Members(info) && Matches(info, e, key, hash)
      ensures e != NIL ==> 2 <= e < |old(held)| && held == old(held)[e := old(held[e]) + 1] && lru == Taken(old(lru), e)
      ensures SameContents(old(handles), handles) && Contents() == old(Contents())
      ensures e != NIL <==> Info(key, hash) in Contents()
      ensures e != NIL ==> e < |handles| && handles[e].value == Contents()[Info(key, hash)]
    {
      hide Valid, Cached, KeysOf, Differ, SameContents, Listing, Taken, Matches, Total;
      ContentsAreSound();
      ghost var h0, listing := handles, Listing(lru, inUse);
      e := Find(key, hash);
      FoundOrNot(e, key, hash);
      CachedKept(info, h0, handles, listing);
    }

    method Find(key: Bytes, hash: nat) returns (e: int)
      requires Valid()
      modifies this`handles, this`links, this`lru, this`inUse, this`held
      ensures Valid()
      ensures e == NIL ==> forall h :: h in table.Members(info) ==> !Matches(info, h, key, hash)
      ensures e == NIL ==> handles == old(handles) && held == old(held) && lru == old(lru)
      ensures e != NIL ==> e >= 0 && e in table.Members(info) && Matches(info, e, key, hash)
      ensures e != NIL ==> 2 <= e < |old(held)| && held == old(held)[e := old(held[e]) + 1] && lru == Taken(old(lru), e)
      ensures SameContents(old(handles), handles) && Listing(lru, inUse) == old(Listing(lru, inUse))
    {
      hide Books, TableOk, Taken, Listing, Matches;
      e := table.Lookup(info, key, hash);
      if e != NIL {
        assert e in table.Members(info);
        Acquire(e);
      }
    }

    /** What the table finds is what the map has. */
    lemma FoundOrNot(e: int, key: Bytes, hash: nat)
      requires Valid()
      requires e == NIL ==> forall h :: h in table.Members(info) ==> !Matches(info, h, key, hash)
      requires e != NIL ==> e >= 0 && e in table.Members(info) && Matches(info, e, key, hash)
      ensures e != NIL <==> Info(key, hash) in Contents()
      ensures e != NIL ==> e < |handles| && handles[e].value == Contents()[Info(key, hash)]
    {
      ContentsAreSound();
      if e != NIL {
        assert info[e] == Info(key, hash);
        CachedAt(info, handles, Listing(lru, inUse), e);
      }
    }

    /** A client takes a reference to a handle that is in the cache. */
    method Acquire(e: nat)
      requires Valid() && e in Listing(lru, inUse)
      modifies this`handles, this`links, this`lru, this`inUse, this`held
      ensures Valid() && 2 <= e < |old(held)|
      ensures held == old(held)[e := old(held[e]) + 1] && lru == Taken(old(lru), e)
      ensures SameContents(old(handles), handles) && Listing(lru, inUse) == old(Listing(lru, inUse))
    {
      ListedIsReal(e);
      IsReferenced(handles, held, lru, inUse, deleted, e);
      Ref(e);
    }

    /** Clients hold references to real handles. */
    lemma CountsFit()
      requires Valid()
      ensures 2 <= |held| == |handles|
    {
    }

    /** A client gives back a reference. */
    method Release(e: nat)
      requires Valid() && 2 <= e < |handles| && held[e] > 0
      modifies this`handles, this`links, this`lru, this`inUse, this`held, this`deleted
      ensures Valid() && Listing(lru, inUse) == old(Listing(lru, inUse)) && held == old(held)[e := old(held[e]) - 1]
      ensures deleted == old(deleted) + if held[e] == 0 && e !in Listed() then [e] else []
      ensures SameContents(old(handles), handles) && Contents() == old(Contents())
    {
      hide Valid, Cached, KeysOf, Differ, SameContents, Listing, Taken, Matches, Total;
      ContentsAreSound();
      ghost var h0, listing := handles, Listing(lru, inUse);
      GiveBack(e);
      CachedKept(info, h0, handles, listing);
    }

    method GiveBack(e: nat)
      requires Valid() && 2 <= e < |handles| && held[e] > 0
      modifies this`handles, this`links, this`lru, this`inUse, this`held, this`deleted
      ensures Valid() && Listing(lru, inUse) == old(Listing(lru, inUse)) && held == old(held)[e := old(held[e]) - 1]
      ensures deleted == old(deleted) + if held[e] == 0 && e !in Listed() then [e] else []
      ensures SameContents(old(handles), handles)
    {
      OneSlack(handles, held, links, lru, inUse, deleted, usage, e);
      held := held[e := held[e] - 1];
      Unref(e);
      CountsSay(handles, held, lru, inUse, deleted, e);
    }

    /** Take a handle off its list and out of the cache's count: its reference is then one to drop. */
    method Delist(e: nat)
      requires BooksOk(-1) && (e in lru || e in inUse)
      modifies this`handles, this`links, this`lru, this`inUse, this`usage
      ensures BooksOk(e) && 2 <= e < |handles| && |handles| == old(|handles|)
      ensures lru == Taken(old(lru), e) && inUse == Taken(old(inUse), e) && Listing(lru, inUse) == old(Listing(lru, inUse)) - {e}
      ensures handles == old(handles)[e := old(handles[e]).(inCache := false)] && handles[e].refs > 0
      ensures usage + handles[e].charge == old(usage)
    {
      ListedIsReal(e);
      ghost var k0, l0, u0 := links, lru, inUse;
      if e in lru {
        RemoveFromLru(links, lru, inUse, IndexOf(lru, e));
      } else {
        RemoveFromInUse(links, lru, inUse, IndexOf(inUse, e));
      }
      links := LruRemove(links, e);
      lru, inUse := Taken(lru, e), Taken(inUse, e);
      var x := handles[e].(inCache := false);
      DelistKeepsBooks(handles, held, k0, l0, u0, deleted, usage, e, x, links, lru, inUse);
      handles := handles[e := x];
      usage := usage - x.charge;
    }

    /** Delist a handle and drop the cache's reference to it. */
    method DropFromCache(e: nat)
      requires BooksOk(-1) && (e in lru || e in inUse)
      modifies this`handles, this`links, this`lru, this`inUse, this`usage, this`deleted
      ensures BooksOk(-1) && 2 <= e < |handles| && SameContents(old(handles), handles)
      ensures lru == Taken(old(lru), e) && inUse == Taken(old(inUse), e) && Listing(lru, inUse) == old(Listing(lru, inUse)) - {e}
      ensures e < |held| && deleted == old(deleted) + if held[e] == 0 then [e] else []
      ensures usage + old(Charge(e)) == old(usage)
    {
      Delist(e);
      Unref(e);
      CountsSay(handles, held, lru, inUse, deleted, e);
    }

    /** FinishErase, of a handle that has been removed from the table. */
    method FinishErase(e: nat)
      requires Inv({e}, -1) && e in Listed()
      modifies this`handles, this`links, this`lru, this`inUse, this`usage, this`deleted
      ensures Valid() && 2 <= e < |handles| && SameContents(old(handles), handles)
      ensures lru == Taken(old(lru), e) && inUse == Taken(old(inUse), e) && Listing(lru, inUse) == old(Listing(lru, inUse)) - {e}
      ensures e < |held| && deleted == old(deleted) + if held[e] == 0 then [e] else []
      ensures usage + old(Charge(e)) == old(usage)
    {
      DropFromCache(e);
    }

    /** Erase: the key is gone from the cache; its handle lives on while clients hold it. */
    method Erase(key: Bytes, hash: nat) returns (ghost e: int)
      requires Valid()
      modifies this`handles, this`links, this`lru, this`inUse, this`usage, this`deleted, table
      ensures Valid() && forall h :: h in Listing(lru, inUse) ==> !Matches(info, h, key, hash)
      ensures e == NIL ==> Listing(lru, inUse) == old(Listing(lru, inUse)) && deleted == old(deleted) && lru == old(lru)
      ensures e != NIL ==>
        && e >= 0 && e in old(Listing(lru, inUse)) && Matches(info, e, key, hash)
        && Listing(lru, inUse) == old(Listing(lru, inUse)) - {e as nat}
        && lru == Taken(old(lru), e) && e < |held| && deleted == old(deleted) + if held[e] == 0 then [e as nat] else []
      ensures SameContents(old(handles), handles) && Contents() == old(Contents()) - {Info(key, hash)}
    {
      hide Valid, Cached, KeysOf, Differ, SameContents, Listing, Taken, Matches, Total;
      ContentsAreSound();
      ghost var h0, listing := handles, Listing(lru, inUse);
      e := TakeOut(key, hash);
      ErasedContents(info, h0, handles, listing, e, key, hash, Listing(lru, inUse));
    }

    method TakeOut(key: Bytes, hash: nat) returns (ghost e: int)
      requires Valid()
      modifies this`handles, this`links, this`lru, this`inUse, this`usage, this`deleted, table
      ensures Valid() && forall h :: h in Listing(lru, inUse) ==> !Matches(info, h, key, hash)
      ensures e == NIL ==> Listing(lru, inUse) == old(Listing(lru, inUse)) && deleted == old(deleted) && lru == old(lru)
      ensures e != NIL ==>
        && e >= 0 && e in old(Listing(lru, inUse)) && Matches(info, e, key, hash)
        && Listing(lru, inUse) == old(Listing(lru, inUse)) - {e as nat}
        && lru == Taken(old(lru), e) && e < |held| && deleted == old(deleted) + if held[e] == 0 then [e as nat] else []
      ensures SameContents(old(handles), handles)
    {
      ghost var before := Listed();
      AllDiffer();
      var r := table.Remove(info, key, hash);
      e := r;
      if r != NIL {
        OthersDiffer(before, r, key, hash);
        FinishErase(r);
      }
    }

    lemma AllDiffer()
      requires table.Valid(info)
      ensures Differ(info, table.Members(info))
    {
      forall h, g | h in table.Members(info) && g in table.Members(info) && info[h] == info[g] ensures h == g {
        table.KeysDiffer(info, h, g);
      }
    }

    /** Once the match is out of the table, nothing matches. */
    lemma OthersDiffer(before: set<nat>, e: nat, key: Bytes, hash: nat)
      requires Differ(info, before) && e in before && Matches(info, e, key, hash)
      ensures forall h :: h in before - {e} ==> !Matches(info, h, key, hash)
    {
    }

    /** Evict the oldest handle that nobody uses. */
    method Evict()
      requires Valid() && lru != []
      modifies this`handles, this`links, this`lru, this`inUse, this`usage, this`deleted, table
      ensures Valid() && lru == old(lru)[1..] && inUse == old(inUse) && SameContents(old(handles), handles)
      ensures deleted == old(deleted) + [old(lru[0])]
      ensures usage + old(Charge(lru[0])) == old(usage)
      ensures old(lru[0]) < |info| && Contents() == old(Contents()) - {info[old(lru[0])]}
    {
      hide Cached, TableOk, Differ, Total, CountsOk;
      ContentsAreSound();
      ghost var listing, h0 := Listing(lru, inUse), handles;
      RingNodes(links, LRU, lru);
      var e := links.next[LRU];
      assert e == lru[0] && e in lru;
      ListedIsReal(e);
      OnLruIsUnheld(handles, held, links, lru, inUse, deleted, e);
      assert e in table.Members(info);
      ghost var before := table.Members(info);
      OnlyOneMatches(e);
      var r := table.Remove(info, info[e].key, info[e].hash);
      assert r == e;
      FinishErase(r);
      CachedDropped(info, h0, handles, listing, e);
    }

    lemma OnlyOneMatches(e: nat)
      requires table.Valid(info) && e in table.Members(info)
      ensures forall h :: h in table.Members(info) && Matches(info, h, info[e].key, info[e].hash) ==> h == e
    {
      forall h | h in table.Members(info) && Matches(info, h, info[e].key, info[e].hash) ensures h == e {
        table.KeysDiffer(info, h, e);
      }
    }

    /** The `n` oldest of `l0` have been evicted, in order. */
    ghost predicate Evicted(l0: seq<nat>, d0: seq<nat>, n: nat)
      reads this
    {
      n <= |l0| && lru == l0[n..] && deleted == d0 + l0[..n]
    }

    predicate LruIsEmpty()
      reads this
    {
      LRU < |links.next| && links.next[LRU] == LRU
    }

    lemma EmptyRing()
      requires Valid()
      ensures LruIsEmpty() <==> lru == []
    {
      RingNodes(links, LRU, lru);
    }

    method EvictNext(ghost l0: seq<nat>, ghost d0: seq<nat>, ghost n: nat)
      requires Valid() && Evicted(l0, d0, n) && !LruIsEmpty()
      modifies this`handles, this`links, this`lru, this`inUse, this`usage, this`deleted, table
      ensures Valid() && Evicted(l0, d0, n + 1) && inUse == old(inUse) && SameContents(old(handles), handles)
      ensures n < |l0| && usage + Charge(l0[n]) == old(usage)
      ensures l0[n] < |info| && Contents() == old(Contents()) - {info[l0[n]]}
    {
      hide Valid, Cached, KeysOf, Listing, Total;
      EmptyRing();
      EvictedOneMore(l0, n);
      Evict();
    }

    lemma NoKeysYet(gone: seq<nat>)
      ensures KeysOf(info, SetOf(gone[..0])) == {}
    {
    }

    /** Prune: whatever is not in use goes. */
    method Prune()
      requires Valid()
      modifies this`handles, this`links, this`lru, this`inUse, this`usage, this`deleted, table
      ensures Valid() && lru == [] && inUse == old(inUse) && deleted == old(deleted) + old(lru)
      ensures SameContents(old(handles), handles) && Contents() == old(Contents()) - KeysOf(info, SetOf(old(lru)))
    {
      hide Valid, Cached, KeysOf, Listing, Total;
      ghost var n, l0, d0 := 0, lru, deleted;
      NoKeysYet(l0);
      while !LruIsEmpty()
        invariant Valid() && Evicted(l0, d0, n) && inUse == old(inUse) && SameContents(old(handles), handles)
        invariant Contents() == old(Contents()) - KeysOf(info, SetOf(l0[..n]))
        decreases |l0| - n
      {
        EvictNext(l0, d0, n);
        KeysOfOneMore(info, l0, n);
        n := n + 1;
      }
      EmptyRing();
      assert n == |l0| && l0[..n] == l0;
    }

    /** A new handle, not in the cache yet, with one reference for the caller. */
    method NewHandle(key: Bytes, hash: nat, value: nat, charge: nat) returns (e: nat)
      requires Valid()
      modifies this`info, this`handles, this`links, this`held
      ensures Valid() && 2 <= e == old(|handles|) && |handles| == e + 1 && info[e] == Info(key, hash)
      ensures handles == old(handles) + [Handle(value, charge, 1, false)] && held == old(held) + [1]
      ensures info == old(info) + [Info(key, hash)] && e !in Listing(lru, inUse)
    {
      e := |handles|;
      ListedAreOld();
      NewKeepsBooks(handles, held, links, lru, inUse, deleted, usage, Handle(value, charge, 1, false));
      table.MoreInfo(info, Info(key, hash));
      info := info + [Info(key, hash)];
      handles := handles + [Handle(value, charge, 1, false)];
      links := Links(links.next + [0], links.prev + [0]);
      held := held + [1];
    }

    lemma ListedAreOld()
      requires ListsOk(links, lru, inUse) && |links.next| == |handles|
      ensures |handles| !in Listing(lru, inUse)
    {
      ListedIsReal(|handles|);
    }

    /** The cache takes a reference to a new handle and lists it. */
    method Enlist(e: nat)
      requires BooksOk(-1) && 2 <= e < |handles| && e !in Listing(lru, inUse) && handles[e].refs == 1 && !handles[e].inCache
      modifies this`handles, this`links, this`inUse, this`usage
      ensures BooksOk(-1) && |handles| == old(|handles|) && Listing(lru, inUse) == old(Listing(lru, inUse)) + {e} && inUse == old(inUse) + [e]
      ensures SameContents(old(handles), handles)
    {
      ghost var k0, u0 := links, inUse;
      var x := handles[e].(refs := 2, inCache := true);
      AppendToInUse(links, lru, inUse, e);
      links := LruAppend(links, IN_USE, e);
      inUse := inUse + [e];
      EnlistKeepsBooks(handles, held, k0, lru, u0, deleted, usage, e, x, links);
      handles := handles[e := x];
      usage := usage + x.charge;
    }

    /** Put a new handle into the table; a handle with its key makes way. */
    method AddToCache(e: nat) returns (ghost replaced: int)
      requires Valid() && 2 <= e < |handles| && e !in Listing(lru, inUse) && handles[e].refs == 1 && !handles[e].inCache && capacity > 0
      modifies this`handles, this`links, this`lru, this`inUse, this`usage, this`deleted, table
      ensures Valid() && SameContents(old(handles), handles)
      ensures lru == LruLess(old(lru), replaced) && inUse == LruLess(WithNew(capacity, old(inUse), e), replaced)
      ensures replaced == NIL || (replaced >= 0 && replaced < |info| && info[replaced] == info[e])
      ensures Listing(lru, inUse) == old(Listing(lru, inUse)) + {e} - Named(replaced) && e !in Named(replaced)
      ensures Named(replaced) <= old(Listing(lru, inUse)) && e in inUse
    {
      ghost var mid := WithNew(capacity, inUse, e);
      assert e !in table.Members(info);
      Enlist(e);
      assert inUse == mid;
      replaced := Replace(e);
    }

    /** The table takes the new handle and gives up the one of equal key, which is then erased. */
    method Replace(e: nat) returns (ghost replaced: int)
      requires Inv({e}, -1) && e < |info| && e in Listed() && e !in table.Members(info)
      modifies this`handles, this`links, this`lru, this`inUse, this`usage, this`deleted, table
      ensures Valid() && SameContents(old(handles), handles)
      ensures lru == LruLess(old(lru), replaced) && inUse == LruLess(old(inUse), replaced)
      ensures replaced == NIL || (replaced >= 0 && replaced < |info| && info[replaced] == info[e])
      ensures Listing(lru, inUse) == old(Listing(lru, inUse)) - Named(replaced) && e !in Named(replaced)
      ensures old(e in inUse) ==> e in inUse
      ensures Named(replaced) <= old(Listing(lru, inUse))
    {
      ghost var listing := Listing(lru, inUse);
      var r := table.Insert(info, e);
      replaced := r;
      SwapOne(listing, e, r);
      if r != NIL {
        OthersStay(inUse, r);
        FinishErase(r);
      }
    }

    /** What Insert has done: handle `e` put in, if the cache is in use; `replaced` taken out; the `n` oldest
        unused handles evicted, and the last of them was one too many to keep. */
    ghost predicate Inserted(lru0: seq<nat>, inUse0: seq<nat>, e: nat, replaced: int, n: nat)
      reads this
    {
      var l0 := LruLess(lru0, replaced);
      && n <= |l0| && lru == l0[n..]
      && inUse == LruLess(WithNew(capacity, inUse0, e), replaced)
      && NoneTooMany(l0, n)
    }

    /** Insert: the key is in the cache under a new handle, which the caller holds; if the cache is over its
        capacity the oldest unused handles are evicted, just as many as it takes. */
    method Insert(key: Bytes, hash: nat, value: nat, charge: nat) returns (e: nat, ghost replaced: int, ghost n: nat)
      requires Valid()
      modifies this`info, this`handles, this`links, this`lru, this`inUse, this`usage, this`deleted, this`held, table
      ensures Valid() && e == old(|handles|) && held == old(held) + [1] && e < |info| && info[e] == Info(key, hash)
      ensures usage <= capacity || lru == []
      ensures replaced == NIL || (capacity > 0 && replaced >= 0 && replaced < |info| && info[replaced] == info[e])
      ensures Inserted(old(lru), old(inUse), e, replaced, n)
      ensures info == old(info) + [Info(key, hash)]
      ensures e < |handles| && handles[e].value == value && handles[e].charge == charge && SameContents(old(handles), handles[..e])
      ensures n <= |LruLess(old(lru), replaced)| && Contents() == (if capacity > 0 then old(Contents())[Info(key, hash) := value] else old(Contents()))
                              - KeysOf(info, SetOf(LruLess(old(lru), replaced)[..n]))
      ensures capacity > 0 ==> Info(key, hash) in Contents() && Contents()[Info(key, hash)] == value
    {
      hide Valid, Cached, KeysOf, SetOf, Differ, SameContents, LruLess, Listing, Named, Total;
      ContentsAreSound();
      ghost var l0, i0, h0, listing := lru, info, handles, Listing(lru, inUse);
      e := NewHandle(key, hash, value, charge);
      CachedGrown(i0, h0, Info(key, hash), Handle(value, charge, 1, false), listing);
      ghost var h1 := handles;
      replaced := Place(e);
      ghost var h2 := handles;
      ContentsAreSound();
      PlacedContents(info, h1, h2, listing, e, replaced, Listing(lru, inUse), capacity > 0);
      n := EvictToFit(LruLess(l0, replaced), deleted);
      SameContentsAfterAll(h0, Handle(value, charge, 1, false), h2, handles);
      StillThere(e);
    }

    /** What clients hold is not evicted. */
    lemma StillThere(e: nat)
      requires Valid() && e < |handles|
      ensures e in inUse ==> info[e] in Contents() && Contents()[info[e]] == handles[e].value
    {
      ContentsAreSound();
      if e in inUse {
        CachedAt(info, handles, Listing(lru, inUse), e);
      }
    }

    /** The new handle goes into the cache, unless caching is turned off. */
    method Place(e: nat) returns (ghost replaced: int)
      requires Valid() && 2 <= e < |handles| && e !in Listing(lru, inUse) && handles[e].refs == 1 && !handles[e].inCache
      modifies this`handles, this`links, this`lru, this`inUse, this`usage, this`deleted, table
      ensures Valid() && SameContents(old(handles), handles)
      ensures lru == LruLess(old(lru), replaced) && inUse == LruLess(WithNew(capacity, old(inUse), e), replaced)
      ensures replaced == NIL || (capacity > 0 && replaced >= 0 && replaced < |info| && info[replaced] == info[e])
      ensures capacity > 0 ==> Listing(lru, inUse) == old(Listing(lru, inUse)) + {e} - Named(replaced) && e !in Named(replaced)
      ensures capacity > 0 ==> Named(replaced) <= old(Listing(lru, inUse)) && e in inUse
      ensures capacity == 0 ==> Listing(lru, inUse) == old(Listing(lru, inUse))
    {
      replaced := NIL;
      if capacity > 0 {
        replaced := AddToCache(e);
      }
    }

    /** The last handle evicted was one too many to keep. */
    ghost predicate NoneTooMany(l0: seq<nat>, n: nat)
      reads this
    {
      n > 0 ==> n <= |l0| && usage + Charge(l0[n - 1]) > capacity
    }

    method EvictToFit(ghost l0: seq<nat>, ghost d0: seq<nat>) returns (ghost n: nat)
      requires Valid() && Evicted(l0, d0, 0)
      modifies this`handles, this`links, this`lru, this`inUse, this`usage, this`deleted, table
      ensures Valid() && Evicted(l0, d0, n) && NoneTooMany(l0, n) && inUse == old(inUse)
      ensures usage <= capacity || lru == []
      ensures SameContents(old(handles), handles) && Contents() == old(Contents()) - KeysOf(info, SetOf(l0[..n]))
    {
      hide Valid, Cached, KeysOf, Listing, Total;
      n := 0;
      NoKeysYet(l0);
      while usage > capacity && !LruIsEmpty()
        invariant Valid() && Evicted(l0, d0, n) && NoneTooMany(l0, n) && inUse == old(inUse)
        invariant SameContents(old(handles), handles) && Contents() == old(Contents()) - KeysOf(info, SetOf(l0[..n]))
        decreases |l0| - n
      {
        EvictNext(l0, d0, n);
        KeysOfOneMore(info, l0, n);
        n := n + 1;
      }
      EmptyRing();
    }

    ghost function Charge(e: nat): nat
      reads this
    {
      if e < |handles| then handles[e].charge else 0
    }
  }

  lemma SwapOne(listing: set<nat>, e: nat, r: int)
    requires e in listing
    ensures r < 0 ==> (listing - {e}) + {e} - {} == listing
    ensures r >= 0 ==> (listing - {e}) + {e} - {r as nat} == listing - {r as nat}
  {
  }

  lemma NewKeepsBooks(handles: seq<Handle>, held: seq<nat>, links: Links, lru: seq<nat>, inUse: seq<nat>, deleted: seq<nat>,
                      usage: nat, x: Handle)
    requires Books(handles, held, links, lru, inUse, deleted, usage, -1) && x.refs == 1 && !x.inCache
    requires |handles| !in lru && |handles| !in inUse
    ensures Books(handles + [x], held + [1], Links(links.next + [0], links.prev + [0]), lru, inUse, deleted, usage, -1)
  {
    var l' := Links(links.next + [0], links.prev + [0]);
    RingNodes(links, LRU, lru);
    RingNodes(links, IN_USE, inUse);
    RingUntouched(links, LRU, lru, l');
    RingUntouched(links, IN_USE, inUse, l');
    forall k | 0 <= k < |lru| ensures lru[k] < |handles| {
      assert lru[k] in lru;
    }
    forall k | 0 <= k < |inUse| ensures inUse[k] < |handles| {
      assert inUse[k] in inUse;
    }
    TotalSame(handles, handles + [x], lru);
    TotalSame(handles, handles + [x], inUse);
    NewCounts(handles, held, lru, inUse, deleted, x);
  }

  lemma NewCounts(handles: seq<Handle>, held: seq<nat>, lru: seq<nat>, inUse: seq<nat>, deleted: seq<nat>, x: Handle)
    requires CountsOk(handles, held, lru, inUse, deleted, -1) && x.refs == 1 && !x.inCache
    requires |handles| !in lru && |handles| !in inUse
    ensures CountsOk(handles + [x], held + [1], lru, inUse, deleted, -1)
  {
    var hs, hd := handles + [x], held + [1];
    forall h | 2 <= h < |hs| ensures HandleAt(hs, hd, lru, inUse, deleted, -1, h) {
      if h < |handles| {
        assert HandleAt(handles, held, lru, inUse, deleted, -1, h);
      }
    }
  }

  lemma EnlistKeepsBooks(handles: seq<Handle>, held: seq<nat>, links: Links, lru: seq<nat>, inUse: seq<nat>, deleted: seq<nat>,
                         usage: nat, e: nat, x: Handle, links': Links)
    requires Books(handles, held, links, lru, inUse, deleted, usage, -1) && 2 <= e < |handles| && e !in lru && e !in inUse
    requires handles[e].refs == 1 && !handles[e].inCache && x == handles[e].(refs := 2, inCache := true)
    requires ListsOk(links', lru, inUse + [e]) && |links'.next| == |handles|
    ensures Books(handles[e := x], held, links', lru, inUse + [e], deleted, usage + x.charge, -1)
  {
    assert HandleAt(handles, held, lru, inUse, deleted, -1, e);
    CountsChange(handles, held, lru, inUse, deleted, -1, e, x, held[e], lru, inUse + [e], deleted, -1);
    assert held[e := held[e]] == held;
    TotalsKept(links', lru, inUse + [e], handles, e, x);
    TotalSnoc(handles, inUse, e);
  }

  lemma EvictedOneMore(l0: seq<nat>, n: nat)
    requires n <= |l0| && l0[n..] != []
    ensures n < |l0| && l0[n..][0] == l0[n] && l0[n..][1..] == l0[n + 1..] && l0[..n + 1] == l0[..n] + [l0[n]]
  {
  }

  lemma OnLruIsUnheld(handles: seq<Handle>, held: seq<nat>, links: Links, lru: seq<nat>, inUse: seq<nat>, deleted: seq<nat>, e: nat)
    requires ListsOk(links, lru, inUse) && CountsOk(handles, held, lru, inUse, deleted, -1)
    requires lru != [] && e == lru[0] && 2 <= e < |handles|
    ensures held[e] == 0 && e !in inUse && Taken(lru, e) == lru[1..] && Taken(inUse, e) == inUse
  {
    assert HandleAt(handles, held, lru, inUse, deleted, -1, e);
    assert e in lru;
    assert IndexOf(lru, e) == 0;
  }

  lemma DelistKeepsBooks(handles: seq<Handle>, held: seq<nat>, links: Links, lru: seq<nat>, inUse: seq<nat>, deleted: seq<nat>,
                         usage: nat, e: nat, x: Handle, links': Links, lru': seq<nat>, inUse': seq<nat>)
    requires Books(handles, held, links, lru, inUse, deleted, usage, -1) && 2 <= e < |handles| && (e in lru || e in inUse)
    requires ListsOk(links', lru', inUse') && |links'.next| == |handles|
    requires x == handles[e].(inCache := false) && lru' == Taken(lru, e) && inUse' == Taken(inUse, e)
    ensures x.charge <= usage && x.refs > 0
    ensures Books(handles[e := x], held, links', lru', inUse', deleted, usage - x.charge, e)
    ensures Listing(lru', inUse') == Listing(lru, inUse) - {e}
  {
    assert HandleAt(handles, held, lru, inUse, deleted, -1, e);
    TakenMembers(links, LRU, lru, e);
    TakenMembers(links, IN_USE, inUse, e);
    CountsChange(handles, held, lru, inUse, deleted, -1, e, x, held[e], lru', inUse', deleted, e);
    assert held[e := held[e]] == held;
    TotalsKept(links', lru', inUse', handles, e, x);
    TakenTotal(handles, lru, e);
    TakenTotal(handles, inUse, e);
  }

  lemma TakenTotal(handles: seq<Handle>, s: seq<nat>, e: nat)
    requires e < |handles|
    ensures Total(handles, s) == Total(handles, Taken(s, e)) + if e in s then handles[e].charge else 0
  {
    if e in s {
      TotalWithout(handles, s, IndexOf(s, e));
    }
  }

  lemma CountsSay(handles: seq<Handle>, held: seq<nat>, lru: seq<nat>, inUse: seq<nat>, deleted: seq<nat>, e: nat)
    requires CountsOk(handles, held, lru, inUse, deleted, -1) && 2 <= e < |handles|
    ensures handles[e].refs == held[e] + if e in Listing(lru, inUse) then 1 else 0
  {
    assert HandleAt(handles, held, lru, inUse, deleted, -1, e);
  }

  /** What the counts mean in every state between operations: a handle is on the LRU list exactly if the cache
      alone refers to it, on the in-use list exactly if clients do too, and deleted exactly if nobody does. */
  lemma CountsMean(handles: seq<Handle>, held: seq<nat>, lru: seq<nat>, inUse: seq<nat>, deleted: seq<nat>, h: nat)
    requires CountsOk(handles, held, lru, inUse, deleted, -1) && 2 <= h < |handles|
    ensures h in lru <==> handles[h].inCache && held[h] == 0
    ensures h in inUse <==> handles[h].inCache && held[h] > 0
    ensures h in deleted <==> !handles[h].inCache && held[h] == 0
    ensures handles[h].refs == held[h] + if handles[h].inCache then 1 else 0
  {
    assert HandleAt(handles, held, lru, inUse, deleted, -1, h);
  }

  lemma IsReferenced(handles: seq<Handle>, held: seq<nat>, lru: seq<nat>, inUse: seq<nat>, deleted: seq<nat>, e: nat)
    requires CountsOk(handles, held, lru, inUse, deleted, -1) && 2 <= e < |handles| && (e in lru || e in inUse)
    ensures handles[e].refs > 0 && handles[e].inCache && e !in deleted
  {
    assert HandleAt(handles, held, lru, inUse, deleted, -1, e);
  }

  /** Counting one client reference less leaves one to drop. */
  lemma OneSlack(handles: seq<Handle>, held: seq<nat>, links: Links, lru: seq<nat>, inUse: seq<nat>, deleted: seq<nat>,
                 usage: nat, e: nat)
    requires Books(handles, held, links, lru, inUse, deleted, usage, -1) && 2 <= e < |handles| && held[e] > 0
    ensures Books(handles, held[e := held[e] - 1], links, lru, inUse, deleted, usage, e) && handles[e].refs > 0
  {
    assert HandleAt(handles, held, lru, inUse, deleted, -1, e);
    CountsChange(handles, held, lru, inUse, deleted, -1, e, handles[e], held[e] - 1, lru, inUse, deleted, e);
    assert handles[e := handles[e]] == handles;
  }

  // ---------- What a client sees over a run of calls ----------

  datatype Call = Put(k: Info, value: nat, charge: nat) | Get(k: Info) | Remove(k: Info) | Trim

  ghost predicate Within(m: map<Info, nat>, whole: map<Info, nat>) {
    forall k :: k in m ==> k in whole && m[k] == whole[k]
  }

  /** The value put under the key last, unless it has been removed since. */
  function LastPut(calls: seq<Call>, k: Info): Option<nat> {
    if calls == [] then None
    else
      var n := |calls| - 1;
      if calls[n].Put? && calls[n].k == k then Some(calls[n].value)
      else if calls[n].Remove? && calls[n].k == k then None
      else LastPut(calls[..n], k)
  }

  /** Whatever the map has was put there last. */
  ghost predicate UpToDate(m: map<Info, nat>, calls: seq<Call>) {
    forall k :: k in m ==> LastPut(calls, k) == Some(m[k])
  }

  /** What one call may do to the map, evictions included. */
  ghost predicate Does(call: Call, m: map<Info, nat>, m': map<Info, nat>, capacity: nat, answer: Option<nat>) {
    match call
    case Put(k, value, _) => if capacity > 0 then Within(m', m[k := value]) && k in m' && m'[k] == value else Within(m', m)
    case Get(k) => m' == m && answer == if k in m then Some(m[k]) else None
    case Remove(k) => m' == m - {k}
    case Trim => Within(m', m)
  }

  lemma StaysUpToDate(calls: seq<Call>, n: nat, m: map<Info, nat>, m': map<Info, nat>, capacity: nat, answer: Option<nat>)
    requires n < |calls| && UpToDate(m, calls[..n]) && Does(calls[n], m, m', capacity, answer)
    requires capacity == 0 ==> m == map[]
    ensures UpToDate(m', calls[..n + 1]) && (capacity == 0 ==> m' == map[])
    ensures calls[n].Get? && answer.Some? ==> answer == LastPut(calls[..n], calls[n].k)
    ensures capacity > 0 && calls[n].Put? ==> calls[n].k in m' && m'[calls[n].k] == calls[n].value
  {
    var now := calls[..n + 1];
    assert now[..n] == calls[..n];
    forall k | k in m' ensures LastPut(now, k) == Some(m'[k]) {
      assert LastPut(now, k) == if calls[n].Put? && calls[n].k == k then Some(calls[n].value)
                                else if calls[n].Remove? && calls[n].k == k then None else LastPut(calls[..n], k);
    }
  }

  /** One call by a client that gives its handles back at once. */
  method Answer(c: LRUCache, call: Call) returns (answer: Option<nat>)
    requires c.Valid()
    modifies c, c.table
    ensures c.Valid() && Does(call, old(c.Contents()), c.Contents(), c.capacity, answer)
  {
    hide LRUCache.Valid, LRUCache.Contents, SameContents, KeysOf, Taken, LruLess;
    c.CountsFit();
    answer := None;
    match call
    case Put(k, value, charge) =>
      assert Info(k.key, k.hash) == k;
      var e, replaced, n := c.Insert(k.key, k.hash, value, charge);
      c.CountsFit();
      c.Release(e);
    case Get(k) =>
      assert Info(k.key, k.hash) == k;
      var e := c.Lookup(k.key, k.hash);
      if e != NIL {
        answer := Some(c.handles[e].value);
        c.CountsFit();
        c.Release(e);
      }
    case Remove(k) =>
      assert Info(k.key, k.hash) == k;
      var e := c.Erase(k.key, k.hash);
    case Trim =>
      c.Prune();
  }

  /** Over any calls: what Lookup finds is what was inserted last under that key and not erased since; and what was
      just inserted is found, unless caching is turned off. */
  method AnswerAll(c: LRUCache, calls: seq<Call>) returns (answers: seq<Option<nat>>)
    requires c.Valid() && c.Contents() == map[]
    modifies c, c.table
    ensures |answers| == |calls|
    ensures forall i :: 0 <= i < |calls| && calls[i].Get? && answers[i].Some? ==> answers[i] == LastPut(calls[..i], calls[i].k)
    ensures forall i :: 0 < i < |calls| && calls[i].Get? && calls[i - 1].Put? && calls[i - 1].k == calls[i].k && c.capacity > 0 ==>
      answers[i] == Some(calls[i - 1].value)
  {
    hide LRUCache.Valid, LRUCache.Contents;
    answers := [];
    for n := 0 to |calls|
      invariant c.Valid() && |answers| == n && UpToDate(c.Contents(), calls[..n])
      invariant c.capacity == 0 ==> c.Contents() == map[]
      invariant n > 0 && calls[n - 1].Put? && c.capacity > 0 ==>
        calls[n - 1].k in c.Contents() && c.Contents()[calls[n - 1].k] == calls[n - 1].value
      invariant forall i :: 0 <= i < n && calls[i].Get? && answers[i].Some? ==> answers[i] == LastPut(calls[..i], calls[i].k)
      invariant forall i :: 0 < i < n && calls[i].Get? && calls[i - 1].Put? && calls[i - 1].k == calls[i].k && c.capacity > 0 ==>
        answers[i] == Some(calls[i - 1].value)
    {
      ghost var m := c.Contents();
      var answer := Answer(c, calls[n]);
      StaysUpToDate(calls, n, m, c.Contents(), c.capacity, answer);
      answers := answers + [answer];
    }
  }
}
