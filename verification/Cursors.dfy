/** Bidirectional cursors over sorted entries, and the k-way merge of them
    (table/iterator_wrapper.h, table/merger.cc). */
module Cursors {
  import opened Keys

  /** A child of the merge: any iterator over one strictly sorted run of entries. */
  class Cursor {
    const list: seq<Entry>
    var pos: int

    ghost predicate Ok()
      reads this
    {
      Sorted(list) && -1 <= pos <= |list|
    }

    predicate Valid()
      reads this
    {
      0 <= pos < |list|
    }

    constructor (list: seq<Entry>)
      requires Sorted(list)
      ensures Ok() && this.list == list && !Valid() && pos == |list|
    {
      this.list := list;
      pos := |list|;
    }

    function Key(): IKey
      requires Valid()
      reads this
    {
      list[pos].key
    }

    method SeekToFirst()
      requires Ok()
      modifies this
      ensures Ok() && pos == 0
    {
      pos := 0;
    }

    method SeekToLast()
      requires Ok()
      modifies this
      ensures Ok() && pos == |list| - 1
    {
      pos := |list| - 1;
    }

    method Seek(target: IKey)
      requires Ok()
      modifies this
      ensures Ok() && pos == SeekIndex(list, target)
    {
      pos := SeekIndex(list, target);
    }

    method Next()
      requires Ok() && Valid()
      modifies this
      ensures Ok() && pos == old(pos) + 1
    {
      pos := pos + 1;
    }

    method Prev()
      requires Ok() && Valid()
      modifies this
      ensures Ok() && pos == old(pos) - 1
    {
      pos := pos - 1;
    }
  }

  // ---------- Cuts: a place between entries, common to all children ----------

  datatype Cut = Start | Before(key: IKey) | After(key: IKey) | End

  predicate Left(cut: Cut, k: IKey) {
    match cut
    case Start => false
    case Before(c) => Less(k, c)
    case After(c) => AtMost(k, c)
    case End => true
  }

  /** Exactly the first `n` entries lie left of the cut. */
  predicate CutsAt(list: seq<Entry>, cut: Cut, n: int) {
    && 0 <= n <= |list|
    && forall i :: 0 <= i < |list| ==> (i < n <==> Left(cut, list[i].key))
  }

  /** Entry `n` is the last one left of the cut. */
  predicate EndsAt(list: seq<Entry>, cut: Cut, n: int) {
    && -1 <= n < |list|
    && forall i :: 0 <= i < |list| ==> (i <= n <==> Left(cut, list[i].key))
  }

  lemma SeekCuts(list: seq<Entry>, target: IKey)
    requires Sorted(list)
    ensures CutsAt(list, Before(target), SeekIndex(list, target))
  {
    var n := SeekIndex(list, target);
    forall i | n < i < |list| ensures AtMost(target, list[i].key) {
      assert Less(list[n].key, list[i].key);
    }
  }

  /** `all` is the sorted union of the lists, and no key is in two of them. */
  ghost predicate IsUnion(all: seq<Entry>, lists: seq<seq<Entry>>) {
    && Sorted(all)
    && (forall i :: 0 <= i < |lists| ==> Sorted(lists[i]))
    && (forall i, a {:trigger lists[i][a] in all} :: 0 <= i < |lists| && 0 <= a < |lists[i]| ==> lists[i][a] in all)
    && (forall p {:trigger InSome(lists, all[p])} :: 0 <= p < |all| ==> InSome(lists, all[p]))
    && (forall i, j, a, b :: 0 <= i < j < |lists| && 0 <= a < |lists[i]| && 0 <= b < |lists[j]| ==>
          lists[i][a].key != lists[j][b].key)
  }

  ghost predicate InSome(lists: seq<seq<Entry>>, e: Entry) {
    exists i :: 0 <= i < |lists| && e in lists[i]
  }

  /** Every child is split by the same cut: its first `at[i]` entries lie left of it. */
  ghost predicate AllCut(lists: seq<seq<Entry>>, cut: Cut, at: seq<int>) {
    |at| == |lists| && forall i :: 0 <= i < |lists| ==> CutsAt(lists[i], cut, at[i])
  }

  /** The least entry right of the cut among the children is the entry of the union there. */
  lemma LeastRightOfCut(all: seq<Entry>, lists: seq<seq<Entry>>, cut: Cut, at: seq<int>, n: nat, least: int)
    requires IsUnion(all, lists) && AllCut(lists, cut, at) && CutsAt(all, cut, n)
    requires -1 <= least < |lists|
    requires least < 0 ==> forall i :: 0 <= i < |lists| ==> at[i] == |lists[i]|
    requires least >= 0 ==> at[least] < |lists[least]|
    requires least >= 0 ==> forall i :: 0 <= i < |lists| && at[i] < |lists[i]| ==>
      AtMost(lists[least][at[least]].key, lists[i][at[i]].key)
    ensures least < 0 <==> n == |all|
    ensures least >= 0 ==> n < |all| && all[n] == lists[least][at[least]]
  {
    if n < |all| {
      var i, a := Locate(all, lists, n);
      assert at[i] <= a;
      assert AtMost(lists[i][at[i]].key, all[n].key);
    }
    if least >= 0 {
      var e := lists[least][at[least]];
      assert lists[least][at[least]] in all;
      var p :| 0 <= p < |all| && all[p] == e;
      assert n <= p;
      assert AtMost(all[n].key, e.key);
    }
  }

  /** Every child's entry `at[i]` is its last one left of the cut. */
  ghost predicate AllEnd(lists: seq<seq<Entry>>, cut: Cut, at: seq<int>) {
    |at| == |lists| && forall i :: 0 <= i < |lists| ==> EndsAt(lists[i], cut, at[i])
  }

  /** The greatest entry left of the cut among the children is the entry of the union there. */
  lemma GreatestLeftOfCut(all: seq<Entry>, lists: seq<seq<Entry>>, cut: Cut, at: seq<int>, n: int, greatest: int)
    requires IsUnion(all, lists) && AllEnd(lists, cut, at) && EndsAt(all, cut, n)
    requires -1 <= greatest < |lists|
    requires greatest < 0 ==> forall i :: 0 <= i < |lists| ==> at[i] == -1
    requires greatest >= 0 ==> at[greatest] >= 0
    requires greatest >= 0 ==> forall i :: 0 <= i < |lists| && at[i] >= 0 ==>
      AtMost(lists[i][at[i]].key, lists[greatest][at[greatest]].key)
    ensures greatest < 0 <==> n == -1
    ensures greatest >= 0 ==> n >= 0 && all[n] == lists[greatest][at[greatest]]
  {
    if n >= 0 {
      var i := ChildReaches(all, lists, cut, at, n);
      assert greatest >= 0;
      CompareIsTotalOrder(all[n].key, lists[i][at[i]].key, lists[greatest][at[greatest]].key);
    }
    if greatest >= 0 {
      var e := lists[greatest][at[greatest]];
      assert lists[greatest][at[greatest]] in all;
      var p :| 0 <= p < |all| && all[p] == e;
      assert p <= n;
    }
  }

  /** Some child stands at or past the union's last entry left of the cut. */
  lemma ChildReaches(all: seq<Entry>, lists: seq<seq<Entry>>, cut: Cut, at: seq<int>, n: nat) returns (i: nat)
    requires IsUnion(all, lists) && AllEnd(lists, cut, at) && EndsAt(all, cut, n)
    ensures i < |lists| && at[i] >= 0 && AtMost(all[n].key, lists[i][at[i]].key)
  {
    var a;
    i, a := Locate(all, lists, n);
    assert a <= at[i];
  }

  lemma Locate(all: seq<Entry>, lists: seq<seq<Entry>>, p: nat) returns (i: nat, a: nat)
    requires IsUnion(all, lists) && p < |all|
    ensures i < |lists| && a < |lists[i]| && lists[i][a] == all[p]
  {
    assert InSome(lists, all[p]);
    i :| 0 <= i < |lists| && all[p] in lists[i];
    a :| 0 <= a < |lists[i]| && lists[i][a] == all[p];
  }

  // ---------- Every family of children has a union ----------

  ghost predicate KeysApart(a: seq<Entry>, b: seq<Entry>) {
    forall i, j :: 0 <= i < |a| && 0 <= j < |b| ==> a[i].key != b[j].key
  }

  function MergeTwo(a: seq<Entry>, b: seq<Entry>): seq<Entry> {
    if a == [] then b
    else if b == [] then a
    else if Less(a[0].key, b[0].key) then [a[0]] + MergeTwo(a[1..], b)
    else [b[0]] + MergeTwo(a, b[1..])
  }

  lemma {:induction false} MergeTwoIsSorted(a: seq<Entry>, b: seq<Entry>)
    requires Sorted(a) && Sorted(b) && KeysApart(a, b)
    ensures Sorted(MergeTwo(a, b))
    ensures forall e :: e in MergeTwo(a, b) <==> e in a || e in b
  {
    if a != [] && b != [] {
      if Less(a[0].key, b[0].key) {
        MergeTwoIsSorted(a[1..], b);
        PrependSorted(a[0], MergeTwo(a[1..], b), a[1..], b);
      } else {
        MergeTwoIsSorted(a, b[1..]);
        PrependSorted(b[0], MergeTwo(a, b[1..]), a, b[1..]);
      }
    }
  }

  lemma PrependSorted(e: Entry, rest: seq<Entry>, a: seq<Entry>, b: seq<Entry>)
    requires Sorted(rest) && forall x :: x in rest ==> x in a || x in b
    requires forall i :: 0 <= i < |a| ==> Less(e.key, a[i].key)
    requires forall i :: 0 <= i < |b| ==> Less(e.key, b[i].key)
    ensures Sorted([e] + rest)
  {
    forall i | 0 <= i < |rest| ensures Less(e.key, rest[i].key) {
      assert rest[i] in rest;
    }
  }

  lemma {:induction false} UnionExists(lists: seq<seq<Entry>>) returns (all: seq<Entry>)
    requires forall i :: 0 <= i < |lists| ==> Sorted(lists[i])
    requires forall i, j :: 0 <= i < j < |lists| ==> KeysApart(lists[i], lists[j])
    ensures IsUnion(all, lists)
  {
    if lists == [] {
      all := [];
    } else {
      var n := |lists| - 1;
      var front := UnionExists(lists[..n]);
      assert KeysApart(front, lists[n]) by {
        forall p, b | 0 <= p < |front| && 0 <= b < |lists[n]| ensures front[p].key != lists[n][b].key {
          var i, a := Locate(front, lists[..n], p);
          assert KeysApart(lists[i], lists[n]);
        }
      }
      MergeTwoIsSorted(front, lists[n]);
      all := MergeTwo(front, lists[n]);
      forall i, a | 0 <= i < |lists| && 0 <= a < |lists[i]| ensures lists[i][a] in all {
        if i < n {
          assert lists[..n][i][a] in front;
        }
      }
      forall p | 0 <= p < |all| ensures InSome(lists, all[p]) {
        assert all[p] in all;
        if all[p] in front {
          var q :| 0 <= q < |front| && front[q] == all[p];
          var i, a := Locate(front, lists[..n], q);
          assert all[p] in lists[i];
        }
      }
    }
  }

  // ---------- The merging iterator ----------

  datatype Direction = Forward | Reverse

  /** MergingIterator.  `all` is the sorted union of the children, and `pos` the merged cursor's
      place in it; `current` is the index of the child it stands on, or -1. */
  class MergingIterator {
    const children: seq<Cursor>
    var current: int
    var direction: Direction
    ghost const all: seq<Entry>
    ghost var pos: int

    ghost function Lists(): seq<seq<Entry>> {
      seq(|children|, i requires 0 <= i < |children| => children[i].list)
    }

    ghost function At(): seq<int>
      reads children
    {
      seq(|children|, i requires 0 <= i < |children| reads children => children[i].pos)
    }

    ghost predicate ChildrenCut(cut: Cut)
      reads children
    {
      forall i :: 0 <= i < |children| ==> CutsAt(children[i].list, cut, children[i].pos)
    }

    ghost predicate ChildrenEnd(cut: Cut)
      reads children
    {
      forall i :: 0 <= i < |children| ==> EndsAt(children[i].list, cut, children[i].pos)
    }

    ghost predicate Shape() {
      && (forall i, j :: 0 <= i < j < |children| ==> children[i] != children[j])
      && IsUnion(all, Lists())
    }

    /** Moving forward, every child stands at its first entry at or after the current key;
        moving backward, every other child stands at its last entry before it. */
    ghost predicate Ok()
      reads this, children
    {
      && Shape()
      && (forall i :: 0 <= i < |children| ==> children[i].Ok())
      && -1 <= pos <= |all| && -1 <= current < |children|
      && (current >= 0 <==> 0 <= pos < |all|)
      && (current >= 0 ==> children[current].Valid() && children[current].list[children[current].pos] == all[pos])
      && (current >= 0 && direction == Forward ==> ChildrenCut(Before(all[pos].key)))
      && (current >= 0 && direction == Reverse ==>
            forall i :: 0 <= i < |children| && i != current ==>
              EndsAt(children[i].list, Before(all[pos].key), children[i].pos))
    }

    predicate Valid()
      reads this
    {
      current >= 0
    }

    constructor (children: seq<Cursor>, ghost all: seq<Entry>)
      requires forall i, j :: 0 <= i < j < |children| ==> children[i] != children[j]
      requires forall i :: 0 <= i < |children| ==> children[i].Ok()
      requires IsUnion(all, seq(|children|, i requires 0 <= i < |children| => children[i].list))
      ensures Ok() && !Valid() && this.children == children && this.all == all && pos == |all|
    {
      this.children := children;
      this.all := all;
      current := -1;
      direction := Forward;
      pos := |all|;
    }

    function Current(): Entry
      requires Ok() && Valid()
      reads this, children
      ensures Current() == all[pos]
    {
      children[current].list[children[current].pos]
    }

    /** FindSmallest: the first child with the least current key. */
    method FindSmallest()
      requires forall i :: 0 <= i < |children| ==> children[i].Ok()
      modifies this`current
      ensures -1 <= current < |children|
      ensures current < 0 ==> forall i :: 0 <= i < |children| ==> !children[i].Valid()
      ensures current >= 0 ==> children[current].Valid()
      ensures current >= 0 ==> forall i :: 0 <= i < |children| && children[i].Valid() ==>
        AtMost(children[current].Key(), children[i].Key())
    {
      var smallest := -1;
      for i := 0 to |children|
        invariant -1 <= smallest < i
        invariant smallest < 0 ==> forall j :: 0 <= j < i ==> !children[j].Valid()
        invariant smallest >= 0 ==> children[smallest].Valid()
        invariant smallest >= 0 ==> forall j :: 0 <= j < i && children[j].Valid() ==>
          AtMost(children[smallest].Key(), children[j].Key())
      {
        var child := children[i];
        if child.Valid() {
          if smallest < 0 {
            smallest := i;
          } else if Less(child.Key(), children[smallest].Key()) {
            smallest := i;
          }
        }
      }
      current := smallest;
    }

    /** FindLargest: the last child with the greatest current key. */
    method FindLargest()
      requires forall i :: 0 <= i < |children| ==> children[i].Ok()
      modifies this`current
      ensures -1 <= current < |children|
      ensures current < 0 ==> forall i :: 0 <= i < |children| ==> !children[i].Valid()
      ensures current >= 0 ==> children[current].Valid()
      ensures current >= 0 ==> forall i :: 0 <= i < |children| && children[i].Valid() ==>
        AtMost(children[i].Key(), children[current].Key())
    {
      var largest := -1;
      var i := |children| - 1;
      while i >= 0
        invariant -1 <= i < |children| && -1 <= largest < |children|
        invariant largest < 0 ==> forall j :: i < j < |children| ==> !children[j].Valid()
        invariant largest >= 0 ==> children[largest].Valid()
        invariant largest >= 0 ==> forall j :: i < j < |children| && children[j].Valid() ==>
          AtMost(children[j].Key(), children[largest].Key())
      {
        var child := children[i];
        if child.Valid() {
          if largest < 0 {
            largest := i;
          } else if Less(children[largest].Key(), child.Key()) {
            largest := i;
          }
        }
        i := i - 1;
      }
      current := largest;
    }

    /** All children stand right of one cut; FindSmallest lands on the union's entry there. */
    method SettleForward(ghost cut: Cut, ghost n: nat)
      requires Shape() && (forall i :: 0 <= i < |children| ==> children[i].Ok())
      requires ChildrenCut(cut) && CutsAt(all, cut, n)
      modifies this
      ensures Ok() && pos == n
    {
      assert AllCut(Lists(), cut, At());
      FindSmallest();
      direction := Forward;
      LeastRightOfCut(all, Lists(), cut, At(), n, current);
      pos := n;
      if current >= 0 {
        CutMoves(all, Lists(), cut, At(), n);
        forall i | 0 <= i < |children| ensures CutsAt(children[i].list, Before(all[pos].key), children[i].pos) {
          assert CutsAt(Lists()[i], Before(all[n].key), At()[i]);
        }
      }
    }

    /** All children stand left of one cut; FindLargest lands on the union's entry there. */
    method SettleReverse(ghost cut: Cut, ghost n: int)
      requires Shape() && (forall i :: 0 <= i < |children| ==> children[i].Ok())
      requires ChildrenEnd(cut) && EndsAt(all, cut, n)
      modifies this
      ensures Ok() && pos == n
    {
      assert AllEnd(Lists(), cut, At());
      FindLargest();
      direction := Reverse;
      GreatestLeftOfCut(all, Lists(), cut, At(), n, current);
      pos := n;
      if current >= 0 {
        EndMoves(all, Lists(), cut, At(), n, current);
        forall i | 0 <= i < |children| && i != current
          ensures EndsAt(children[i].list, Before(all[pos].key), children[i].pos)
        {
          assert EndsAt(Lists()[i], Before(all[n].key), At()[i]);
        }
      }
    }

    method SeekToFirst()
      requires Ok()
      modifies this, children
      ensures Ok() && pos == 0
    {
      for i := 0 to |children|
        invariant Shape() && forall j :: 0 <= j < |children| ==> children[j].Ok()
        invariant forall j :: 0 <= j < i ==> children[j].pos == 0
      {
        children[i].SeekToFirst();
      }
      SettleForward(Start, 0);
    }

    method SeekToLast()
      requires Ok()
      modifies this, children
      ensures Ok() && pos == |all| - 1
    {
      for i := 0 to |children|
        invariant Shape() && forall j :: 0 <= j < |children| ==> children[j].Ok()
        invariant forall j :: 0 <= j < i ==> children[j].pos == |children[j].list| - 1
      {
        children[i].SeekToLast();
      }
      SettleReverse(End, |all| - 1);
    }

    method Seek(target: IKey)
      requires Ok()
      modifies this, children
      ensures Ok() && pos == SeekIndex(all, target)
    {
      for i := 0 to |children|
        invariant Shape() && forall j :: 0 <= j < |children| ==> children[j].Ok()
        invariant forall j :: 0 <= j < i ==> CutsAt(children[j].list, Before(target), children[j].pos)
      {
        SeekCuts(children[i].list, target);
        children[i].Seek(target);
      }
      SeekCuts(all, target);
      SettleForward(Before(target), SeekIndex(all, target));
    }

    /** Next: after moving backward, every other child is first brought to its first entry past
        the current key. */
    method Next()
      requires Ok() && Valid()
      modifies this, children
      ensures Ok() && pos == old(pos) + 1
    {
      ghost var key := all[pos].key;
      ghost var n := pos;
      if direction != Forward {
        TurnForward();
      }
      StepPast(all, Lists(), At(), current, n);
      forall i | 0 <= i < |children|
        ensures CutsAt(children[i].list, After(key), children[i].pos + if i == current then 1 else 0)
      {
        assert CutsAt(Lists()[i], After(key), At()[current := At()[current] + 1][i]);
      }
      children[current].Next();
      SettleForward(After(key), n + 1);
    }

    method TurnForward()
      requires Ok() && Valid() && direction == Reverse
      modifies this`direction, children
      ensures Ok() && direction == Forward
    {
      var key := children[current].Key();
      for i := 0 to |children|
        invariant Shape() && forall j :: 0 <= j < |children| ==> children[j].Ok()
        invariant children[current].pos == old(children[current].pos)
        invariant forall j :: 0 <= j < i && j != current ==> CutsAt(children[j].list, Before(key), children[j].pos)
      {
        if i != current {
          var child := children[i];
          SeekCuts(child.list, key);
          child.Seek(key);
          if child.Valid() && child.Key() == key {
            child.Next();
          }
          KeysDiffer(all, Lists(), pos, current, i);
          assert Lists()[i] == child.list;
        }
      }
      direction := Forward;
      OwnKeyCuts(children[current].list, children[current].pos);
    }

    /** Prev: after moving forward, every other child is first brought to its last entry before
        the current key. */
    method Prev()
      requires Ok() && Valid()
      modifies this, children
      ensures Ok() && pos == old(pos) - 1
    {
      ghost var key := all[pos].key;
      ghost var n := pos;
      if direction != Reverse {
        TurnReverse();
      }
      OwnKeyCuts(children[current].list, children[current].pos);
      OwnKeyCuts(all, n);
      children[current].Prev();
      SettleReverse(Before(key), n - 1);
    }

    method TurnReverse()
      requires Ok() && Valid() && direction == Forward
      modifies this`direction, children
      ensures Ok() && direction == Reverse
    {
      var key := children[current].Key();
      for i := 0 to |children|
        invariant Shape() && forall j :: 0 <= j < |children| ==> children[j].Ok()
        invariant children[current].pos == old(children[current].pos)
        invariant forall j :: 0 <= j < i && j != current ==> EndsAt(children[j].list, Before(key), children[j].pos)
      {
        if i != current {
          var child := children[i];
          SeekCuts(child.list, key);
          child.Seek(key);
          if child.Valid() {
            child.Prev();
          } else {
            child.SeekToLast();
          }
        }
      }
      direction := Reverse;
    }
  }

  lemma OwnKeyCuts(list: seq<Entry>, n: nat)
    requires Sorted(list) && n < |list|
    ensures CutsAt(list, Before(list[n].key), n) && EndsAt(list, Before(list[n].key), n - 1)
  {
  }

  /** No other child holds the current key. */
  lemma KeysDiffer(all: seq<Entry>, lists: seq<seq<Entry>>, n: nat, owner: nat, other: nat)
    requires IsUnion(all, lists) && n < |all| && owner < |lists| && other < |lists| && owner != other
    requires all[n] in lists[owner]
    ensures forall a :: 0 <= a < |lists[other]| ==> lists[other][a].key != all[n].key
  {
    var b :| 0 <= b < |lists[owner]| && lists[owner][b] == all[n];
  }

  /** Stepping the child that owns the current entry moves the common cut past that entry. */
  lemma StepPast(all: seq<Entry>, lists: seq<seq<Entry>>, at: seq<int>, owner: nat, n: nat)
    requires IsUnion(all, lists) && n < |all| && AllCut(lists, Before(all[n].key), at)
    requires owner < |lists| && at[owner] < |lists[owner]| && lists[owner][at[owner]] == all[n]
    ensures AllCut(lists, After(all[n].key), at[owner := at[owner] + 1])
    ensures CutsAt(all, After(all[n].key), n + 1)
  {
    forall i | 0 <= i < |lists| && i != owner ensures CutsAt(lists[i], After(all[n].key), at[i]) {
      KeysDiffer(all, lists, n, owner, i);
    }
  }

  /** Moving the cut up to the entry right of it changes no child's place. */
  lemma CutMoves(all: seq<Entry>, lists: seq<seq<Entry>>, cut: Cut, at: seq<int>, n: nat)
    requires IsUnion(all, lists) && AllCut(lists, cut, at) && CutsAt(all, cut, n) && n < |all|
    ensures AllCut(lists, Before(all[n].key), at)
  {
    forall i | 0 <= i < |lists| ensures CutsAt(lists[i], Before(all[n].key), at[i]) {
      forall a | 0 <= a < |lists[i]| ensures a < at[i] <==> Less(lists[i][a].key, all[n].key) {
        assert lists[i][a] in all;
        var p :| 0 <= p < |all| && all[p] == lists[i][a];
        assert p < n <==> Left(cut, all[p].key);
      }
    }
  }

  /** Moving the cut down before the entry left of it: the other children keep their places. */
  lemma EndMoves(all: seq<Entry>, lists: seq<seq<Entry>>, cut: Cut, at: seq<int>, n: nat, owner: nat)
    requires IsUnion(all, lists) && AllEnd(lists, cut, at) && EndsAt(all, cut, n)
    requires owner < |lists| && at[owner] >= 0 && lists[owner][at[owner]] == all[n]
    ensures forall i :: 0 <= i < |lists| && i != owner ==> EndsAt(lists[i], Before(all[n].key), at[i])
  {
    forall i | 0 <= i < |lists| && i != owner ensures EndsAt(lists[i], Before(all[n].key), at[i]) {
      forall a | 0 <= a < |lists[i]| ensures a <= at[i] <==> Less(lists[i][a].key, all[n].key) {
        assert lists[i][a] in all;
        var p :| 0 <= p < |all| && all[p] == lists[i][a];
        assert p <= n <==> Left(cut, all[p].key);
        assert lists[i][a].key != all[n].key;
      }
    }
  }
}
