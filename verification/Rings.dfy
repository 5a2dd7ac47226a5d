/** The circular doubly linked lists of the cache (util/cache.cc: LRU_Remove, LRU_Append).  Nodes are known
    by number; a list is a head node and the nodes that follow it round. */
module Rings {

  datatype Links = Links(next: seq<nat>, prev: seq<nat>)

  ghost predicate Linked(l: Links, a: nat, b: nat) {
    a < |l.next| && b < |l.prev| && l.next[a] == b && l.prev[b] == a
  }

  ghost predicate NoRepeats(s: seq<nat>) {
    forall i, j :: 0 <= i < j < |s| ==> s[i] != s[j]
  }

  /** Once round: the head, the nodes in order, the head again. */
  ghost function Round(head: nat, s: seq<nat>): seq<nat> {
    [head] + s + [head]
  }

  /** The list at `head` is exactly `s`. */
  ghost predicate Ring(l: Links, head: nat, s: seq<nat>) {
    && |l.next| == |l.prev| && NoRepeats([head] + s)
    && forall i {:trigger Round(head, s)[i]} :: 0 <= i <= |s| ==> Linked(l, Round(head, s)[i], Round(head, s)[i + 1])
  }

  function LruRemove(l: Links, e: nat): Links
    requires |l.next| == |l.prev| && e < |l.next| && l.next[e] < |l.prev| && l.prev[e] < |l.next|
  {
    Links(l.next[l.prev[e] := l.next[e]], l.prev[l.next[e] := l.prev[e]])
  }

  /** The node joins the ring between its last node and the dummy head. */
  function LruAppend(l: Links, head: nat, e: nat): Links
    requires |l.next| == |l.prev| && e < |l.next| && head < |l.next| && l.prev[head] < |l.next|
  {
    var last := l.prev[head];
    Links(l.next[e := head][last := e], l.prev[e := last][head := e])
  }

  ghost function Without(s: seq<nat>, k: nat): seq<nat>
    requires k < |s|
  {
    s[..k] + s[k + 1..]
  }

  lemma RingNodes(l: Links, head: nat, s: seq<nat>)
    requires Ring(l, head, s)
    ensures head < |l.next| && l.prev[head] < |l.next| && forall x :: x in s ==> x < |l.next|
    ensures l.prev[head] == if s == [] then head else s[|s| - 1]
    ensures l.next[head] == if s == [] then head else s[0]
    ensures l.next[head] == head <==> s == []
  {
    assert s != [] ==> ([head] + s)[0] != ([head] + s)[1];
    var c := Round(head, s);
    assert Linked(l, c[0], c[1]) && Linked(l, c[|s|], c[|s| + 1]);
    forall k | 0 <= k < |s| ensures s[k] < |l.next| {
      assert Linked(l, c[k + 1], c[k + 2]);
    }
  }

  lemma NodeAt(l: Links, head: nat, s: seq<nat>, k: nat)
    requires Ring(l, head, s) && k < |s|
    ensures s[k] < |l.next|
    ensures l.prev[s[k]] == Round(head, s)[k] && l.next[s[k]] == Round(head, s)[k + 2]
    ensures l.prev[s[k]] < |l.next| && l.next[s[k]] < |l.next|
  {
    var c := Round(head, s);
    assert Linked(l, c[k], c[k + 1]) && Linked(l, c[k + 1], c[k + 2]);
  }

  lemma RoundDiffers(head: nat, s: seq<nat>, i: nat, j: nat)
    requires NoRepeats([head] + s) && i <= |s| && j <= |s| && i != j
    ensures Round(head, s)[i] != Round(head, s)[j] && Round(head, s)[i + 1] != Round(head, s)[j + 1]
  {
    var t := [head] + s;
    var c := Round(head, s);
    assert forall k :: 0 <= k <= |s| ==> c[k] == t[k];
    assert c[|s| + 1] == t[0];
    if i + 1 <= |s| && j + 1 <= |s| {
      assert c[i + 1] == t[i + 1] && c[j + 1] == t[j + 1];
    }
  }

  lemma RemoveKeepsRing(l: Links, head: nat, s: seq<nat>, k: nat)
    requires Ring(l, head, s) && k < |s|
    ensures s[k] < |l.next| && l.next[s[k]] < |l.prev| && l.prev[s[k]] < |l.next|
    ensures Ring(LruRemove(l, s[k]), head, Without(s, k))
  {
    NodeAt(l, head, s, k);
    var l', s' := LruRemove(l, s[k]), Without(s, k);
    WithoutKeepsApart(head, s, k);
    forall i | 0 <= i <= |s'| ensures Linked(l', Round(head, s')[i], Round(head, s')[i + 1]) {
      RemovedLinked(l, head, s, k, i, l', s');
    }
  }

  lemma RemovedLinked(l: Links, head: nat, s: seq<nat>, k: nat, i: nat, l': Links, s': seq<nat>)
    requires Ring(l, head, s) && k < |s| && s' == Without(s, k) && i <= |s'|
    requires s[k] < |l.next| && l.next[s[k]] < |l.prev| && l.prev[s[k]] < |l.next| && l' == LruRemove(l, s[k])
    ensures Linked(l', Round(head, s')[i], Round(head, s')[i + 1])
  {
    RoundWithout(head, s, k, i);
    RoundWithout(head, s, k, i + 1);
    if i != k {
      StillLinked(l, head, s, k, if i < k then i else i + 1);
    } else {
      NodeAt(l, head, s, k);
    }
  }

  lemma RoundWithout(head: nat, s: seq<nat>, k: nat, i: nat)
    requires k < |s| && i <= |s|
    ensures Round(head, Without(s, k))[i] == Round(head, s)[if i <= k then i else i + 1]
  {
  }

  /** Taking out a node leaves the links that do not touch it. */
  lemma StillLinked(l: Links, head: nat, s: seq<nat>, k: nat, i: nat)
    requires Ring(l, head, s) && k < |s| && i <= |s| && i != k && i != k + 1
    ensures s[k] < |l.next| && l.next[s[k]] < |l.prev| && l.prev[s[k]] < |l.next|
    ensures Linked(LruRemove(l, s[k]), Round(head, s)[i], Round(head, s)[i + 1])
  {
    NodeAt(l, head, s, k);
    RoundDiffers(head, s, i, k);
    RoundDiffers(head, s, i, k + 1);
    assert Linked(l, Round(head, s)[i], Round(head, s)[i + 1]);
  }

  lemma WithoutKeepsApart(head: nat, s: seq<nat>, k: nat)
    requires NoRepeats([head] + s) && k < |s|
    ensures NoRepeats([head] + Without(s, k))
  {
    var t, t' := [head] + s, [head] + Without(s, k);
    forall i, j | 0 <= i < j < |t'| ensures t'[i] != t'[j] {
      WithoutAt(head, s, k, i);
      WithoutAt(head, s, k, j);
    }
  }

  lemma WithoutAt(head: nat, s: seq<nat>, k: nat, i: nat)
    requires k < |s| && i < |s|
    ensures ([head] + Without(s, k))[i] == ([head] + s)[if i <= k then i else i + 1]
  {
  }

  lemma WithoutMembers(head: nat, s: seq<nat>, k: nat)
    requires NoRepeats([head] + s) && k < |s|
    ensures s[k] !in Without(s, k) && s[k] != head
    ensures forall x :: x in s <==> x in Without(s, k) || x == s[k]
  {
    var t, s' := [head] + s, Without(s, k);
    assert t[k + 1] == s[k] && t[0] == head;
    forall i | 0 <= i < |s'| ensures s'[i] != s[k] {
      assert t[if i < k then i + 1 else i + 2] == s'[i];
    }
    forall x | x in s && x != s[k] ensures x in s' {
      var i :| 0 <= i < |s| && s[i] == x;
      assert s'[if i < k then i else i - 1] == x;
    }
  }

  lemma AppendKeepsRing(l: Links, head: nat, s: seq<nat>, e: nat)
    requires Ring(l, head, s) && e != head && e !in s && e < |l.next|
    ensures head < |l.next| && l.prev[head] < |l.next|
    ensures Ring(LruAppend(l, head, e), head, s + [e])
  {
    RingNodes(l, head, s);
    var l', s' := LruAppend(l, head, e), s + [e];
    var c, c' := Round(head, s), Round(head, s');
    assert forall i :: 0 <= i <= |s| ==> c'[i] == c[i];
    assert c'[|s| + 1] == e && c'[|s| + 2] == head;
    AppendRepeats(head, s, e);
    forall i | 0 <= i <= |s'| ensures Linked(l', c'[i], c'[i + 1]) {
      if i < |s| {
        RoundDiffers(head, s, i, |s|);
        assert Linked(l, c[i], c[i + 1]);
        assert c[i] != e && c[i + 1] != e;
      } else if i == |s| {
        assert Linked(l, c[|s|], c[|s| + 1]);
      }
    }
  }

  lemma AppendRepeats(head: nat, s: seq<nat>, e: nat)
    requires NoRepeats([head] + s) && e != head && e !in s
    ensures NoRepeats([head] + (s + [e]))
  {
    var t, t' := [head] + s, [head] + (s + [e]);
    assert forall i :: 0 <= i < |t| ==> t'[i] == t[i];
    forall i | 0 <= i < |t| ensures t[i] != e {
      assert i > 0 ==> t[i] == s[i - 1];
    }
  }

  /** A list does not notice changes to the pointers of other nodes. */
  lemma RingUntouched(l: Links, head: nat, s: seq<nat>, l': Links)
    requires Ring(l, head, s) && |l'.next| == |l'.prev| && |l.next| <= |l'.next|
    requires forall x :: x == head || x in s ==> x < |l.next| ==> l'.next[x] == l.next[x] && l'.prev[x] == l.prev[x]
    ensures Ring(l', head, s)
  {
    var c := Round(head, s);
    forall i | 0 <= i <= |s| ensures Linked(l', c[i], c[i + 1]) {
      assert Linked(l, c[i], c[i + 1]);
      assert c[i] == head || c[i] in s;
      assert c[i + 1] == head || c[i + 1] in s;
    }
  }
}
