/** What a read means, independently of where entries are stored: the newest entry of the user
    key at or below the snapshot decides (doc of db/dbformat.h; DB::Get). */
module Reads {
  import opened Keys

  datatype Answer = NotFound | Found(value: Bytes)

  predicate Visible(e: Entry, u: UserKey, s: nat) {
    e.key.user == u && e.key.sn <= s
  }

  /** `e` is the newest entry of `u` in `E` at or below `s`. */
  ghost predicate Hit(E: set<Entry>, u: UserKey, s: nat, e: Entry) {
    && e in E && Visible(e, u, s)
    && forall f :: f in E && Visible(f, u, s) ==> f.key.sn <= e.key.sn
  }

  /** One entry per user key and sequence number. */
  ghost predicate Distinct(E: set<Entry>) {
    forall e, f :: e in E && f in E && e.key.user == f.key.user && e.key.sn == f.key.sn ==> e == f
  }

  ghost function Read(E: set<Entry>, u: UserKey, s: nat): Answer {
    if exists e :: Hit(E, u, s, e) && e.key.kind.Value? then
      var e :| Hit(E, u, s, e) && e.key.kind.Value?;
      Found(e.value)
    else NotFound
  }

  function AnswerOf(e: Entry): Answer {
    if e.key.kind.Value? then Found(e.value) else NotFound
  }

  lemma ReadAtHit(E: set<Entry>, u: UserKey, s: nat, e: Entry)
    requires Distinct(E) && Hit(E, u, s, e)
    ensures Read(E, u, s) == AnswerOf(e)
  {
  }

  lemma ReadWithoutHit(E: set<Entry>, u: UserKey, s: nat)
    requires forall e :: e in E ==> !Visible(e, u, s)
    ensures Read(E, u, s) == NotFound
  {
  }

  lemma {:induction false} HitExists(E: set<Entry>, u: UserKey, s: nat, seed: Entry) returns (e: Entry)
    requires seed in E && Visible(seed, u, s)
    ensures Hit(E, u, s, e)
    decreases E
  {
    var rest := E - {seed};
    if exists f :: f in rest && Visible(f, u, s) {
      var f :| f in rest && Visible(f, u, s);
      var g := HitExists(rest, u, s, f);
      e := if g.key.sn <= seed.key.sn then seed else g;
      forall h | h in E && Visible(h, u, s) ensures h.key.sn <= e.key.sn {
        assert h == seed || h in rest;
      }
    } else {
      e := seed;
      forall h | h in E && Visible(h, u, s) ensures h.key.sn <= e.key.sn {
        assert h == seed || h in rest;
      }
    }
  }

  /** Entries newer than a whole set shadow it: the layered search of DBImpl::Get (memtable,
      then immutable memtable, then the version) is sound for this reason. */
  ghost predicate NewerThan(A: set<Entry>, B: set<Entry>) {
    forall a, b :: a in A && b in B && a.key.user == b.key.user ==> a.key.sn > b.key.sn
  }

  ghost predicate SomeVisible(E: set<Entry>, u: UserKey, s: nat) {
    exists e :: e in E && Visible(e, u, s)
  }

  lemma ReadOfUnion(A: set<Entry>, B: set<Entry>, u: UserKey, s: nat)
    requires Distinct(A + B) && NewerThan(A, B)
    ensures Read(A + B, u, s) == if SomeVisible(A, u, s) then Read(A, u, s) else Read(B, u, s)
  {
    if SomeVisible(A, u, s) {
      var a :| a in A && Visible(a, u, s);
      var e := HitExists(A, u, s, a);
      ReadAtHit(A, u, s, e);
      assert Hit(A + B, u, s, e);
      ReadAtHit(A + B, u, s, e);
    } else if SomeVisible(B, u, s) {
      var b :| b in B && Visible(b, u, s);
      var e := HitExists(B, u, s, b);
      ReadAtHit(B, u, s, e);
      assert Hit(A + B, u, s, e);
      ReadAtHit(A + B, u, s, e);
    } else {
      ReadWithoutHit(A + B, u, s);
      ReadWithoutHit(B, u, s);
    }
  }

  ghost function EntrySet(es: seq<Entry>): set<Entry> {
    set e | e in es
  }
}
