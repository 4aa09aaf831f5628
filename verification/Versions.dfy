/** Versions of rows, the order of the sorted runs, and what a snapshot sees. */
module Versions {
  import opened Values

  datatype Version = Version(pk: Value, ts: nat, tombstone: bool, row: Row)

  /** `MVCCKeyCompare`: primary key ascending, newer first within one key. */
  predicate Before(a: Version, b: Version) {
    if Less(a.pk, b.pk) then true
    else if Less(b.pk, a.pk) then false
    else a.ts > b.ts
  }

  predicate SameKey(a: Version, b: Version) {
    a.pk == b.pk && a.ts == b.ts
  }

  lemma BeforeTotal(a: Version, b: Version)
    ensures !Before(a, a)
    ensures Before(a, b) || SameKey(a, b) || Before(b, a)
    ensures !(Before(a, b) && Before(b, a))
    ensures Before(a, b) <==> Less(a.pk, b.pk) || (a.pk == b.pk && a.ts > b.ts)
  {
    LessTotal(a.pk, b.pk);
  }

  lemma BeforeTransitive(a: Version, b: Version, c: Version)
    requires Before(a, b) && Before(b, c)
    ensures Before(a, c)
  {
    BeforeTotal(a, b); BeforeTotal(b, c); BeforeTotal(a, c);
    if Less(a.pk, b.pk) && Less(b.pk, c.pk) { LessTransitive(a.pk, b.pk, c.pk); }
  }

  ghost predicate Sorted(s: seq<Version>) {
    forall i, j | 0 <= i < j < |s| :: Before(s[i], s[j])
  }

  predicate Matches(v: Version, pk: Value, snap: nat) {
    v.pk == pk && v.ts <= snap
  }

  function Better(x: Option<Version>, y: Option<Version>): Option<Version> {
    if y.None? || (x.Some? && x.value.ts >= y.value.ts) then x else y
  }

  function Hit(v: Version, pk: Value, snap: nat): Option<Version> {
    if Matches(v, pk, snap) then Some(v) else None
  }

  /** The version of `pk` that a snapshot sees: the newest one not younger than the snapshot. */
  function Newest(s: seq<Version>, pk: Value, snap: nat): Option<Version> {
    if s == [] then None else Better(Hit(s[0], pk, snap), Newest(s[1..], pk, snap))
  }

  /** A tombstone reads as no row. */
  function Payload(v: Option<Version>): Option<Row> {
    if v.Some? && !v.value.tombstone then Some(v.value.row) else None
  }

  function Read(s: seq<Version>, pk: Value, snap: nat): Option<Row> {
    Payload(Newest(s, pk, snap))
  }

  /** Two versions with the same key and timestamp carry the same contents. */
  ghost predicate Consistent(s: seq<Version>) {
    forall v, w | v in s && w in s && SameKey(v, w) :: v == w
  }

  /** `Newest` is what its name says: a matching version with the largest timestamp, if any matches. */
  lemma {:induction false} NewestIsNewest(s: seq<Version>, pk: Value, snap: nat)
    ensures Newest(s, pk, snap).None? ==> forall w | w in s :: !Matches(w, pk, snap)
    ensures Newest(s, pk, snap).Some? ==>
      var v := Newest(s, pk, snap).value;
      v in s && Matches(v, pk, snap) && forall w | w in s && Matches(w, pk, snap) :: w.ts <= v.ts
  {
    if s != [] {
      NewestIsNewest(s[1..], pk, snap);
      assert forall w | w in s :: w == s[0] || w in s[1..];
    }
  }

  lemma NewestUnique(s: seq<Version>, pk: Value, snap: nat, v: Version)
    requires Consistent(s)
    requires v in s && Matches(v, pk, snap)
    requires forall w | w in s && Matches(w, pk, snap) :: w.ts <= v.ts
    ensures Newest(s, pk, snap) == Some(v)
  {
    NewestIsNewest(s, pk, snap);
    var u := Newest(s, pk, snap).value;
    assert SameKey(u, v);
  }

  /** Only the set of versions matters, not their order, their multiplicity or the file they are in. */
  lemma NewestOfSameSet(a: seq<Version>, b: seq<Version>, pk: Value, snap: nat)
    requires Consistent(b)
    requires forall v :: v in a <==> v in b
    ensures Newest(a, pk, snap) == Newest(b, pk, snap)
  {
    NewestIsNewest(a, pk, snap);
    NewestIsNewest(b, pk, snap);
    if Newest(a, pk, snap).Some? {
      NewestUnique(b, pk, snap, Newest(a, pk, snap).value);
    }
  }

  lemma {:induction false} NewestOfConcat(a: seq<Version>, b: seq<Version>, pk: Value, snap: nat)
    ensures Newest(a + b, pk, snap) == Better(Newest(a, pk, snap), Newest(b, pk, snap))
  {
    if a == [] {
      assert a + b == b;
    } else {
      NewestOfConcat(a[1..], b, pk, snap);
      assert (a + b)[1..] == a[1..] + b;
    }
  }

  lemma NewestBeforeSilence(a: seq<Version>, b: seq<Version>, pk: Value, snap: nat)
    requires Newest(b, pk, snap) == None
    ensures Newest(a + b, pk, snap) == Newest(a, pk, snap)
  {
    NewestOfConcat(a, b, pk, snap);
    NothingBetter(Newest(a, pk, snap));
  }

  lemma NothingBetter(v: Option<Version>)
    ensures Better(v, None) == v
  {
  }

  // ---- One collection of versions standing for another ----

  /** The same version, or nothing in place of a tombstone. */
  predicate StandsFor(x: Option<Version>, y: Option<Version>) {
    x == y || (x.None? && y.Some? && y.value.tombstone)
  }

  /** At every snapshot not below `h`, `a` can replace `b`: no row appears, disappears or changes. */
  ghost predicate Refines(a: seq<Version>, b: seq<Version>, h: nat) {
    forall pk, snap | snap >= h :: StandsFor(Newest(a, pk, snap), Newest(b, pk, snap))
  }

  /** What a reader may rely on after a refinement. */
  lemma RefinesReads(a: seq<Version>, b: seq<Version>, h: nat, pk: Value, snap: nat)
    requires Refines(a, b, h) && snap >= h
    ensures Read(a, pk, snap) == Read(b, pk, snap)
  {
    assert StandsFor(Newest(a, pk, snap), Newest(b, pk, snap));
  }

  lemma RefinesTransitive(a: seq<Version>, b: seq<Version>, c: seq<Version>, h: nat, k: nat, m: nat)
    requires Refines(a, b, h) && Refines(b, c, k) && m >= h && m >= k
    ensures Refines(a, c, m)
  {
    forall pk, snap | snap >= m ensures StandsFor(Newest(a, pk, snap), Newest(c, pk, snap)) {
      assert StandsFor(Newest(a, pk, snap), Newest(b, pk, snap));
      assert StandsFor(Newest(b, pk, snap), Newest(c, pk, snap));
    }
  }

  lemma RefinesOfSameSet(a: seq<Version>, b: seq<Version>)
    requires Consistent(b)
    requires forall v :: v in a <==> v in b
    ensures Refines(a, b, 0)
  {
    forall pk, snap: nat ensures StandsFor(Newest(a, pk, snap), Newest(b, pk, snap)) {
      NewestOfSameSet(a, b, pk, snap);
    }
  }

  /** `a` holds every version of `b` that is at least as new as one `a` holds of the same key. */
  ghost predicate Dominates(a: seq<Version>, b: seq<Version>) {
    forall v, w | v in a && w in b && v.pk == w.pk && w.ts >= v.ts :: w in a
  }
}
