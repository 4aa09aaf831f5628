/** Secondary indexes that keep old entries, and the scan that checks every candidate again. */
module IndexScan {
  import opened Values
  import opened Rounding
  import opened Versions
  import opened Sessions
  import Codec
  import Subqueries

  /** One entry of the ordered multimap: a column value and the primary key of a row that had it. */
  datatype IndexEntry = IndexEntry(key: Value, pk: Value)

  ghost predicate Ordered(ix: seq<IndexEntry>) {
    forall i, j | 0 <= i < j < |ix| :: !Less(ix[j].key, ix[i].key)
  }

  // ---- What is looked up ----

  datatype Bound = Bound(v: Value, inclusive: bool)

  datatype Probe = Point(key: Value) | Points(keys: seq<Value>) | Range(low: Option<Bound>, high: Option<Bound>)

  predicate AboveLow(low: Option<Bound>, v: Value) {
    low.None? || if low.value.inclusive then !Less(v, low.value.v) else Less(low.value.v, v)
  }

  predicate BelowHigh(high: Option<Bound>, v: Value) {
    high.None? || if high.value.inclusive then !Less(high.value.v, v) else Less(v, high.value.v)
  }

  /** The check that a candidate row's column value must pass. */
  predicate Accepts(probe: Probe, v: Value) {
    match probe
    case Point(key) => v == key
    case Points(keys) => v in keys
    case Range(low, high) => AboveLow(low, v) && BelowHigh(high, v)
  }

  // ---- Searching the multimap ----

  /** `lower_bound`: how many keys are smaller. */
  function LowerBound(ix: seq<IndexEntry>, v: Value): nat {
    if ix == [] || !Less(ix[0].key, v) then 0 else 1 + LowerBound(ix[1..], v)
  }

  /** `upper_bound`: how many keys are not larger. */
  function UpperBound(ix: seq<IndexEntry>, v: Value): nat {
    if ix == [] || Less(v, ix[0].key) then 0 else 1 + UpperBound(ix[1..], v)
  }

  lemma {:induction false} LowerBoundCuts(ix: seq<IndexEntry>, v: Value)
    requires Ordered(ix)
    ensures LowerBound(ix, v) <= |ix|
    ensures forall i | 0 <= i < |ix| :: i < LowerBound(ix, v) <==> Less(ix[i].key, v)
  {
    if ix != [] {
      if Less(ix[0].key, v) {
        LowerBoundCuts(ix[1..], v);
        forall i | 0 <= i < |ix| ensures i < LowerBound(ix, v) <==> Less(ix[i].key, v) {
          if i > 0 { assert ix[1..][i - 1] == ix[i]; }
        }
      } else {
        forall i | 0 < i < |ix| ensures !Less(ix[i].key, v) { NotLessThenNotLess(v, ix[0].key, ix[i].key); }
      }
    }
  }

  lemma NotLessThenNotLess(v: Value, a: Value, b: Value)
    requires !Less(a, v) && !Less(b, a)
    ensures !Less(b, v)
  {
    LessTotal(a, v); LessTotal(b, a);
    if Less(b, v) {
      LessTotal(b, v);
      if Less(v, a) { LessTransitive(b, v, a); }
    }
  }

  lemma {:induction false} UpperBoundCuts(ix: seq<IndexEntry>, v: Value)
    requires Ordered(ix)
    ensures UpperBound(ix, v) <= |ix|
    ensures forall i | 0 <= i < |ix| :: i < UpperBound(ix, v) <==> !Less(v, ix[i].key)
  {
    if ix != [] {
      if !Less(v, ix[0].key) {
        UpperBoundCuts(ix[1..], v);
        forall i | 0 <= i < |ix| ensures i < UpperBound(ix, v) <==> !Less(v, ix[i].key) {
          if i > 0 { assert ix[1..][i - 1] == ix[i]; }
        }
      } else {
        forall i | 0 < i < |ix| ensures Less(v, ix[i].key) { LessThenLess(v, ix[0].key, ix[i].key); }
      }
    }
  }

  lemma LessThenLess(v: Value, a: Value, b: Value)
    requires Less(v, a) && !Less(b, a)
    ensures Less(v, b)
  {
    LessTotal(a, b);
    if Less(a, b) { LessTransitive(v, a, b); }
  }

  /** Where a range begins and ends in the multimap. */
  function From(ix: seq<IndexEntry>, low: Option<Bound>): nat {
    if low.None? then 0 else if low.value.inclusive then LowerBound(ix, low.value.v) else UpperBound(ix, low.value.v)
  }

  function Until(ix: seq<IndexEntry>, high: Option<Bound>): nat {
    if high.None? then |ix| else if high.value.inclusive then UpperBound(ix, high.value.v) else LowerBound(ix, high.value.v)
  }

  lemma RangeCuts(ix: seq<IndexEntry>, low: Option<Bound>, high: Option<Bound>)
    requires Ordered(ix)
    ensures From(ix, low) <= |ix| && Until(ix, high) <= |ix|
    ensures forall i | 0 <= i < |ix| :: (From(ix, low) <= i <==> AboveLow(low, ix[i].key))
    ensures forall i | 0 <= i < |ix| :: (i < Until(ix, high) <==> BelowHigh(high, ix[i].key))
  {
    if low.Some? { LowerBoundCuts(ix, low.value.v); UpperBoundCuts(ix, low.value.v); }
    if high.Some? { LowerBoundCuts(ix, high.value.v); UpperBoundCuts(ix, high.value.v); }
  }

  /**
   * The iteration from the lower to the upper bound meets the upper bound if and only if no key lies outside both,
   * that is above the high end and below the low end.
   */
  lemma RangeEndsIff(ix: seq<IndexEntry>, low: Option<Bound>, high: Option<Bound>)
    requires Ordered(ix)
    ensures From(ix, low) <= Until(ix, high) <==>
      forall e | e in ix :: AboveLow(low, e.key) || BelowHigh(high, e.key)
  {
    RangeCuts(ix, low, high);
    if From(ix, low) > Until(ix, high) {
      assert ix[Until(ix, high)] in ix;
    }
  }

  ghost predicate NoRepeats(s: seq<Value>) {
    forall i, j | 0 <= i < j < |s| :: s[i] != s[j]
  }

  /** The primary keys of a stretch of the index, each once. */
  method Collect(ix: seq<IndexEntry>, from: nat, until: nat) returns (pks: seq<Value>)
    requires from <= until <= |ix|
    ensures NoRepeats(pks)
    ensures forall pk :: pk in pks <==> exists i :: from <= i < until && ix[i].pk == pk
  {
    pks := [];
    var seen: set<Value> := {};
    for i := from to until
      invariant NoRepeats(pks) && (forall pk :: pk in pks <==> pk in seen)
      invariant forall pk :: pk in seen <==> exists x :: from <= x < i && ix[x].pk == pk
    {
      if ix[i].pk !in seen {
        seen := seen + {ix[i].pk};
        pks := pks + [ix[i].pk];
      }
    }
  }

  /** The primary keys that have an entry the probe accepts. */
  ghost predicate Candidate(ix: seq<IndexEntry>, probe: Probe, pk: Value) {
    exists e :: e in ix && e.pk == pk && Accepts(probe, e.key)
  }

  /** Nothing when the iteration starts behind its end and runs past the end of the index. */
  method LookupRange(ix: seq<IndexEntry>, low: Option<Bound>, high: Option<Bound>) returns (pks: Option<seq<Value>>)
    requires Ordered(ix)
    ensures pks.None? <==> RunsPast(ix, Range(low, high))
    ensures pks.Some? ==> NoRepeats(pks.value) && forall pk :: pk in pks.value <==> Candidate(ix, Range(low, high), pk)
  {
    RangeCuts(ix, low, high);
    RangeEndsIff(ix, low, high);
    var from, until := From(ix, low), Until(ix, high);
    if from > until { return None; }
    var found := Collect(ix, from, until);
    forall pk ensures pk in found <==> Candidate(ix, Range(low, high), pk) {
      if pk in found {
        var i :| from <= i < until && ix[i].pk == pk;
        assert ix[i] in ix && Accepts(Range(low, high), ix[i].key);
      }
      if Candidate(ix, Range(low, high), pk) {
        var e :| e in ix && e.pk == pk && Accepts(Range(low, high), e.key);
        var i :| 0 <= i < |ix| && ix[i] == e;
        assert from <= i < until;
      }
    }
    return Some(found);
  }

  /** A key above the high end and below the low end. */
  ghost predicate RunsPast(ix: seq<IndexEntry>, probe: Probe) {
    probe.Range? && exists e :: e in ix && !AboveLow(probe.low, e.key) && !BelowHigh(probe.high, e.key)
  }

  /** x BETWEEN 7 AND 3 over one row with x = 5: the iteration begins behind its end. */
  lemma BackwardsRangeRunsPast(pk: Value)
    ensures var ix, low, high := [IndexEntry(Int(5), pk)], Some(Bound(Int(7), true)), Some(Bound(Int(3), true));
      Ordered(ix) && From(ix, low) > Until(ix, high) && RunsPast(ix, Range(low, high))
  {
    var ix, low, high := [IndexEntry(Int(5), pk)], Some(Bound(Int(7), true)), Some(Bound(Int(3), true));
    assert ix[0] in ix;
    RangeEndsIff(ix, low, high);
  }

  method LookupPoint(ix: seq<IndexEntry>, key: Value) returns (pks: seq<Value>)
    requires Ordered(ix)
    ensures NoRepeats(pks) && forall pk :: pk in pks <==> Candidate(ix, Point(key), pk)
  {
    LowerBoundCuts(ix, key);
    UpperBoundCuts(ix, key);
    forall v | v in ix ensures !Less(v.key, key) && !Less(key, v.key) <==> v.key == key { LessTotal(v.key, key); }
    LessTotal(key, key);
    BoundsMeet(ix, key);
    pks := Collect(ix, LowerBound(ix, key), UpperBound(ix, key));
    forall pk ensures pk in pks <==> Candidate(ix, Point(key), pk) {
      if Candidate(ix, Point(key), pk) {
        var e :| e in ix && e.pk == pk && Accepts(Point(key), e.key);
        var i :| 0 <= i < |ix| && ix[i] == e;
        assert LowerBound(ix, key) <= i < UpperBound(ix, key);
      }
    }
  }

  lemma BoundsMeet(ix: seq<IndexEntry>, key: Value)
    requires Ordered(ix)
    ensures LowerBound(ix, key) <= UpperBound(ix, key) <= |ix|
  {
    RangeCuts(ix, Some(Bound(key, true)), Some(Bound(key, true)));
    RangeEndsIff(ix, Some(Bound(key, true)), Some(Bound(key, true)));
    forall e | e in ix ensures AboveLow(Some(Bound(key, true)), e.key) || BelowHigh(Some(Bound(key, true)), e.key) {
      LessTotal(e.key, key);
    }
  }

  /** IN: the union of the point lookups, each primary key once. */
  method LookupPoints(ix: seq<IndexEntry>, keys: seq<Value>) returns (pks: seq<Value>)
    requires Ordered(ix)
    ensures NoRepeats(pks) && forall pk :: pk in pks <==> Candidate(ix, Points(keys), pk)
  {
    pks := [];
    var seen: set<Value> := {};
    for i := 0 to |keys|
      invariant NoRepeats(pks) && (forall pk :: pk in pks <==> pk in seen)
      invariant forall pk :: pk in seen <==> Candidate(ix, Points(keys[..i]), pk)
    {
      var found := LookupPoint(ix, keys[i]);
      ghost var before := seen;
      for j := 0 to |found|
        invariant NoRepeats(pks) && (forall pk :: pk in pks <==> pk in seen)
        invariant forall pk :: pk in seen <==> pk in before || pk in found[..j]
      {
        if found[j] !in seen {
          seen := seen + {found[j]};
          pks := pks + [found[j]];
        }
      }
      forall pk ensures pk in seen <==> Candidate(ix, Points(keys[..i + 1]), pk) { OneMorePoint(ix, keys, i, pk); }
    }
    assert keys[..|keys|] == keys;
  }

  lemma OneMorePoint(ix: seq<IndexEntry>, keys: seq<Value>, i: nat, pk: Value)
    requires i < |keys|
    ensures Candidate(ix, Points(keys[..i + 1]), pk) <==> Candidate(ix, Points(keys[..i]), pk) || Candidate(ix, Point(keys[i]), pk)
  {
    assert forall v :: v in keys[..i + 1] <==> v in keys[..i] || v == keys[i];
    forall e | e in ix && e.pk == pk
      ensures Accepts(Points(keys[..i + 1]), e.key) <==> Accepts(Points(keys[..i]), e.key) || Accepts(Point(keys[i]), e.key) {}
    if Candidate(ix, Points(keys[..i]), pk) {
      var e :| e in ix && e.pk == pk && Accepts(Points(keys[..i]), e.key);
      assert Accepts(Points(keys[..i + 1]), e.key);
    }
    if Candidate(ix, Point(keys[i]), pk) {
      var e :| e in ix && e.pk == pk && Accepts(Point(keys[i]), e.key);
      assert Accepts(Points(keys[..i + 1]), e.key);
    }
  }

  // ---- Composite indexes ----

  /** The entry key of a composite index: the encoded tuple, as a string value. */
  function TupleKey(vals: seq<Value>): Value {
    Text(Codec.EncodeComposite(vals))
  }

  /** A point lookup of the encoded tuple accepts exactly the rows whose columns are the tuple. */
  lemma TupleProbeRight(keys: seq<Value>, vals: seq<Value>)
    requires |keys| == |vals| && (forall v | v in keys :: Codec.Storable(v)) && (forall v | v in vals :: Codec.Storable(v))
    ensures Accepts(Point(TupleKey(keys)), TupleKey(vals)) <==> vals == keys
  {
    if Codec.EncodeComposite(vals) == Codec.EncodeComposite(keys) { Codec.CompositeIndexInjective(vals, keys); }
  }

  // ---- The scan ----

  /** What the query asks for: the rows the transaction sees that pass the check. */
  function Hits(base: Rows, b: Buffer<Value>, matches: Row -> bool): Rows {
    map k | k in View(base, b) && matches(View(base, b)[k]) :: View(base, b)[k]
  }

  function Delivered(hits: Rows, pk: Value): seq<Entry> {
    if pk in hits then [Entry(pk, hits[pk])] else []
  }

  lemma HitStep(hits: Rows, keys: set<Value>, pk: Value, out: seq<Entry>)
    requires Scanned(out, Restrict(hits, keys)) && pk !in keys
    ensures Scanned(out + Delivered(hits, pk), Restrict(hits, keys + {pk}))
  {
    if pk in hits {
      ScannedAppend(out, Restrict(hits, keys), Entry(pk, hits[pk]));
      assert Restrict(hits, keys + {pk}) == Restrict(hits, keys)[pk := hits[pk]];
    } else {
      assert Restrict(hits, keys + {pk}) == Restrict(hits, keys);
      assert out + Delivered(hits, pk) == out;
    }
  }

  function KeySet(pks: seq<Value>): set<Value> {
    set pk | pk in pks
  }

  lemma KeySetStep(pks: seq<Value>, i: nat)
    requires i < |pks| && NoRepeats(pks)
    ensures KeySet(pks[..i + 1]) == KeySet(pks[..i]) + {pks[i]} && pks[i] !in KeySet(pks[..i])
  {
    assert pks[..i + 1] == pks[..i] + [pks[i]];
  }

  /** One candidate: the buffer first, then the visible row, each checked again. */
  method Recheck(pk: Value, base: Rows, b: Buffer<Value>, matches: Row -> bool) returns (out: seq<Entry>, emitted: bool)
    requires Disjoint(b)
    ensures out == Delivered(Hits(base, b, matches), pk)
    ensures pk in b.upserts ==> emitted
  {
    if pk in b.deletes { return [], true; }
    if pk in b.upserts {
      return if matches(b.upserts[pk]) then [Entry(pk, b.upserts[pk])] else [], true;
    }
    if pk !in base || !matches(base[pk]) { return [], false; }
    return [Entry(pk, base[pk])], true;
  }

  /** The rows of the candidates; also which primary keys are dealt with. */
  method ScanCandidates(pks: seq<Value>, base: Rows, b: Buffer<Value>, matches: Row -> bool)
    returns (out: seq<Entry>, emitted: set<Value>)
    requires Disjoint(b) && NoRepeats(pks)
    ensures Scanned(out, Restrict(Hits(base, b, matches), KeySet(pks)))
    ensures forall k | k in b.upserts :: k in emitted <==> k in pks
  {
    ghost var hits := Hits(base, b, matches);
    out, emitted := [], {};
    assert Restrict(hits, {}) == map[];
    for i := 0 to |pks|
      invariant Scanned(out, Restrict(hits, KeySet(pks[..i])))
      invariant forall k :: (k in emitted ==> k in pks[..i]) && (k in b.upserts && k in pks[..i] ==> k in emitted)
    {
      var found, done := Recheck(pks[i], base, b, matches);
      KeySetStep(pks, i);
      HitStep(hits, KeySet(pks[..i]), pks[i], out);
      out := out + found;
      if done { emitted := emitted + {pks[i]}; }
    }
    assert pks[..|pks|] == pks;
  }

  /** `IndexScanPlan`: the candidates, then the buffered rows that the index does not know. */
  method ScanIndex(pks: seq<Value>, base: Rows, b: Buffer<Value>, matches: Row -> bool) returns (out: seq<Entry>)
    requires Disjoint(b) && NoRepeats(pks)
    ensures Scanned(out, Restrict(Hits(base, b, matches), KeySet(pks) + b.upserts.Keys))
  {
    ghost var hits, done := Hits(base, b, matches), KeySet(pks);
    var emitted;
    out, emitted := ScanCandidates(pks, base, b, matches);
    var todo := b.upserts.Keys - emitted;
    while todo != {}
      invariant todo <= b.upserts.Keys && todo !! done && done + todo == KeySet(pks) + b.upserts.Keys
      invariant Scanned(out, Restrict(hits, done))
      decreases todo
    {
      var pk :| pk in todo;
      HitStep(hits, done, pk, out);
      if matches(b.upserts[pk]) {
        out := out + [Entry(pk, b.upserts[pk])];
      } else {
        assert out + Delivered(hits, pk) == out;
      }
      todo, done := todo - {pk}, done + {pk};
    }
    assert done == KeySet(pks) + b.upserts.Keys;
  }

  // ---- Keeping the index ----

  /** `emplace` on the multimap. */
  function Put(ix: seq<IndexEntry>, e: IndexEntry): seq<IndexEntry> {
    var n := UpperBound(ix, e.key);
    if n <= |ix| then ix[..n] + [e] + ix[n..] else ix
  }

  lemma PutKeeps(ix: seq<IndexEntry>, e: IndexEntry)
    requires Ordered(ix)
    ensures Ordered(Put(ix, e)) && forall x :: x in Put(ix, e) <==> x in ix || x == e
  {
    UpperBoundCuts(ix, e.key);
    var n, r := UpperBound(ix, e.key), Put(ix, e);
    forall i, j | 0 <= i < j < |r| ensures !Less(r[j].key, r[i].key) {
      if i == n { LessTotal(e.key, r[j].key); }
      if j > n { assert r[j] == ix[j - 1]; }
      if i > n { assert r[i] == ix[i - 1]; }
    }
    assert ix == ix[..n] + ix[n..];
    assert forall x :: x in ix <==> x in ix[..n] || x in ix[n..];
  }

  function EntryOf(row: Entry, col: Row -> Value): IndexEntry {
    IndexEntry(col(row.row), row.pk)
  }

  /** CREATE INDEX: the entries of the rows that are visible now. */
  method Build(rows: seq<Entry>, col: Row -> Value) returns (ix: seq<IndexEntry>)
    ensures IsBuilt(ix, rows, col)
  {
    ix := [];
    for i := 0 to |rows|
      invariant IsBuilt(ix, rows[..i], col)
    {
      PutKeeps(ix, EntryOf(rows[i], col));
      ix := Put(ix, EntryOf(rows[i], col));
    }
    assert rows[..|rows|] == rows;
  }

  ghost predicate IsBuilt(ix: seq<IndexEntry>, rows: seq<Entry>, col: Row -> Value) {
    Ordered(ix) && forall e :: e in ix <==> exists i :: 0 <= i < |rows| && EntryOf(rows[i], col) == e
  }

  /** The stored versions, the index, and the newest timestamp when the index was last built. */
  datatype Indexed = Indexed(versions: seq<Version>, ix: seq<IndexEntry>, built: nat)

  /** A commit writes a version, and an entry when it is a row; or the index is built anew from the current rows. */
  datatype Step = Write(v: Version) | Rebuild(rows: seq<Entry>, ix: seq<IndexEntry>)

  function MaxTs(s: seq<Version>): nat {
    if s == [] then 0 else if s[0].ts > MaxTs(s[1..]) then s[0].ts else MaxTs(s[1..])
  }

  ghost predicate CurrentRows(rows: seq<Entry>, versions: seq<Version>) {
    exists table :: Scanned(rows, table) && forall pk :: Lookup(table, pk) == Read(versions, pk, MaxTs(versions))
  }

  ghost predicate Enabled(t: Indexed, step: Step, col: Row -> Value) {
    step.Rebuild? ==> CurrentRows(step.rows, t.versions) && IsBuilt(step.ix, step.rows, col)
  }

  function Next(t: Indexed, step: Step, col: Row -> Value): Indexed {
    match step
    case Write(v) =>
      t.(versions := t.versions + [v], ix := if v.tombstone then t.ix else Put(t.ix, IndexEntry(col(v.row), v.pk)))
    case Rebuild(rows, ix) =>
      t.(ix := ix, built := MaxTs(t.versions))
  }

  /** Every row a snapshot sees has its entry. */
  ghost predicate Known(t: Indexed, snap: nat, col: Row -> Value) {
    forall pk :: Read(t.versions, pk, snap).Some? ==> IndexEntry(col(Read(t.versions, pk, snap).value), pk) in t.ix
  }

  ghost predicate Ok(t: Indexed, col: Row -> Value) {
    Ordered(t.ix) && forall snap | snap >= t.built :: Known(t, snap, col)
  }

  lemma WriteKeepsOk(t: Indexed, v: Version, col: Row -> Value)
    requires Ok(t, col)
    ensures Ok(Next(t, Write(v), col), col)
  {
    var t' := Next(t, Write(v), col);
    if !v.tombstone { PutKeeps(t.ix, IndexEntry(col(v.row), v.pk)); }
    forall snap | snap >= t'.built ensures Known(t', snap, col) {
      assert Known(t, snap, col);
      forall pk | Read(t'.versions, pk, snap).Some? ensures IndexEntry(col(Read(t'.versions, pk, snap).value), pk) in t'.ix {
        NewestOfConcat(t.versions, [v], pk, snap);
        assert Newest([v], pk, snap) == Versions.Hit(v, pk, snap);
        if Newest(t'.versions, pk, snap) == Newest(t.versions, pk, snap) {
          assert Read(t'.versions, pk, snap) == Read(t.versions, pk, snap);
        } else {
          assert Newest(t'.versions, pk, snap) == Some(v) && v.pk == pk;
        }
      }
    }
  }

  lemma {:induction false} NothingNewer(s: seq<Version>, pk: Value, snap: nat)
    requires snap >= MaxTs(s)
    ensures Newest(s, pk, snap) == Newest(s, pk, MaxTs(s))
  {
    NothingAbove(s, pk, snap, MaxTs(s));
  }

  lemma {:induction false} NothingAbove(s: seq<Version>, pk: Value, snap: nat, m: nat)
    requires snap >= m >= MaxTs(s)
    ensures Newest(s, pk, snap) == Newest(s, pk, m)
  {
    if s != [] { NothingAbove(s[1..], pk, snap, m); }
  }

  lemma RebuildKeepsOk(t: Indexed, rows: seq<Entry>, ix: seq<IndexEntry>, col: Row -> Value)
    requires Enabled(t, Rebuild(rows, ix), col)
    ensures Ok(Next(t, Rebuild(rows, ix), col), col)
  {
    var t' := Next(t, Rebuild(rows, ix), col);
    var table :| Scanned(rows, table) && forall pk :: Lookup(table, pk) == Read(t.versions, pk, MaxTs(t.versions));
    forall snap | snap >= t'.built ensures Known(t', snap, col) {
      forall pk | Read(t'.versions, pk, snap).Some? ensures IndexEntry(col(Read(t'.versions, pk, snap).value), pk) in ix {
        NothingNewer(t.versions, pk, snap);
        assert Lookup(table, pk) == Read(t.versions, pk, MaxTs(t.versions));
        ListedMeans(rows, |rows|, pk);
        var i :| 0 <= i < |rows| && rows[i].pk == pk;
        assert EntryOf(rows[i], col) in ix;
      }
    }
  }

  /** A rebuilt index is not older than the newest version; a write only adds to it. */
  lemma StepsIndex(t: Indexed, v: Version, rows: seq<Entry>, ix: seq<IndexEntry>, col: Row -> Value)
    requires Ordered(t.ix)
    ensures Next(t, Rebuild(rows, ix), col).ix == ix && Next(t, Rebuild(rows, ix), col).versions == t.versions
    ensures Next(t, Rebuild(rows, ix), col).built == 0 || exists w :: w in t.versions && w.ts == Next(t, Rebuild(rows, ix), col).built
    ensures Next(t, Write(v), col).versions == t.versions + [v] && Next(t, Write(v), col).built == t.built
    ensures forall e | e in t.ix :: e in Next(t, Write(v), col).ix
  {
    MaxTsIsOne(t.versions);
    if !v.tombstone { PutKeeps(t.ix, IndexEntry(col(v.row), v.pk)); }
  }

  lemma {:induction false} MaxTsIsOne(s: seq<Version>)
    ensures MaxTs(s) == 0 || exists w :: w in s && w.ts == MaxTs(s)
  {
    if s != [] {
      MaxTsIsOne(s[1..]);
      if MaxTs(s) == s[0].ts { assert s[0] in s; }
      if MaxTs(s[1..]) == MaxTs(s) && MaxTs(s) != 0 {
        var w :| w in s[1..] && w.ts == MaxTs(s[1..]);
        assert w in s;
      }
    }
  }

  ghost predicate Legal(t: Indexed, steps: seq<Step>, col: Row -> Value)
    decreases |steps|
  {
    steps == [] || (Enabled(t, steps[0], col) && Legal(Next(t, steps[0], col), steps[1..], col))
  }

  ghost function Run(t: Indexed, steps: seq<Step>, col: Row -> Value): Indexed
    decreases |steps|
  {
    if steps == [] then t else Run(Next(t, steps[0], col), steps[1..], col)
  }

  /** Whatever is written and however often the index is built: it knows every row seen since it was last built. */
  lemma {:induction false} RunKeepsOk(t: Indexed, steps: seq<Step>, col: Row -> Value)
    requires Ok(t, col) && Legal(t, steps, col)
    ensures Ok(Run(t, steps, col), col)
    decreases |steps|
  {
    if steps != [] {
      match steps[0] {
        case Write(v) => WriteKeepsOk(t, v, col);
        case Rebuild(rows, ix) => RebuildKeepsOk(t, rows, ix, col);
      }
      RunKeepsOk(Next(t, steps[0], col), steps[1..], col);
    }
  }

  /** A row changed from 1 to 2, then the index is built: a snapshot from before the change misses the row. */
  lemma OlderSnapshotMisses(col: Row -> Value)
    requires col([Int(1)]) == Int(1) && col([Int(2)]) == Int(2)
    ensures var s := [Version(Null, 1, false, [Int(1)]), Version(Null, 2, false, [Int(2)])];
      var t := Next(Indexed(s, [], 0), Rebuild([Entry(Null, [Int(2)])], [IndexEntry(Int(2), Null)]), col);
      && Enabled(Indexed(s, [], 0), Rebuild([Entry(Null, [Int(2)])], [IndexEntry(Int(2), Null)]), col)
      && Read(t.versions, Null, 1) == Some([Int(1)]) && !Candidate(t.ix, Point(Int(1)), Null)
  {
    var v, w := Version(Null, 1, false, [Int(1)]), Version(Null, 2, false, [Int(2)]);
    var s, rows := [v, w], [Entry(Null, [Int(2)])];
    assert [v] + [w] == s && s[1..] == [w] && [w][1..] == [];
    assert MaxTs([w]) == 2 && MaxTs(s) == 2;
    forall pk, snap: nat ensures Newest(s, pk, snap) == Better(Versions.Hit(v, pk, snap), Versions.Hit(w, pk, snap)) {
      NewestOfConcat([v], [w], pk, snap);
    }
    var table: Rows := map[Null := [Int(2)]];
    assert Listed(rows, 1) == table && Scanned(rows, table);
    assert forall pk :: Lookup(table, pk) == Read(s, pk, 2);
    assert EntryOf(rows[0], col) == IndexEntry(Int(2), Null);
  }

  // ---- The predicate that the index replaces ----

  datatype Where =
    | Eq(k: Value) | Lt(k: Value) | Le(k: Value) | Gt(k: Value) | Ge(k: Value)
    | Between(low: Value, high: Value) | In(keys: seq<Value>)

  /** The planner's choice of probe. */
  function ProbeOf(w: Where): Probe {
    match w
    case Eq(k) => Point(k)
    case Lt(k) => Range(None, Some(Bound(k, false)))
    case Le(k) => Range(None, Some(Bound(k, true)))
    case Gt(k) => Range(Some(Bound(k, false)), None)
    case Ge(k) => Range(Some(Bound(k, true)), None)
    case Between(low, high) => Range(Some(Bound(low, true)), Some(Bound(high, true)))
    case In(keys) => Points(keys)
  }

  /** WHERE is true in SQL: a comparison with NULL never is. Integers are compared as doubles, but IN compares exactly. */
  predicate IsTrue(w: Where, v: Value) {
    match w
    case Eq(k) => v != Null && k != Null && Rounded(v) == Rounded(k)
    case Lt(k) => v != Null && k != Null && Less(Rounded(v), Rounded(k))
    case Le(k) => v != Null && k != Null && !Less(Rounded(k), Rounded(v))
    case Gt(k) => v != Null && k != Null && Less(Rounded(k), Rounded(v))
    case Ge(k) => v != Null && k != Null && !Less(Rounded(v), Rounded(k))
    case Between(low, high) =>
      v != Null && low != Null && high != Null && !Less(Rounded(v), Rounded(low)) && !Less(Rounded(high), Rounded(v))
    case In(keys) => v != Null && exists k :: k in keys && k != Null && v == k
  }

  /** The same condition as an expression over a column. */
  function AsCondition(w: Where, e: Subqueries.Expr): Subqueries.BoolExpr {
    match w
    case Eq(k) => Subqueries.Compare(Subqueries.Op.Eq, e, Subqueries.Lit(k))
    case Lt(k) => Subqueries.Compare(Subqueries.Op.Lt, e, Subqueries.Lit(k))
    case Le(k) => Subqueries.Compare(Subqueries.Op.Le, e, Subqueries.Lit(k))
    case Gt(k) => Subqueries.Compare(Subqueries.Op.Gt, e, Subqueries.Lit(k))
    case Ge(k) => Subqueries.Compare(Subqueries.Op.Ge, e, Subqueries.Lit(k))
    case Between(low, high) => Subqueries.BoolExpr.Between(e, Subqueries.Lit(low), Subqueries.Lit(high), false)
    case In(keys) => Subqueries.InList(e, seq(|keys|, i => if 0 <= i < |keys| then Subqueries.Lit(keys[i]) else e), false)
  }

  /** WHERE is true of a value exactly when the evaluator says so. */
  lemma IsTrueEvaluates(w: Where, e: Subqueries.Expr, scopes: Subqueries.Scopes)
    ensures IsTrue(w, Subqueries.ValueOf(e, scopes)) <==> Subqueries.Eval(AsCondition(w, e), scopes) == Subqueries.True
  {
    if w.In? {
      var es := seq(|w.keys|, i => if 0 <= i < |w.keys| then Subqueries.Lit(w.keys[i]) else e);
      assert Subqueries.ValuesOf(es, scopes) == w.keys;
    }
  }

  /** Where the index, for which NULL is the smallest value, answers differently. */
  predicate NullTrouble(w: Where, v: Value) {
    match w
    case Eq(k) => k == Null && v == Null
    case Lt(k) => k != Null && v == Null
    case Le(k) => v == Null
    case Gt(k) => k == Null && v != Null
    case Ge(k) => k == Null
    case Between(low, high) => low == Null && (v == Null || (high != Null && !Less(high, v)))
    case In(keys) => Null in keys && v == Null
  }

  /** Where the index, which compares exactly, answers differently: the value rounds onto an end it lies beside. */
  predicate RoundTrouble(w: Where, v: Value) {
    match w
    case Eq(k) => RoundsOnto(v, k)
    case Lt(k) => RoundsOnto(v, k) && Less(v, k)
    case Le(k) => RoundsOnto(v, k) && Less(k, v)
    case Gt(k) => RoundsOnto(v, k) && Less(k, v)
    case Ge(k) => RoundsOnto(v, k) && Less(v, k)
    case Between(low, high) =>
      && low != Null && high != Null && !Less(Rounded(high), Rounded(low))
      && ((RoundsOnto(v, low) && Less(v, low)) || (RoundsOnto(v, high) && Less(high, v)))
    case In(keys) => false
  }

  lemma OneEnd(v: Value, k: Value)
    requires v != Null && k != Null
    ensures Less(v, k) <==> Less(Rounded(v), Rounded(k)) || (RoundsOnto(v, k) && Less(v, k))
    ensures Less(Rounded(v), Rounded(k)) ==> Less(v, k)
  {
    RoundedMonotone(v, k);
    RoundedMonotone(k, v);
    LessTotal(v, k);
    LessTotal(Rounded(v), Rounded(k));
  }

  /** The probe accepts a value exactly when WHERE is true of it, if and only if neither NULL nor rounding is in the way. */
  lemma ProbeRightIff(w: Where, v: Value)
    ensures Accepts(ProbeOf(w), v) == IsTrue(w, v) <==> !NullTrouble(w, v) && !RoundTrouble(w, v)
  {
    match w
    case Between(low, high) => BetweenRightIff(low, high, v);
    case In(_) =>
    case _ =>
      LessTotal(v, w.k);
      RoundedMonotone(v, w.k);
      RoundedMonotone(w.k, v);
      LessTotal(Rounded(v), Rounded(w.k));
  }

  lemma BetweenRightIff(low: Value, high: Value, v: Value)
    ensures var w := Between(low, high); Accepts(ProbeOf(w), v) == IsTrue(w, v) <==> !NullTrouble(w, v) && !RoundTrouble(w, v)
  {
    if v != Null && low != Null && high != Null {
      OneEnd(v, low);
      OneEnd(high, v);
    } else {
      RoundedMonotone(v, low);
      RoundedMonotone(v, high);
      RoundedMonotone(low, v);
      RoundedMonotone(high, v);
    }
  }

  /** WHERE x = 2^53 + 1 is true of 2^53; the index does not find it. */
  lemma IndexMissesRounded()
    ensures IsTrue(Eq(Int(EXACT + 1)), Int(EXACT)) && !Accepts(ProbeOf(Eq(Int(EXACT + 1))), Int(EXACT))
  {
    DblLarge();
  }

  /** WHERE x < 5 through the index also returns the rows whose x is NULL. */
  lemma LessThanReturnsNulls()
    ensures Accepts(ProbeOf(Lt(Int(5))), Null) && !IsTrue(Lt(Int(5)), Null)
  {
  }

  // ---- The operator against a sequential scan with WHERE ----

  /** The two row tests: the index's own, and WHERE. */
  function Accepting(probe: Probe, col: Row -> Value): Row -> bool {
    row => Accepts(probe, col(row))
  }

  function Satisfying(w: Where, col: Row -> Value): Row -> bool {
    row => IsTrue(w, col(row))
  }

  /** The primary keys of the accepted entries. */
  function CandidatesOf(ix: seq<IndexEntry>, probe: Probe): seq<Value> {
    if ix == [] then [] else (if Accepts(probe, ix[0].key) then [ix[0].pk] else []) + CandidatesOf(ix[1..], probe)
  }

  lemma {:induction false} CandidatesAre(ix: seq<IndexEntry>, probe: Probe, pk: Value)
    ensures pk in CandidatesOf(ix, probe) <==> Candidate(ix, probe, pk)
  {
    if ix != [] {
      CandidatesAre(ix[1..], probe, pk);
      assert forall e :: e in ix <==> e == ix[0] || e in ix[1..];
    }
  }

  /** What the index scan delivers. */
  function Found(ix: seq<IndexEntry>, probe: Probe, base: Rows, b: Buffer<Value>, col: Row -> Value): Rows {
    Restrict(Hits(base, b, Accepting(probe, col)), KeySet(CandidatesOf(ix, probe)) + b.upserts.Keys)
  }

  method LookupProbe(ix: seq<IndexEntry>, probe: Probe) returns (pks: Option<seq<Value>>)
    requires Ordered(ix)
    ensures pks.None? <==> RunsPast(ix, probe)
    ensures pks.Some? ==> NoRepeats(pks.value) && KeySet(pks.value) == KeySet(CandidatesOf(ix, probe))
  {
    var found: seq<Value>;
    match probe {
      case Point(key) => found := LookupPoint(ix, key);
      case Points(keys) => found := LookupPoints(ix, keys);
      case Range(low, high) =>
        var r := LookupRange(ix, low, high);
        if r.None? { return None; }
        found := r.value;
    }
    forall pk ensures pk in found <==> pk in CandidatesOf(ix, probe) { CandidatesAre(ix, probe, pk); }
    return Some(found);
  }

  /** `IndexScanPlan` for a WHERE on one indexed column. */
  method ExecuteIndexScan(ix: seq<IndexEntry>, w: Where, base: Rows, b: Buffer<Value>, col: Row -> Value)
    returns (out: Option<seq<Entry>>)
    requires Ordered(ix) && Disjoint(b)
    ensures out.None? <==> RunsPast(ix, ProbeOf(w))
    ensures out.Some? ==> Scanned(out.value, Found(ix, ProbeOf(w), base, b, col))
  {
    var pks := LookupProbe(ix, ProbeOf(w));
    if pks.None? { return None; }
    var rows := ScanIndex(pks.value, base, b, Accepting(ProbeOf(w), col));
    return Some(rows);
  }

  /** The committed rows at a snapshot. */
  ghost predicate VisibleAt(base: Rows, versions: seq<Version>, snap: nat) {
    forall pk :: Lookup(base, pk) == Read(versions, pk, snap)
  }

  lemma KnownFindsAll(t: Indexed, snap: nat, base: Rows, b: Buffer<Value>, col: Row -> Value, probe: Probe)
    requires Known(t, snap, col) && VisibleAt(base, t.versions, snap) && Disjoint(b)
    ensures Found(t.ix, probe, base, b, col) == Hits(base, b, Accepting(probe, col))
  {
    var hits, pks := Hits(base, b, Accepting(probe, col)), CandidatesOf(t.ix, probe);
    forall k | k in hits ensures k in KeySet(pks) + b.upserts.Keys {
      if k !in b.upserts {
        assert Lookup(base, k) == Read(t.versions, k, snap);
        assert IndexEntry(col(base[k]), k) in t.ix && Accepts(probe, col(base[k]));
        CandidatesAre(t.ix, probe, k);
      }
    }
  }

  /** At a snapshot, the scan delivers what its own test asks for, whatever the probe and the buffer, iff every row is known. */
  lemma ScanRightForEveryProbeIff(t: Indexed, snap: nat, base: Rows, col: Row -> Value)
    requires VisibleAt(base, t.versions, snap)
    ensures Known(t, snap, col) <==>
      forall probe, b: Buffer<Value> | Disjoint(b) :: Found(t.ix, probe, base, b, col) == Hits(base, b, Accepting(probe, col))
  {
    if Known(t, snap, col) {
      forall probe, b: Buffer<Value> | Disjoint(b)
        ensures Found(t.ix, probe, base, b, col) == Hits(base, b, Accepting(probe, col))
      {
        KnownFindsAll(t, snap, base, b, col, probe);
      }
    } else {
      var pk :| Read(t.versions, pk, snap).Some? && IndexEntry(col(Read(t.versions, pk, snap).value), pk) !in t.ix;
      assert Lookup(base, pk) == Read(t.versions, pk, snap);
      var probe, b := Point(col(base[pk])), Buffer<Value>.Buffer(map[], {});
      CandidatesAre(t.ix, probe, pk);
      assert pk in Hits(base, b, Accepting(probe, col)) && pk !in Found(t.ix, probe, base, b, col);
    }
  }

  lemma ScannedOnce(out: seq<Entry>, a: Rows, b: Rows)
    requires Scanned(out, a)
    ensures Scanned(out, b) <==> a == b
  {
  }

  /** Helper: two row tests select the same rows exactly when they agree on every row seen. */
  lemma SameHitsIff(base: Rows, b: Buffer<Value>, p: Row -> bool, q: Row -> bool)
    ensures Hits(base, b, p) == Hits(base, b, q) <==> forall k | k in View(base, b) :: p(View(base, b)[k]) == q(View(base, b)[k])
  {
    var seen, hp, hq := View(base, b), Hits(base, b, p), Hits(base, b, q);
    if hp == hq {
      forall k | k in seen ensures p(seen[k]) == q(seen[k]) { assert k in hp <==> k in hq; }
    }
  }

  /**
   * At every snapshot not older than the index, under any buffer: the index scan delivers exactly the rows that a
   * sequential scan with WHERE delivers, each once, if and only if no row the transaction sees has NULL or rounding in
   * the way.
   */
  lemma IndexScanEqualsWhereIff(t: Indexed, snap: nat, base: Rows, b: Buffer<Value>, col: Row -> Value, w: Where, out: seq<Entry>)
    requires Ok(t, col) && snap >= t.built && VisibleAt(base, t.versions, snap) && Disjoint(b)
    requires Scanned(out, Found(t.ix, ProbeOf(w), base, b, col))
    ensures Scanned(out, Hits(base, b, Satisfying(w, col))) <==>
      forall k | k in View(base, b) :: !NullTrouble(w, col(View(base, b)[k])) && !RoundTrouble(w, col(View(base, b)[k]))
  {
    var p, q := Accepting(ProbeOf(w), col), Satisfying(w, col);
    KnownFindsAll(t, snap, base, b, col, ProbeOf(w));
    ScannedOnce(out, Hits(base, b, p), Hits(base, b, q));
    SameHitsIff(base, b, p, q);
    forall k | k in View(base, b)
      ensures p(View(base, b)[k]) == q(View(base, b)[k]) <==>
        !NullTrouble(w, col(View(base, b)[k])) && !RoundTrouble(w, col(View(base, b)[k]))
    {
      ProbeRightIff(w, col(View(base, b)[k]));
    }
  }

  // ---- Composite indexes against a conjunction ----

  function TupleMatching(keys: seq<Value>, cols: Row -> seq<Value>): Row -> bool {
    row => cols(row) == keys
  }

  function TupleColumn(cols: Row -> seq<Value>): Row -> Value {
    row => TupleKey(cols(row))
  }

  /** Storable rows of the index's width. */
  ghost predicate TupleRows(seen: Rows, keys: seq<Value>, cols: Row -> seq<Value>) {
    && (forall v | v in keys :: Codec.Storable(v))
    && (forall k | k in seen :: |cols(seen[k])| == |keys| && forall v | v in cols(seen[k]) :: Codec.Storable(v))
  }

  /** `IndexScanPlan` for equalities on all columns of a composite index. */
  method ExecuteTupleScan(ix: seq<IndexEntry>, keys: seq<Value>, base: Rows, b: Buffer<Value>, cols: Row -> seq<Value>)
    returns (out: seq<Entry>)
    requires Ordered(ix) && Disjoint(b) && TupleRows(View(base, b), keys, cols)
    ensures Scanned(out, Found(ix, Point(TupleKey(keys)), base, b, TupleColumn(cols)))
  {
    ghost var p, q := TupleMatching(keys, cols), Accepting(Point(TupleKey(keys)), TupleColumn(cols));
    var pks := LookupPoint(ix, TupleKey(keys));
    forall pk ensures pk in pks <==> pk in CandidatesOf(ix, Point(TupleKey(keys))) { CandidatesAre(ix, Point(TupleKey(keys)), pk); }
    assert KeySet(pks) == KeySet(CandidatesOf(ix, Point(TupleKey(keys))));
    TuplesMatch(base, b, keys, cols);
    SameHitsIff(base, b, p, q);
    out := ScanIndex(pks, base, b, TupleMatching(keys, cols));
  }

  lemma TuplesMatch(base: Rows, b: Buffer<Value>, keys: seq<Value>, cols: Row -> seq<Value>)
    requires TupleRows(View(base, b), keys, cols)
    ensures forall k | k in View(base, b) ::
      TupleMatching(keys, cols)(View(base, b)[k]) == Accepting(Point(TupleKey(keys)), TupleColumn(cols))(View(base, b)[k])
  {
    forall k | k in View(base, b)
      ensures TupleMatching(keys, cols)(View(base, b)[k]) == Accepting(Point(TupleKey(keys)), TupleColumn(cols))(View(base, b)[k])
    {
      TupleProbeRight(keys, cols(View(base, b)[k]));
    }
  }

  /** A conjunct of WHERE: a column of the index equals a literal, or anything else. */
  datatype Leaf = EqualTo(i: nat, v: Value) | Other(test: Row -> bool)

  predicate LeafTrue(leaf: Leaf, cols: Row -> seq<Value>, row: Row) {
    match leaf
    case EqualTo(i, v) => v != Null && i < |cols(row)| && cols(row)[i] != Null && Rounded(cols(row)[i]) == Rounded(v)
    case Other(test) => test(row)
  }

  predicate AllTrue(leaves: seq<Leaf>, cols: Row -> seq<Value>, row: Row) {
    forall j | 0 <= j < |leaves| :: LeafTrue(leaves[j], cols, row)
  }

  function Conjunction(leaves: seq<Leaf>, cols: Row -> seq<Value>): Row -> bool {
    row => AllTrue(leaves, cols, row)
  }

  /** The equality that the planner keeps for a column: the first in the order in which it visits the conjuncts. */
  function Kept(leaves: seq<Leaf>, i: nat): Option<Value> {
    if leaves == [] then None
    else if leaves[0].EqualTo? && leaves[0].i == i then Some(leaves[0].v) else Kept(leaves[1..], i)
  }

  lemma {:induction false} KeptIsLeaf(leaves: seq<Leaf>, i: nat)
    ensures Kept(leaves, i).Some? <==> exists j :: 0 <= j < |leaves| && leaves[j].EqualTo? && leaves[j].i == i
    ensures Kept(leaves, i).Some? ==> EqualTo(i, Kept(leaves, i).value) in leaves
  {
    if leaves != [] {
      KeptIsLeaf(leaves[1..], i);
      assert forall j | 0 < j < |leaves| :: leaves[j] == leaves[1..][j - 1];
    }
  }

  predicate OnlyEqualities(leaves: seq<Leaf>, width: nat) {
    forall j | 0 <= j < |leaves| :: leaves[j].EqualTo? && leaves[j].i < width
  }

  lemma {:induction false} KeptStep(leaves: seq<Leaf>, n: nat, i: nat)
    requires n < |leaves|
    ensures Kept(leaves[..n + 1], i) ==
      if Kept(leaves[..n], i).Some? then Kept(leaves[..n], i)
      else if leaves[n].EqualTo? && leaves[n].i == i then Some(leaves[n].v) else None
  {
    if n == 0 {
      assert leaves[..1] == [leaves[0]] && leaves[..1][1..] == [];
    } else {
      KeptStep(leaves[1..], n - 1, i);
      assert leaves[..n + 1][1..] == leaves[1..][..n] && leaves[..n][1..] == leaves[1..][..n - 1];
    }
  }

  function Get(eqs: map<nat, Value>, i: nat): Option<Value> {
    if i in eqs then Some(eqs[i]) else None
  }

  ghost predicate Collected(eqs: map<nat, Value>, leaves: seq<Leaf>) {
    forall i: nat :: Get(eqs, i) == Kept(leaves, i)
  }

  lemma CollectStep(eqs: map<nat, Value>, leaves: seq<Leaf>, n: nat)
    requires n < |leaves| && Collected(eqs, leaves[..n])
    ensures var isNew := leaves[n].EqualTo? && leaves[n].i !in eqs;
      Collected(if isNew then eqs[leaves[n].i := leaves[n].v] else eqs, leaves[..n + 1])
  {
    var isNew := leaves[n].EqualTo? && leaves[n].i !in eqs;
    var eqs' := if isNew then eqs[leaves[n].i := leaves[n].v] else eqs;
    forall i: nat ensures Get(eqs', i) == Kept(leaves[..n + 1], i) {
      assert Get(eqs, i) == Kept(leaves[..n], i);
      KeptStep(leaves, n, i);
    }
  }

  /** The planner's walk over the conjuncts. */
  method CollectEqualities(leaves: seq<Leaf>, width: nat) returns (eqs: map<nat, Value>, onlyEqualities: bool)
    ensures Collected(eqs, leaves)
    ensures onlyEqualities == OnlyEqualities(leaves, width)
  {
    eqs, onlyEqualities := map[], true;
    for n := 0 to |leaves|
      invariant Collected(eqs, leaves[..n])
      invariant onlyEqualities == OnlyEqualities(leaves[..n], width)
    {
      CollectStep(eqs, leaves, n);
      match leaves[n]
      case EqualTo(i, v) =>
        if i !in eqs { eqs := eqs[i := v]; }
        onlyEqualities := onlyEqualities && i < width;
      case Other(_) => onlyEqualities := false;
    }
    assert leaves[..|leaves|] == leaves;
  }

  /** These equalities are looked up. */
  ghost predicate LooksUp(keys: seq<Value>, leaves: seq<Leaf>) {
    forall i | 0 <= i < |keys| :: Kept(leaves, i) == Some(keys[i])
  }

  /** The planner looks for an index whose columns all have an equality. */
  ghost predicate CoversIndex(leaves: seq<Leaf>, width: nat) {
    forall i: nat | i < width :: Kept(leaves, i).Some?
  }

  function Filtered(rows: Rows, test: Row -> bool): Rows {
    map k | k in rows && test(rows[k]) :: rows[k]
  }

  /** `FilterPlan` over the scan. */
  method FilterRows(rows: seq<Entry>, ghost table: Rows, test: Row -> bool) returns (out: seq<Entry>)
    requires Scanned(rows, table)
    ensures Scanned(out, Filtered(table, test))
  {
    out := [];
    for i := 0 to |rows|
      invariant Scanned(out, Filtered(Listed(rows, i), test))
    {
      NextEntry(rows, i, |rows|);
      FilterStep(Listed(rows, i), rows[i], test, out);
      if test(rows[i].row) { out := out + [rows[i]]; }
    }
  }

  lemma FilterStep(table: Rows, e: Entry, test: Row -> bool, out: seq<Entry>)
    requires e.pk !in table && Scanned(out, Filtered(table, test))
    ensures Scanned(if test(e.row) then out + [e] else out, Filtered(table[e.pk := e.row], test))
  {
    if test(e.row) {
      ScannedAppend(out, Filtered(table, test), e);
      assert Filtered(table[e.pk := e.row], test) == Filtered(table, test)[e.pk := e.row];
    } else {
      assert Filtered(table[e.pk := e.row], test) == Filtered(table, test);
    }
  }

  /** What a composite index plan delivers; the whole WHERE is checked again unless it is just equalities of the index. */
  ghost function Planned(ix: seq<IndexEntry>, keys: seq<Value>, leaves: seq<Leaf>, base: Rows, b: Buffer<Value>,
                         cols: Row -> seq<Value>): Rows
  {
    var found := Found(ix, Point(TupleKey(keys)), base, b, TupleColumn(cols));
    if OnlyEqualities(leaves, |keys|) then found else Filtered(found, Conjunction(leaves, cols))
  }

  /** The plan for a conjunction whose equalities cover the columns of a composite index; nothing when they do not. */
  method ExecuteTuplePlan(ix: seq<IndexEntry>, width: nat, leaves: seq<Leaf>, base: Rows, b: Buffer<Value>,
                          cols: Row -> seq<Value>)
    returns (keys: Option<seq<Value>>, out: seq<Entry>)
    requires Ordered(ix) && Disjoint(b)
    requires forall keys | |keys| == width && LooksUp(keys, leaves) :: TupleRows(View(base, b), keys, cols)
    ensures keys.Some? <==> CoversIndex(leaves, width)
    ensures keys.Some? ==> |keys.value| == width && LooksUp(keys.value, leaves)
    ensures keys.Some? ==> Scanned(out, Planned(ix, keys.value, leaves, base, b, cols))
  {
    var eqs, onlyEqualities := CollectEqualities(leaves, width);
    var key: seq<Value> := [];
    for i := 0 to width
      invariant |key| == i && LooksUp(key, leaves)
    {
      assert Get(eqs, i) == Kept(leaves, i);
      if i !in eqs {
        assert !CoversIndex(leaves, width) by { assert Kept(leaves, i).None?; }
        return None, [];
      }
      key := key + [eqs[i]];
    }
    out := ExecuteTupleScan(ix, key, base, b, cols);
    if !onlyEqualities {
      out := FilterRows(out, Found(ix, Point(TupleKey(key)), base, b, TupleColumn(cols)), Conjunction(leaves, cols));
    }
    assert CoversIndex(leaves, width) by {
      forall i: nat | i < width ensures Kept(leaves, i).Some? { assert Kept(leaves, i) == Some(key[i]); }
    }
    return Some(key), out;
  }

  /** An equality that the planner dropped, or a NULL: rows with exactly the looked-up columns do not satisfy WHERE. */
  ghost predicate LostEquality(leaves: seq<Leaf>, keys: seq<Value>) {
    exists j :: 0 <= j < |leaves| && leaves[j].EqualTo? && leaves[j].i < |keys| &&
      (leaves[j].v == Null || keys[leaves[j].i] == Null || Rounded(keys[leaves[j].i]) != Rounded(leaves[j].v))
  }

  /** Where the plan and WHERE differ on a row: the plan is not checked again, or the row rounds onto the looked-up columns. */
  ghost predicate TupleTrouble(leaves: seq<Leaf>, keys: seq<Value>, cols: Row -> seq<Value>, row: Row)
    requires |cols(row)| == |keys|
  {
    || (OnlyEqualities(leaves, |keys|) && LostEquality(leaves, keys) && cols(row) == keys)
    || (AllTrue(leaves, cols, row) && exists i :: 0 <= i < |keys| && RoundsOnto(cols(row)[i], keys[i]))
  }

  function PlannedTest(leaves: seq<Leaf>, keys: seq<Value>, cols: Row -> seq<Value>): Row -> bool {
    row => cols(row) == keys && (OnlyEqualities(leaves, |keys|) || AllTrue(leaves, cols, row))
  }

  lemma TupleRowRightIff(leaves: seq<Leaf>, keys: seq<Value>, cols: Row -> seq<Value>, row: Row)
    requires |cols(row)| == |keys| && LooksUp(keys, leaves)
    ensures PlannedTest(leaves, keys, cols)(row) == AllTrue(leaves, cols, row) <==> !TupleTrouble(leaves, keys, cols, row)
  {
    var vals := cols(row);
    if AllTrue(leaves, cols, row) {
      forall i | 0 <= i < |keys| ensures Rounded(vals[i]) == Rounded(keys[i]) {
        KeptIsLeaf(leaves, i);
        var j :| 0 <= j < |leaves| && leaves[j] == EqualTo(i, keys[i]);
        assert LeafTrue(leaves[j], cols, row);
      }
      if vals != keys {
        var i :| 0 <= i < |keys| && vals[i] != keys[i];
        assert RoundsOnto(vals[i], keys[i]);
      }
    }
    if vals == keys { ExactRowIff(leaves, keys, cols, row); }
  }

  /** Of a row with exactly the looked-up columns, equalities alone are true unless one is lost. */
  lemma ExactRowIff(leaves: seq<Leaf>, keys: seq<Value>, cols: Row -> seq<Value>, row: Row)
    requires cols(row) == keys
    ensures OnlyEqualities(leaves, |keys|) ==> (AllTrue(leaves, cols, row) <==> !LostEquality(leaves, keys))
  {
    if OnlyEqualities(leaves, |keys|) && LostEquality(leaves, keys) {
      var j :| 0 <= j < |leaves| && leaves[j].EqualTo? && leaves[j].i < |keys| &&
        (leaves[j].v == Null || keys[leaves[j].i] == Null || Rounded(keys[leaves[j].i]) != Rounded(leaves[j].v));
      assert !LeafTrue(leaves[j], cols, row);
    }
  }

  lemma FilteredHits(base: Rows, b: Buffer<Value>, p: Row -> bool, test: Row -> bool, q: Row -> bool)
    requires forall row :: q(row) == (p(row) && test(row))
    ensures Filtered(Hits(base, b, p), test) == Hits(base, b, q)
  {
  }

  lemma PlannedIsHits(t: Indexed, snap: nat, base: Rows, b: Buffer<Value>, leaves: seq<Leaf>, keys: seq<Value>,
                      cols: Row -> seq<Value>)
    requires Ok(t, TupleColumn(cols)) && snap >= t.built && VisibleAt(base, t.versions, snap) && Disjoint(b)
    requires TupleRows(View(base, b), keys, cols)
    ensures Planned(t.ix, keys, leaves, base, b, cols) == Hits(base, b, PlannedTest(leaves, keys, cols))
  {
    var p, a := TupleMatching(keys, cols), Accepting(Point(TupleKey(keys)), TupleColumn(cols));
    KnownFindsAll(t, snap, base, b, TupleColumn(cols), Point(TupleKey(keys)));
    TuplesMatch(base, b, keys, cols);
    SameHitsIff(base, b, p, a);
    var q := PlannedTest(leaves, keys, cols);
    if OnlyEqualities(leaves, |keys|) {
      SameHitsIff(base, b, p, q);
    } else {
      FilteredHits(base, b, p, Conjunction(leaves, cols), q);
    }
  }

  /**
   * The same for a composite index and a conjunction that covers its columns: the plan delivers exactly the rows for
   * which the whole WHERE is true if and only if no row seen has one of these troubles.
   */
  lemma TupleScanEqualsWhereIff(t: Indexed, snap: nat, base: Rows, b: Buffer<Value>, leaves: seq<Leaf>, keys: seq<Value>,
                                cols: Row -> seq<Value>, out: seq<Entry>)
    requires Ok(t, TupleColumn(cols)) && snap >= t.built && VisibleAt(base, t.versions, snap) && Disjoint(b)
    requires TupleRows(View(base, b), keys, cols) && LooksUp(keys, leaves)
    requires Scanned(out, Planned(t.ix, keys, leaves, base, b, cols))
    ensures Scanned(out, Hits(base, b, Conjunction(leaves, cols))) <==>
      forall k | k in View(base, b) :: !TupleTrouble(leaves, keys, cols, View(base, b)[k])
  {
    var p, q := PlannedTest(leaves, keys, cols), Conjunction(leaves, cols);
    PlannedIsHits(t, snap, base, b, leaves, keys, cols);
    ScannedOnce(out, Hits(base, b, p), Hits(base, b, q));
    SameHitsIff(base, b, p, q);
    forall k | k in View(base, b)
      ensures p(View(base, b)[k]) == q(View(base, b)[k]) <==> !TupleTrouble(leaves, keys, cols, View(base, b)[k])
    {
      TupleRowRightIff(leaves, keys, cols, View(base, b)[k]);
    }
  }

  /** WHERE a = 1 AND a = 2 AND b = 3: the planner, walking from the right, keeps a = 2 and returns the row (2, 3). */
  lemma DroppedEqualityReturnsRow(cols: Row -> seq<Value>, row: Row)
    requires cols(row) == [Int(2), Int(3)]
    ensures var leaves, keys := [EqualTo(1, Int(3)), EqualTo(0, Int(2)), EqualTo(0, Int(1))], [Int(2), Int(3)];
      LooksUp(keys, leaves) && PlannedTest(leaves, keys, cols)(row) && !AllTrue(leaves, cols, row)
  {
    var leaves, keys := [EqualTo(1, Int(3)), EqualTo(0, Int(2)), EqualTo(0, Int(1))], [Int(2), Int(3)];
    assert leaves[1..] == [EqualTo(0, Int(2)), EqualTo(0, Int(1))];
    assert Kept(leaves[1..], 0) == Some(Int(2)) && Kept(leaves, 1) == Some(Int(3));
    DblSmall(1);
    DblSmall(2);
    assert !LeafTrue(leaves[2], cols, row);
  }
}
