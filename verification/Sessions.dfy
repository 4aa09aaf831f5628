/** A transaction's private write buffer: statements, savepoints, and what COMMIT installs. */
module Sessions {
  import opened Values
  import opened Versions

  /** `TableTxnBuffer`: buffered rows and buffered deletions. `K` is a primary key, or a table and a primary key. */
  datatype Buffer<!K(==)> = Buffer(upserts: map<K, Row>, deletes: set<K>)

  predicate Disjoint<K(==)>(b: Buffer<K>) {
    b.upserts.Keys !! b.deletes
  }

  type Rows = map<Value, Row>

  /** What the transaction sees: committed rows, minus its deletions, overlaid with its own rows. */
  function View<K(==)>(base: map<K, Row>, b: Buffer<K>): map<K, Row> {
    (base - b.deletes) + b.upserts
  }

  function Lookup<K(==)>(rows: map<K, Row>, k: K): Option<Row> {
    if k in rows then Some(rows[k]) else None
  }

  // ---- Statements on one table's buffer ----

  /** INSERT refuses a key the transaction can see; a key it deleted may come back. */
  predicate DuplicateKey(base: Rows, b: Buffer<Value>, pk: Value) {
    pk !in b.deletes && (pk in b.upserts || pk in base)
  }

  function InsertInto<K(==)>(b: Buffer<K>, pk: K, row: Row): Buffer<K> {
    Buffer(b.upserts[pk := row], b.deletes - {pk})
  }

  /** `change` yields the new row, or nothing when WHERE is not true. */
  function UpdateIn(base: Rows, b: Buffer<Value>, change: Row -> Option<Row>): Buffer<Value> {
    var seen := View(base, b);
    b.(upserts := b.upserts + map k | k in seen && change(seen[k]).Some? :: change(seen[k]).value)
  }

  /** A row that only the transaction inserted is forgotten; a committed row is marked deleted. */
  function DeleteFrom(base: Rows, b: Buffer<Value>, where: Row -> bool): Buffer<Value> {
    var seen := View(base, b);
    var gone := set k | k in seen && where(seen[k]);
    Buffer(b.upserts - gone, b.deletes + gone * base.Keys)
  }

  // At READ COMMITTED the statements mean what they would mean on a private copy of the table: SELECT, too, reads the
  // latest committed rows.

  lemma InsertActsOnView(base: Rows, b: Buffer<Value>, pk: Value, row: Row)
    requires Disjoint(b)
    ensures DuplicateKey(base, b, pk) <==> pk in View(base, b)
    ensures Disjoint(InsertInto(b, pk, row)) && View(base, InsertInto(b, pk, row)) == View(base, b)[pk := row]
  {
  }

  lemma UpdateActsOnView(base: Rows, b: Buffer<Value>, change: Row -> Option<Row>)
    requires Disjoint(b)
    ensures Disjoint(UpdateIn(base, b, change)) && View(base, UpdateIn(base, b, change)) == Updated(View(base, b), change)
  {
    var seen, b' := View(base, b), UpdateIn(base, b, change);
    assert View(base, b').Keys == seen.Keys;
  }

  lemma DeleteActsOnView(base: Rows, b: Buffer<Value>, where: Row -> bool)
    requires Disjoint(b)
    ensures Disjoint(DeleteFrom(base, b, where)) && View(base, DeleteFrom(base, b, where)) == Remaining(View(base, b), where)
  {
    var seen, b' := View(base, b), DeleteFrom(base, b, where);
    assert View(base, b').Keys == Remaining(seen, where).Keys;
  }

  /** Plain UPDATE and DELETE on a table of rows. */
  function Updated(rows: Rows, change: Row -> Option<Row>): Rows {
    map k | k in rows :: if change(rows[k]).Some? then change(rows[k]).value else rows[k]
  }

  function Remaining(rows: Rows, where: Row -> bool): Rows {
    map k | k in rows && !where(rows[k]) :: rows[k]
  }

  // ---- REPEATABLE READ: SELECT reads the rows of BEGIN, the other statements read the latest rows ----

  predicate Buffered<K(==)>(b: Buffer<K>, k: K) {
    k in b.upserts || k in b.deletes
  }

  /** The two sets of committed rows are the same wherever the buffer says nothing. */
  ghost predicate AgreeOutside<K(!new)>(snap: map<K, Row>, latest: map<K, Row>, b: Buffer<K>) {
    forall k | !Buffered(b, k) :: Lookup(snap, k) == Lookup(latest, k)
  }

  lemma SameViewIff<K(!new)>(snap: map<K, Row>, latest: map<K, Row>, b: Buffer<K>)
    requires Disjoint(b)
    ensures View(snap, b) == View(latest, b) <==> AgreeOutside(snap, latest, b)
  {
    forall k | !Buffered(b, k) ensures Lookup(View(snap, b), k) == Lookup(snap, k) && Lookup(View(latest, b), k) == Lookup(latest, k) {
    }
    if AgreeOutside(snap, latest, b) {
      forall k ensures Lookup(View(snap, b), k) == Lookup(View(latest, b), k) {
        assert !Buffered(b, k) ==> Lookup(snap, k) == Lookup(latest, k);
      }
      SameLookups(View(snap, b), View(latest, b));
    }
  }

  lemma SameLookups<K(!new)>(a: map<K, Row>, b: map<K, Row>)
    requires forall k :: Lookup(a, k) == Lookup(b, k)
    ensures a == b
  {
    forall k ensures k in a <==> k in b { assert Lookup(a, k) == Lookup(b, k); }
    forall k | k in a ensures a[k] == b[k] { assert Lookup(a, k) == Lookup(b, k); }
  }

  /** INSERT refuses exactly the keys SELECT shows, if and only if the unbuffered keys are still those of BEGIN. */
  lemma InsertActsOnSnapshotIff(snap: Rows, latest: Rows, b: Buffer<Value>)
    requires Disjoint(b)
    ensures (forall pk :: DuplicateKey(latest, b, pk) <==> pk in View(snap, b)) <==>
      forall k | !Buffered(b, k) :: k in snap <==> k in latest
  {
    if forall pk :: DuplicateKey(latest, b, pk) <==> pk in View(snap, b) {
      forall k | !Buffered(b, k) ensures k in snap <==> k in latest {
        assert DuplicateKey(latest, b, k) <==> k in View(snap, b);
      }
    }
  }

  ghost predicate UpdatesWhatIsSeen(snap: Rows, latest: Rows, b: Buffer<Value>) {
    forall change: Row -> Option<Row> :: View(snap, UpdateIn(latest, b, change)) == Updated(View(snap, b), change)
  }

  /** UPDATE acts on what SELECT shows, whatever it changes, if and only if the unbuffered rows are still those of BEGIN. */
  lemma UpdateActsOnSnapshotIff(snap: Rows, latest: Rows, b: Buffer<Value>)
    requires Disjoint(b)
    ensures UpdatesWhatIsSeen(snap, latest, b) <==> AgreeOutside(snap, latest, b)
  {
    if AgreeOutside(snap, latest, b) {
      forall change: Row -> Option<Row>
        ensures View(snap, UpdateIn(latest, b, change)) == Updated(View(snap, b), change)
      {
        UpdateOnSnapshot(snap, latest, b, change);
      }
    } else {
      var k :| !Buffered(b, k) && Lookup(snap, k) != Lookup(latest, k);
      UpdateDisagrees(snap, latest, b, k);
    }
  }

  lemma UpdateDisagrees(snap: Rows, latest: Rows, b: Buffer<Value>, k: Value)
    requires !Buffered(b, k) && Lookup(snap, k) != Lookup(latest, k)
    ensures !UpdatesWhatIsSeen(snap, latest, b)
  {
    UpdateMisses(snap, latest, b, row => Some(row + [Null]), k);
  }

  lemma UpdateOnSnapshot(snap: Rows, latest: Rows, b: Buffer<Value>, change: Row -> Option<Row>)
    requires Disjoint(b) && AgreeOutside(snap, latest, b)
    ensures View(snap, UpdateIn(latest, b, change)) == Updated(View(snap, b), change)
  {
    SameViewIff(snap, latest, b);
    UpdateActsOnView(snap, b, change);
  }

  lemma UpdateMisses(snap: Rows, latest: Rows, b: Buffer<Value>, change: Row -> Option<Row>, k: Value)
    requires !Buffered(b, k) && Lookup(snap, k) != Lookup(latest, k) && forall row :: change(row) == Some(row + [Null])
    ensures View(snap, UpdateIn(latest, b, change)) != Updated(View(snap, b), change)
  {
    var got, want := View(snap, UpdateIn(latest, b, change)), Updated(View(snap, b), change);
    if k in snap && k in latest {
      assert got[k] == latest[k] + [Null] && want[k] == snap[k] + [Null];
      assert got[k][..|got[k]| - 1] == latest[k] && want[k][..|want[k]| - 1] == snap[k];
    } else if k in snap {
      assert |got[k]| != |want[k]|;
    } else {
      assert k in got && k !in want;
    }
  }

  /** Every row of BEGIN that the transaction has not deleted is still there, and the same unless it is buffered. */
  ghost predicate StillThere(snap: Rows, latest: Rows, b: Buffer<Value>) {
    forall k | k in snap && k !in b.deletes :: k in latest && (k in b.upserts || latest[k] == snap[k])
  }

  ghost predicate DeletesWhatIsSeen(snap: Rows, latest: Rows, b: Buffer<Value>) {
    forall where: Row -> bool :: View(snap, DeleteFrom(latest, b, where)) == Remaining(View(snap, b), where)
  }

  /** DELETE acts on what SELECT shows, whatever its WHERE, if and only if no row of BEGIN went or changed outside the buffer. */
  lemma DeleteActsOnSnapshotIff(snap: Rows, latest: Rows, b: Buffer<Value>)
    requires Disjoint(b)
    ensures DeletesWhatIsSeen(snap, latest, b) <==> StillThere(snap, latest, b)
  {
    if StillThere(snap, latest, b) {
      forall where: Row -> bool
        ensures View(snap, DeleteFrom(latest, b, where)) == Remaining(View(snap, b), where)
      {
        DeleteOnSnapshot(snap, latest, b, where);
      }
    } else {
      var k :| k in snap && k !in b.deletes && !(k in latest && (k in b.upserts || latest[k] == snap[k]));
      DeleteMisses(snap, latest, b, row => k in b.upserts || row == snap[k], k);
    }
  }

  lemma DeleteOnSnapshot(snap: Rows, latest: Rows, b: Buffer<Value>, where: Row -> bool)
    requires Disjoint(b) && StillThere(snap, latest, b)
    ensures View(snap, DeleteFrom(latest, b, where)) == Remaining(View(snap, b), where)
  {
    var got, want := View(snap, DeleteFrom(latest, b, where)), Remaining(View(snap, b), where);
    forall k ensures Lookup(got, k) == Lookup(want, k) {
      assert k in snap && k !in b.deletes ==> k in latest && (k in b.upserts || latest[k] == snap[k]);
    }
    SameLookups(got, want);
  }

  lemma DeleteMisses(snap: Rows, latest: Rows, b: Buffer<Value>, where: Row -> bool, k: Value)
    requires Disjoint(b) && k in snap && k !in b.deletes && !(k in latest && (k in b.upserts || latest[k] == snap[k]))
    requires forall row :: where(row) <==> k in b.upserts || row == snap[k]
    ensures View(snap, DeleteFrom(latest, b, where)) != Remaining(View(snap, b), where)
  {
    assert k in View(snap, DeleteFrom(latest, b, where)) && k !in Remaining(View(snap, b), where);
  }

  /** Row 1 is committed after BEGIN: SELECT shows nothing, yet INSERT refuses key 1 and UPDATE brings row 1 into view. */
  lemma UnseenRowIsUpdated(change: Row -> Option<Row>)
    requires change([Int(1)]) == Some([Int(1), Null])
    ensures var snap: Rows, latest, b := map[], map[Int(1) := [Int(1)]], Buffer<Value>.Buffer(map[], {});
      && View(snap, b) == map[] && DuplicateKey(latest, b, Int(1))
      && View(snap, UpdateIn(latest, b, change)) == map[Int(1) := [Int(1), Null]]
  {
  }

  // ---- The loops of the executor ----

  datatype Entry = Entry(pk: Value, row: Row)

  /** The first `n` delivered rows as a table, and that no key among them is delivered twice. */
  function Listed(rows: seq<Entry>, n: nat): Rows
    requires n <= |rows|
  {
    if n == 0 then map[] else Listed(rows, n - 1)[rows[n - 1].pk := rows[n - 1].row]
  }

  predicate EachOnce(rows: seq<Entry>, n: nat)
    requires n <= |rows|
  {
    n == 0 || (EachOnce(rows, n - 1) && rows[n - 1].pk !in Listed(rows, n - 1))
  }

  /** A scan delivers exactly these rows, each key once. */
  predicate Scanned(rows: seq<Entry>, table: Rows) {
    EachOnce(rows, |rows|) && Listed(rows, |rows|) == table
  }

  /** The same without recursion: every delivered row is in the table, and every row of the table is delivered. */
  lemma {:induction false} ListedMeans(rows: seq<Entry>, n: nat, k: Value)
    requires n <= |rows| && EachOnce(rows, n)
    ensures forall i | 0 <= i < n && rows[i].pk == k :: k in Listed(rows, n) && Listed(rows, n)[k] == rows[i].row
    ensures k in Listed(rows, n) ==> exists i :: 0 <= i < n && rows[i].pk == k
  {
    if n > 0 { ListedMeans(rows, n - 1, k); }
  }

  lemma {:induction false} NextEntry(rows: seq<Entry>, i: nat, n: nat)
    requires i < n <= |rows| && EachOnce(rows, n)
    ensures rows[i].pk !in Listed(rows, i) && EachOnce(rows, i)
    ensures rows[i].pk in Listed(rows, n) && Listed(rows, n)[rows[i].pk] == rows[i].row
    ensures Listed(rows, i + 1).Keys == Listed(rows, i).Keys + {rows[i].pk}
  {
    if i + 1 < n { NextEntry(rows, i, n - 1); }
  }

  lemma {:induction false} ListedPrefix(a: seq<Entry>, b: seq<Entry>, n: nat)
    requires n <= |a| <= |b| && a == b[..|a|]
    ensures Listed(a, n) == Listed(b, n) && (EachOnce(a, n) <==> EachOnce(b, n))
  {
    if n > 0 { ListedPrefix(a, b, n - 1); }
  }

  lemma ScannedAppend(out: seq<Entry>, table: Rows, e: Entry)
    requires Scanned(out, table) && e.pk !in table
    ensures Scanned(out + [e], table[e.pk := e.row])
  {
    ListedPrefix(out, out + [e], |out|);
  }

  /** Two buffers hold the same about one key. */
  predicate SameAt(a: Buffer<Value>, b: Buffer<Value>, k: Value) {
    && (k in a.deletes <==> k in b.deletes)
    && (k in a.upserts <==> k in b.upserts)
    && (k in a.upserts ==> a.upserts[k] == b.upserts[k])
  }

  /** A statement under way: handled keys are as they will be, the others as they were. */
  ghost predicate Between(r: Buffer<Value>, b: Buffer<Value>, target: Buffer<Value>, done: set<Value>) {
    forall k :: SameAt(r, if k in done then target else b, k)
  }

  lemma Arrived(r: Buffer<Value>, b: Buffer<Value>, target: Buffer<Value>, done: set<Value>)
    requires Between(r, b, target, done) && forall k | k !in done :: SameAt(b, target, k)
    ensures r == target
  {
    forall k ensures SameAt(r, target, k) { assert SameAt(r, if k in done then target else b, k); }
    forall k ensures k in r.deletes <==> k in target.deletes { assert SameAt(r, target, k); }
    forall k ensures k in r.upserts <==> k in target.upserts { assert SameAt(r, target, k); }
    forall k | k in r.upserts ensures r.upserts[k] == target.upserts[k] { assert SameAt(r, target, k); }
  }

  lemma Advance(r: Buffer<Value>, r': Buffer<Value>, b: Buffer<Value>, target: Buffer<Value>, done: set<Value>, pk: Value)
    requires Between(r, b, target, done) && SameAt(r', target, pk) && forall k | k != pk :: SameAt(r', r, k)
    ensures Between(r', b, target, done + {pk})
  {
    forall k ensures SameAt(r', if k in done + {pk} then target else b, k) {
      assert SameAt(r, if k in done then target else b, k);
      assert k != pk ==> SameAt(r', r, k);
    }
  }

  /** The pass over the committed rows. */
  method UpdateCommitted(rows: seq<Entry>, ghost base: Rows, b: Buffer<Value>, change: Row -> Option<Row>)
    returns (r: Buffer<Value>)
    requires Scanned(rows, base) && Disjoint(b)
    ensures Between(r, b, UpdateIn(base, b, change), base.Keys)
  {
    ghost var target := UpdateIn(base, b, change);
    r := b;
    for i := 0 to |rows|
      invariant Between(r, b, target, Listed(rows, i).Keys)
    {
      var pk, committed := rows[i].pk, rows[i].row;
      ghost var was, done := r, Listed(rows, i).Keys;
      NextEntry(rows, i, |rows|);
      assert SameAt(r, if pk in done then target else b, pk);
      if pk !in r.deletes {
        var cur := if pk in r.upserts then r.upserts[pk] else committed;
        if change(cur).Some? { r := r.(upserts := r.upserts[pk := change(cur).value]); }
      }
      Advance(was, r, b, target, done, pk);
    }
  }

  /** One buffered row rewritten. */
  function Rewritten(b: Buffer<Value>, change: Row -> Option<Row>, pk: Value): Buffer<Value>
    requires pk in b.upserts
  {
    var row := change(b.upserts[pk]);
    if row.Some? then b.(upserts := b.upserts[pk := row.value]) else b
  }

  /** The pass over the rows that only the transaction inserted. */
  method UpdateInserted(start: Buffer<Value>, committed: set<Value>, ghost b: Buffer<Value>, ghost target: Buffer<Value>,
                        change: Row -> Option<Row>)
    returns (r: Buffer<Value>)
    requires Between(start, b, target, committed)
    requires forall pk | pk in b.upserts && pk !in committed :: SameAt(target, Rewritten(b, change, pk), pk)
    ensures Between(r, b, target, committed + start.upserts.Keys)
  {
    ghost var done := committed;
    r := start;
    var todo := start.upserts.Keys - committed;
    while todo != {}
      invariant committed <= done && todo !! done && done + todo == committed + start.upserts.Keys
      invariant Between(r, b, target, done)
      decreases todo
    {
      var pk :| pk in todo;
      ghost var was := r;
      assert SameAt(r, if pk in done then target else b, pk);
      assert SameAt(start, if pk in committed then target else b, pk);
      if pk in r.upserts { r := Rewritten(r, change, pk); }
      Advance(was, r, b, target, done, pk);
      todo, done := todo - {pk}, done + {pk};
    }
    assert done == committed + start.upserts.Keys;
  }

  /** UPDATE in a transaction: first the committed rows, then the rows it only inserted. */
  method UpdateLoop(rows: seq<Entry>, ghost base: Rows, b: Buffer<Value>, change: Row -> Option<Row>)
    returns (r: Buffer<Value>)
    requires Scanned(rows, base) && Disjoint(b)
    ensures r == UpdateIn(base, b, change)
  {
    ghost var target := UpdateIn(base, b, change);
    var first := UpdateCommitted(rows, base, b, change);
    var committedKeys := ScannedKeys(rows, base);
    r := UpdateInserted(first, committedKeys, b, target, change);
    forall k | k !in base.Keys + first.upserts.Keys ensures SameAt(b, target, k) {
      assert SameAt(first, if k in base.Keys then target else b, k);
    }
    Arrived(r, b, target, base.Keys + first.upserts.Keys);
  }

  /** The set of committed keys that both statements compute after their first pass. */
  method ScannedKeys(rows: seq<Entry>, ghost base: Rows) returns (keys: set<Value>)
    requires Scanned(rows, base)
    ensures keys == base.Keys
  {
    keys := {};
    for i := 0 to |rows|
      invariant keys == Listed(rows, i).Keys
    {
      NextEntry(rows, i, |rows|);
      keys := keys + {rows[i].pk};
    }
  }

  /** DELETE in a transaction: committed rows are marked, rows only inserted are taken back. */
  method DeleteLoop(rows: seq<Entry>, ghost base: Rows, b: Buffer<Value>, where: Row -> bool)
    returns (r: Buffer<Value>)
    requires Scanned(rows, base) && Disjoint(b)
    ensures r == DeleteFrom(base, b, where)
  {
    ghost var target := DeleteFrom(base, b, where);
    r := b;
    for i := 0 to |rows|
      invariant Between(r, b, target, Listed(rows, i).Keys)
    {
      var pk, committed := rows[i].pk, rows[i].row;
      ghost var was, done := r, Listed(rows, i).Keys;
      NextEntry(rows, i, |rows|);
      assert SameAt(r, if pk in done then target else b, pk);
      if pk !in r.deletes {
        var cur := if pk in r.upserts then r.upserts[pk] else committed;
        if where(cur) { r := Buffer(r.upserts - {pk}, r.deletes + {pk}); }
      }
      Advance(was, r, b, target, done, pk);
    }
    var committedKeys := ScannedKeys(rows, base);
    var pure := set k | k in r.upserts && k !in committedKeys && where(r.upserts[k]);
    ghost var was := r;
    r := r.(upserts := r.upserts - pure);
    forall k ensures SameAt(r, target, k) {
      assert SameAt(was, if k in base.Keys then target else b, k);
    }
    Arrived(r, r, target, {});
  }

  function Restrict(m: Rows, keys: set<Value>): Rows {
    map k | k in m && k in keys :: m[k]
  }

  /** What the scan delivers for one committed row. */
  function Overlaid(b: Buffer<Value>, e: Entry): seq<Entry> {
    if e.pk in b.deletes then [] else [Entry(e.pk, if e.pk in b.upserts then b.upserts[e.pk] else e.row)]
  }

  lemma RestrictStep(base: Rows, b: Buffer<Value>, done: set<Value>, e: Entry)
    requires Disjoint(b) && e.pk in base && e.pk !in done && base[e.pk] == e.row
    ensures var seen := View(base, b); var m := Restrict(seen, done);
      && e.pk !in m
      && Restrict(seen, done + {e.pk}) == if e.pk in b.deletes then m else m[e.pk := Overlaid(b, e)[0].row]
  {
    var seen := View(base, b);
    if e.pk in b.deletes {
      assert Restrict(seen, done + {e.pk}) == Restrict(seen, done);
    } else {
      assert Restrict(seen, done + {e.pk}) == Restrict(seen, done)[e.pk := seen[e.pk]];
    }
  }

  lemma OverlayStep(base: Rows, b: Buffer<Value>, done: set<Value>, e: Entry, out: seq<Entry>)
    requires Disjoint(b) && e.pk in base && e.pk !in done && base[e.pk] == e.row
    requires Scanned(out, Restrict(View(base, b), done))
    ensures Scanned(out + Overlaid(b, e), Restrict(View(base, b), done + {e.pk}))
  {
    RestrictStep(base, b, done, e);
    if e.pk in b.deletes {
      assert out + Overlaid(b, e) == out;
    } else {
      ScannedAppend(out, Restrict(View(base, b), done), Overlaid(b, e)[0]);
    }
  }

  /** The pass over the committed rows; also reports which buffered rows were delivered. */
  method OverlayCommitted(rows: seq<Entry>, ghost base: Rows, b: Buffer<Value>)
    returns (out: seq<Entry>, emitted: set<Value>)
    requires Scanned(rows, base) && Disjoint(b)
    ensures Scanned(out, Restrict(View(base, b), base.Keys)) && emitted == base.Keys * b.upserts.Keys
  {
    out, emitted := [], {};
    assert Restrict(View(base, b), {}) == map[];
    for i := 0 to |rows|
      invariant Scanned(out, Restrict(View(base, b), Listed(rows, i).Keys))
      invariant emitted == Listed(rows, i).Keys * b.upserts.Keys
    {
      var pk := rows[i].pk;
      NextEntry(rows, i, |rows|);
      OverlayStep(base, b, Listed(rows, i).Keys, rows[i], out);
      OneMoreKey(Listed(rows, i).Keys, b.upserts.Keys, pk);
      if pk in b.deletes {
        assert out + Overlaid(b, rows[i]) == out;
        continue;
      }
      var cur := rows[i].row;
      if pk in b.upserts { cur, emitted := b.upserts[pk], emitted + {pk}; }
      out := out + [Entry(pk, cur)];
    }
  }

  lemma OneMoreKey(done: set<Value>, keys: set<Value>, pk: Value)
    ensures (done + {pk}) * keys == if pk in keys then done * keys + {pk} else done * keys
  {
  }

  lemma CommittedPart(base: Rows, b: Buffer<Value>, todo: set<Value>)
    requires todo == b.upserts.Keys - base.Keys * b.upserts.Keys
    ensures Restrict(View(base, b), base.Keys) == Restrict(View(base, b), View(base, b).Keys - todo)
  {
  }

  lemma OneLessToDo(seen: Rows, todo: set<Value>, pk: Value)
    requires pk in todo && pk in seen
    ensures pk !in Restrict(seen, seen.Keys - todo)
    ensures Restrict(seen, seen.Keys - (todo - {pk})) == Restrict(seen, seen.Keys - todo)[pk := seen[pk]]
  {
    var keys := seen.Keys - (todo - {pk});
    assert forall k :: k in keys <==> k in seen.Keys - todo || k == pk;
  }

  /** `execute_seq_scan` with a buffer: committed rows in scan order, then the rows only inserted. */
  method OverlayScan(rows: seq<Entry>, ghost base: Rows, b: Buffer<Value>) returns (out: seq<Entry>)
    requires Scanned(rows, base) && Disjoint(b)
    ensures Scanned(out, View(base, b))
  {
    ghost var seen := View(base, b);
    var emitted;
    out, emitted := OverlayCommitted(rows, base, b);
    var todo := b.upserts.Keys - emitted;
    CommittedPart(base, b, todo);
    while todo != {}
      invariant todo <= b.upserts.Keys && Scanned(out, Restrict(seen, seen.Keys - todo))
      decreases todo
    {
      var pk :| pk in todo;
      OneLessToDo(seen, todo, pk);
      ScannedAppend(out, Restrict(seen, seen.Keys - todo), Entry(pk, b.upserts[pk]));
      out := out + [Entry(pk, b.upserts[pk])];
      todo := todo - {pk};
    }
    assert Restrict(seen, seen.Keys - {}) == seen;
  }

  // ---- COMMIT ----

  /** The version that one buffered deletion, or one buffered row, becomes. A row is stored under its own key column. */
  function Tombstone(pk: Value, ts: nat): Version {
    Version(pk, ts, true, [])
  }

  function Stored(row: Row, ts: nat, keyOf: Row -> Value): Version {
    Version(keyOf(row), ts, false, row)
  }

  /** The memtable entries a commit leaves, by key; a later write under the same key and timestamp replaces an earlier. */
  ghost predicate IsCommitOf(m: map<Value, Version>, b: Buffer<Value>, ts: nat, keyOf: Row -> Value) {
    && (forall k | k in b.deletes :: k in m)
    && (forall k | k in b.upserts :: keyOf(b.upserts[k]) in m && !m[keyOf(b.upserts[k])].tombstone)
    && (forall pk | pk in m :: if m[pk].tombstone then pk in b.deletes && m[pk] == Tombstone(pk, ts)
         else pk == keyOf(m[pk].row) && m[pk] == Stored(m[pk].row, ts, keyOf)
              && exists k :: k in b.upserts && b.upserts[k] == m[pk].row)
  }

  /** COMMIT writes the deletions of a table, then its rows, all with the commit timestamp. */
  method CommitVersions(b: Buffer<Value>, ts: nat, keyOf: Row -> Value) returns (m: map<Value, Version>)
    ensures IsCommitOf(m, b, ts, keyOf)
  {
    m := map[];
    var todo := b.deletes;
    while todo != {}
      invariant todo <= b.deletes && IsCommitOf(m, Buffer(map[], b.deletes - todo), ts, keyOf)
      decreases todo
    {
      var pk :| pk in todo;
      m, todo := m[pk := Tombstone(pk, ts)], todo - {pk};
    }
    todo := b.upserts.Keys;
    assert b.upserts - todo == map[] && b.deletes - {} == b.deletes;
    while todo != {}
      invariant todo <= b.upserts.Keys
      invariant IsCommitOf(m, Buffer(b.upserts - todo, b.deletes), ts, keyOf)
      decreases todo
    {
      var pk :| pk in todo;
      var row := b.upserts[pk];
      OneMoreRow(m, Buffer(b.upserts - todo, b.deletes), ts, keyOf, pk, row);
      assert b.upserts - (todo - {pk}) == (b.upserts - todo)[pk := row];
      m, todo := m[keyOf(row) := Stored(row, ts, keyOf)], todo - {pk};
    }
    assert b.upserts - todo == b.upserts;
  }

  lemma OneMoreRow(m: map<Value, Version>, b: Buffer<Value>, ts: nat, keyOf: Row -> Value, pk: Value, row: Row)
    requires IsCommitOf(m, b, ts, keyOf) && pk !in b.upserts
    ensures IsCommitOf(m[keyOf(row) := Stored(row, ts, keyOf)], b.(upserts := b.upserts[pk := row]), ts, keyOf)
  {
    var m', up' := m[keyOf(row) := Stored(row, ts, keyOf)], b.upserts[pk := row];
    forall k | k in m' && !m'[k].tombstone
      ensures k == keyOf(m'[k].row) && m'[k] == Stored(m'[k].row, ts, keyOf) && exists j :: j in up' && up'[j] == m'[k].row
    {
      if k == keyOf(row) {
        assert up'[pk] == m'[k].row;
      } else {
        var j :| j in b.upserts && b.upserts[j] == m[k].row;
        assert up'[j] == m'[k].row;
      }
    }
  }

  /** What the store holds afterwards. */
  ghost predicate Installed(s: seq<Version>, before: seq<Version>, m: map<Value, Version>) {
    forall v :: v in s <==> v in before || (v.pk in m && m[v.pk] == v)
  }

  /** What COMMIT makes of one key: the last row stored under it, else its deletion, else what was there. */
  ghost predicate InstalledAt<K>(now: Option<Row>, was: Option<Row>, b: Buffer<K>, own: (K, Row) -> K, k: K) {
    if Targeted(b, own, k) then exists j :: j in b.upserts && own(j, b.upserts[j]) == k && now == Some(b.upserts[j])
    else now == if k in b.deletes then None else was
  }

  predicate Targeted<K(==)>(b: Buffer<K>, own: (K, Row) -> K, k: K) {
    exists j :: j in b.upserts && own(j, b.upserts[j]) == k
  }

  /** What later readers find after the versions of a COMMIT are in the store, also when rows were moved. */
  lemma CommitReads(s: seq<Version>, before: seq<Version>, m: map<Value, Version>, b: Buffer<Value>, ts: nat,
                    keyOf: Row -> Value, own: (Value, Row) -> Value, pk: Value, snap: nat)
    requires IsCommitOf(m, b, ts, keyOf) && Installed(s, before, m) && Consistent(before) && snap >= ts
    requires (forall v: Version | v in before :: v.ts < ts) && forall k, row :: own(k, row) == keyOf(row)
    ensures InstalledAt(Read(s, pk, snap), Read(before, pk, ts), b, own, pk)
  {
    ReadAfterInstall(s, before, m, ts, pk, snap);
    if pk in m && !m[pk].tombstone {
      var k :| k in b.upserts && b.upserts[k] == m[pk].row;
      assert own(k, b.upserts[k]) == pk;
    }
  }

  /** UPDATE keeps the buffered row under the key it had, even when it assigns the key column. */
  predicate KeptKeys(rows: Rows, keyOf: Row -> Value) {
    forall k | k in rows :: keyOf(rows[k]) == k
  }

  /** The committed rows are what a current reader sees, and each stands under its own key. */
  ghost predicate CommittedRows(before: seq<Version>, base: Rows, ts: nat, keyOf: Row -> Value) {
    && Consistent(before)
    && (forall v: Version | v in before :: v.ts < ts)
    && (forall pk :: Read(before, pk, ts) == Lookup(base, pk))
    && KeptKeys(base, keyOf)
  }

  /** A key the commit wrote reads as written; any other key reads as before. */
  lemma ReadAfterInstall(s: seq<Version>, before: seq<Version>, m: map<Value, Version>, ts: nat, pk: Value, snap: nat)
    requires Consistent(before) && Installed(s, before, m) && snap >= ts
    requires forall v: Version | v in before :: v.ts < ts
    requires pk in m ==> m[pk].pk == pk && m[pk].ts == ts
    ensures Read(s, pk, snap) == if pk in m then Payload(Some(m[pk])) else Read(before, pk, ts)
  {
    NewestIsNewest(s, pk, snap);
    if pk in m {
      assert m[pk] in s && Matches(m[pk], pk, snap);
    } else {
      NewestIsNewest(before, pk, ts);
      if Newest(s, pk, snap).Some? { NewestUnique(before, pk, ts, Newest(s, pk, snap).value); }
    }
  }

  /** The entry of a commit under a key is what the buffer holds for it, when the rows kept their keys. */
  lemma EntryAt(m: map<Value, Version>, b: Buffer<Value>, ts: nat, keyOf: Row -> Value, pk: Value)
    requires Disjoint(b) && IsCommitOf(m, b, ts, keyOf) && KeptKeys(b.upserts, keyOf)
    ensures pk in m <==> pk in b.upserts || pk in b.deletes
    ensures pk in m ==> m[pk].pk == pk && m[pk].ts == ts
    ensures pk in m ==> Payload(Some(m[pk])) == Lookup(b.upserts, pk)
  {
    if pk in m && !m[pk].tombstone {
      var k :| k in b.upserts && b.upserts[k] == m[pk].row;
    }
  }

  /** Whatever is read under a key is a row with that key: a moved row is not found where the transaction saw it. */
  lemma ReadRowHasKey(s: seq<Version>, before: seq<Version>, m: map<Value, Version>, base: Rows, b: Buffer<Value>,
                      ts: nat, keyOf: Row -> Value, pk: Value)
    requires IsCommitOf(m, b, ts, keyOf) && Installed(s, before, m) && CommittedRows(before, base, ts, keyOf)
    ensures Read(s, pk, ts).Some? ==> keyOf(Read(s, pk, ts).value) == pk
  {
    ReadAfterInstall(s, before, m, ts, pk, ts);
  }

  /** After COMMIT every later reader sees exactly what the transaction saw, if and only if no UPDATE moved a key. */
  lemma CommitInstallsViewIff(s: seq<Version>, before: seq<Version>, m: map<Value, Version>, base: Rows,
                              b: Buffer<Value>, ts: nat, keyOf: Row -> Value)
    requires Disjoint(b) && IsCommitOf(m, b, ts, keyOf) && Installed(s, before, m)
    requires CommittedRows(before, base, ts, keyOf)
    ensures KeptKeys(b.upserts, keyOf) <==>
      forall pk, snap | snap >= ts :: Read(s, pk, snap) == Lookup(View(base, b), pk)
  {
    if KeptKeys(b.upserts, keyOf) {
      forall pk, snap | snap >= ts ensures Read(s, pk, snap) == Lookup(View(base, b), pk) {
        EntryAt(m, b, ts, keyOf, pk);
        ReadAfterInstall(s, before, m, ts, pk, snap);
      }
    } else {
      var pk :| pk in b.upserts && keyOf(b.upserts[pk]) != pk;
      ReadRowHasKey(s, before, m, base, b, ts, keyOf, pk);
      assert Read(s, pk, ts) != Lookup(View(base, b), pk);
    }
  }

  /** UPDATE t SET id = 2 WHERE id = 1: the transaction sees one row, later readers see two. */
  lemma MovedKeyIsDuplicated(keyOf: Row -> Value, change: Row -> Option<Row>)
    requires keyOf([Int(1)]) == Int(1) && keyOf([Int(2)]) == Int(2) && change([Int(1)]) == Some([Int(2)])
    ensures var one, two := Int(1), Int(2);
      var was, now := Version(one, 1, false, [one]), Version(two, 2, false, [two]);
      var b := UpdateIn(map[one := [one]], Buffer(map[], {}), change);
      && View(map[one := [one]], b) == map[one := [two]]
      && IsCommitOf(map[two := now], b, 2, keyOf) && Installed([was, now], [was], map[two := now])
      && Read([was, now], one, 2) == Some([one]) && Read([was, now], two, 2) == Some([two])
  {
    var one, two := Int(1), Int(2);
    var b := UpdateIn(map[one := [one]], Buffer(map[], {}), change);
    assert b == Buffer(map[one := [two]], {});
    assert b.upserts[one] == [two];
    var was, now := Version(one, 1, false, [one]), Version(two, 2, false, [two]);
    var m := map[two := now];
    assert m[two] == Stored([two], 2, keyOf);
    assert IsCommitOf(m, b, 2, keyOf);
    assert forall v :: v in [was, now] <==> v == was || v == now;
    assert Installed([was, now], [was], m);
    NewestOfConcat([was], [now], one, 2);
    NewestOfConcat([was], [now], two, 2);
    assert [was] + [now] == [was, now];
  }
}
