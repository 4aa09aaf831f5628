/**
 * Transactions side by side: write buffers, savepoints and row locks, over every interleaving.
 * One step reads, locks and buffers one row; the write buffers of the tables are one buffer over rows of tables.
 */
module Concurrency {
  import opened Values
  import opened RowLocks
  import opened Sessions

  type Tables = map<Cell, Row>

  datatype Named<T> = Named(name: string, at: T)

  /** `snap` holds the rows committed at BEGIN, which SELECT reads at REPEATABLE READ. */
  datatype Txn = Txn(snap: Tables, buffer: Buffer<Cell>, saved: seq<Named<Buffer<Cell>>>)

  datatype World = World(base: Tables, locks: map<Cell, nat>, live: map<nat, Txn>)

  datatype Step =
    | Begin(id: nat)
    | Put(id: nat, cell: Cell, row: Row)
    | Remove(id: nat, cell: Cell)
    | Save(id: nat, name: string)
    | RollbackTo(id: nat, name: string)
    | Release(id: nat, name: string)
    | Commit(id: nat, after: Tables)
    | Abort(id: nat)

  function EmptyBuffer(): Buffer<Cell> {
    Buffer(map[], {})
  }

  // ---- Savepoints ----

  function NamesOf(saved: seq<Named<Buffer<Cell>>>): seq<string> {
    seq(|saved|, i => if 0 <= i < |saved| then saved[i].name else "")
  }

  /** The youngest savepoint of a name. */
  function LastNamed(names: seq<string>, name: string): (found: Option<nat>)
    ensures found.Some? ==> found.value < |names|
  {
    if names == [] then None
    else if names[|names| - 1] == name then Some(|names| - 1)
    else LastNamed(names[..|names| - 1], name)
  }

  lemma {:induction false} LastNamedIsLast(names: seq<string>, name: string)
    ensures LastNamed(names, name).None? ==> name !in names
    ensures LastNamed(names, name).Some? ==>
      var k := LastNamed(names, name).value; names[k] == name && name !in names[k + 1..]
  {
    if names != [] { LastNamedIsLast(names[..|names| - 1], name); }
  }

  /** The search from the youngest savepoint down. */
  method FindSavepoint(names: seq<string>, name: string) returns (found: Option<nat>)
    ensures found == LastNamed(names, name)
  {
    var i := |names|;
    assert names[..i] == names;
    while i > 0
      invariant 0 <= i <= |names| && LastNamed(names, name) == LastNamed(names[..i], name)
    {
      assert names[..i][..i - 1] == names[..i - 1];
      if names[i - 1] == name { return Some(i - 1); }
      i := i - 1;
    }
    return None;
  }

  // ---- The system ----

  function Marked(base: Tables, b: Buffer<Cell>, cell: Cell): Buffer<Cell> {
    Buffer(b.upserts - {cell}, if cell in base then b.deletes + {cell} else b.deletes)
  }

  /** A statement that asks for a row another transaction holds fails; its transaction can then only abort. */
  predicate Enabled(w: World, step: Step) {
    match step
    case Begin(id) => id !in w.live && forall c | c in w.locks :: w.locks[c] != id
    case Put(id, cell, row) => id in w.live && Grants(w.locks, cell, id)
    case Remove(id, cell) =>
      id in w.live && cell in View(w.base, w.live[id].buffer) && (cell in w.base ==> Grants(w.locks, cell, id))
    case RollbackTo(id, name) => id in w.live && LastNamed(NamesOf(w.live[id].saved), name).Some?
    case Release(id, name) => id in w.live && LastNamed(NamesOf(w.live[id].saved), name).Some?
    case _ => step.id in w.live
  }

  function Next(w: World, step: Step): World
    requires Enabled(w, step)
  {
    match step
    case Begin(id) => w.(live := w.live[id := Txn(w.base, EmptyBuffer(), [])])
    case Put(id, cell, row) =>
      var t := w.live[id];
      w.(locks := w.locks[cell := id], live := w.live[id := t.(buffer := InsertInto(t.buffer, cell, row))])
    case Remove(id, cell) =>
      var t := w.live[id];
      w.(locks := if cell in w.base then w.locks[cell := id] else w.locks,
         live := w.live[id := t.(buffer := Marked(w.base, t.buffer, cell))])
    case Save(id, name) =>
      var t := w.live[id];
      w.(live := w.live[id := t.(saved := t.saved + [Named(name, t.buffer)])])
    case RollbackTo(id, name) =>
      var t := w.live[id];
      var i := LastNamed(NamesOf(t.saved), name).value;
      w.(live := w.live[id := Txn(t.snap, t.saved[i].at, t.saved[..i + 1])])
    case Release(id, name) =>
      var t := w.live[id];
      w.(live := w.live[id := t.(saved := t.saved[..LastNamed(NamesOf(t.saved), name).value])])
    case Commit(id, after) =>
      World(after, Released(w.locks, id), w.live - {id})
    case Abort(id) =>
      World(w.base, Released(w.locks, id), w.live - {id})
  }

  // ---- What COMMIT installs ----

  type KeyOf = (string, Row) -> Value

  /** COMMIT stores a buffered row under the row's own key. */
  function Home(keyOf: KeyOf): (Cell, Row) -> Cell {
    (c: Cell, row: Row) => Cell(c.table, keyOf(c.table, row))
  }

  /** Every row stands under its own key. */
  predicate Keyed(rows: Tables, keyOf: KeyOf) {
    forall c | c in rows :: keyOf(c.table, rows[c]) == c.pk
  }

  ghost predicate Installs(after: Tables, base: Tables, b: Buffer<Cell>, keyOf: KeyOf) {
    forall c :: InstalledAt(Lookup(after, c), Lookup(base, c), b, Home(keyOf), c)
  }

  /** The rows that a COMMIT step leaves are those its buffer installs. */
  ghost predicate Faithful(w: World, step: Step, keyOf: KeyOf)
    requires Enabled(w, step)
  {
    step.Commit? ==> Installs(step.after, w.base, w.live[step.id].buffer, keyOf)
  }

  lemma InstalledIsKeyed(after: Tables, base: Tables, b: Buffer<Cell>, keyOf: KeyOf)
    requires Keyed(base, keyOf) && Installs(after, base, b, keyOf)
    ensures Keyed(after, keyOf)
  {
    forall c | c in after ensures keyOf(c.table, after[c]) == c.pk {
      assert InstalledAt(Lookup(after, c), Lookup(base, c), b, Home(keyOf), c);
    }
  }

  lemma InstallsView(after: Tables, base: Tables, b: Buffer<Cell>, keyOf: KeyOf)
    requires Disjoint(b) && Keyed(b.upserts, keyOf) && Installs(after, base, b, keyOf)
    ensures after == View(base, b)
  {
    forall c ensures Lookup(after, c) == Lookup(View(base, b), c) {
      assert InstalledAt(Lookup(after, c), Lookup(base, c), b, Home(keyOf), c);
      if c in b.upserts { assert Home(keyOf)(c, b.upserts[c]) == c; }
    }
    SameLookups(after, View(base, b));
  }

  /** COMMIT installs what the transaction sees if and only if every row it sees stands under its own key. */
  lemma InstallsViewIff(after: Tables, base: Tables, b: Buffer<Cell>, keyOf: KeyOf)
    requires Disjoint(b) && Keyed(base, keyOf) && Installs(after, base, b, keyOf)
    ensures after == View(base, b) <==> Keyed(View(base, b), keyOf)
  {
    InstalledIsKeyed(after, base, b, keyOf);
    if Keyed(View(base, b), keyOf) {
      forall c | c in b.upserts ensures keyOf(c.table, b.upserts[c]) == c.pk { assert View(base, b)[c] == b.upserts[c]; }
      InstallsView(after, base, b, keyOf);
    }
  }

  /** The key column is not changed. */
  predicate KeepsKey(step: Step, keyOf: KeyOf) {
    step.Put? ==> keyOf(step.cell.table, step.row) == step.cell.pk
  }

  predicate Kept(t: Txn, keyOf: KeyOf) {
    Keyed(t.buffer.upserts, keyOf) && forall i | 0 <= i < |t.saved| :: Keyed(t.saved[i].at.upserts, keyOf)
  }

  ghost predicate OthersKept(w: World, me: nat, keyOf: KeyOf) {
    forall id | id in w.live && id != me :: Kept(w.live[id], keyOf)
  }

  lemma StepKeepsKept(w: World, me: nat, step: Step, keyOf: KeyOf)
    requires Enabled(w, step) && OthersKept(w, me, keyOf) && (step.id == me || KeepsKey(step, keyOf))
    ensures OthersKept(Next(w, step), me, keyOf)
  {
    var w' := Next(w, step);
    forall id | id in w'.live && id != me ensures Kept(w'.live[id], keyOf) {
      if !step.Begin? || id != step.id { assert Kept(w.live[id], keyOf); }
    }
  }

  // ---- Locks protect what is buffered ----

  predicate Holds(locks: map<Cell, nat>, id: nat, b: Buffer<Cell>) {
    Disjoint(b) && forall c | c in b.upserts.Keys + b.deletes :: c in locks && locks[c] == id
  }

  predicate TxnOk(locks: map<Cell, nat>, id: nat, t: Txn) {
    Holds(locks, id, t.buffer) && forall i | 0 <= i < |t.saved| :: Holds(locks, id, t.saved[i].at)
  }

  /** Buffered rows are locked by their transaction, and every lock belongs to a live one. */
  ghost predicate Ok(w: World) {
    && (forall id | id in w.live :: TxnOk(w.locks, id, w.live[id]))
    && (forall c | c in w.locks :: w.locks[c] in w.live)
  }

  lemma HoldsStill(locks: map<Cell, nat>, locks': map<Cell, nat>, id: nat, t: Txn)
    requires TxnOk(locks, id, t) && forall c | c in locks && locks[c] == id :: c in locks' && locks'[c] == id
    ensures TxnOk(locks', id, t)
  {
    forall i | 0 <= i < |t.saved| ensures Holds(locks', id, t.saved[i].at) {
      assert Holds(locks, id, t.saved[i].at);
    }
  }

  lemma StepKeepsOk(w: World, step: Step)
    requires Ok(w) && Enabled(w, step)
    ensures Ok(Next(w, step))
  {
    var w' := Next(w, step);
    forall id | id in w'.live ensures TxnOk(w'.locks, id, w'.live[id]) {
      if id in w.live { HoldsStill(w.locks, w'.locks, id, w.live[id]); }
      if id == step.id { OwnStepKeepsOk(w, step); }
    }
  }

  lemma OwnStepKeepsOk(w: World, step: Step)
    requires Ok(w) && Enabled(w, step) && step.id in Next(w, step).live
    ensures TxnOk(Next(w, step).locks, step.id, Next(w, step).live[step.id])
  {
    var w' := Next(w, step);
    if !step.Begin? {
      var t := w.live[step.id];
      assert TxnOk(w.locks, step.id, t);
      HoldsStill(w.locks, w'.locks, step.id, t);
      if step.RollbackTo? || step.Release? { LastNamedIsLast(NamesOf(t.saved), step.name); }
    }
  }

  /** No two live transactions have buffered the same row, nor, if they keep their keys, store under the same key. */
  lemma NoSharedRow(w: World, a: nat, b: nat, keyOf: KeyOf)
    requires Ok(w) && a in w.live && b in w.live && a != b
    ensures Apart(w.live[a].buffer, w.live[b].buffer)
    ensures Keyed(w.live[a].buffer.upserts, keyOf) && Keyed(w.live[b].buffer.upserts, keyOf) ==>
      forall c :: !(Targeted(w.live[a].buffer, Home(keyOf), c) && Targeted(w.live[b].buffer, Home(keyOf), c))
  {
    assert TxnOk(w.locks, a, w.live[a]) && TxnOk(w.locks, b, w.live[b]);
  }

  predicate Apart(a: Buffer<Cell>, b: Buffer<Cell>) {
    a.upserts.Keys + a.deletes !! b.upserts.Keys + b.deletes
  }

  predicate Own(locks: map<Cell, nat>, id: nat, c: Cell) {
    c in locks && locks[c] == id
  }

  ghost predicate ChangesOnlyOwn(after: Tables, base: Tables, locks: map<Cell, nat>, id: nat) {
    forall c | !Own(locks, id, c) :: Lookup(after, c) == Lookup(base, c)
  }

  /** COMMIT changes only rows that its transaction has locked, whatever is committed, iff it has locked every row's own key. */
  lemma CommitChangesOnlyOwnIff(locks: map<Cell, nat>, id: nat, b: Buffer<Cell>, keyOf: KeyOf)
    requires Holds(locks, id, b)
    ensures (forall c | c in b.upserts :: Own(locks, id, Home(keyOf)(c, b.upserts[c]))) <==>
      forall base, after | Installs(after, base, b, keyOf) :: ChangesOnlyOwn(after, base, locks, id)
  {
    if forall c | c in b.upserts :: Own(locks, id, Home(keyOf)(c, b.upserts[c])) {
      forall base, after | Installs(after, base, b, keyOf) ensures ChangesOnlyOwn(after, base, locks, id) {
        forall c | !Own(locks, id, c) ensures Lookup(after, c) == Lookup(base, c) {
          assert InstalledAt(Lookup(after, c), Lookup(base, c), b, Home(keyOf), c);
        }
      }
    } else {
      var j :| j in b.upserts && !Own(locks, id, Home(keyOf)(j, b.upserts[j]));
      var c := Home(keyOf)(j, b.upserts[j]);
      var after := SomeInstall(b, keyOf);
      assert InstalledAt(Lookup(after, c), Lookup(map[], c), b, Home(keyOf), c);
      assert Installs(after, map[], b, keyOf) && !ChangesOnlyOwn(after, map[], locks, id);
    }
  }

  /** One result of COMMIT on an empty database. */
  ghost function SomeInstall(b: Buffer<Cell>, keyOf: KeyOf): (after: Tables)
    ensures Installs(after, map[], b, keyOf)
  {
    var home := Home(keyOf);
    var targets := set j | j in b.upserts :: home(j, b.upserts[j]);
    map c | c in targets :: b.upserts[var j :| j in b.upserts && home(j, b.upserts[j]) == c; j]
  }

  /** Rows whose keys are kept are locked: the commit cannot touch a row that another transaction has buffered. */
  lemma KeptCommitStaysApart(w: World, me: nat, other: nat, after: Tables, keyOf: KeyOf, c: Cell)
    requires Ok(w) && me in w.live && other in w.live && me != other && Keyed(w.live[other].buffer.upserts, keyOf)
    requires Installs(after, w.base, w.live[other].buffer, keyOf) && Buffered(w.live[me].buffer, c)
    ensures Lookup(after, c) == Lookup(w.base, c)
  {
    var b := w.live[other].buffer;
    assert TxnOk(w.locks, me, w.live[me]) && TxnOk(w.locks, other, w.live[other]);
    forall j | j in b.upserts ensures Own(w.locks, other, Home(keyOf)(j, b.upserts[j])) { assert Home(keyOf)(j, b.upserts[j]) == j; }
    CommitChangesOnlyOwnIff(w.locks, other, b, keyOf);
    assert ChangesOnlyOwn(after, w.base, w.locks, other);
  }

  /** Overlays of disjoint sets of rows commute. */
  lemma ViewsCommute(base: Tables, a: Buffer<Cell>, b: Buffer<Cell>)
    requires Apart(a, b)
    ensures View(View(base, a), b) == View(View(base, b), a)
  {
  }

  // ---- Each transaction works on a private copy of the database ----

  /** The copy of one transaction, and the copies it saved. */
  datatype Copy = Copy(rows: Tables, saved: seq<Named<Tables>>)

  function CopyNames(saved: seq<Named<Tables>>): seq<string> {
    seq(|saved|, i => if 0 <= i < |saved| then saved[i].name else "")
  }

  /** Another transaction's commit lands on the copy and on every saved copy. */
  function Land(c: Copy, b: Buffer<Cell>): Copy {
    Copy(View(c.rows, b),
         seq(|c.saved|, i => if 0 <= i < |c.saved| then Named(c.saved[i].name, View(c.saved[i].at, b)) else Named("", map[])))
  }

  /** What each step means for the copy of transaction `me`: its own statements, and the commits of others. */
  function CopyNext(c: Copy, me: nat, w: World, step: Step): Copy
    requires Enabled(w, step)
  {
    if step.id != me then
      if step.Commit? then Land(c, w.live[step.id].buffer) else c
    else
      match step
      case Put(_, cell, row) => c.(rows := c.rows[cell := row])
      case Remove(_, cell) => c.(rows := c.rows - {cell})
      case Save(_, name) => c.(saved := c.saved + [Named(name, c.rows)])
      case RollbackTo(_, name) =>
        if LastNamed(CopyNames(c.saved), name).None? then c else
        var i := LastNamed(CopyNames(c.saved), name).value;
        Copy(c.saved[i].at, c.saved[..i + 1])
      case Release(_, name) =>
        if LastNamed(CopyNames(c.saved), name).None? then c else
        c.(saved := c.saved[..LastNamed(CopyNames(c.saved), name).value])
      case _ => c
  }

  /** Under its buffers these rows show exactly the copy, now and at each savepoint. */
  ghost predicate Shows(base: Tables, t: Txn, c: Copy) {
    && c.rows == View(base, t.buffer)
    && |c.saved| == |t.saved|
    && forall i | 0 <= i < |c.saved| :: c.saved[i].name == t.saved[i].name && c.saved[i].at == View(base, t.saved[i].at)
  }

  /** What SELECT shows at READ COMMITTED is the copy. */
  ghost predicate Sees(w: World, me: nat, c: Copy) {
    me in w.live && Shows(w.base, w.live[me], c)
  }

  lemma PutOnCopy(base: Tables, b: Buffer<Cell>, cell: Cell, row: Row)
    requires Disjoint(b)
    ensures View(base, InsertInto(b, cell, row)) == View(base, b)[cell := row]
  {
  }

  /** DELETE looks at the latest rows: it takes a row from view iff a row shown below the buffer is still there. */
  lemma RemoveOnCopyIff(base: Tables, latest: Tables, b: Buffer<Cell>, cell: Cell)
    requires Disjoint(b) && cell in View(latest, b)
    ensures View(base, Marked(latest, b, cell)) == View(base, b) - {cell} <==> (cell in base ==> cell in latest)
  {
    if cell in base && cell !in latest { assert cell in View(base, Marked(latest, b, cell)); }
  }

  ghost predicate Removes(base: Tables, w: World, step: Step) {
    step.Remove? && step.cell in base ==> step.cell in w.base
  }

  lemma OwnStepOnCopy(base: Tables, w: World, me: nat, c: Copy, step: Step)
    requires Ok(w) && Enabled(w, step) && me in w.live && Shows(base, w.live[me], c) && step.id == me && me in Next(w, step).live
    requires Removes(base, w, step)
    ensures Shows(base, Next(w, step).live[me], CopyNext(c, me, w, step))
  {
    var t := w.live[me];
    assert TxnOk(w.locks, me, t);
    match step
    case Put(_, cell, row) => PutOnCopy(base, t.buffer, cell, row);
    case Remove(_, cell) => RemoveOnCopyIff(base, w.base, t.buffer, cell);
    case RollbackTo(_, name) =>
      assert CopyNames(c.saved) == NamesOf(t.saved);
      LastNamedIsLast(NamesOf(t.saved), name);
    case Release(_, name) =>
      assert CopyNames(c.saved) == NamesOf(t.saved);
      LastNamedIsLast(NamesOf(t.saved), name);
    case _ =>
  }

  lemma CommitLandsOnCopy(w: World, me: nat, c: Copy, other: nat)
    requires Ok(w) && other in w.live && Sees(w, me, c) && other != me
    ensures Shows(View(w.base, w.live[other].buffer), w.live[me], Land(c, w.live[other].buffer))
  {
    var mine, theirs := w.live[me], w.live[other].buffer;
    assert TxnOk(w.locks, me, mine) && TxnOk(w.locks, other, w.live[other]);
    ViewsCommute(w.base, mine.buffer, theirs);
    forall i | 0 <= i < |c.saved|
      ensures View(c.saved[i].at, theirs) == View(View(w.base, theirs), mine.saved[i].at)
    {
      assert Holds(w.locks, me, mine.saved[i].at);
      ViewsCommute(w.base, mine.saved[i].at, theirs);
    }
  }

  lemma StepKeepsCopy(w: World, me: nat, c: Copy, step: Step, keyOf: KeyOf)
    requires Ok(w) && Enabled(w, step) && Faithful(w, step, keyOf) && OthersKept(w, me, keyOf)
    requires Sees(w, me, c) && me in Next(w, step).live
    ensures Sees(Next(w, step), me, CopyNext(c, me, w, step))
  {
    if step.id == me {
      OwnStepOnCopy(w.base, w, me, c, step);
    } else if step.Commit? {
      assert TxnOk(w.locks, step.id, w.live[step.id]) && Kept(w.live[step.id], keyOf);
      InstallsView(step.after, w.base, w.live[step.id].buffer, keyOf);
      CommitLandsOnCopy(w, me, c, step.id);
    } else {
      assert Next(w, step).base == w.base && Next(w, step).live[me] == w.live[me];
    }
  }

  // ---- Runs ----

  ghost predicate Legal(w: World, steps: seq<Step>, keyOf: KeyOf)
    decreases |steps|
  {
    steps == [] ||
    (Enabled(w, steps[0]) && Faithful(w, steps[0], keyOf) && Legal(Next(w, steps[0]), steps[1..], keyOf))
  }

  ghost function Run(w: World, steps: seq<Step>, keyOf: KeyOf): World
    requires Legal(w, steps, keyOf)
    decreases |steps|
  {
    if steps == [] then w else Run(Next(w, steps[0]), steps[1..], keyOf)
  }

  ghost function CopyRun(c: Copy, me: nat, w: World, steps: seq<Step>, keyOf: KeyOf): Copy
    requires Legal(w, steps, keyOf)
    decreases |steps|
  {
    if steps == [] then c else CopyRun(CopyNext(c, me, w, steps[0]), me, Next(w, steps[0]), steps[1..], keyOf)
  }

  /** Within these steps the other transactions keep their rows under their keys. */
  predicate OthersKeep(me: nat, steps: seq<Step>, keyOf: KeyOf) {
    forall i | 0 <= i < |steps| :: steps[i].id == me || KeepsKey(steps[i], keyOf)
  }

  /** The transaction does not end within these steps. */
  predicate Ongoing(me: nat, steps: seq<Step>) {
    forall i | 0 <= i < |steps| :: !(steps[i].id == me && (steps[i].Commit? || steps[i].Abort?))
  }

  /** Over every interleaving the locks protect what is buffered, and committed rows stand under their own keys. */
  lemma {:induction false} RunKeepsOk(w: World, steps: seq<Step>, keyOf: KeyOf)
    requires Ok(w) && Legal(w, steps, keyOf)
    ensures Ok(Run(w, steps, keyOf)) && (Keyed(w.base, keyOf) ==> Keyed(Run(w, steps, keyOf).base, keyOf))
    decreases |steps|
  {
    if steps != [] {
      StepKeepsOk(w, steps[0]);
      if steps[0].Commit? && Keyed(w.base, keyOf) {
        InstalledIsKeyed(steps[0].after, w.base, w.live[steps[0].id].buffer, keyOf);
      }
      RunKeepsOk(Next(w, steps[0]), steps[1..], keyOf);
    }
  }

  /** READ COMMITTED: over every interleaving a transaction sees its private copy, as long as the others keep their keys. */
  lemma {:induction false} PrivateCopy(w: World, me: nat, c: Copy, steps: seq<Step>, keyOf: KeyOf)
    requires Ok(w) && Legal(w, steps, keyOf) && Sees(w, me, c) && Ongoing(me, steps)
    requires OthersKept(w, me, keyOf) && OthersKeep(me, steps, keyOf)
    ensures Sees(Run(w, steps, keyOf), me, CopyRun(c, me, w, steps, keyOf))
    decreases |steps|
  {
    if steps != [] {
      var step := steps[0];
      assert me in Next(w, step).live && (step.id == me || KeepsKey(step, keyOf));
      StepKeepsOk(w, step);
      StepKeepsKept(w, me, step, keyOf);
      StepKeepsCopy(w, me, c, step, keyOf);
      PrivateCopy(Next(w, step), me, CopyNext(c, me, w, step), steps[1..], keyOf);
    }
  }

  /** A new transaction starts from a copy of what is committed. */
  lemma BeginSees(w: World, me: nat)
    requires Ok(w) && Enabled(w, Begin(me))
    ensures Ok(Next(w, Begin(me))) && Sees(Next(w, Begin(me)), me, Copy(w.base, []))
    ensures SeesSnapshot(Next(w, Begin(me)), me, Copy(w.base, []))
  {
    StepKeepsOk(w, Begin(me));
    assert View(w.base, EmptyBuffer()) == w.base;
  }

  /**
   * From BEGIN to COMMIT at READ COMMITTED: what is installed is the copy if and only if every row of the copy stands
   * under its own key. ROLLBACK installs nothing. Either way the locks are gone.
   */
  lemma TransactionIsAtomicIff(w: World, me: nat, steps: seq<Step>, keyOf: KeyOf)
    requires Ok(w) && Keyed(w.base, keyOf) && OthersKept(w, me, keyOf) && OthersKeep(me, steps, keyOf)
    requires Enabled(w, Begin(me)) && Legal(Next(w, Begin(me)), steps, keyOf) && Ongoing(me, steps)
    ensures var start := Next(w, Begin(me)); var end := Run(start, steps, keyOf);
      var copy := CopyRun(Copy(w.base, []), me, start, steps, keyOf);
      && me in end.live
      && (forall after | Installs(after, end.base, end.live[me].buffer, keyOf) ::
            && (Next(end, Commit(me, after)).base == copy.rows <==> Keyed(copy.rows, keyOf))
            && me !in Next(end, Commit(me, after)).locks.Values)
      && Next(end, Abort(me)).base == end.base && me !in Next(end, Abort(me)).locks.Values
  {
    var start := Next(w, Begin(me));
    BeginSees(w, me);
    PrivateCopy(start, me, Copy(w.base, []), steps, keyOf);
    RunKeepsOk(start, steps, keyOf);
    var end := Run(start, steps, keyOf);
    assert TxnOk(end.locks, me, end.live[me]);
    forall after | Installs(after, end.base, end.live[me].buffer, keyOf)
      ensures after == View(end.base, end.live[me].buffer) <==> Keyed(View(end.base, end.live[me].buffer), keyOf)
    {
      InstallsViewIff(after, end.base, end.live[me].buffer, keyOf);
    }
  }

  /** Transaction 1 has locked row 2, transaction 2 has updated row 1 to have key 2. */
  function Crossing(): World {
    var one, two := Cell("t", Int(1)), Cell("t", Int(2));
    var base := map[one := [Int(1)], two := [Int(2)]];
    World(base, map[two := 1, one := 2],
          map[1 := Txn(base, Buffer(map[two := [Int(2), Int(9)]], {}), []),
              2 := Txn(base, Buffer(map[one := [Int(2), Int(7)]], {}), [])])
  }

  lemma CrossingOk()
    ensures Ok(Crossing())
  {
    var w := Crossing();
    assert TxnOk(w.locks, 1, w.live[1]) && TxnOk(w.locks, 2, w.live[2]);
  }

  lemma CrossingInstalls(keyOf: KeyOf)
    requires keyOf("t", [Int(2), Int(7)]) == Int(2)
    ensures var one, two, w := Cell("t", Int(1)), Cell("t", Int(2)), Crossing();
      Installs(map[one := [Int(1)], two := [Int(2), Int(7)]], w.base, w.live[2].buffer, keyOf)
  {
    var one, two, w := Cell("t", Int(1)), Cell("t", Int(2)), Crossing();
    var after, b := map[one := [Int(1)], two := [Int(2), Int(7)]], w.live[2].buffer;
    assert Home(keyOf)(one, b.upserts[one]) == two;
    forall c ensures InstalledAt(Lookup(after, c), Lookup(w.base, c), b, Home(keyOf), c) {
      assert Targeted(b, Home(keyOf), c) <==> c == two;
    }
  }

  /** Its COMMIT then overwrites the locked row, and transaction 1 does not see on row 1 what was buffered there. */
  lemma MovedKeyCrossesLock(keyOf: KeyOf)
    requires keyOf("t", [Int(2), Int(7)]) == Int(2)
    ensures var one, two := Cell("t", Int(1)), Cell("t", Int(2));
      var w := Crossing(); var step := Commit(2, map[one := [Int(1)], two := [Int(2), Int(7)]]);
      && Ok(w) && Enabled(w, step) && Faithful(w, step, keyOf)
      && w.locks[two] == 1 && Next(w, step).base[two] != w.base[two]
      && !Sees(Next(w, step), 1, CopyNext(Copy(View(w.base, w.live[1].buffer), []), 1, w, step))
  {
    var one, two, w := Cell("t", Int(1)), Cell("t", Int(2)), Crossing();
    var after := map[one := [Int(1)], two := [Int(2), Int(7)]];
    var b := w.live[2].buffer;
    CrossingOk();
    CrossingInstalls(keyOf);
    assert Land(Copy(View(w.base, w.live[1].buffer), []), b).rows[one] == [Int(2), Int(7)];
    assert View(after, w.live[1].buffer)[one] == [Int(1)];
  }

  // ---- REPEATABLE READ: SELECT shows the rows of BEGIN under the buffer ----

  ghost predicate SeesSnapshot(w: World, me: nat, c: Copy) {
    me in w.live && Shows(w.live[me].snap, w.live[me], c)
  }

  /** Only the transaction's own steps take effect. */
  ghost function OwnRun(c: Copy, me: nat, w: World, steps: seq<Step>, keyOf: KeyOf): Copy
    requires Legal(w, steps, keyOf)
    decreases |steps|
  {
    if steps == [] then c else
    OwnRun(if steps[0].id == me then CopyNext(c, me, w, steps[0]) else c, me, Next(w, steps[0]), steps[1..], keyOf)
  }

  /** No row of BEGIN that the transaction deletes has been deleted by another meanwhile. */
  ghost predicate AllRemove(w: World, me: nat, steps: seq<Step>, keyOf: KeyOf)
    requires Legal(w, steps, keyOf)
    decreases |steps|
  {
    steps == [] ||
    ((steps[0].id == me && me in w.live ==> Removes(w.live[me].snap, w, steps[0])) &&
     AllRemove(Next(w, steps[0]), me, steps[1..], keyOf))
  }

  /** Over every interleaving with that condition nothing that others do is seen, moved keys or not. */
  lemma {:induction false} RepeatableCopy(w: World, me: nat, c: Copy, steps: seq<Step>, keyOf: KeyOf)
    requires Ok(w) && Legal(w, steps, keyOf) && SeesSnapshot(w, me, c) && Ongoing(me, steps) && AllRemove(w, me, steps, keyOf)
    ensures SeesSnapshot(Run(w, steps, keyOf), me, OwnRun(c, me, w, steps, keyOf))
    decreases |steps|
  {
    if steps != [] {
      var step := steps[0];
      assert me in Next(w, step).live;
      StepKeepsOk(w, step);
      if step.id == me { OwnStepOnCopy(w.live[me].snap, w, me, c, step); }
      RepeatableCopy(Next(w, step), me, if step.id == me then CopyNext(c, me, w, step) else c, steps[1..], keyOf);
    }
  }

  /** Whatever happens until it ends, the transaction sees only its own statements take effect. */
  ghost predicate AlwaysRepeats(w: World, me: nat, c: Copy, keyOf: KeyOf) {
    forall steps | Legal(w, steps, keyOf) && Ongoing(me, steps) ::
      SeesSnapshot(Run(w, steps, keyOf), me, OwnRun(c, me, w, steps, keyOf))
  }

  /** Every row of BEGIN is still committed, and the transaction has locked it. */
  ghost predicate AllLocked(w: World, me: nat) {
    me in w.live && forall c | c in w.live[me].snap :: c in w.base && Own(w.locks, me, c)
  }

  lemma StepKeepsLocked(w: World, me: nat, step: Step, keyOf: KeyOf)
    requires Ok(w) && Enabled(w, step) && Faithful(w, step, keyOf) && AllLocked(w, me) && me in Next(w, step).live
    ensures AllLocked(Next(w, step), me) && Next(w, step).live[me].snap == w.live[me].snap
  {
    var w' := Next(w, step);
    assert w'.live[me].snap == w.live[me].snap;
    forall c | c in w.live[me].snap ensures c in w'.base && Own(w'.locks, me, c) {
      if step.Commit? {
        assert TxnOk(w.locks, step.id, w.live[step.id]);
        LockedRowStays(w.locks, me, step.id, w.live[step.id].buffer, w.base, step.after, c, keyOf);
      }
    }
  }

  /** A commit may overwrite a row that another transaction has locked, but not delete it. */
  lemma LockedRowStays(locks: map<Cell, nat>, me: nat, other: nat, b: Buffer<Cell>, base: Tables, after: Tables, c: Cell,
                       keyOf: KeyOf)
    requires Holds(locks, other, b) && other != me && Own(locks, me, c) && c in base && Installs(after, base, b, keyOf)
    ensures c in after
  {
    assert InstalledAt(Lookup(after, c), Lookup(base, c), b, Home(keyOf), c);
  }

  lemma {:induction false} LockedRemoves(w: World, me: nat, steps: seq<Step>, keyOf: KeyOf)
    requires Ok(w) && Legal(w, steps, keyOf) && Ongoing(me, steps) && AllLocked(w, me)
    ensures AllRemove(w, me, steps, keyOf)
    decreases |steps|
  {
    if steps != [] {
      assert me in Next(w, steps[0]).live;
      StepKeepsOk(w, steps[0]);
      StepKeepsLocked(w, me, steps[0], keyOf);
      LockedRemoves(Next(w, steps[0]), me, steps[1..], keyOf);
    }
  }

  /** Helper: one step before a run. */
  lemma StepFirst(w: World, me: nat, c: Copy, step: Step, rest: seq<Step>, keyOf: KeyOf)
    requires Enabled(w, step) && Faithful(w, step, keyOf) && Legal(Next(w, step), rest, keyOf) && Ongoing(me, rest)
    requires step.id == me ==> !step.Commit? && !step.Abort?
    ensures Legal(w, [step] + rest, keyOf) && Ongoing(me, [step] + rest)
    ensures Run(w, [step] + rest, keyOf) == Run(Next(w, step), rest, keyOf)
    ensures OwnRun(c, me, w, [step] + rest, keyOf) ==
      OwnRun(if step.id == me then CopyNext(c, me, w, step) else c, me, Next(w, step), rest, keyOf)
  {
    assert ([step] + rest)[0] == step && ([step] + rest)[1..] == rest;
  }

  lemma RepeatsAfter(w: World, me: nat, c: Copy, step: Step, keyOf: KeyOf)
    requires AlwaysRepeats(w, me, c, keyOf) && Enabled(w, step) && Faithful(w, step, keyOf)
    requires step.id == me ==> !step.Commit? && !step.Abort?
    ensures AlwaysRepeats(Next(w, step), me, if step.id == me then CopyNext(c, me, w, step) else c, keyOf)
  {
    var c' := if step.id == me then CopyNext(c, me, w, step) else c;
    forall rest | Legal(Next(w, step), rest, keyOf) && Ongoing(me, rest)
      ensures SeesSnapshot(Run(Next(w, step), rest, keyOf), me, OwnRun(c', me, Next(w, step), rest, keyOf))
    {
      StepFirst(w, me, c, step, rest, keyOf);
    }
  }

  /** Helper: at the moment it holds. */
  lemma RepeatsNow(w: World, me: nat, c: Copy, keyOf: KeyOf)
    requires AlwaysRepeats(w, me, c, keyOf)
    ensures SeesSnapshot(w, me, c)
  {
    assert Legal(w, [], keyOf) && Ongoing(me, []) && Run(w, [], keyOf) == w && OwnRun(c, me, w, [], keyOf) == c;
  }

  /** A row of BEGIN that is gone and free: inserting and deleting its key brings it back. */
  lemma GoneRowReturns(w: World, me: nat, c: Copy, cell: Cell, keyOf: KeyOf)
    requires Ok(w) && me in w.live && cell in w.live[me].snap && cell !in w.base && Grants(w.locks, cell, me)
    ensures !AlwaysRepeats(w, me, c, keyOf)
  {
    if AlwaysRepeats(w, me, c, keyOf) {
      var put := Put(me, cell, [cell.pk]);
      RepeatsAfter(w, me, c, put, keyOf);
      var w1, c1 := Next(w, put), CopyNext(c, me, w, put);
      var remove := Remove(me, cell);
      RepeatsAfter(w1, me, c1, remove, keyOf);
      var w2 := Next(w1, remove);
      RepeatsNow(w2, me, CopyNext(c1, me, w1, remove), keyOf);
    }
  }

  lemma FreshId(used: set<nat>) returns (id: nat)
    ensures id !in used
  {
    id := 0;
    var left := used;
    while left != {}
      invariant forall x | x in used :: x in left || x < id
      decreases left
    {
      var x :| x in left;
      left := left - {x};
      if x >= id { id := x + 1; }
    }
  }

  /** A row of BEGIN that is still there and not locked: another transaction can delete it. */
  lemma FreeRowGoes(w: World, me: nat, c: Copy, cell: Cell, keyOf: KeyOf)
    requires Ok(w) && me in w.live && cell in w.live[me].snap && cell in w.base && cell !in w.locks
    ensures !AlwaysRepeats(w, me, c, keyOf)
  {
    if AlwaysRepeats(w, me, c, keyOf) {
      var other := FreshId(w.live.Keys);
      var w1 := Next(w, Begin(other));
      RepeatsAfter(w, me, c, Begin(other), keyOf);
      StepKeepsOk(w, Begin(other));
      var w2 := Next(w1, Remove(other, cell));
      RepeatsAfter(w1, me, c, Remove(other, cell), keyOf);
      StepKeepsOk(w1, Remove(other, cell));
      var commit := Commit(other, w.base - {cell});
      DeletionInstalls(w2.base, cell, keyOf);
      assert w2.live[other].buffer == Buffer(map[], {cell});
      RepeatsAfter(w2, me, c, commit, keyOf);
      StepKeepsOk(w2, commit);
      GoneRowReturns(Next(w2, commit), me, c, cell, keyOf);
    }
  }

  lemma DeletionInstalls(base: Tables, cell: Cell, keyOf: KeyOf)
    ensures Installs(base - {cell}, base, Buffer(map[], {cell}), keyOf)
  {
  }

  /** Helper: a lock of another transaction is released when that aborts. */
  lemma LockGoes(w: World, me: nat, c: Copy, cell: Cell, keyOf: KeyOf) returns (w': World)
    requires Ok(w) && me in w.live && AlwaysRepeats(w, me, c, keyOf) && !Own(w.locks, me, cell)
    ensures Ok(w') && AlwaysRepeats(w', me, c, keyOf) && cell !in w'.locks
    ensures me in w'.live && w'.live[me].snap == w.live[me].snap && w'.base == w.base
  {
    if cell in w.locks {
      var abort := Abort(w.locks[cell]);
      RepeatsAfter(w, me, c, abort, keyOf);
      StepKeepsOk(w, abort);
      w' := Next(w, abort);
    } else {
      w' := w;
    }
  }

  /**
   * At REPEATABLE READ nothing that others do is ever seen, whatever happens, if and only if the transaction has locked
   * every row of BEGIN and all of them are still committed.
   */
  lemma RepeatableCopyIff(w: World, me: nat, c: Copy, keyOf: KeyOf)
    requires Ok(w) && SeesSnapshot(w, me, c)
    ensures AlwaysRepeats(w, me, c, keyOf) <==> AllLocked(w, me)
  {
    if AllLocked(w, me) {
      forall steps | Legal(w, steps, keyOf) && Ongoing(me, steps)
        ensures SeesSnapshot(Run(w, steps, keyOf), me, OwnRun(c, me, w, steps, keyOf))
      {
        LockedRemoves(w, me, steps, keyOf);
        RepeatableCopy(w, me, c, steps, keyOf);
      }
    } else if AlwaysRepeats(w, me, c, keyOf) {
      var cell :| cell in w.live[me].snap && !(cell in w.base && Own(w.locks, me, cell));
      if cell !in w.base && Own(w.locks, me, cell) {
        GoneRowReturns(w, me, c, cell, keyOf);
      } else {
        var w' := LockGoes(w, me, c, cell, keyOf);
        if cell in w'.base { FreeRowGoes(w', me, c, cell, keyOf); } else { GoneRowReturns(w', me, c, cell, keyOf); }
      }
    }
  }

  /** Another transaction has deleted row 1 since BEGIN. The transaction inserts key 1 and deletes it again. */
  function Deleted(): World {
    var one := Cell("t", Int(1));
    World(map[], map[], map[1 := Txn(map[one := [Int(1)]], EmptyBuffer(), [])])
  }

  lemma DeletedRowReturns()
    ensures var w, one := Deleted(), Cell("t", Int(1)); var w1 := Next(w, Put(1, one, [Int(1), Int(5)]));
      && Ok(w) && Enabled(w, Put(1, one, [Int(1), Int(5)])) && Enabled(w1, Remove(1, one))
      && var t := Next(w1, Remove(1, one)).live[1]; View(t.snap, t.buffer) == map[one := [Int(1)]]
  {
    var w, one := Deleted(), Cell("t", Int(1));
    var w1 := Next(w, Put(1, one, [Int(1), Int(5)]));
    assert w1.live[1].buffer == Buffer(map[one := [Int(1), Int(5)]], {});
    assert Next(w1, Remove(1, one)).live[1].buffer == EmptyBuffer();
  }

  /**
   * COMMIT of such a transaction installs what it sees if and only if the rows it sees stand under their own keys and
   * no other commit has changed a row outside its buffer.
   */
  lemma RepeatableCommitIff(snap: Tables, base: Tables, b: Buffer<Cell>, after: Tables, keyOf: KeyOf)
    requires Disjoint(b) && Keyed(base, keyOf) && Installs(after, base, b, keyOf)
    ensures after == View(snap, b) <==> Keyed(View(snap, b), keyOf) && AgreeOutside(snap, base, b)
  {
    InstalledIsKeyed(after, base, b, keyOf);
    SameViewIff(snap, base, b);
    if Keyed(View(snap, b), keyOf) {
      forall c | c in b.upserts ensures keyOf(c.table, b.upserts[c]) == c.pk { assert View(snap, b)[c] == b.upserts[c]; }
      InstallsView(after, base, b, keyOf);
    }
  }

  // ---- Savepoints over runs ----

  /** Rows on which only the commits of other transactions land. */
  ghost function LandAll(rows: Tables, me: nat, w: World, steps: seq<Step>, keyOf: KeyOf): Tables
    requires Legal(w, steps, keyOf)
    decreases |steps|
  {
    if steps == [] then rows else
    var step := steps[0];
    LandAll(if step.id != me && step.Commit? then View(rows, w.live[step.id].buffer) else rows,
            me, Next(w, step), steps[1..], keyOf)
  }

  /** Own work under a savepoint: rows, other savepoints, and going back to it any number of times. */
  predicate Under(name: string, me: nat, step: Step) {
    step.id == me ==>
      step.Put? || step.Remove? || (step.Save? && step.name != name) || (step.RollbackTo? && step.name == name)
  }

  ghost predicate SavedAs(c: Copy, k: nat, name: string, rows: Tables) {
    k < |c.saved| && c.saved[k] == Named(name, rows) && forall i | k < i < |c.saved| :: c.saved[i].name != name
  }

  lemma SavedIsFound(c: Copy, k: nat, name: string, rows: Tables)
    requires SavedAs(c, k, name, rows)
    ensures LastNamed(CopyNames(c.saved), name) == Some(k)
  {
    var names := CopyNames(c.saved);
    LastNamedIsLast(names, name);
    assert names[k] == name;
    var f := LastNamed(names, name).value;
    forall i | f < i < |names| ensures names[i] != name { assert names[f + 1..][i - f - 1] == names[i]; }
  }

  lemma StepKeepsSaved(c: Copy, me: nat, w: World, step: Step, k: nat, name: string, rows: Tables)
    requires Enabled(w, step) && Under(name, me, step) && SavedAs(c, k, name, rows)
    ensures SavedAs(CopyNext(c, me, w, step), k, name,
                    if step.id != me && step.Commit? then View(rows, w.live[step.id].buffer) else rows)
  {
    SavedIsFound(c, k, name, rows);
  }

  lemma {:induction false} RunKeepsSaved(c: Copy, me: nat, w: World, steps: seq<Step>, k: nat, name: string, rows: Tables,
                                               keyOf: KeyOf)
    requires Legal(w, steps, keyOf) && SavedAs(c, k, name, rows) && forall i | 0 <= i < |steps| :: Under(name, me, steps[i])
    ensures SavedAs(CopyRun(c, me, w, steps, keyOf), k, name, LandAll(rows, me, w, steps, keyOf))
    decreases |steps|
  {
    if steps != [] {
      var step := steps[0];
      assert Under(name, me, step);
      StepKeepsSaved(c, me, w, step, k, name, rows);
      RunKeepsSaved(CopyNext(c, me, w, step), me, Next(w, step), steps[1..], k, name,
                    if step.id != me && step.Commit? then View(rows, w.live[step.id].buffer) else rows, keyOf);
    }
  }

  /** SAVEPOINT records what the transaction sees. */
  lemma SaveSaves(w: World, me: nat, c: Copy, name: string)
    requires Ok(w) && Sees(w, me, c)
    ensures var saved := Next(w, Save(me, name)); var c' := CopyNext(c, me, w, Save(me, name));
      Sees(saved, me, c') && c'.rows == c.rows && SavedAs(c', |c.saved|, name, c.rows)
  {
    OwnStepOnCopy(w.base, w, me, c, Save(me, name));
  }

  /** RELEASE shows the same rows and forgets the savepoint and the younger ones; the older ones stay. */
  lemma ReleaseForgets(w: World, me: nat, c: Copy, k: nat, name: string, rows: Tables)
    requires Ok(w) && Sees(w, me, c) && SavedAs(c, k, name, rows)
    ensures Enabled(w, Release(me, name))
    ensures var after := Next(w, Release(me, name)); Sees(after, me, Copy(c.rows, c.saved[..k]))
    ensures name !in CopyNames(c.saved[..k]) ==> !Enabled(Next(w, Release(me, name)), RollbackTo(me, name))
  {
    assert CopyNames(c.saved) == NamesOf(w.live[me].saved);
    SavedIsFound(c, k, name, rows);
    OwnStepOnCopy(w.base, w, me, c, Release(me, name));
    var left := Next(w, Release(me, name)).live[me].saved;
    assert NamesOf(left) == CopyNames(c.saved[..k]);
    LastNamedIsLast(NamesOf(left), name);
  }

  lemma BackTo(w: World, me: nat, c: Copy, k: nat, name: string, rows: Tables)
    requires Ok(w) && Sees(w, me, c) && SavedAs(c, k, name, rows)
    ensures Enabled(w, RollbackTo(me, name))
    ensures var back := Next(w, RollbackTo(me, name));
      me in back.live && View(back.base, back.live[me].buffer) == rows
  {
    assert CopyNames(c.saved) == NamesOf(w.live[me].saved);
    SavedIsFound(c, k, name, rows);
    OwnStepOnCopy(w.base, w, me, c, RollbackTo(me, name));
  }

  /** Any work under a savepoint, then ROLLBACK TO: the transaction sees what it saved, plus what others committed. */
  lemma RollbackRestores(w: World, me: nat, c: Copy, steps: seq<Step>, k: nat, name: string, rows: Tables, keyOf: KeyOf)
    requires Ok(w) && Sees(w, me, c) && SavedAs(c, k, name, rows) && Legal(w, steps, keyOf)
    requires OthersKept(w, me, keyOf) && OthersKeep(me, steps, keyOf)
    requires forall i | 0 <= i < |steps| :: Under(name, me, steps[i])
    ensures var end := Run(w, steps, keyOf);
      && Enabled(end, RollbackTo(me, name))
      && var back := Next(end, RollbackTo(me, name));
         me in back.live && View(back.base, back.live[me].buffer) == LandAll(rows, me, w, steps, keyOf)
  {
    forall i | 0 <= i < |steps| ensures !(steps[i].id == me && (steps[i].Commit? || steps[i].Abort?)) {
      assert Under(name, me, steps[i]);
    }
    PrivateCopy(w, me, c, steps, keyOf);
    RunKeepsSaved(c, me, w, steps, k, name, rows, keyOf);
    RunKeepsOk(w, steps, keyOf);
    BackTo(Run(w, steps, keyOf), me, CopyRun(c, me, w, steps, keyOf), k, name, LandAll(rows, me, w, steps, keyOf));
  }

  lemma {:induction false} OwnRunKeepsSaved(c: Copy, me: nat, w: World, steps: seq<Step>, k: nat, name: string,
                                            rows: Tables, keyOf: KeyOf)
    requires Legal(w, steps, keyOf) && SavedAs(c, k, name, rows) && forall i | 0 <= i < |steps| :: Under(name, me, steps[i])
    ensures SavedAs(OwnRun(c, me, w, steps, keyOf), k, name, rows)
    decreases |steps|
  {
    if steps != [] {
      var step := steps[0];
      assert Under(name, me, step);
      if step.id == me { StepKeepsSaved(c, me, w, step, k, name, rows); }
      OwnRunKeepsSaved(if step.id == me then CopyNext(c, me, w, step) else c, me, Next(w, step), steps[1..], k, name, rows, keyOf);
    }
  }

  /** At REPEATABLE READ the transaction sees exactly what it saved. */
  lemma RepeatableRollbackRestores(w: World, me: nat, c: Copy, steps: seq<Step>, k: nat, name: string, rows: Tables,
                                   keyOf: KeyOf)
    requires Ok(w) && SeesSnapshot(w, me, c) && SavedAs(c, k, name, rows) && Legal(w, steps, keyOf)
    requires AllRemove(w, me, steps, keyOf) && forall i | 0 <= i < |steps| :: Under(name, me, steps[i])
    ensures var end := Run(w, steps, keyOf);
      && Enabled(end, RollbackTo(me, name))
      && var back := Next(end, RollbackTo(me, name));
         me in back.live && View(back.live[me].snap, back.live[me].buffer) == rows
  {
    forall i | 0 <= i < |steps| ensures !(steps[i].id == me && (steps[i].Commit? || steps[i].Abort?)) {
      assert Under(name, me, steps[i]);
    }
    RepeatableCopy(w, me, c, steps, keyOf);
    OwnRunKeepsSaved(c, me, w, steps, k, name, rows, keyOf);
    RunKeepsOk(w, steps, keyOf);
    var end, c' := Run(w, steps, keyOf), OwnRun(c, me, w, steps, keyOf);
    assert CopyNames(c'.saved) == NamesOf(end.live[me].saved);
    SavedIsFound(c', k, name, rows);
    OwnStepOnCopy(end.live[me].snap, end, me, c', RollbackTo(me, name));
  }
}
