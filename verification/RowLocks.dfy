/** Row-level write locks: two indexes over one relation between rows and transactions. */
module RowLocks {
  import opened Values

  /** One row of one table. */
  datatype Cell = Cell(table: string, pk: Value)

  type ByRow = map<string, map<Value, nat>>

  function Owner(byRow: ByRow, c: Cell): Option<nat> {
    if c.table in byRow && c.pk in byRow[c.table] then Some(byRow[c.table][c.pk]) else None
  }

  function HolderIn(locks: map<Cell, nat>, c: Cell): Option<nat> {
    if c in locks then Some(locks[c]) else None
  }

  // ---- The abstract lock table ----

  /** A lock is granted when the row is free or already held by the asker. */
  predicate Grants(locks: map<Cell, nat>, c: Cell, txn: nat) {
    c !in locks || locks[c] == txn
  }

  function Released(locks: map<Cell, nat>, txn: nat): map<Cell, nat> {
    map c | c in locks && locks[c] != txn :: locks[c]
  }

  // ---- The two tables ----

  function Grant(byRow: ByRow, c: Cell, txn: nat): ByRow {
    byRow[c.table := (if c.table in byRow then byRow[c.table] else map[])[c.pk := txn]]
  }

  /** One step of a release: the row is freed if the transaction holds it; a table without locks is dropped. */
  function Free(byRow: ByRow, c: Cell, txn: nat): ByRow {
    if c.table !in byRow then byRow else
    var rows := byRow[c.table];
    var left := if c.pk in rows && rows[c.pk] == txn then rows - {c.pk} else rows;
    if left == map[] then byRow - {c.table} else byRow[c.table := left]
  }

  /** No table is kept that has no locked row. */
  predicate Tidy(byRow: ByRow) {
    forall t | t in byRow :: byRow[t] != map[]
  }

  /** The table by rows says who holds which row. */
  ghost predicate RowsAgree(byRow: ByRow, locks: map<Cell, nat>) {
    Tidy(byRow) && forall c :: Owner(byRow, c) == HolderIn(locks, c)
  }

  /** So does the table by transactions. */
  ghost predicate TxnsAgree(byTxn: map<nat, seq<Cell>>, locks: map<Cell, nat>) {
    && (forall c | c in locks :: locks[c] in byTxn && c in byTxn[locks[c]])
    && (forall txn, c | txn in byTxn && c in byTxn[txn] :: c in locks && locks[c] == txn)
  }

  lemma GrantKeepsRows(byRow: ByRow, locks: map<Cell, nat>, c: Cell, txn: nat)
    requires RowsAgree(byRow, locks)
    ensures RowsAgree(Grant(byRow, c, txn), locks[c := txn])
  {
    GrantAndFreeTidy(byRow, c, txn);
    forall d ensures Owner(Grant(byRow, c, txn), d) == HolderIn(locks[c := txn], d) {
      GrantSets(byRow, c, txn, d);
    }
  }

  lemma GrantAndFreeTidy(byRow: ByRow, c: Cell, txn: nat)
    requires Tidy(byRow)
    ensures Tidy(Grant(byRow, c, txn)) && Tidy(Free(byRow, c, txn))
  {
    assert c.pk in Grant(byRow, c, txn)[c.table];
  }

  lemma GrantSets(byRow: ByRow, c: Cell, txn: nat, d: Cell)
    ensures Owner(Grant(byRow, c, txn), d) == if d == c then Some(txn) else Owner(byRow, d)
  {
  }

  lemma FreeClears(byRow: ByRow, c: Cell, txn: nat, d: Cell)
    ensures Owner(Free(byRow, c, txn), d) == if d == c && Owner(byRow, c) == Some(txn) then None else Owner(byRow, d)
  {
    if c.table in byRow && d.table == c.table {
      var rows := byRow[c.table];
      var left := if c.pk in rows && rows[c.pk] == txn then rows - {c.pk} else rows;
      assert d.pk in left <==> d.pk in rows && !(d.pk == c.pk && rows[c.pk] == txn);
    }
  }

  /** The loop of a release over the rows that a transaction holds. */
  method FreeRows(byRow: ByRow, held: seq<Cell>, txn: nat) returns (rows: ByRow)
    requires Tidy(byRow)
    ensures Tidy(rows)
    ensures forall c :: Owner(rows, c) == if c in held && Owner(byRow, c) == Some(txn) then None else Owner(byRow, c)
  {
    rows := byRow;
    for i := 0 to |held|
      invariant Tidy(rows)
      invariant forall c :: Owner(rows, c) == if c in held[..i] && Owner(byRow, c) == Some(txn) then None else Owner(byRow, c)
    {
      GrantAndFreeTidy(rows, held[i], txn);
      forall c ensures Owner(Free(rows, held[i], txn), c) ==
          if c in held[..i + 1] && Owner(byRow, c) == Some(txn) then None else Owner(byRow, c) {
        FreeClears(rows, held[i], txn, c);
        assert c in held[..i + 1] <==> c in held[..i] || c == held[i];
      }
      rows := Free(rows, held[i], txn);
    }
    assert held[..|held|] == held;
  }

  class RowLockManager {
    var byRow: ByRow
    var byTxn: map<nat, seq<Cell>>
    ghost var locks: map<Cell, nat>

    /** Both tables say who holds which row. */
    ghost predicate Valid()
      reads this
    {
      RowsAgree(byRow, locks) && TxnsAgree(byTxn, locks)
    }

    constructor ()
      ensures Valid() && locks == map[]
    {
      byRow, byTxn, locks := map[], map[], map[];
    }

    /** Reports the holder when another transaction has the row. */
    method TryAcquire(c: Cell, txn: nat) returns (holder: Option<nat>)
      requires Valid()
      modifies this
      ensures Valid()
      ensures holder.None? <==> Grants(old(locks), c, txn)
      ensures holder.Some? ==> c in old(locks) && holder.value == old(locks)[c] != txn && locks == old(locks)
      ensures holder.None? ==> locks == old(locks)[c := txn]
    {
      assert Owner(byRow, c) == HolderIn(locks, c);
      if c.table !in byRow || c.pk !in byRow[c.table] {
        GrantKeepsRows(byRow, locks, c, txn);
        byRow := Grant(byRow, c, txn);
        byTxn := byTxn[txn := (if txn in byTxn then byTxn[txn] else []) + [c]];
        locks := locks[c := txn];
        return None;
      }
      if byRow[c.table][c.pk] == txn {
        assert locks == locks[c := txn];
        return None;
      }
      return Some(byRow[c.table][c.pk]);
    }

    /** Frees what the transaction holds and nothing else. */
    method ReleaseAll(txn: nat)
      requires Valid()
      modifies this
      ensures Valid() && locks == Released(old(locks), txn)
    {
      if txn !in byTxn {
        assert Released(locks, txn) == locks;
        return;
      }
      var rows := FreeRows(byRow, byTxn[txn], txn);
      forall c ensures Owner(rows, c) == HolderIn(Released(locks, txn), c) {
        assert Owner(byRow, c) == HolderIn(locks, c);
      }
      byRow, byTxn, locks := rows, byTxn - {txn}, Released(locks, txn);
    }
  }
}
