/** Timestamps, the garbage-collection horizon, and what a long transaction keeps seeing. */
module Snapshots {
  import opened Values
  import opened Versions
  import opened Compaction
  import opened Store

  // ---- The transaction manager ----

  const MAX_TS: nat := 0xFFFF_FFFF_FFFF_FFFF

  datatype TxnState = Active | Failed | Committed

  datatype Txn = Txn(readTs: nat, commitTs: nat, state: TxnState)

  /** The oldest snapshot still in use; with none in use, the next timestamp. `live` maps a transaction to its snapshot. */
  ghost predicate IsHorizon(h: nat, live: map<nat, nat>, next: nat) {
    && (live == map[] ==> h == next)
    && (live != map[] ==> h in live.Values)
    && (forall id | id in live :: h <= live[id])
  }

  function SnapshotsOf(live: map<nat, Txn>): map<nat, nat> {
    map id | id in live :: live[id].readTs
  }

  class TransactionManager {
    var nextTxnId: nat
    var nextTs: nat
    var live: map<nat, Txn>
    var committed: map<nat, Txn>

    ghost predicate Valid() reads this {
      && nextTs <= MAX_TS
      && (forall id | id in live :: id < nextTxnId && live[id].readTs < nextTs && live[id].state != Committed)
      && (forall id | id in committed :: id < nextTxnId && committed[id].commitTs < nextTs && id !in live)
    }

    /** The manager's part of a system state. */
    ghost predicate Mirrors(s: System) reads this {
      s.next == nextTs && s.nextId == nextTxnId && s.live == SnapshotsOf(live)
    }

    constructor ()
      ensures Valid() && live == map[] && committed == map[] && nextTs == 1
    {
      nextTxnId, nextTs, live, committed := 1, 1, map[], map[];
    }

    method Begin() returns (id: nat)
      requires Valid() && nextTs < MAX_TS
      modifies this
      ensures Valid() && id == old(nextTxnId) && id !in old(live)
      ensures live == old(live)[id := Txn(old(nextTs), 0, Active)]
      ensures nextTs == old(nextTs) + 1 && nextTxnId == id + 1 && committed == old(committed)
      ensures forall s | old(Mirrors(s)) :: Mirrors(Next(s, Step.Begin))
    {
      id := nextTxnId;
      nextTxnId := nextTxnId + 1;
      live := live[id := Txn(nextTs, 0, Active)];
      nextTs := nextTs + 1;
    }

    /** Fails for an unknown or failed transaction; otherwise hands out a fresh commit timestamp. */
    method Commit(id: nat) returns (r: Option<nat>)
      requires Valid() && nextTs < MAX_TS
      modifies this
      ensures Valid() && nextTxnId == old(nextTxnId)
      ensures r.Some? <==> id in old(live) && old(live)[id].state == Active
      ensures r.None? ==> live == old(live) && committed == old(committed) && nextTs == old(nextTs)
      ensures r.Some? ==> r.value == old(nextTs) && nextTs == old(nextTs) + 1 && live == old(live) - {id}
      ensures r.Some? ==> committed == old(committed)[id := old(live)[id].(commitTs := r.value, state := Committed)]
      ensures r.Some? ==> forall t | t in old(live) :: old(live)[t].readTs < r.value
      ensures r.Some? ==> forall s | old(Mirrors(s)) :: Mirrors(Next(s, TakeCommitTs(id))) && r.value in Next(s, TakeCommitTs(id)).taken
    {
      if id !in live || live[id].state != Active { return None; }
      var ts := nextTs;
      nextTs := nextTs + 1;
      committed := committed[id := live[id].(commitTs := ts, state := Committed)];
      live := live - {id};
      return Some(ts);
    }

    method Rollback(id: nat) returns (ok: bool)
      requires Valid()
      modifies this
      ensures Valid() && (ok <==> id in old(live)) && live == old(live) - {id}
      ensures forall s | old(Mirrors(s)) :: Mirrors(Next(s, Step.Rollback(id)))
      ensures nextTs == old(nextTs) && nextTxnId == old(nextTxnId) && committed == old(committed)
    {
      if id !in live { return false; }
      if live[id].state != Active && live[id].state != Failed { return false; }
      live := live - {id};
      return true;
    }

    /** A failed transaction can only be rolled back, but still holds the horizon down. */
    method MarkFailed(id: nat)
      requires Valid()
      modifies this
      ensures Valid() && live.Keys == old(live).Keys
      ensures forall t | t in live :: live[t] == if t == id then old(live)[t].(state := Failed) else old(live)[t]
      ensures nextTs == old(nextTs) && nextTxnId == old(nextTxnId) && committed == old(committed)
    {
      if id in live && live[id].state == Active {
        live := live[id := live[id].(state := Failed)];
      }
    }

    method AllocateTs() returns (ts: nat)
      requires Valid() && nextTs < MAX_TS
      modifies this
      ensures Valid() && ts == old(nextTs) && nextTs == ts + 1
      ensures live == old(live) && committed == old(committed) && nextTxnId == old(nextTxnId)
    {
      ts := nextTs;
      nextTs := nextTs + 1;
    }

    /** `prepare_for_statement` outside a transaction: a snapshot to read at and a timestamp to write with. */
    method PrepareAutoCommit() returns (snap: nat, ts: nat)
      requires Valid() && nextTs + 1 < MAX_TS
      modifies this
      ensures Valid() && snap == old(nextTs) && ts == snap + 1 && live == old(live) && committed == old(committed)
      ensures forall s | old(Mirrors(s)) :: Mirrors(Next(s, TakeAutoTs)) && ts in Next(s, TakeAutoTs).taken
    {
      snap := AllocateTs();
      ts := AllocateTs();
    }

    /** `min_active_read_ts`: the loop over the live transactions. */
    method MinActiveReadTs() returns (h: nat)
      requires Valid()
      ensures IsHorizon(h, SnapshotsOf(live), nextTs)
    {
      var minTs, found := MAX_TS, false;
      var todo := live.Keys;
      while todo != {}
        invariant todo <= live.Keys
        invariant found <==> live.Keys - todo != {}
        invariant found ==> exists id :: id in live.Keys - todo && live[id].readTs == minTs
        invariant forall id | id in live.Keys - todo :: minTs <= live[id].readTs
        invariant !found ==> minTs == MAX_TS
        decreases todo
      {
        var id :| id in todo;
        if live[id].state == Active || live[id].state == Failed {
          if live[id].readTs < minTs {
            minTs, found := live[id].readTs, true;
          }
        }
        todo := todo - {id};
        assert id in live.Keys - todo;
      }
      ghost var snaps := SnapshotsOf(live);
      assert snaps.Keys == live.Keys;
      assert found ==> exists id :: id in snaps && snaps[id] == minTs;
      return if found then minTs else nextTs;
    }
  }

  // ---- The whole system, step by step ----

  datatype Change = Change(table: string, pk: Value, tombstone: bool, row: Row)

  datatype System = System(tables: map<string, Levels>, next: nat, nextId: nat, live: map<nat, nat>, taken: set<nat>)

  /**
   * A commit takes its timestamp and applies its changes in two steps; an auto-commit statement
   * does the same without a transaction. `live` maps a transaction to its snapshot.
   */
  datatype Step =
    | Begin
    | TakeCommitTs(id: nat)
    | TakeAutoTs
    | ApplyChanges(ts: nat, changes: seq<Change>)
    | Rollback(id: nat)
    | FlushTable(table: string)
    | CompactTable(table: string, horizon: nat)

  function VersionOf(c: Change, ts: nat): Version {
    Version(c.pk, ts, c.tombstone, c.row)
  }

  function Write(tables: map<string, Levels>, c: Change, ts: nat): map<string, Levels> {
    if c.table in tables then tables[c.table := Apply(tables[c.table], Op.Write(VersionOf(c, ts)))] else tables
  }

  function WriteAll(tables: map<string, Levels>, cs: seq<Change>, ts: nat): map<string, Levels>
    decreases cs
  {
    if cs == [] then tables else WriteAll(Write(tables, cs[0], ts), cs[1..], ts)
  }

  function Next(s: System, step: Step): System {
    match step
    case Begin => s.(live := s.live[s.nextId := s.next], nextId := s.nextId + 1, next := s.next + 1)
    case TakeCommitTs(id) => s.(live := s.live - {id}, taken := s.taken + {s.next}, next := s.next + 1)
    case TakeAutoTs => s.(taken := s.taken + {s.next + 1}, next := s.next + 2)
    case ApplyChanges(ts, cs) => s.(tables := WriteAll(s.tables, cs, ts), taken := s.taken - {ts})
    case Rollback(id) => s.(live := s.live - {id})
    case FlushTable(t) => if t in s.tables then s.(tables := s.tables[t := Apply(s.tables[t], Flush)]) else s
    case CompactTable(t, h) =>
      if t in s.tables then s.(tables := s.tables[t := Apply(s.tables[t], Compact(h))]) else s
  }

  /** The changes of one commit touch each row once, and no row that a younger commit already changed. */
  ghost predicate Fresh(tables: map<string, Levels>, cs: seq<Change>, ts: nat) {
    && (forall i, j | 0 <= i < j < |cs| :: cs[i].table != cs[j].table || cs[i].pk != cs[j].pk)
    && (forall c | c in cs && c.table in tables ::
          forall w | w in All(tables[c.table]) && w.pk == c.pk :: w.ts < ts)
  }

  /** Compaction uses the horizon of the moment; the rest is what the callers guarantee. */
  ghost predicate Enabled(s: System, step: Step) {
    match step
    case TakeCommitTs(id) => id in s.live
    case ApplyChanges(ts, cs) => ts in s.taken && Fresh(s.tables, cs, ts)
    case CompactTable(t, h) => IsHorizon(h, s.live, s.next)
    case _ => true
  }

  ghost predicate SystemOk(s: System) {
    && (forall t | t in s.tables :: Ok(s.tables[t]))
    && (forall id | id in s.live :: id < s.nextId && s.live[id] < s.next)
    && (forall ts | ts in s.taken :: ts < s.next)
  }

  function ReadAt(s: System, table: string, pk: Value, snap: nat): Option<Row> {
    if table in s.tables then Read(All(s.tables[table]), pk, snap) else None
  }

  // ---- One write ----

  /** A write disturbs a snapshot exactly when it is not younger than it and changes what it sees. */
  lemma WriteDisturbsIff(s: Levels, v: Version, pk: Value, snap: nat)
    requires Ok(s) && forall w | w in All(s) && w.pk == v.pk :: w.ts < v.ts
    ensures Ok(Apply(s, Op.Write(v)))
    ensures Read(All(Apply(s, Op.Write(v))), pk, snap) != Read(All(s), pk, snap)
      <==> v.pk == pk && v.ts <= snap && Payload(Some(v)) != Read(All(s), pk, snap)
  {
    var s' := Apply(s, Op.Write(v));
    OkAlone(s);
    WriteKeeps(s, All(s), 0, v);
    assert StandsFor(Newest(All(s'), pk, snap), Newest(All(s) + [v], pk, snap));
    NewestOfConcat(All(s), [v], pk, snap);
    NewestIsNewest(All(s), pk, snap);
  }

  /** A written row is what every snapshot from its timestamp on reads; a deleted row reads as nothing. */
  lemma WriteReads(s: Levels, v: Version, snap: nat)
    requires Ok(s) && (forall w | w in All(s) && w.pk == v.pk :: w.ts < v.ts) && snap >= v.ts
    ensures Read(All(Apply(s, Op.Write(v))), v.pk, snap) == if v.tombstone then None else Some(v.row)
  {
    var s' := Apply(s, Op.Write(v));
    OkAlone(s);
    WriteKeeps(s, All(s), 0, v);
    assert StandsFor(Newest(All(s'), v.pk, snap), Newest(All(s) + [v], v.pk, snap));
    NewestOfConcat(All(s), [v], v.pk, snap);
    NewestIsNewest(All(s), v.pk, snap);
  }

  /** Rows that are not among the changes read as before, at every snapshot. */
  lemma {:induction false} WriteAllElsewhere(tables: map<string, Levels>, cs: seq<Change>, ts: nat, table: string, pk: Value,
                                             snap: nat)
    requires (forall t | t in tables :: Ok(tables[t])) && Fresh(tables, cs, ts) && table in tables
    requires forall c | c in cs :: c.table != table || c.pk != pk
    ensures table in WriteAll(tables, cs, ts)
    ensures Read(All(WriteAll(tables, cs, ts)[table]), pk, snap) == Read(All(tables[table]), pk, snap)
    decreases cs
  {
    if cs != [] {
      var c := cs[0];
      if c.table in tables {
        WriteDisturbsIff(tables[c.table], VersionOf(c, ts), pk, snap);
        StillFresh(tables, cs, ts);
      }
      WriteAllElsewhere(Write(tables, c, ts), cs[1..], ts, table, pk, snap);
    }
  }

  lemma {:induction false} WriteAllReads(tables: map<string, Levels>, cs: seq<Change>, ts: nat, k: nat, snap: nat)
    requires (forall t | t in tables :: Ok(tables[t])) && Fresh(tables, cs, ts) && snap >= ts
    requires k < |cs| && cs[k].table in tables
    ensures cs[k].table in WriteAll(tables, cs, ts)
    ensures Read(All(WriteAll(tables, cs, ts)[cs[k].table]), cs[k].pk, snap) == if cs[k].tombstone then None else Some(cs[k].row)
    decreases cs
  {
    var c := cs[0];
    if c.table in tables {
      WriteDisturbsIff(tables[c.table], VersionOf(c, ts), c.pk, snap);
      StillFresh(tables, cs, ts);
    }
    if k > 0 {
      WriteAllReads(Write(tables, c, ts), cs[1..], ts, k - 1, snap);
    } else {
      WriteReads(tables[c.table], VersionOf(c, ts), snap);
      forall d | d in cs[1..] ensures d.table != c.table || d.pk != c.pk {
        var j :| 0 <= j < |cs[1..]| && cs[1..][j] == d;
        assert cs[j + 1] == d;
      }
      WriteAllElsewhere(Write(tables, c, ts), cs[1..], ts, c.table, c.pk, snap);
    }
  }

  /** A commit installs every one of its changes, for every snapshot from its timestamp on, and nothing else for anyone. */
  lemma CommitInstallsChanges(s: System, ts: nat, cs: seq<Change>, table: string, pk: Value, snap: nat)
    requires SystemOk(s) && Fresh(s.tables, cs, ts) && table in s.tables
    ensures var now := ReadAt(Next(s, ApplyChanges(ts, cs)), table, pk, snap);
      && (snap >= ts ==> forall c | c in cs && c.table == table && c.pk == pk :: now == if c.tombstone then None else Some(c.row))
      && ((forall c | c in cs :: c.table != table || c.pk != pk) || snap < ts ==> now == ReadAt(s, table, pk, snap))
  {
    if snap < ts {
      WriteAllAbove(s.tables, cs, ts, table, pk, snap);
    } else if c :| c in cs && c.table == table && c.pk == pk {
      WriteAllOk(s.tables, cs, ts);
      forall d | d in cs && d.table == table && d.pk == pk
        ensures Read(All(WriteAll(s.tables, cs, ts)[table]), pk, snap) == if d.tombstone then None else Some(d.row)
      {
        var k :| 0 <= k < |cs| && cs[k] == d;
        WriteAllReads(s.tables, cs, ts, k, snap);
      }
    } else {
      WriteAllElsewhere(s.tables, cs, ts, table, pk, snap);
    }
  }

  lemma {:induction false} WriteAllAbove(tables: map<string, Levels>, cs: seq<Change>, ts: nat, table: string, pk: Value, snap: nat)
    requires (forall t | t in tables :: Ok(tables[t])) && Fresh(tables, cs, ts) && ts > snap
    ensures WriteAll(tables, cs, ts).Keys == tables.Keys
    ensures forall t | t in tables :: Ok(WriteAll(tables, cs, ts)[t])
    ensures table in tables ==> Read(All(WriteAll(tables, cs, ts)[table]), pk, snap) == Read(All(tables[table]), pk, snap)
    decreases cs
  {
    if cs != [] {
      var c, v := cs[0], VersionOf(cs[0], ts);
      var after := Write(tables, c, ts);
      if c.table in tables {
        WriteDisturbsIff(tables[c.table], v, pk, snap);
        StillFresh(tables, cs, ts);
      }
      WriteAllAbove(after, cs[1..], ts, table, pk, snap);
    }
  }

  /** Helper: after the first change the others are still fresh. */
  lemma StillFresh(tables: map<string, Levels>, cs: seq<Change>, ts: nat)
    requires Fresh(tables, cs, ts) && cs != [] && cs[0].table in tables
    ensures Fresh(Write(tables, cs[0], ts), cs[1..], ts)
  {
    var v, s := VersionOf(cs[0], ts), tables[cs[0].table];
    var after := Write(tables, cs[0], ts);
    MergeElements([v], s.mem);
    forall c, w | c in cs[1..] && c.table in after && w in All(after[c.table]) && w.pk == c.pk ensures w.ts < ts {
      var j :| 0 <= j < |cs[1..]| && cs[1..][j] == c;
      assert cs[j + 1] == c;
    }
  }

  lemma {:induction false} WriteAllOk(tables: map<string, Levels>, cs: seq<Change>, ts: nat)
    requires (forall t | t in tables :: Ok(tables[t])) && Fresh(tables, cs, ts)
    ensures WriteAll(tables, cs, ts).Keys == tables.Keys
    ensures forall t | t in tables :: Ok(WriteAll(tables, cs, ts)[t])
    decreases cs
  {
    if cs != [] {
      if cs[0].table in tables {
        WriteDisturbsIff(tables[cs[0].table], VersionOf(cs[0], ts), cs[0].pk, 0);
        StillFresh(tables, cs, ts);
      }
      WriteAllOk(Write(tables, cs[0], ts), cs[1..], ts);
    }
  }

  // ---- Every step ----

  lemma StepKeepsOk(s: System, step: Step)
    requires SystemOk(s) && Enabled(s, step)
    ensures SystemOk(Next(s, step))
  {
    match step
    case ApplyChanges(ts, cs) => WriteAllOk(s.tables, cs, ts);
    case FlushTable(t) =>
      if t in s.tables { OkAlone(s.tables[t]); FlushKeeps(s.tables[t], All(s.tables[t]), 0); }
    case CompactTable(t, h) =>
      if t in s.tables { CompactOk(s.tables[t], h); }
    case _ =>
  }

  /** A step that applies no timestamp older than the snapshot leaves the snapshot's rows alone. */
  lemma StepKeepsSnapshot(s: System, step: Step, id: nat, table: string, pk: Value)
    requires SystemOk(s) && Enabled(s, step) && id in s.live
    requires step.ApplyChanges? ==> step.ts > s.live[id]
    ensures ReadAt(Next(s, step), table, pk, s.live[id]) == ReadAt(s, table, pk, s.live[id])
  {
    var snap := s.live[id];
    match step
    case ApplyChanges(ts, cs) => WriteAllAbove(s.tables, cs, ts, table, pk, snap);
    case FlushTable(t) =>
      if t in s.tables {
        OkAlone(s.tables[t]);
        FlushKeeps(s.tables[t], All(s.tables[t]), 0);
        RefinesReads(All(Apply(s.tables[t], Flush)), All(s.tables[t]), 0, pk, snap);
      }
    case CompactTable(t, h) =>
      if t in s.tables {
        CompactRefines(s.tables[t], h);
        RefinesReads(All(Apply(s.tables[t], Compact(h))), All(s.tables[t]), h, pk, snap);
      }
    case _ =>
  }

  // ---- Every run ----

  function Run(s: System, steps: seq<Step>): System
    decreases steps
  {
    if steps == [] then s else Run(Next(s, steps[0]), steps[1..])
  }

  ghost predicate Possible(s: System, steps: seq<Step>)
    decreases steps
  {
    steps == [] || (Enabled(s, steps[0]) && Possible(Next(s, steps[0]), steps[1..]))
  }

  /** A timestamp that is used up, or was never handed out, is not applied in a run. */
  lemma {:induction false} NeverApplied(s: System, steps: seq<Step>, ts: nat)
    requires SystemOk(s) && Possible(s, steps) && ts !in s.taken && ts < s.next
    ensures forall i | 0 <= i < |steps| :: steps[i].ApplyChanges? ==> steps[i].ts != ts
    decreases steps
  {
    if steps != [] {
      StepKeepsOk(s, steps[0]);
      NeverApplied(Next(s, steps[0]), steps[1..], ts);
      forall i | 0 <= i < |steps| ensures steps[i].ApplyChanges? ==> steps[i].ts != ts {
        if i > 0 { assert steps[i] == steps[1..][i - 1]; }
      }
    }
  }

  /** No two commits of a run are applied with the same timestamp, and none before its timestamp was handed out. */
  lemma {:induction false} AppliedOnce(s: System, steps: seq<Step>, i: nat, j: nat)
    requires SystemOk(s) && Possible(s, steps) && i < j < |steps| && steps[i].ApplyChanges? && steps[j].ApplyChanges?
    ensures steps[i].ts != steps[j].ts
    decreases steps
  {
    StepKeepsOk(s, steps[0]);
    if i == 0 {
      NeverApplied(Next(s, steps[0]), steps[1..], steps[0].ts);
      assert steps[j] == steps[1..][j - 1];
    } else {
      AppliedOnce(Next(s, steps[0]), steps[1..], i - 1, j - 1);
    }
  }

  /** A commit that has its timestamp can be applied; a rolled back or committed transaction no longer holds the horizon. */
  lemma StepsTakeEffect(s: System, id: nat, cs: seq<Change>)
    requires SystemOk(s) && id in s.live
    ensures var t := Next(s, TakeCommitTs(id)); Fresh(s.tables, cs, s.next) ==> Enabled(t, ApplyChanges(s.next, cs))
    ensures var t := Next(s, TakeAutoTs); Fresh(s.tables, cs, s.next + 1) ==> Enabled(t, ApplyChanges(s.next + 1, cs))
    ensures id !in Next(s, TakeCommitTs(id)).live && id !in Next(s, Rollback(id)).live
    ensures Next(s, Begin).live == s.live[s.nextId := s.next] && s.nextId !in s.live
  {
  }

  /** A flush leaves an empty memtable, a compaction an empty level 0, and both leave the other tables alone. */
  lemma MaintenanceMoves(s: System, t: string, h: nat)
    requires SystemOk(s) && t in s.tables
    ensures Next(s, FlushTable(t)).tables[t].mem == [] && Next(s, CompactTable(t, h)).tables[t].l0 == []
    ensures forall u | u in s.tables && u != t ::
      u in Next(s, FlushTable(t)).tables && Next(s, FlushTable(t)).tables[u] == s.tables[u]
    ensures forall u | u in s.tables && u != t ::
      u in Next(s, CompactTable(t, h)).tables && Next(s, CompactTable(t, h)).tables[u] == s.tables[u]
  {
    ApplyMoves(s.tables[t], Version(Null, 0, false, []), h);
  }

  /** Every timestamp applied during the run was taken after the transaction began. */
  predicate NoStragglers(steps: seq<Step>, snap: nat) {
    forall i | 0 <= i < |steps| && steps[i].ApplyChanges? :: steps[i].ts > snap
  }

  lemma {:induction false} EndedStaysEnded(s: System, steps: seq<Step>, id: nat)
    requires id !in s.live && id < s.nextId
    ensures id !in Run(s, steps).live
    decreases steps
  {
    if steps != [] { EndedStaysEnded(Next(s, steps[0]), steps[1..], id); }
  }

  /**
   * Repeatable reads: through any number of begins, commits, rollbacks, auto-commits, flushes and
   * garbage-collecting compactions, a live transaction reads the same row of every key.
   */
  lemma {:induction false} RepeatableRead(s: System, steps: seq<Step>, id: nat, table: string, pk: Value)
    requires SystemOk(s) && Possible(s, steps) && id in s.live && id in Run(s, steps).live
    requires NoStragglers(steps, s.live[id])
    ensures Run(s, steps).live[id] == s.live[id]
    ensures ReadAt(Run(s, steps), table, pk, s.live[id]) == ReadAt(s, table, pk, s.live[id])
    decreases steps
  {
    if steps != [] {
      var s' := Next(s, steps[0]);
      StepKeepsOk(s, steps[0]);
      StepKeepsSnapshot(s, steps[0], id, table, pk);
      if id !in s'.live { EndedStaysEnded(s', steps[1..], id); }
      assert NoStragglers(steps[1..], s.live[id]) by {
        forall i | 0 <= i < |steps[1..]| && steps[1..][i].ApplyChanges? ensures steps[1..][i].ts > s.live[id] {
          assert steps[1..][i] == steps[i + 1];
        }
      }
      RepeatableRead(s', steps[1..], id, table, pk);
    }
  }

  /** When no timestamp is waiting at the start, a run cannot contain a straggler. */
  lemma {:induction false} NothingTakenNoStragglers(s: System, steps: seq<Step>, snap: nat)
    requires Possible(s, steps) && snap < s.next && forall ts | ts in s.taken :: ts > snap
    ensures NoStragglers(steps, snap)
    decreases steps
  {
    if steps != [] {
      NothingTakenNoStragglers(Next(s, steps[0]), steps[1..], snap);
      forall i | 0 <= i < |steps| && steps[i].ApplyChanges? ensures steps[i].ts > snap {
        if i > 0 { assert steps[i] == steps[1..][i - 1]; }
      }
    }
  }

  // ---- Readers without a transaction ----

  /** A live row seen at a snapshot that the compaction does not know of, and that a newer version hides from it. */
  ghost predicate Collected(s: Levels, h: nat, v: Version) {
    !v.tombstone && v !in s.mem && Hidden(s.l0 + s.l1, h, v)
  }

  /** Helper: what a compaction keeps of the versions that a snapshot may see. */
  lemma AfterCompaction(s: Levels, h: nat, v: Version)
    requires Ok(s) && h > 0
    ensures var s' := Apply(s, Compact(h));
      && (v in All(s') ==> v in All(s))
      && (v in All(s) && v !in s.mem && Hidden(s.l0 + s.l1, h, v) ==> v !in All(s'))
      && (v in All(s) && (v in s.mem || !Hidden(s.l0 + s.l1, h, v)) && !v.tombstone ==> v in All(s'))
      && (v in All(s) && v !in All(s') && !Hidden(s.l0 + s.l1, h, v) ==> forall u | u in s'.l1 :: u.pk != v.pk)
  {
    var merged := Merge(s.l0, s.l1);
    assert Consistent(s.l0 + s.l1);
    MergeIsUnion(s.l0, s.l1);
    MergeSorted(s.l0, s.l1);
    GcElements(merged, h);
    assert Hidden(merged, h, v) <==> Hidden(s.l0 + s.l1, h, v);
    if v in s.l0 + s.l1 {
      if Hidden(merged, h, v) {
        var w :| w in merged && w.pk == v.pk && v.ts < w.ts <= h;
        GcDropsHidden(merged, h, w);
      } else {
        SurvivesOrDropped(merged, h, v);
      }
    }
  }

  /** A compaction leaves a read alone, at any snapshot, if and only if it does not collect the row that is read. */
  lemma CompactionKeepsReadIff(s: Levels, h: nat, pk: Value, snap: nat)
    requires Ok(s) && h > 0
    ensures var v := Newest(All(s), pk, snap);
      Read(All(Apply(s, Compact(h))), pk, snap) == Read(All(s), pk, snap) <==> v.None? || !Collected(s, h, v.value)
  {
    var s', v := Apply(s, Compact(h)), Newest(All(s), pk, snap);
    CompactOk(s, h);
    NewestIsNewest(All(s), pk, snap);
    NewestIsNewest(All(s'), pk, snap);
    if v.Some? {
      AfterCompaction(s, h, v.value);
      if v.value in All(s') {
        NewestUnique(All(s'), pk, snap, v.value);
      } else {
        NothingElseSeen(s, h, pk, snap, v.value);
      }
    }
  }

  /** Helper: when the version a snapshot saw is gone, nothing older is left. */
  lemma NothingElseSeen(s: Levels, h: nat, pk: Value, snap: nat, v: Version)
    requires Ok(s) && h > 0 && Newest(All(s), pk, snap) == Some(v) && v !in All(Apply(s, Compact(h)))
    ensures Newest(All(Apply(s, Compact(h))), pk, snap) == None
  {
    var s' := Apply(s, Compact(h));
    NewestIsNewest(All(s), pk, snap);
    NewestIsNewest(All(s'), pk, snap);
    AfterCompaction(s, h, v);
    if Newest(All(s'), pk, snap).Some? {
      var u := Newest(All(s'), pk, snap).value;
      AfterCompaction(s, h, u);
    }
  }

  /**
   * An auto-commit SELECT registers no snapshot. One that reads at 2 a row which was then updated at 3 finds nothing
   * after a compaction with the horizon of the moment, 4.
   */
  lemma UnregisteredReadIsLost()
    ensures var old1, new3 := Version(Int(7), 1, false, [Int(7), Int(1)]), Version(Int(7), 3, false, [Int(7), Int(3)]);
      var s := System(map["t" := Levels([], [new3, old1], [])], 4, 1, map[], {});
      && SystemOk(s) && Enabled(s, CompactTable("t", 4))
      && ReadAt(s, "t", Int(7), 2) == Some(old1.row)
      && ReadAt(Next(s, CompactTable("t", 4)), "t", Int(7), 2) != Some(old1.row)
  {
    var old1, new3 := Version(Int(7), 1, false, [Int(7), Int(1)]), Version(Int(7), 3, false, [Int(7), Int(3)]);
    var levels := Levels([], [new3, old1], []);
    LessTotal(Int(7), Int(7));
    assert All(levels) == [new3] + [old1] && levels.l0 + levels.l1 == [new3, old1];
    NewestOfConcat([new3], [old1], Int(7), 2);
    assert Newest([old1], Int(7), 2) == Some(old1) && Newest([new3], Int(7), 2) == None;
    assert new3 in levels.l0 + levels.l1;
    assert Ok(levels);
    CompactionKeepsReadIff(levels, 4, Int(7), 2);
  }

  // ---- Exactly when a snapshot is stable ----

  /** Over all possible runs in which the transaction stays live, every read is as it is now. */
  ghost predicate Stable(s: System, id: nat)
    requires id in s.live
  {
    forall steps, table, pk | Possible(s, steps) && id in Run(s, steps).live ::
      ReadAt(Run(s, steps), table, pk, s.live[id]) == ReadAt(s, table, pk, s.live[id])
  }

  lemma {:induction false} NoTablesStay(s: System, steps: seq<Step>)
    requires s.tables == map[]
    ensures Run(s, steps).tables == map[]
    decreases steps
  {
    if steps != [] {
      if steps[0].ApplyChanges? { NothingWritten(s.tables, steps[0].changes, steps[0].ts); }
      NoTablesStay(Next(s, steps[0]), steps[1..]);
    }
  }

  lemma {:induction false} NothingWritten(tables: map<string, Levels>, cs: seq<Change>, ts: nat)
    requires tables == map[]
    ensures WriteAll(tables, cs, ts) == map[]
    decreases cs
  {
    if cs != [] { NothingWritten(Write(tables, cs[0], ts), cs[1..], ts); }
  }

  /** A number above every integer key. */
  function Above(s: seq<Version>): int {
    if s == [] then 0
    else if s[0].pk.Int? && s[0].pk.i >= Above(s[1..]) then s[0].pk.i + 1 else Above(s[1..])
  }

  lemma {:induction false} AboveIsFresh(s: seq<Version>, k: int)
    requires k >= Above(s)
    ensures forall v | v in s :: v.pk != Int(k)
  {
    if s != [] { AboveIsFresh(s[1..], k); }
  }

  /** A waiting timestamp that is not younger than the snapshot can still bring a row to it. */
  lemma WaitingTimestampDisturbs(s: System, id: nat, table: string, ts: nat)
    requires SystemOk(s) && id in s.live && table in s.tables && ts in s.taken && ts <= s.live[id]
    ensures !Stable(s, id)
  {
    var levels, snap := s.tables[table], s.live[id];
    var pk := Int(Above(All(levels)));
    AboveIsFresh(All(levels), Above(All(levels)));
    var c := Change(table, pk, false, [pk]);
    var step := ApplyChanges(ts, [c]);
    assert Fresh(s.tables, [c], ts);
    WriteDisturbsIff(levels, VersionOf(c, ts), pk, snap);
    NewestIsNewest(All(levels), pk, snap);
    assert [c][1..] == [] && WriteAll(s.tables, [c], ts) == Write(s.tables, c, ts);
    assert ReadAt(Next(s, step), table, pk, snap) != ReadAt(s, table, pk, snap);
    assert [step][1..] == [] && Possible(Next(s, step), []);
    assert Possible(s, [step]) && Run(s, [step]) == Next(s, step);
  }

  /**
   * Whatever may happen while it lives, a transaction reads the same rows if and only if there is no table, or no
   * timestamp that was taken before its snapshot is still waiting to be applied.
   */
  lemma SnapshotStableIff(s: System, id: nat)
    requires SystemOk(s) && id in s.live
    ensures Stable(s, id) <==> s.tables == map[] || forall ts | ts in s.taken :: ts > s.live[id]
  {
    if s.tables == map[] {
      forall steps | Possible(s, steps) ensures Run(s, steps).tables == map[] { NoTablesStay(s, steps); }
    } else if forall ts | ts in s.taken :: ts > s.live[id] {
      forall steps, table, pk | Possible(s, steps) && id in Run(s, steps).live
        ensures ReadAt(Run(s, steps), table, pk, s.live[id]) == ReadAt(s, table, pk, s.live[id])
      {
        NothingTakenNoStragglers(s, steps, s.live[id]);
        RepeatableRead(s, steps, id, table, pk);
      }
    } else {
      var ts :| ts in s.taken && ts <= s.live[id];
      var table :| table in s.tables;
      WaitingTimestampDisturbs(s, id, table, ts);
    }
  }

  /**
   * The interleaving the code does not exclude: a commit takes its timestamp, a transaction begins,
   * and only then are the changes applied. Its two reads of one row differ.
   */
  lemma StragglerBreaksRepeatableRead()
    ensures var row := [Int(7)];
      var s0 := System(map["t" := EMPTY], 1, 1, map[], {});
      var run := [TakeAutoTs, Begin];
      var late := ApplyChanges(2, [Change("t", Int(7), false, row)]);
      var s := Run(s0, run);
      && SystemOk(s0) && Possible(s0, run + [late]) && s.live == map[1 := 3]
      && ReadAt(s, "t", Int(7), 3) == None
      && ReadAt(Next(s, late), "t", Int(7), 3) == Some(row)
  {
    var row := [Int(7)];
    var v := Version(Int(7), 2, false, row);
    var s0 := System(map["t" := EMPTY], 1, 1, map[], {});
    var run := [TakeAutoTs, Begin];
    var late := ApplyChanges(2, [Change("t", Int(7), false, row)]);
    var s1 := Next(s0, TakeAutoTs);
    var s := Next(s1, Begin);
    assert run[1..] == [Begin] && [Begin][1..] == [] && Run(s1, [Begin]) == s;
    assert (run + [late])[1..] == [Begin, late] && [Begin, late][1..] == [late] && [late][1..] == [];
    assert All(EMPTY) == [];
    assert Enabled(s, late);
    assert Possible(s, [late]) && Possible(s1, [Begin, late]);
    WriteDisturbsIff(EMPTY, v, Int(7), 3);
    var cs := [Change("t", Int(7), false, row)];
    assert WriteAll(s.tables, cs, 2) == Write(s.tables, cs[0], 2) by { assert cs[1..] == []; }
    assert Merge([v], []) == [v];
    assert All(Apply(EMPTY, Op.Write(v))) == [v];
    assert Newest([v], Int(7), 3) == Some(v);
  }
}
