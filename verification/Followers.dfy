/** A primary and its follower: whole engines with all tables, over whole runs and a stream that may be cut. */
module Followers {
  import opened Values
  import opened Versions
  import opened Codec
  import opened Store
  import opened Replication

  /** One table of an engine; `horizon` is the largest horizon any of its compactions used. */
  datatype Table = Table(schema: seq<Column>, levels: Levels, horizon: nat)

  /** The tables of an engine and its commit log. */
  datatype Node = Node(tables: map<Bytes, Table>, sealed: set<nat>)

  function IsKey(schema: seq<Column>): seq<bool> {
    seq(|schema|, i => if 0 <= i < |schema| then schema[i].primaryKey else false)
  }

  function Wrote(t: Table, v: Version): Table {
    t.(levels := Apply(t.levels, Write(v)))
  }

  // ---- The follower ----

  /** Whether a record is applied: rows of unknown tables and unreadable rows are not. */
  predicate Accepted(n: Node, r: Record) {
    r.ApplyRow? || r.ApplyDelete? ==>
      r.table in n.tables && n.tables[r.table].schema != [] && VersionOf(r, IsKey(n.tables[r.table].schema)).Some?
  }

  function Applied(n: Node, r: Record): Node {
    if !Accepted(n, r) then n else
    match r
    case CreateTable(table, columns) =>
      if table in n.tables then n else n.(tables := n.tables[table := Table(columns, EMPTY, 0)])
    case DropTable(table) => n.(tables := n.tables - {table})
    case Commit(ts) => if ts == 0 then n else n.(sealed := n.sealed + {ts})
    case _ =>
      var t := n.tables[r.table];
      n.(tables := n.tables[r.table := Wrote(t, VersionOf(r, IsKey(t.schema)).value)])
  }

  /** What becomes of a record: a row of an unknown table is refused, an unreadable row ends the follower's thread. */
  datatype Outcome = Done | Refused | Thrown

  predicate KnownTable(n: Node, r: Record) {
    r.ApplyRow? || r.ApplyDelete? ==> r.table in n.tables && n.tables[r.table].schema != []
  }

  /** The engine of a follower. */
  class Engine {
    var tables: map<Bytes, Table>
    var sealed: set<nat>

    function Contents(): Node
      reads this
    {
      Node(tables, sealed)
    }

    constructor ()
      ensures Contents() == Node(map[], {})
    {
      tables, sealed := map[], {};
    }

    /** `apply_replication_record`: creating and dropping are idempotent, rows need a known table. */
    method ApplyReplicationRecord(r: Record) returns (outcome: Outcome)
      modifies this
      ensures outcome.Done? <==> Accepted(old(Contents()), r)
      ensures outcome.Refused? <==> !KnownTable(old(Contents()), r)
      ensures Contents() == Applied(old(Contents()), r)
    {
      match r
      case CreateTable(table, columns) =>
        if table !in tables { tables := tables[table := Table(columns, EMPTY, 0)]; }
        return Done;
      case DropTable(table) =>
        if table in tables { tables := tables - {table}; }
        return Done;
      case Commit(ts) =>
        if ts != 0 { sealed := sealed + {ts}; }
        return Done;
      case _ =>
        if r.table !in tables || tables[r.table].schema == [] { return Refused; }
        var t := tables[r.table];
        var v := VersionOf(r, IsKey(t.schema));
        if v.None? { return Thrown; }
        tables := tables[r.table := Wrote(t, v.value)];
        return Done;
    }
  }

  // ---- What a record does, and what it leaves alone ----

  /** Repeating a CREATE, a DROP or a COMMIT changes nothing; a table that is there is kept with its rows. */
  lemma RecordsRepeat(n: Node, r: Record)
    ensures r.CreateTable? && r.table in n.tables ==> Applied(n, r) == n
    ensures r.DropTable? && r.table !in n.tables ==> Applied(n, r) == n
    ensures r.CreateTable? || r.DropTable? || r.Commit? ==> Applied(Applied(n, r), r) == Applied(n, r)
  {
  }

  /** Afterwards a created table exists, a dropped one does not, and a commit is sealed. */
  lemma RecordsTakeEffect(n: Node, r: Record)
    ensures r.CreateTable? ==> r.table in Applied(n, r).tables
    ensures r.CreateTable? && r.table !in n.tables ==> Applied(n, r).tables[r.table] == Table(r.columns, EMPTY, 0)
    ensures r.DropTable? ==> r.table !in Applied(n, r).tables
    ensures r.Commit? && r.ts != 0 ==> r.ts in Applied(n, r).sealed
  {
  }

  /** No record touches a table that it does not name, nor another commit; only CREATE and DROP change which tables exist. */
  lemma RecordsTouchOnlyTheirs(n: Node, r: Record, name: Bytes, ts: nat)
    requires r.Commit? || r.table != name
    ensures name in Applied(n, r).tables <==> name in n.tables
    ensures name in n.tables ==> Applied(n, r).tables[name] == n.tables[name]
    ensures !(r.Commit? && r.ts == ts) ==> (ts in Applied(n, r).sealed <==> ts in n.sealed)
  {
  }

  /** A row that arrives is read under its key, which is the value of its first column unless the key is composite. */
  lemma ArrivedRowIsRead(n: Node, table: Bytes, ts: nat, row: Row, snap: nat)
    requires table in n.tables && Store.Ok(n.tables[table].levels) && snap >= ts
    requires 0 < |row| == |n.tables[table].schema| < 0x1_0000_0000 && forall x | x in row :: Storable(x)
    requires var key := ExtractKey(row, IsKey(n.tables[table].schema));
      forall w | w in All(n.tables[table].levels) && w.pk == key :: w.ts < ts
    ensures var r := ApplyRow(table, ts, EncodeRow(row)); var isKey := IsKey(n.tables[table].schema);
      && Accepted(n, r)
      && Read(All(Applied(n, r).tables[table].levels), ExtractKey(row, isKey), snap) == Some(row)
      && (KeyCount(isKey, 0) < 2 ==> Read(All(Applied(n, r).tables[table].levels), row[0], snap) == Some(row))
  {
    var t, isKey := n.tables[table], IsKey(n.tables[table].schema);
    RowRoundTrip(row, |isKey|);
    var v := Version(ExtractKey(row, isKey), ts, false, row);
    WrittenIsRead(t.levels, v, snap);
    if KeyCount(isKey, 0) < 2 { FirstColumnIdentifies(row, row, isKey); }
  }

  lemma WrittenIsRead(s: Levels, v: Version, snap: nat)
    requires Store.Ok(s) && (forall w | w in All(s) && w.pk == v.pk :: w.ts < v.ts) && snap >= v.ts
    ensures Read(All(Apply(s, Write(v))), v.pk, snap) == Payload(Some(v))
  {
    OkAlone(s);
    WriteKeeps(s, All(s), 0, v);
    assert StandsFor(Newest(All(Apply(s, Write(v))), v.pk, snap), Newest(All(s) + [v], v.pk, snap));
    NewestOfConcat(All(s), [v], v.pk, snap);
    NewestIsNewest(All(s), v.pk, snap);
  }

  // ---- The primary ----

  /** What a primary does and reports. */
  datatype Change =
    | Create(table: Bytes, columns: seq<Column>)
    | Drop(table: Bytes)
    | Put(table: Bytes, v: Version)
    | Seal(ts: nat)

  function Reported(c: Change): Record {
    match c
    case Create(table, columns) => CreateTable(table, columns)
    case Drop(table) => DropTable(table)
    case Put(table, v) => RecordOf(table, v)
    case Seal(ts) => Commit(ts)
  }

  function Changed(n: Node, c: Change): Node {
    match c
    case Create(table, columns) => n.(tables := n.tables[table := Table(columns, EMPTY, 0)])
    case Drop(table) => n.(tables := n.tables - {table})
    case Put(table, v) => if table in n.tables then n.(tables := n.tables[table := Wrote(n.tables[table], v)]) else n
    case Seal(ts) => n.(sealed := n.sealed + {ts})
  }

  // ---- The history behind an engine ----

  datatype Past = Past(schema: seq<Column>, writes: seq<Version>)

  datatype Log = Log(tables: map<Bytes, Past>, sealed: set<nat>)

  /** A table is created once until it is dropped; rows go to a table with columns, in timestamp order for each key. */
  ghost predicate Possible(l: Log, c: Change) {
    match c
    case Create(table, columns) => table !in l.tables
    case Drop(table) => table in l.tables
    case Put(table, v) =>
      && table in l.tables && l.tables[table].schema != []
      && Written(v, IsKey(l.tables[table].schema)) && InOrder(l.tables[table].writes, Write(v))
    case Seal(ts) => ts != 0
  }

  function Logged(l: Log, c: Change): Log {
    match c
    case Create(table, columns) => l.(tables := l.tables[table := Past(columns, [])])
    case Drop(table) => l.(tables := l.tables - {table})
    case Put(table, v) =>
      if table !in l.tables then l else
      l.(tables := l.tables[table := l.tables[table].(writes := l.tables[table].writes + [v])])
    case Seal(ts) => l.(sealed := l.sealed + {ts})
  }

  ghost predicate TableStandsFor(t: Table, p: Past) {
    t.schema == p.schema && Represents(t.levels, p.writes, t.horizon)
  }

  ghost predicate StandsForLog(n: Node, l: Log) {
    && n.sealed == l.sealed && n.tables.Keys == l.tables.Keys
    && forall name | name in n.tables :: TableStandsFor(n.tables[name], l.tables[name])
  }

  lemma FreshTable(columns: seq<Column>)
    ensures TableStandsFor(Table(columns, EMPTY, 0), Past(columns, []))
  {
    RefinesOfSameSet(All(EMPTY), []);
  }

  lemma ChangeKeeps(n: Node, l: Log, c: Change)
    requires StandsForLog(n, l) && Possible(l, c)
    ensures StandsForLog(Changed(n, c), Logged(l, c))
  {
    match c
    case Create(_, columns) => FreshTable(columns);
    case Put(table, v) =>
      assert TableStandsFor(n.tables[table], l.tables[table]);
      WriteKeeps(n.tables[table].levels, l.tables[table].writes, n.tables[table].horizon, v);
    case _ =>
  }

  /** The record of a change does to the follower what the change did to the primary, and is not refused. */
  lemma RecordDoesChange(n: Node, l: Log, c: Change)
    requires StandsForLog(n, l) && Possible(l, c)
    ensures Accepted(n, Reported(c)) && Applied(n, Reported(c)) == Changed(n, c)
  {
    if c.Put? {
      assert TableStandsFor(n.tables[c.table], l.tables[c.table]);
      WriteRoundTrip(c.table, c.v, IsKey(l.tables[c.table].schema));
    }
  }

  // ---- Runs: changes or records, with flushes and compactions of any table in between ----

  datatype Act = Do(c: Change) | Receive(r: Record) | FlushTable(table: Bytes) | CompactTable(table: Bytes, horizon: nat)

  function Acted(n: Node, a: Act): Node {
    match a
    case Do(c) => Changed(n, c)
    case Receive(r) => Applied(n, r)
    case FlushTable(table) => if table in n.tables then n.(tables := n.tables[table := Upkeep(n.tables[table], Flush)]) else n
    case CompactTable(table, h) =>
      if table in n.tables then n.(tables := n.tables[table := Upkeep(n.tables[table], Compact(h))]) else n
  }

  function Upkeep(t: Table, op: Op): Table {
    t.(levels := Apply(t.levels, op), horizon := HorizonAfter(t.horizon, op))
  }

  /** Flushing and compacting empty what they should, remember the horizon, and leave commits and other tables alone. */
  lemma UpkeepMoves(n: Node, a: Act, name: Bytes)
    requires (a.FlushTable? || a.CompactTable?) && name in n.tables && Store.Ok(n.tables[name].levels)
    ensures var n' := Acted(n, a); n'.sealed == n.sealed && n'.tables.Keys == n.tables.Keys && (a.table != name ==> n'.tables[name] == n.tables[name])
    ensures a == FlushTable(name) ==> Acted(n, a).tables[name].levels.mem == [] && Acted(n, a).tables[name].horizon == n.tables[name].horizon
    ensures a.CompactTable? && a.table == name ==>
      Acted(n, a).tables[name].levels.l0 == [] && Acted(n, a).tables[name].horizon >= a.horizon
  {
    ApplyMoves(n.tables[name].levels, Version(Null, 0, false, []), if a.CompactTable? then a.horizon else 0);
  }

  function RunNode(n: Node, acts: seq<Act>): Node
    decreases acts
  {
    if acts == [] then n else RunNode(Acted(n, acts[0]), acts[1..])
  }

  function LogRun(l: Log, cs: seq<Change>): Log
    decreases cs
  {
    if cs == [] then l else LogRun(Logged(l, cs[0]), cs[1..])
  }

  ghost predicate AllPossible(l: Log, cs: seq<Change>)
    decreases cs
  {
    cs == [] || (Possible(l, cs[0]) && AllPossible(Logged(l, cs[0]), cs[1..]))
  }

  /** The acts of an engine carry out these changes, by doing them or by receiving their records. */
  ghost predicate CarryOut(acts: seq<Act>, cs: seq<Change>)
    decreases acts
  {
    if acts == [] then cs == []
    else if acts[0].Do? then cs != [] && acts[0].c == cs[0] && CarryOut(acts[1..], cs[1..])
    else if acts[0].Receive? then cs != [] && acts[0].r == Reported(cs[0]) && CarryOut(acts[1..], cs[1..])
    else CarryOut(acts[1..], cs)
  }

  lemma UpkeepKeeps(n: Node, l: Log, table: Bytes, op: Op)
    requires StandsForLog(n, l) && table in n.tables && !op.Write?
    ensures StandsForLog(n.(tables := n.tables[table := Upkeep(n.tables[table], op)]), l)
  {
    assert TableStandsFor(n.tables[table], l.tables[table]);
    ApplyKeeps(n.tables[table].levels, l.tables[table].writes, n.tables[table].horizon, op);
  }

  lemma {:induction false} RunStandsFor(n: Node, l: Log, acts: seq<Act>, cs: seq<Change>)
    requires StandsForLog(n, l) && AllPossible(l, cs) && CarryOut(acts, cs)
    ensures StandsForLog(RunNode(n, acts), LogRun(l, cs))
    decreases acts
  {
    if acts != [] {
      match acts[0] {
        case FlushTable(table) => if table in n.tables { UpkeepKeeps(n, l, table, Flush); }
        case CompactTable(table, h) => if table in n.tables { UpkeepKeeps(n, l, table, Compact(h)); }
        case Do(c) => ChangeKeeps(n, l, c);
        case Receive(r) =>
          RecordDoesChange(n, l, cs[0]);
          ChangeKeeps(n, l, cs[0]);
      }
      var changing := acts[0].Do? || acts[0].Receive?;
      RunStandsFor(Acted(n, acts[0]), if changing then Logged(l, cs[0]) else l, acts[1..], if changing then cs[1..] else cs);
    }
  }

  // ---- Convergence ----

  /** The same tables with the same columns, the same rows at every snapshot neither side collected, the same commits. */
  ghost predicate SameState(a: Node, b: Node) {
    && a.sealed == b.sealed && a.tables.Keys == b.tables.Keys
    && forall name | name in a.tables :: SameRows(a.tables[name], b.tables[name])
  }

  ghost predicate SameRows(s: Table, t: Table) {
    && s.schema == t.schema
    && forall pk, snap | snap >= s.horizon && snap >= t.horizon :: Read(All(s.levels), pk, snap) == Read(All(t.levels), pk, snap)
  }

  lemma SameLogSameState(a: Node, b: Node, l: Log)
    requires StandsForLog(a, l) && StandsForLog(b, l)
    ensures SameState(a, b)
  {
    forall name | name in a.tables ensures SameRows(a.tables[name], b.tables[name]) {
      var s, t, p := a.tables[name], b.tables[name], l.tables[name];
      assert TableStandsFor(s, p) && TableStandsFor(t, p);
      forall pk, snap | snap >= s.horizon && snap >= t.horizon
        ensures Read(All(s.levels), pk, snap) == Read(All(t.levels), pk, snap)
      {
        SameHistorySameRows(s.levels, t.levels, p.writes, s.horizon, t.horizon, pk, snap);
      }
    }
  }

  /** Engines that stand for the same history and carry out the same changes have the same state. */
  lemma EnginesConverge(a: Node, b: Node, l: Log, actsA: seq<Act>, actsB: seq<Act>, cs: seq<Change>)
    requires StandsForLog(a, l) && StandsForLog(b, l) && AllPossible(l, cs) && CarryOut(actsA, cs) && CarryOut(actsB, cs)
    ensures SameState(RunNode(a, actsA), RunNode(b, actsB))
  {
    RunStandsFor(a, l, actsA, cs);
    RunStandsFor(b, l, actsB, cs);
    SameLogSameState(RunNode(a, actsA), RunNode(b, actsB), LogRun(l, cs));
  }

  function ChangesIn(acts: seq<Act>): seq<Change> {
    if acts == [] then [] else (if acts[0].Do? then [acts[0].c] else []) + ChangesIn(acts[1..])
  }

  function RecordsIn(acts: seq<Act>): seq<Record> {
    if acts == [] then [] else (if acts[0].Receive? then [acts[0].r] else []) + RecordsIn(acts[1..])
  }

  function ReportedAll(cs: seq<Change>): seq<Record> {
    seq(|cs|, i => if 0 <= i < |cs| then Reported(cs[i]) else Commit(0))
  }

  lemma {:induction false} DoingCarriesOut(acts: seq<Act>, cs: seq<Change>)
    requires (forall i | 0 <= i < |acts| :: !acts[i].Receive?) && ChangesIn(acts) == cs
    ensures CarryOut(acts, cs)
    decreases acts
  {
    if acts != [] {
      if acts[0].Do? {
        assert ChangesIn(acts)[1..] == ChangesIn(acts[1..]);
        DoingCarriesOut(acts[1..], cs[1..]);
      } else {
        assert ChangesIn(acts) == ChangesIn(acts[1..]);
        DoingCarriesOut(acts[1..], cs);
      }
    }
  }

  lemma {:induction false} ReceivingCarriesOut(acts: seq<Act>, cs: seq<Change>)
    requires (forall i | 0 <= i < |acts| :: !acts[i].Do?) && RecordsIn(acts) == ReportedAll(cs)
    ensures CarryOut(acts, cs)
    decreases acts
  {
    if acts != [] {
      if acts[0].Receive? {
        assert RecordsIn(acts)[0] == acts[0].r && RecordsIn(acts)[1..] == RecordsIn(acts[1..]);
        assert ReportedAll(cs)[1..] == ReportedAll(cs[1..]);
        ReceivingCarriesOut(acts[1..], cs[1..]);
      } else {
        assert RecordsIn(acts) == RecordsIn(acts[1..]);
        ReceivingCarriesOut(acts[1..], cs);
      }
    }
  }

  lemma {:induction false} PossiblePrefix(l: Log, cs: seq<Change>, k: nat)
    requires AllPossible(l, cs) && k <= |cs|
    ensures AllPossible(l, cs[..k])
    decreases cs
  {
    if k > 0 {
      PossiblePrefix(Logged(l, cs[0]), cs[1..], k - 1);
      assert cs[..k][1..] == cs[1..][..k - 1];
    }
  }

  /**
   * A primary and a follower start from the same history. The follower is fed with the byte stream of the primary's
   * records, cut anywhere; both flush and compact as they like. The follower then has the state the primary had after
   * as many changes as records arrived.
   */
  lemma FollowerShowsPrimaryState(primary: Node, follower: Node, l: Log, cs: seq<Change>, n: nat,
                                  done: seq<Act>, replayed: seq<Act>)
    requires StandsForLog(primary, l) && StandsForLog(follower, l) && AllPossible(l, cs)
    requires (forall r | r in ReportedAll(cs) :: Sendable(r)) && n <= |StreamOf(ReportedAll(cs))|
    requires (forall i | 0 <= i < |done| :: !done[i].Receive?) && (forall i | 0 <= i < |replayed| :: !replayed[i].Do?)
    requires RecordsIn(replayed) == Received(StreamOf(ReportedAll(cs))[..n])
    requires |RecordsIn(replayed)| <= |cs| && ChangesIn(done) == cs[..|RecordsIn(replayed)|]
    ensures SameState(RunNode(primary, done), RunNode(follower, replayed))
    ensures n == |StreamOf(ReportedAll(cs))| ==> ChangesIn(done) == cs
  {
    var k := |RecordsIn(replayed)|;
    ReceivedIsPrefix(ReportedAll(cs), n);
    assert ReportedAll(cs)[..k] == ReportedAll(cs[..k]);
    DoingCarriesOut(done, cs[..k]);
    ReceivingCarriesOut(replayed, cs[..k]);
    PossiblePrefix(l, cs, k);
    EnginesConverge(primary, follower, l, done, replayed, cs[..k]);
  }

  // ---- A follower that starts from a copy made in the middle of the stream ----

  /** About one table the engine is where the history is. */
  ghost predicate AgreesOn(n: Node, l: Log, name: Bytes) {
    (name in n.tables <==> name in l.tables) && (name in n.tables ==> TableStandsFor(n.tables[name], l.tables[name]))
  }

  /** While old records are repeated, each table is where it was in the copy or where the records are. */
  ghost predicate CatchingUp(n: Node, l: Log, final: Log) {
    n.sealed == final.sealed && forall name :: AgreesOn(n, l, name) || AgreesOn(n, final, name)
  }

  predicate WithoutRows(cs: seq<Change>) {
    forall i | 0 <= i < |cs| :: !cs[i].Put?
  }

  lemma AgreesEverywhere(n: Node, l: Log)
    ensures StandsForLog(n, l) <==> n.sealed == l.sealed && forall name :: AgreesOn(n, l, name)
  {
    if n.sealed == l.sealed && forall name :: AgreesOn(n, l, name) {
      forall name ensures name in n.tables <==> name in l.tables { assert AgreesOn(n, l, name); }
      forall name | name in n.tables ensures TableStandsFor(n.tables[name], l.tables[name]) { assert AgreesOn(n, l, name); }
    }
  }

  lemma {:induction false} SealsStay(l: Log, cs: seq<Change>, ts: nat)
    ensures ts in l.sealed || Seal(ts) in cs ==> ts in LogRun(l, cs).sealed
    decreases cs
  {
    if cs != [] { SealsStay(Logged(l, cs[0]), cs[1..], ts); }
  }

  lemma RepeatKeeps(n: Node, l: Log, final: Log, c: Change)
    requires CatchingUp(n, l, final) && Possible(l, c) && !c.Put? && (c.Seal? ==> c.ts in final.sealed)
    ensures CatchingUp(Applied(n, Reported(c)), Logged(l, c), final)
  {
    var n', l' := Applied(n, Reported(c)), Logged(l, c);
    forall name ensures AgreesOn(n', l', name) || AgreesOn(n', final, name) {
      assert AgreesOn(n, l, name) || AgreesOn(n, final, name);
      if c.Create? && c.table == name { FreshTable(c.columns); }
    }
  }

  lemma UpkeepCatchesUp(n: Node, l: Log, final: Log, table: Bytes, op: Op)
    requires CatchingUp(n, l, final) && table in n.tables && !op.Write?
    ensures CatchingUp(n.(tables := n.tables[table := Upkeep(n.tables[table], op)]), l, final)
  {
    var t, n' := n.tables[table], n.(tables := n.tables[table := Upkeep(n.tables[table], op)]);
    forall name ensures AgreesOn(n', l, name) || AgreesOn(n', final, name) {
      assert AgreesOn(n, l, name) || AgreesOn(n, final, name);
      if name == table && AgreesOn(n, l, name) { ApplyKeeps(t.levels, l.tables[name].writes, t.horizon, op); }
      if name == table && AgreesOn(n, final, name) { ApplyKeeps(t.levels, final.tables[name].writes, t.horizon, op); }
    }
  }

  /** Receiving again the tables and commits that the copy already has leads back to where the copy was. */
  lemma {:induction false} RepeatedRecordsStand(n: Node, l: Log, final: Log, acts: seq<Act>, cs: seq<Change>)
    requires CatchingUp(n, l, final) && AllPossible(l, cs) && WithoutRows(cs) && CarryOut(acts, cs) && LogRun(l, cs) == final
    requires forall i | 0 <= i < |acts| :: !acts[i].Do?
    ensures StandsForLog(RunNode(n, acts), final)
    decreases acts
  {
    if acts == [] {
      AgreesEverywhere(n, final);
    } else {
      match acts[0] {
        case FlushTable(table) => if table in n.tables { UpkeepCatchesUp(n, l, final, table, Flush); }
        case CompactTable(table, h) => if table in n.tables { UpkeepCatchesUp(n, l, final, table, Compact(h)); }
        case Receive(r) =>
          if cs[0].Seal? { SealsStay(l, cs, cs[0].ts); }
          RepeatKeeps(n, l, final, cs[0]);
      }
      var received := acts[0].Receive?;
      RepeatedRecordsStand(Acted(n, acts[0]), if received then Logged(l, cs[0]) else l, final, acts[1..],
                           if received then cs[1..] else cs);
    }
  }

  lemma {:induction false} LogRunConcat(l: Log, a: seq<Change>, b: seq<Change>)
    ensures LogRun(l, a + b) == LogRun(LogRun(l, a), b)
    ensures AllPossible(l, a + b) ==> AllPossible(l, a) && AllPossible(LogRun(l, a), b)
    decreases a
  {
    if a == [] {
      assert a + b == b;
    } else {
      LogRunConcat(Logged(l, a[0]), a[1..], b);
      assert (a + b)[0] == a[0] && (a + b)[1..] == a[1..] + b;
    }
  }

  /**
   * A follower whose copy was made after some CREATEs, DROPs and commits of the stream, and that receives the whole stream,
   * has the state of the primary.
   */
  lemma BootstrappedFollowerConverges(primary: Node, follower: Node, l: Log, early: seq<Change>, later: seq<Change>,
                                      done: seq<Act>, repeated: seq<Act>, replayed: seq<Act>)
    requires StandsForLog(primary, l) && StandsForLog(follower, LogRun(l, early)) && AllPossible(l, early + later)
    requires WithoutRows(early) && CarryOut(done, early + later) && CarryOut(repeated, early) && CarryOut(replayed, later)
    requires forall i | 0 <= i < |repeated| :: !repeated[i].Do?
    ensures SameState(RunNode(primary, done), RunNode(RunNode(follower, repeated), replayed))
  {
    var mid := LogRun(l, early);
    LogRunConcat(l, early, later);
    RunStandsFor(primary, l, done, early + later);
    AgreesEverywhere(follower, mid);
    RepeatedRecordsStand(follower, l, mid, repeated, early);
    RunStandsFor(RunNode(follower, repeated), mid, replayed, later);
    SameLogSameState(RunNode(primary, done), RunNode(RunNode(follower, repeated), replayed), LogRun(l, early + later));
  }
}
