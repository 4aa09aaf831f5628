/** Crashes at every durable write: what startup repairs and what it restores. */
module Recovery {
  import opened Values
  import opened Versions
  import opened Compaction
  import opened Store

  // ---- Replaying a log ----

  /** A logged version counts if it has no timestamp, no commit log exists, or its commit was sealed. */
  predicate Counts(v: Version, sealed: set<nat>, logPresent: bool) {
    v.ts == 0 || !logPresent || v.ts in sealed
  }

  function Replay(wal: seq<Version>, sealed: set<nat>, logPresent: bool, mem: seq<Version>): seq<Version>
    decreases wal
  {
    if wal == [] then mem
    else Replay(wal[1..], sealed, logPresent, if Counts(wal[0], sealed, logPresent) then Merge([wal[0]], mem) else mem)
  }

  /** The loop of `load_state_locked` over the decoded records. */
  method ReplayLog(wal: seq<Version>, sealed: set<nat>, logPresent: bool) returns (mem: seq<Version>)
    ensures mem == Replay(wal, sealed, logPresent, [])
  {
    mem := [];
    for i := 0 to |wal|
      invariant Replay(wal[i..], sealed, logPresent, mem) == Replay(wal, sealed, logPresent, [])
    {
      assert wal[i..][1..] == wal[i + 1..];
      if Counts(wal[i], sealed, logPresent) { mem := Merge([wal[i]], mem); }
    }
  }

  lemma {:induction false} ReplayElements(wal: seq<Version>, sealed: set<nat>, logPresent: bool, mem: seq<Version>)
    requires Consistent(mem + wal) && Sorted(mem)
    ensures Sorted(Replay(wal, sealed, logPresent, mem))
    ensures forall v :: v in Replay(wal, sealed, logPresent, mem) <==>
      v in mem || (v in wal && (v.ts == 0 || !logPresent || v.ts in sealed))
    decreases wal
  {
    if wal != [] {
      var v := wal[0];
      assert v in mem + wal && forall w :: w in wal <==> w == v || w in wal[1..];
      var next := if Counts(v, sealed, logPresent) then Merge([v], mem) else mem;
      if Counts(v, sealed, logPresent) {
        MergeSorted([v], mem);
        MergeElements([v], mem);
        forall w | w in mem ensures w in next { assert w in mem + wal; }
      }
      assert forall w | w in next + wal[1..] :: w in mem + wal;
      ReplayElements(wal[1..], sealed, logPresent, next);
    }
  }

  // ---- Fingerprints and the manifest ----

  datatype Fingerprint = Fingerprint(size: nat, crc: nat)

  /** How a file is summarised. Nothing below assumes that different files differ in it. */
  type Summary = seq<Version> -> Fingerprint

  /** A recorded checksum of zero matches any checksum. */
  predicate SameFile(recorded: Fingerprint, actual: Fingerprint) {
    recorded.size == actual.size && (recorded.crc == 0 || recorded.crc == actual.crc)
  }

  datatype Manifest = Manifest(l0: Option<Fingerprint>, l1: Option<Fingerprint>)

  datatype Files = Files(l0: seq<Version>, l1: seq<Version>, hasL1: bool)

  function ManifestOf(sum: Summary, f: Files): Manifest {
    Manifest(Some(sum(f.l0)), if f.hasL1 then Some(sum(f.l1)) else None)
  }

  /**
   * `reconcile_with_manifest` for the levels 0 and 1: level 1 unlike its record while level 0 is
   * like its record means a compaction stopped between its two writes, so level 0 is emptied.
   */
  function Reconcile(sum: Summary, m: Manifest, f: Files): Files {
    if f.hasL1
       && !(m.l1.Some? && SameFile(m.l1.value, sum(f.l1)))
       && m.l0.Some? && SameFile(m.l0.value, sum(f.l0))
    then f.(l0 := [])
    else f
  }

  /** Level 0 is emptied after a compaction that stopped halfway, also when its recorded checksum is zero, and only then. */
  lemma ReconcileRepairs(sum: Summary, m: Manifest, f: Files)
    ensures Reconcile(sum, m, f).l1 == f.l1 && Reconcile(sum, m, f).hasL1 == f.hasL1
    ensures f.hasL1 && m.l0.Some? && m.l0.value.size == sum(f.l0).size && m.l0.value.crc == 0 && m.l1.None? ==>
      Reconcile(sum, m, f).l0 == []
    ensures m.l1.Some? && m.l1.value == sum(f.l1) ==> Reconcile(sum, m, f) == f
    ensures m.l0.None? || m.l0.value.size != sum(f.l0).size ==> Reconcile(sum, m, f) == f
  {
  }

  // ---- The durable state, one write at a time ----

  /** Where a table stands between its file writes and the manifest write that records them. */
  datatype Phase = Recorded | FlushUnrecorded | HalfCompacted | CompactionUnrecorded

  datatype Table = Table(
    files: Files,
    manifest: Manifest,
    wal: seq<Version>,
    mem: seq<Version>,
    phase: Phase,
    hist: seq<Version>,
    flushed: seq<Version>,
    horizon: nat)

  /** `hist`, `flushed`, `horizon`, `sealedEver` and `open` record what happened; the code does not store them. */
  datatype Database = Database(
    tables: map<string, Table>,
    log: set<nat>,
    logPresent: bool,
    next: nat,
    open: set<nat>,
    sealedEver: set<nat>)

  datatype Step =
    | OpenCommit
    | AppendRow(table: string, v: Version)
    | Seal(ts: nat)
    | WriteL0(table: string)
    | WriteL1(table: string, h: nat)
    | ClearL0(table: string)
    | WriteManifest
    | TruncateWal(table: string)
    | TruncateLog
    | CrashAndRestart

  function Merged(f: Files, h: nat): seq<Version> {
    var m := Merge(f.l0, f.l1);
    if h > 0 then Gc(m, h) else m
  }

  function Filter(s: seq<Version>, sealed: set<nat>): (r: seq<Version>) {
    if s == [] then [] else (if s[0].ts in sealed then [s[0]] else []) + Filter(s[1..], sealed)
  }

  /** What startup makes of one table: repaired files, a rebuilt memtable, a fresh manifest. */
  function Restart(sum: Summary, t: Table, log: set<nat>, logPresent: bool, sealedEver: set<nat>): Table {
    var f := Reconcile(sum, t.manifest, t.files);
    Table(f, ManifestOf(sum, f), t.wal, Replay(t.wal, log, logPresent, []), Recorded,
          Filter(t.hist, sealedEver), t.flushed, t.horizon)
  }

  /** The manifest describes the files of every table as they are, also in the middle of a compaction. */
  function Record(sum: Summary, t: Table): Table {
    t.(manifest := ManifestOf(sum, t.files), phase := if t.phase == HalfCompacted then HalfCompacted else Recorded)
  }

  function Next(sum: Summary, d: Database, step: Step): Database {
    match step
    case OpenCommit => d.(open := d.open + {d.next}, next := d.next + 1)
    case AppendRow(n, v) =>
      if n !in d.tables then d
      else var t := d.tables[n];
        d.(tables := d.tables[n := t.(wal := t.wal + [v], mem := Merge([v], t.mem), hist := t.hist + [v])])
    case Seal(ts) =>
      d.(log := d.log + {ts}, logPresent := true, open := d.open - {ts}, sealedEver := d.sealedEver + {ts})
    case WriteL0(n) =>
      if n !in d.tables then d
      else var t := d.tables[n];
        d.(tables := d.tables[n := t.(files := t.files.(l0 := Merge(t.mem, t.files.l0)), mem := [],
                                      flushed := t.hist, phase := FlushUnrecorded)])
    case WriteL1(n, h) =>
      if n !in d.tables then d
      else var t := d.tables[n];
        d.(tables := d.tables[n := t.(files := t.files.(l1 := Merged(t.files, h), hasL1 := true),
                                      horizon := if h > t.horizon then h else t.horizon, phase := HalfCompacted)])
    case ClearL0(n) =>
      if n !in d.tables then d
      else d.(tables := d.tables[n := d.tables[n].(files := d.tables[n].files.(l0 := []), phase := CompactionUnrecorded)])
    case WriteManifest => d.(tables := map n | n in d.tables :: Record(sum, d.tables[n]))
    case TruncateWal(n) =>
      if n !in d.tables then d else d.(tables := d.tables[n := d.tables[n].(wal := [])])
    case TruncateLog => d.(log := {})
    case CrashAndRestart =>
      Database(map n | n in d.tables :: Restart(sum, d.tables[n], d.log, d.logPresent, d.sealedEver),
               d.log, d.logPresent, d.next, {}, d.sealedEver)
  }

  /** No row of a commit that is still open waits in the memtable. */
  predicate NothingOpen(d: Database, t: Table) {
    forall v | v in t.mem :: v.ts !in d.open
  }

  /**
   * When the code takes each step. Four of these conditions are not enforced by it. A memtable may be flushed
   * in the middle of a commit (`NothingOpen`). A writer may append between the flush and the truncation of the log
   * (`mem == []` of `TruncateWal`), or between the flushes of a CHECKPOINT and the truncation of the commit log
   * (`mem == []` of `TruncateLog`). A flush may write level 0 while a compaction is under way (the phases of `WriteL0`).
   * The last section says exactly what happens without each of them.
   */
  ghost predicate Enabled(d: Database, step: Step) {
    match step
    case AppendRow(n, v) =>
      n in d.tables && v.ts in d.open && v.ts > 0 && forall w | w in d.tables[n].hist && w.pk == v.pk :: w.ts < v.ts
    case Seal(ts) => ts in d.open
    case WriteL0(n) =>
      n in d.tables && (d.tables[n].phase == Recorded || d.tables[n].phase == FlushUnrecorded) && NothingOpen(d, d.tables[n])
    case WriteL1(n, _) => n in d.tables && d.tables[n].phase != HalfCompacted
    case ClearL0(n) => n in d.tables && d.tables[n].phase == HalfCompacted
    case TruncateWal(n) => n in d.tables && d.tables[n].mem == []
    case TruncateLog => forall n | n in d.tables :: d.tables[n].mem == []
    case CrashAndRestart => d.logPresent
    case OpenCommit => true
    case WriteManifest => true
  }

  // ---- What every step keeps ----

  function OnDisk(f: Files): Levels {
    Levels([], f.l0, f.l1)
  }

  /** The files stand for what was flushed, and so does level 1 alone halfway through a compaction. */
  ghost predicate FilesOk(t: Table) {
    && Represents(OnDisk(t.files), t.flushed, t.horizon)
    && (!t.files.hasL1 ==> t.files.l1 == [])
    && (t.phase == HalfCompacted ==> Represents(OnDisk(t.files.(l0 := [])), t.flushed, t.horizon))
  }

  ghost predicate ManifestOk(sum: Summary, t: Table) {
    match t.phase
    case Recorded => t.manifest == ManifestOf(sum, t.files)
    case FlushUnrecorded => t.manifest.l1 == ManifestOf(sum, t.files).l1
    case HalfCompacted => t.files.hasL1
    case CompactionUnrecorded => t.files.l0 == []
  }

  /** The log holds, for every key in it, everything newer; what is not in files is in the memtable. */
  ghost predicate LogOk(t: Table) {
    && Sorted(t.mem) && Consistent(t.hist + t.wal) && Dominates(t.wal, t.hist) && Dominates(t.mem, t.hist)
    && (forall v | v in t.flushed || v in t.mem :: v in t.hist)
    && (forall v | v in t.hist :: v in t.flushed || v in t.mem)
    && (forall v | v in t.mem :: v in t.wal)
    && (forall v | v in t.hist + t.wal :: v.ts > 0)
  }

  ghost predicate CommitsOk(d: Database, t: Table) {
    && (forall v | v in t.flushed :: v.ts in d.sealedEver)
    && (forall v | v in t.hist :: v.ts in d.sealedEver || v.ts in d.open)
    && (forall v | v in t.wal :: v.ts < d.next && (v in t.hist || (v.ts !in d.sealedEver && v.ts !in d.open)))
    && (forall v | v in t.mem && v !in t.flushed && v.ts in d.sealedEver :: v.ts in d.log)
  }

  /** Of the rows of one key, the newer ones of a row that will count will count. */
  ghost predicate NewerCount(d: Database, t: Table) {
    forall v, w | v in t.wal && w in t.hist && v.pk == w.pk && v.ts <= w.ts && w.ts in d.sealedEver ::
      v.ts in d.log || v.ts in d.open ==> w.ts in d.log
  }

  /** Of the rows of one key, the older ones are flushed first. */
  ghost predicate OlderFlushed(t: Table) {
    forall v, w | v in t.hist && w in t.flushed && v.pk == w.pk && v.ts <= w.ts :: v in t.flushed
  }

  ghost predicate TableOk(sum: Summary, d: Database, t: Table) {
    FilesOk(t) && ManifestOk(sum, t) && LogOk(t) && CommitsOk(d, t) && NewerCount(d, t) && OlderFlushed(t)
  }

  ghost predicate CommitLogOk(d: Database) {
    && d.log <= d.sealedEver && d.open !! d.sealedEver
    && (forall ts | ts in d.open :: 0 < ts < d.next)
    && (forall ts | ts in d.sealedEver :: 0 < ts < d.next)
  }

  ghost predicate DatabaseOk(sum: Summary, d: Database) {
    && CommitLogOk(d) && d.next > 0
    && forall n | n in d.tables :: TableOk(sum, d, d.tables[n])
  }

  // ---- Files and memory together ----

  /** A memtable laid over files: together they stand for both. */
  lemma Overlay(f: Files, mem: seq<Version>, flushed: seq<Version>, hist: seq<Version>, h: nat)
    requires Represents(OnDisk(f), flushed, h) && Sorted(mem) && Consistent(hist) && Dominates(mem, hist)
    requires forall v :: v in hist <==> v in flushed || v in mem
    ensures Represents(Levels(mem, f.l0, f.l1), hist, h)
  {
    var s, disk := Levels(mem, f.l0, f.l1), f.l0 + f.l1;
    assert All(OnDisk(f)) == disk;
    assert All(s) == mem + disk;
    forall pk, snap | snap >= h ensures StandsFor(Newest(All(s), pk, snap), Newest(hist, pk, snap)) {
      NewestOfSameSet(mem + flushed, hist, pk, snap);
      NewestOfConcat(mem, flushed, pk, snap);
      NewestOfConcat(mem, disk, pk, snap);
      NewestIsNewest(mem, pk, snap);
      NewestIsNewest(flushed, pk, snap);
      assert StandsFor(Newest(disk, pk, snap), Newest(flushed, pk, snap));
    }
  }

  lemma {:induction false} FilterElements(s: seq<Version>, sealed: set<nat>)
    ensures forall v :: v in Filter(s, sealed) <==> v in s && v.ts in sealed
  {
    if s != [] {
      FilterElements(s[1..], sealed);
      assert forall v :: v in s <==> v == s[0] || v in s[1..];
    }
  }

  /** Emptying level 0 halfway through a compaction, or never touching the files, is always right. */
  lemma ReconcileKeepsFiles(sum: Summary, t: Table)
    requires FilesOk(t) && ManifestOk(sum, t)
    ensures Represents(OnDisk(Reconcile(sum, t.manifest, t.files)), t.flushed, t.horizon)
    ensures !Reconcile(sum, t.manifest, t.files).hasL1 ==> Reconcile(sum, t.manifest, t.files).l1 == []
  {
  }

  /** Halfway through a compaction both the old level 0 over the new level 1, and the new level 1 alone, are right. */
  lemma HalfwayRepresents(f: Files, flushed: seq<Version>, horizon: nat, h: nat)
    requires Represents(OnDisk(f), flushed, horizon)
    ensures var k := if h > horizon then h else horizon; var f' := f.(l1 := Merged(f, h), hasL1 := true);
      && Represents(OnDisk(f'), flushed, k) && Represents(OnDisk(f'.(l0 := [])), flushed, k)
  {
    var k := if h > horizon then h else horizon;
    var f' := f.(l1 := Merged(f, h), hasL1 := true);
    var merged := Merge(f.l0, f.l1);
    assert Apply(OnDisk(f), Compact(h)) == OnDisk(f'.(l0 := []));
    CompactKeeps(OnDisk(f), flushed, horizon, h);
    assert All(OnDisk(f)) == f.l0 + f.l1 && All(OnDisk(f')) == f.l0 + f'.l1;
    MergeIsUnion(f.l0, f.l1);
    MergeSorted(f.l0, f.l1);
    GcElements(merged, h);
    assert forall v :: v in f.l0 + merged <==> v in f.l0 + f.l1;
    RefinesOfSameSet(f.l0 + merged, f.l0 + f.l1);
    if h > 0 {
      GcUnderNewer(f.l0, merged, h);
      RefinesTransitive(f.l0 + f'.l1, f.l0 + merged, f.l0 + f.l1, h, 0, h);
    }
    RefinesTransitive(f.l0 + f'.l1, f.l0 + f.l1, flushed, h, horizon, k);
  }

  // ---- Each step keeps the state good ----

  /** Helper: what the replayed memtable holds. */
  lemma RestartElements(sum: Summary, d: Database, t: Table)
    requires LogOk(t) && CommitsOk(d, t) && CommitLogOk(d) && d.logPresent
    ensures var t' := Restart(sum, t, d.log, d.logPresent, d.sealedEver);
      && Sorted(t'.mem)
      && (forall v :: v in t'.mem <==> v in t.wal && v.ts in d.log)
      && (forall v :: v in t'.hist <==> v in t.hist && v.ts in d.sealedEver)
      && (forall v :: v in t'.hist <==> v in t'.flushed || v in t'.mem)
  {
    var t' := Restart(sum, t, d.log, d.logPresent, d.sealedEver);
    FilterElements(t.hist, d.sealedEver);
    assert forall v | v in t.wal :: v in t.hist + t.wal;
    assert [] + t.wal == t.wal;
    ReplayElements(t.wal, d.log, true, []);
  }

  lemma RestartLog(sum: Summary, d: Database, t: Table)
    requires LogOk(t) && CommitsOk(d, t) && NewerCount(d, t) && CommitLogOk(d) && d.logPresent
    ensures LogOk(Restart(sum, t, d.log, d.logPresent, d.sealedEver))
  {
    var t' := Restart(sum, t, d.log, d.logPresent, d.sealedEver);
    RestartElements(sum, d, t);
    assert forall v | v in t'.hist + t'.wal :: v in t.hist + t.wal;
    forall v, w | v in t'.mem && w in t'.hist && v.pk == w.pk && w.ts >= v.ts ensures w in t'.mem {
      assert w in t.wal;
    }
  }

  lemma RestartCommits(sum: Summary, d: Database, t: Table)
    requires LogOk(t) && CommitsOk(d, t) && CommitLogOk(d) && d.logPresent
    ensures CommitsOk(Next(sum, d, CrashAndRestart), Restart(sum, t, d.log, d.logPresent, d.sealedEver))
  {
    RestartElements(sum, d, t);
  }

  lemma RestartOrder(sum: Summary, d: Database, t: Table)
    requires LogOk(t) && CommitsOk(d, t) && CommitLogOk(d) && d.logPresent && NewerCount(d, t) && OlderFlushed(t)
    ensures var t' := Restart(sum, t, d.log, d.logPresent, d.sealedEver);
      NewerCount(Next(sum, d, CrashAndRestart), t') && OlderFlushed(t')
  {
    RestartElements(sum, d, t);
  }

  /** What is served after a restart stands for the sealed history. */
  lemma RestartRepresents(sum: Summary, d: Database, t: Table)
    requires TableOk(sum, d, t) && CommitLogOk(d) && d.logPresent
    ensures var t' := Restart(sum, t, d.log, d.logPresent, d.sealedEver);
      && Represents(OnDisk(t'.files), t'.flushed, t'.horizon)
      && Represents(Levels(t'.mem, t'.files.l0, t'.files.l1), t'.hist, t'.horizon)
  {
    var t' := Restart(sum, t, d.log, d.logPresent, d.sealedEver);
    ReconcileKeepsFiles(sum, t);
    RestartElements(sum, d, t);
    RestartLog(sum, d, t);
    ConsistentPart(t'.hist, t'.wal);
    Overlay(t'.files, t'.mem, t'.flushed, t'.hist, t'.horizon);
  }

  lemma RestartKeeps(sum: Summary, d: Database, t: Table)
    requires TableOk(sum, d, t) && CommitLogOk(d) && d.logPresent
    ensures TableOk(sum, Next(sum, d, CrashAndRestart), Restart(sum, t, d.log, d.logPresent, d.sealedEver))
  {
    RestartRepresents(sum, d, t);
    ReconcileKeepsFiles(sum, t);
    RestartLog(sum, d, t);
    RestartCommits(sum, d, t);
    RestartOrder(sum, d, t);
  }

  lemma ConsistentPart(a: seq<Version>, b: seq<Version>)
    requires Consistent(a + b)
    ensures Consistent(a)
  {
    assert forall v | v in a :: v in a + b;
  }

  lemma AppendLog(t: Table, v: Version)
    requires LogOk(t) && v.ts > 0
    requires forall w | w in t.hist && w.pk == v.pk :: w.ts < v.ts
    requires forall w | w in t.wal && w.ts == v.ts :: w in t.hist
    ensures LogOk(t.(wal := t.wal + [v], mem := Merge([v], t.mem), hist := t.hist + [v]))
  {
    var t' := t.(wal := t.wal + [v], mem := Merge([v], t.mem), hist := t.hist + [v]);
    MergeSorted([v], t.mem);
    InsertElements(v, t.mem);
    assert forall a :: a in t'.hist + t'.wal <==> a == v || a in t.hist + t.wal;
    assert forall a | a in t.hist + t.wal :: !SameKey(a, v);
  }

  lemma AppendCommits(d: Database, t: Table, v: Version)
    requires LogOk(t) && CommitsOk(d, t) && CommitLogOk(d) && v.ts in d.open
    requires forall w | w in t.hist && w.pk == v.pk :: w.ts < v.ts
    ensures CommitsOk(d, t.(wal := t.wal + [v], mem := Merge([v], t.mem), hist := t.hist + [v]))
  {
    InsertElements(v, t.mem);
  }

  lemma AppendOrder(d: Database, t: Table, v: Version)
    requires LogOk(t) && CommitLogOk(d) && NewerCount(d, t) && OlderFlushed(t) && v.ts in d.open
    requires forall w | w in t.hist && w.pk == v.pk :: w.ts < v.ts
    ensures var t' := t.(wal := t.wal + [v], mem := Merge([v], t.mem), hist := t.hist + [v]);
      NewerCount(d, t') && OlderFlushed(t')
  {
  }

  lemma AppendKeeps(sum: Summary, d: Database, n: string, v: Version)
    requires DatabaseOk(sum, d) && Enabled(d, AppendRow(n, v))
    ensures TableOk(sum, Next(sum, d, AppendRow(n, v)), Next(sum, d, AppendRow(n, v)).tables[n])
  {
    var t := d.tables[n];
    AppendTable(sum, d, t, v);
    SameCommits(sum, d, Next(sum, d, AppendRow(n, v)), Next(sum, d, AppendRow(n, v)).tables[n]);
  }

  lemma AppendTable(sum: Summary, d: Database, t: Table, v: Version)
    requires TableOk(sum, d, t) && CommitLogOk(d) && v.ts in d.open && v.ts > 0
    requires forall w | w in t.hist && w.pk == v.pk :: w.ts < v.ts
    ensures TableOk(sum, d, t.(wal := t.wal + [v], mem := Merge([v], t.mem), hist := t.hist + [v]))
  {
    AppendLog(t, v);
    AppendCommits(d, t, v);
    AppendOrder(d, t, v);
  }

  /** Helper: a table depends on the commits only. */
  lemma SameCommits(sum: Summary, d: Database, d': Database, t: Table)
    requires TableOk(sum, d, t)
    requires d'.log == d.log && d'.open == d.open && d'.sealedEver == d.sealedEver && d'.next == d.next
    ensures TableOk(sum, d', t)
  {
    assert CommitsOk(d', t);
    assert NewerCount(d', t);
  }

  lemma FlushFiles(t: Table, files: Files)
    requires FilesOk(t) && LogOk(t) && files == t.files.(l0 := Merge(t.mem, t.files.l0))
    ensures Represents(OnDisk(files), t.hist, t.horizon)
  {
    assert forall v | v in t.hist :: v in t.hist + t.wal;
    Overlay(t.files, t.mem, t.flushed, t.hist, t.horizon);
    FlushKeeps(Levels(t.mem, t.files.l0, t.files.l1), t.hist, t.horizon);
    assert OnDisk(files) == Apply(Levels(t.mem, t.files.l0, t.files.l1), Flush);
  }

  lemma FlushLog(sum: Summary, d: Database, t: Table, t': Table)
    requires LogOk(t) && CommitsOk(d, t) && NewerCount(d, t) && NothingOpen(d, t)
    requires t' == t.(files := t'.files, mem := [], flushed := t.hist, phase := FlushUnrecorded)
    ensures LogOk(t') && CommitsOk(d, t') && NewerCount(d, t') && OlderFlushed(t')
  {
  }

  lemma FlushKeepsTable(sum: Summary, d: Database, n: string)
    requires DatabaseOk(sum, d) && Enabled(d, WriteL0(n))
    ensures TableOk(sum, Next(sum, d, WriteL0(n)), Next(sum, d, WriteL0(n)).tables[n])
  {
    var d', t := Next(sum, d, WriteL0(n)), d.tables[n];
    var t' := d'.tables[n];
    FlushFiles(t, t'.files);
    FlushLog(sum, d, t, t');
    assert CommitsOk(d', t') && NewerCount(d', t');
  }

  /** Helper: a step that changes no table. */
  lemma TableStays(sum: Summary, d: Database, d': Database, t: Table)
    requires TableOk(sum, d, t) && CommitsOk(d', t) && NewerCount(d', t)
    ensures TableOk(sum, d', t)
  {
  }

  lemma SealTable(sum: Summary, d: Database, t: Table, ts: nat)
    requires CommitsOk(d, t) && NewerCount(d, t) && CommitLogOk(d) && ts in d.open
    ensures CommitsOk(Next(sum, d, Seal(ts)), t) && NewerCount(Next(sum, d, Seal(ts)), t)
  {
  }

  lemma SealKeeps(sum: Summary, d: Database, ts: nat)
    requires DatabaseOk(sum, d) && Enabled(d, Seal(ts))
    ensures DatabaseOk(sum, Next(sum, d, Seal(ts)))
  {
    var d' := Next(sum, d, Seal(ts));
    assert CommitLogOk(d');
    forall n | n in d'.tables ensures TableOk(sum, d', d'.tables[n]) {
      SealTable(sum, d, d.tables[n], ts);
      TableStays(sum, d, d', d.tables[n]);
    }
  }

  /** Helper: a step that changes one table and no commit leaves the other tables good. */
  lemma OthersKept(sum: Summary, d: Database, d': Database, n: string)
    requires DatabaseOk(sum, d) && n in d.tables && n in d'.tables && d' == d.(tables := d.tables[n := d'.tables[n]])
    requires TableOk(sum, d', d'.tables[n])
    ensures DatabaseOk(sum, d')
  {
    forall m | m in d'.tables ensures TableOk(sum, d', d'.tables[m]) {
      if m != n { assert TableOk(sum, d, d.tables[m]); }
    }
  }

  lemma OpenCommitKeeps(sum: Summary, d: Database)
    requires DatabaseOk(sum, d)
    ensures DatabaseOk(sum, Next(sum, d, OpenCommit))
  {
    var d' := Next(sum, d, OpenCommit);
    assert CommitLogOk(d');
    forall n | n in d'.tables ensures TableOk(sum, d', d'.tables[n]) {
      OpenCommitTable(sum, d, d.tables[n]);
      TableStays(sum, d, d', d.tables[n]);
    }
  }

  lemma OpenCommitTable(sum: Summary, d: Database, t: Table)
    requires CommitsOk(d, t) && NewerCount(d, t) && CommitLogOk(d)
    ensures CommitsOk(Next(sum, d, OpenCommit), t) && NewerCount(Next(sum, d, OpenCommit), t)
  {
  }

  lemma TruncateLogKeeps(sum: Summary, d: Database)
    requires DatabaseOk(sum, d) && Enabled(d, TruncateLog)
    ensures DatabaseOk(sum, Next(sum, d, TruncateLog))
  {
    var d' := Next(sum, d, TruncateLog);
    forall n | n in d'.tables ensures TableOk(sum, d', d'.tables[n]) {
      TruncateLogTable(sum, d, d.tables[n]);
      TableStays(sum, d, d', d.tables[n]);
    }
  }

  /** Commits that are open then have no row yet. */
  lemma TruncateLogTable(sum: Summary, d: Database, t: Table)
    requires LogOk(t) && CommitsOk(d, t) && NewerCount(d, t) && CommitLogOk(d) && t.mem == []
    ensures CommitsOk(Next(sum, d, TruncateLog), t) && NewerCount(Next(sum, d, TruncateLog), t)
  {
  }

  lemma ManifestKeeps(sum: Summary, d: Database)
    requires DatabaseOk(sum, d)
    ensures DatabaseOk(sum, Next(sum, d, WriteManifest))
    ensures forall n | n in d.tables :: Next(sum, d, WriteManifest).tables[n].manifest == ManifestOf(sum, d.tables[n].files)
  {
    var d' := Next(sum, d, WriteManifest);
    forall n | n in d'.tables ensures TableOk(sum, d', d'.tables[n]) {
      assert TableOk(sum, d, d.tables[n]);
      RecordKeeps(sum, d, d', d.tables[n]);
    }
  }

  lemma RecordKeeps(sum: Summary, d: Database, d': Database, t: Table)
    requires TableOk(sum, d, t) && d' == d.(tables := d'.tables)
    ensures TableOk(sum, d', Record(sum, t))
  {
    var t' := Record(sum, t);
    assert FilesOk(t') && ManifestOk(sum, t') && LogOk(t') && CommitsOk(d', t');
  }

  lemma CrashKeeps(sum: Summary, d: Database)
    requires DatabaseOk(sum, d) && d.logPresent
    ensures DatabaseOk(sum, Next(sum, d, CrashAndRestart))
  {
    var d' := Next(sum, d, CrashAndRestart);
    forall n | n in d'.tables ensures TableOk(sum, d', d'.tables[n]) {
      assert TableOk(sum, d, d.tables[n]);
      RestartKeeps(sum, d, d.tables[n]);
    }
  }

  lemma WriteL1Keeps(sum: Summary, d: Database, t: Table, t': Table, h: nat)
    requires TableOk(sum, d, t)
    requires t' == t.(files := t.files.(l1 := Merged(t.files, h), hasL1 := true),
                      horizon := if h > t.horizon then h else t.horizon, phase := HalfCompacted)
    ensures TableOk(sum, d, t')
  {
    HalfwayRepresents(t.files, t.flushed, t.horizon, h);
    assert LogOk(t') && CommitsOk(d, t') && NewerCount(d, t') && OlderFlushed(t');
  }

  lemma ClearL0Keeps(sum: Summary, d: Database, t: Table, t': Table)
    requires TableOk(sum, d, t) && t.phase == HalfCompacted
    requires t' == t.(files := t.files.(l0 := []), phase := CompactionUnrecorded)
    ensures TableOk(sum, d, t')
  {
    assert LogOk(t') && CommitsOk(d, t') && NewerCount(d, t') && OlderFlushed(t');
  }

  lemma TruncateWalKeeps(sum: Summary, d: Database, t: Table)
    requires TableOk(sum, d, t) && t.mem == []
    ensures TableOk(sum, d, t.(wal := []))
  {
    assert forall v | v in t.hist :: v in t.hist + t.wal;
    assert t.hist + [] == t.hist;
    var t' := t.(wal := []);
    assert FilesOk(t') && ManifestOk(sum, t') && LogOk(t') && CommitsOk(d, t') && NewerCount(d, t') && OlderFlushed(t');
  }

  lemma FileStepKeepsTable(sum: Summary, d: Database, step: Step)
    requires DatabaseOk(sum, d) && Enabled(d, step)
    requires step.WriteL1? || step.ClearL0? || step.TruncateWal?
    ensures TableOk(sum, Next(sum, d, step), Next(sum, d, step).tables[step.table])
  {
    var d', t := Next(sum, d, step), d.tables[step.table];
    var t' := d'.tables[step.table];
    assert TableOk(sum, d, t);
    if step.WriteL1? { WriteL1Keeps(sum, d, t, t', step.h); }
    if step.ClearL0? { ClearL0Keeps(sum, d, t, t'); }
    if step.TruncateWal? { TruncateWalKeeps(sum, d, t); }
    SameCommits(sum, d, d', t');
  }

  lemma FileStepKeeps(sum: Summary, d: Database, step: Step)
    requires DatabaseOk(sum, d) && Enabled(d, step)
    requires step.WriteL1? || step.ClearL0? || step.TruncateWal?
    ensures DatabaseOk(sum, Next(sum, d, step))
  {
    FileStepKeepsTable(sum, d, step);
    OthersKept(sum, d, Next(sum, d, step), step.table);
  }

  lemma StepKeeps(sum: Summary, d: Database, step: Step)
    requires DatabaseOk(sum, d) && Enabled(d, step)
    ensures DatabaseOk(sum, Next(sum, d, step))
  {
    match step
    case OpenCommit => OpenCommitKeeps(sum, d);
    case TruncateLog => TruncateLogKeeps(sum, d);
    case CrashAndRestart => CrashKeeps(sum, d);
    case WriteManifest => ManifestKeeps(sum, d);
    case AppendRow(n, v) => AppendKeeps(sum, d, n, v); OthersKept(sum, d, Next(sum, d, step), n);
    case Seal(ts) => SealKeeps(sum, d, ts);
    case WriteL0(n) => FlushKeepsTable(sum, d, n); OthersKept(sum, d, Next(sum, d, step), n);
    case WriteL1(n, h) => FileStepKeeps(sum, d, step);
    case ClearL0(n) => FileStepKeeps(sum, d, step);
    case TruncateWal(n) => FileStepKeeps(sum, d, step);
  }

  // ---- Every run, every crash ----

  function Run(sum: Summary, d: Database, steps: seq<Step>): Database
    decreases steps
  {
    if steps == [] then d else Run(sum, Next(sum, d, steps[0]), steps[1..])
  }

  ghost predicate Possible(sum: Summary, d: Database, steps: seq<Step>)
    decreases steps
  {
    steps == [] || (Enabled(d, steps[0]) && Possible(sum, Next(sum, d, steps[0]), steps[1..]))
  }

  lemma {:induction false} RunKeeps(sum: Summary, d: Database, steps: seq<Step>)
    requires DatabaseOk(sum, d) && Possible(sum, d, steps)
    ensures DatabaseOk(sum, Run(sum, d, steps))
    decreases steps
  {
    if steps != [] {
      StepKeeps(sum, d, steps[0]);
      RunKeeps(sum, Next(sum, d, steps[0]), steps[1..]);
    }
  }

  function NewTable(sum: Summary): Table {
    Table(Files([], [], false), ManifestOf(sum, Files([], [], false)), [], [], Recorded, [], [], 0)
  }

  /** Freshly created tables and no commit yet. */
  function NewDatabase(sum: Summary, names: set<string>): Database {
    Database(map n | n in names :: NewTable(sum), {}, false, 1, {}, {})
  }

  lemma NewDatabaseOk(sum: Summary, names: set<string>)
    ensures DatabaseOk(sum, NewDatabase(sum, names))
  {
    var t := NewTable(sum);
    assert All(OnDisk(t.files)) == [];
    RefinesOfSameSet([], []);
  }

  function Served(t: Table): seq<Version> {
    All(Levels(t.mem, t.files.l0, t.files.l1))
  }

  /**
   * Crash atomicity. After any run, with earlier crashes in it, stop at any durable write once the
   * commit log exists: the restarted tables read like exactly the rows of the sealed commits, at
   * every snapshot not below a horizon used, and no row of an unsealed commit is stored anywhere.
   */
  lemma CrashRestoresSealedCommits(sum: Summary, names: set<string>, steps: seq<Step>, n: string, pk: Value, snap: nat)
    requires Possible(sum, NewDatabase(sum, names), steps) && n in Run(sum, NewDatabase(sum, names), steps).tables
    requires Run(sum, NewDatabase(sum, names), steps).logPresent
    ensures var d := Run(sum, NewDatabase(sum, names), steps);
      var t, t' := d.tables[n], Next(sum, d, CrashAndRestart).tables[n];
      && (snap >= t.horizon ==> Read(Served(t'), pk, snap) == Read(Filter(t.hist, d.sealedEver), pk, snap))
      && (forall v | v in Served(t') :: v in t.hist && v.ts in d.sealedEver)
      && t'.manifest == ManifestOf(sum, t'.files)
  {
    NewDatabaseOk(sum, names);
    RunKeeps(sum, NewDatabase(sum, names), steps);
    RestartRestores(sum, Run(sum, NewDatabase(sum, names), steps), n, pk, snap);
  }

  /** The same from any good state. */
  lemma RestartRestores(sum: Summary, d: Database, n: string, pk: Value, snap: nat)
    requires DatabaseOk(sum, d) && d.logPresent && n in d.tables
    ensures var t, t' := d.tables[n], Next(sum, d, CrashAndRestart).tables[n];
      && (snap >= t.horizon ==> Read(Served(t'), pk, snap) == Read(Filter(t.hist, d.sealedEver), pk, snap))
      && (forall v | v in Served(t') :: v in t.hist && v.ts in d.sealedEver)
      && t'.manifest == ManifestOf(sum, t'.files)
  {
    var t, t' := d.tables[n], Next(sum, d, CrashAndRestart).tables[n];
    assert TableOk(sum, d, t);
    assert t' == Restart(sum, t, d.log, d.logPresent, d.sealedEver);
    RestartServes(sum, d, t, t', pk, snap);
  }

  lemma RestartServes(sum: Summary, d: Database, t: Table, t': Table, pk: Value, snap: nat)
    requires TableOk(sum, d, t) && CommitLogOk(d) && d.logPresent && t' == Restart(sum, t, d.log, d.logPresent, d.sealedEver)
    ensures snap >= t.horizon ==> Read(Served(t'), pk, snap) == Read(Filter(t.hist, d.sealedEver), pk, snap)
    ensures forall v | v in Served(t') :: v in t.hist && v.ts in d.sealedEver
    ensures t'.manifest == ManifestOf(sum, t'.files)
  {
    RestartRepresents(sum, d, t);
    RepresentedReads(Levels(t'.mem, t'.files.l0, t'.files.l1), t'.hist, t'.horizon, pk, snap);
    FilterElements(t.hist, d.sealedEver);
  }

  lemma RepresentedReads(s: Levels, hist: seq<Version>, h: nat, pk: Value, snap: nat)
    requires Represents(s, hist, h)
    ensures snap >= h ==> Read(All(s), pk, snap) == Read(hist, pk, snap)
    ensures forall v | v in All(s) :: v in hist
  {
    if snap >= h { RefinesReads(All(s), hist, h, pk, snap); }
  }

  /**
   * All or nothing, across tables: after the restart either no table stores a row of the commit, or
   * every row it wrote, in whichever table, is what a reader at its timestamp gets.
   */
  lemma CommitIsAllOrNothing(sum: Summary, names: set<string>, steps: seq<Step>, ts: nat)
    requires Possible(sum, NewDatabase(sum, names), steps) && Run(sum, NewDatabase(sum, names), steps).logPresent
    ensures var d := Run(sum, NewDatabase(sum, names), steps); var d' := Next(sum, d, CrashAndRestart);
      if ts in d.sealedEver then
        forall n, v | n in d.tables && v in d.tables[n].hist && v.ts == ts && ts >= d.tables[n].horizon ::
          Read(Served(d'.tables[n]), v.pk, ts) == Payload(Some(v))
      else
        forall n, v | n in d.tables && v in Served(d'.tables[n]) :: v.ts != ts
  {
    var d := Run(sum, NewDatabase(sum, names), steps);
    NewDatabaseOk(sum, names);
    RunKeeps(sum, NewDatabase(sum, names), steps);
    if ts in d.sealedEver {
      forall n, v | n in d.tables && v in d.tables[n].hist && v.ts == ts && ts >= d.tables[n].horizon
        ensures Read(Served(Next(sum, d, CrashAndRestart).tables[n]), v.pk, ts) == Payload(Some(v))
      {
        var hist := d.tables[n].hist;
        CrashRestoresSealedCommits(sum, names, steps, n, v.pk, ts);
        FilterElements(hist, d.sealedEver);
        ConsistentPart(hist, d.tables[n].wal);
        NewestUnique(Filter(hist, d.sealedEver), v.pk, ts, v);
      }
    } else {
      forall n, v | n in d.tables && v in Served(Next(sum, d, CrashAndRestart).tables[n]) ensures v.ts != ts {
        CrashRestoresSealedCommits(sum, names, steps, n, v.pk, 0);
      }
    }
  }

  // ---- Where the code gives less ----

  /**
   * A flush followed by a crash leaves no row of an unsealed commit in the table exactly when no
   * open commit had a row in the memtable. The code flushes on size alone.
   */
  lemma FlushIsSafeIff(sum: Summary, d: Database, n: string)
    requires DatabaseOk(sum, d) && d.logPresent && n in d.tables && d.tables[n].phase == Recorded
    ensures var t' := Next(sum, Next(sum, d, WriteL0(n)), CrashAndRestart).tables[n];
      (forall v | v in Served(t') :: v.ts in d.sealedEver) <==> NothingOpen(d, d.tables[n])
  {
    var t := d.tables[n];
    if NothingOpen(d, t) {
      StepKeeps(sum, d, WriteL0(n));
      RestartRestores(sum, Next(sum, d, WriteL0(n)), n, Null, 0);
    } else {
      var v :| v in t.mem && v.ts in d.open;
      FlushedRowServed(sum, d, n, v);
    }
  }

  lemma FlushedRowServed(sum: Summary, d: Database, n: string, v: Version)
    requires n in d.tables && ManifestOk(sum, d.tables[n]) && d.tables[n].phase == Recorded && v in d.tables[n].mem
    ensures v in Served(Next(sum, Next(sum, d, WriteL0(n)), CrashAndRestart).tables[n])
  {
    var t, mid := d.tables[n], Next(sum, d, WriteL0(n));
    MergeElements(t.mem, t.files.l0);
    assert Reconcile(sum, mid.tables[n].manifest, mid.tables[n].files) == mid.tables[n].files;
    assert v in Next(sum, mid, CrashAndRestart).tables[n].files.l0;
  }

  // A commit with timestamp 2 and two rows, after an empty commit with timestamp 1.

  function FirstRow(): Version { Version(Int(1), 2, false, [Int(1)]) }
  function SecondRow(): Version { Version(Int(2), 2, false, [Int(2)]) }

  function UntilFirstRow(): seq<Step> {
    [OpenCommit, Seal(1), OpenCommit, AppendRow("t", FirstRow())]
  }

  function WithTable(t: Table): Database {
    Database(map["t" := t], {1}, true, 3, {2}, {1})
  }

  lemma RunFirst(sum: Summary, d: Database, steps: seq<Step>)
    requires steps != [] && Enabled(d, steps[0])
    ensures Run(sum, d, steps) == Run(sum, Next(sum, d, steps[0]), steps[1..])
    ensures Possible(sum, d, steps) <==> Possible(sum, Next(sum, d, steps[0]), steps[1..])
  {
  }

  /** The state after the first row. */
  lemma FirstRowLogged(sum: Summary)
    ensures Possible(sum, NewDatabase(sum, {"t"}), UntilFirstRow())
    ensures Run(sum, NewDatabase(sum, {"t"}), UntilFirstRow()) ==
      WithTable(NewTable(sum).(wal := [FirstRow()], mem := [FirstRow()], hist := [FirstRow()]))
  {
    var d0, t := NewDatabase(sum, {"t"}), NewTable(sum);
    var d1 := Database(map["t" := t], {}, false, 2, {1}, {});
    var d2 := Database(map["t" := t], {1}, true, 2, {}, {1});
    assert Next(sum, d0, OpenCommit) == d1 && Next(sum, d1, Seal(1)) == d2;
    assert Next(sum, d2, OpenCommit) == WithTable(t);
    var t' := t.(wal := [FirstRow()], mem := [FirstRow()], hist := [FirstRow()]);
    var d4 := WithTable(t');
    assert Merge([FirstRow()], []) == [FirstRow()] && [] + [FirstRow()] == [FirstRow()];
    assert map["t" := t]["t" := t'] == map["t" := t'];
    assert Next(sum, WithTable(t), AppendRow("t", FirstRow())) == d4;
    RunFirst(sum, d0, UntilFirstRow());
    RunFirst(sum, d1, UntilFirstRow()[1..]);
    RunFirst(sum, d2, UntilFirstRow()[1..][1..]);
    RunFirst(sum, WithTable(t), UntilFirstRow()[1..][1..][1..]);
  }

  /** Between two rows of one commit the memtable is flushed; after a crash one row of the unsealed commit is there. */
  lemma FlushInsideCommitLeavesHalf(sum: Summary)
    ensures Possible(sum, NewDatabase(sum, {"t"}), UntilFirstRow())
    ensures var d := Run(sum, NewDatabase(sum, {"t"}), UntilFirstRow());
      var flushed := Next(sum, d, WriteL0("t"));
      && Enabled(flushed, AppendRow("t", SecondRow()))
      && var after := Next(sum, Next(sum, flushed, AppendRow("t", SecondRow())), CrashAndRestart);
         && 2 !in after.sealedEver
         && FirstRow() in Served(after.tables["t"]) && SecondRow() !in Served(after.tables["t"])
  {
    var v, w := FirstRow(), SecondRow();
    FirstRowLogged(sum);
    var d4 := Run(sum, NewDatabase(sum, {"t"}), UntilFirstRow());
    var d5 := Next(sum, d4, WriteL0("t"));
    assert Merge([v], []) == [v];
    assert d5.tables["t"].files == Files([v], [], false);
    var d6 := Next(sum, d5, AppendRow("t", w));
    assert d6.tables["t"].wal == [v, w];
    NothingCounted([v, w], {1}, []);
    var t := Next(sum, d6, CrashAndRestart).tables["t"];
    assert t.mem == [] && t.files == Files([v], [], false);
    assert Served(t) == [v];
  }

  lemma {:induction false} NothingCounted(wal: seq<Version>, sealed: set<nat>, mem: seq<Version>)
    requires forall v | v in wal :: !Counts(v, sealed, true)
    ensures Replay(wal, sealed, true, mem) == mem
    decreases wal
  {
    if wal != [] { NothingCounted(wal[1..], sealed, mem); }
  }

  // ---- Truncations ----

  /** What a restarted table holds, in its files or in its memtable. */
  ghost predicate Holds(t: Table, v: Version) {
    v in t.flushed || v in t.mem
  }

  /**
   * Truncating the log of a table before a crash loses no sealed row exactly when the memtable holds no sealed row
   * that is not in the files. The code truncates after a flush without looking at the new memtable.
   */
  lemma TruncateWalIsSafeIff(sum: Summary, d: Database, n: string)
    requires DatabaseOk(sum, d) && d.logPresent && n in d.tables
    ensures var t := d.tables[n]; var t' := Next(sum, Next(sum, d, TruncateWal(n)), CrashAndRestart).tables[n];
      (forall v | v in t.hist && v.ts in d.sealedEver :: Holds(t', v)) <==>
      (forall v | v in t.mem && v.ts in d.sealedEver :: v in t.flushed)
  {
    assert d.tables[n].wal[..0] == [];
    assert LoseTail(d, n, 0) == Next(sum, d, TruncateWal(n));
    LostTailIsSafeIff(sum, d, n, 0);
  }

  /** Only the first `k` records of a table's log have reached the disk. */
  function LoseTail(d: Database, n: string, k: nat): Database
    requires n in d.tables && k <= |d.tables[n].wal|
  {
    d.(tables := d.tables[n := d.tables[n].(wal := d.tables[n].wal[..k])])
  }

  /**
   * A caller of the group sync may return before its rows are on disk, and seal its commit. A crash that loses the end
   * of a table's log loses no sealed row exactly when every sealed row of the memtable is before it or in the files.
   */
  lemma LostTailIsSafeIff(sum: Summary, d: Database, n: string, k: nat)
    requires DatabaseOk(sum, d) && d.logPresent && n in d.tables && k <= |d.tables[n].wal|
    ensures var t := d.tables[n]; var t' := Next(sum, LoseTail(d, n, k), CrashAndRestart).tables[n];
      (forall v | v in t.hist && v.ts in d.sealedEver :: Holds(t', v)) <==>
      (forall v | v in t.mem && v.ts in d.sealedEver :: v in t.flushed || v in t.wal[..k])
  {
    var t, t' := d.tables[n], Next(sum, LoseTail(d, n, k), CrashAndRestart).tables[n];
    assert TableOk(sum, d, t);
    TailReplays(t, d.log, k);
    assert t'.flushed == t.flushed && t'.mem == Replay(t.wal[..k], d.log, true, []);
  }

  lemma TailReplays(t: Table, log: set<nat>, k: nat)
    requires LogOk(t) && k <= |t.wal|
    ensures forall v :: v in Replay(t.wal[..k], log, true, []) <==> v in t.wal[..k] && v.ts in log
  {
    assert forall v | v in t.wal[..k] :: v in t.hist + t.wal;
    assert [] + t.wal[..k] == t.wal[..k];
    ReplayElements(t.wal[..k], log, true, []);
  }

  /**
   * CHECKPOINT flushes every table and truncates the commit log at the end. Before a crash this loses no sealed row of a
   * table exactly when its memtable holds none that is not in the files: none was committed in between.
   */
  lemma TruncateLogIsSafeIff(sum: Summary, d: Database, n: string)
    requires DatabaseOk(sum, d) && d.logPresent && n in d.tables
    ensures var t := d.tables[n]; var t' := Next(sum, Next(sum, d, TruncateLog), CrashAndRestart).tables[n];
      (forall v | v in t.hist && v.ts in d.sealedEver :: Holds(t', v)) <==>
      (forall v | v in t.mem && v.ts in d.sealedEver :: v in t.flushed)
  {
    var t := d.tables[n];
    assert TableOk(sum, d, t);
    assert forall v | v in t.wal :: v in t.hist + t.wal;
    NothingCounted(t.wal, {}, []);
  }

  /** The state after the commit with one row is sealed. */
  function AfterSeal(sum: Summary): Database {
    Database(map["t" := NewTable(sum).(wal := [FirstRow()], mem := [FirstRow()], hist := [FirstRow()])],
             {1, 2}, true, 3, {}, {1, 2})
  }

  lemma SealedRow(sum: Summary)
    ensures Possible(sum, NewDatabase(sum, {"t"}), UntilFirstRow())
    ensures var d := Run(sum, NewDatabase(sum, {"t"}), UntilFirstRow());
      Enabled(d, Seal(2)) && Next(sum, d, Seal(2)) == AfterSeal(sum)
  {
    FirstRowLogged(sum);
    assert {1} + {2} == {1, 2} && {2} - {2} == {};
  }

  /** A row committed since the flush: truncating the table's log, or the commit log, loses it in a crash. */
  lemma TruncationLosesSealedRow(sum: Summary, step: Step)
    requires step == TruncateWal("t") || step == TruncateLog
    ensures Possible(sum, NewDatabase(sum, {"t"}), UntilFirstRow())
    ensures var d := Next(sum, Run(sum, NewDatabase(sum, {"t"}), UntilFirstRow()), Seal(2));
      && d.open == {} && FirstRow().ts in d.sealedEver && FirstRow() in Served(d.tables["t"])
      && FirstRow() !in Served(Next(sum, Next(sum, d, step), CrashAndRestart).tables["t"])
  {
    SealedRow(sum);
    var d, v := AfterSeal(sum), FirstRow();
    assert v in Served(d.tables["t"]);
    NothingCounted([v], {}, []);
    var t := Next(sum, Next(sum, d, step), CrashAndRestart).tables["t"];
    assert t.mem == [] && t.files == Files([], [], false);
  }

  // ---- Flushes beside a compaction ----

  /** A sealed row of the memtable that was never flushed. */
  predicate IsNew(d: Database, t: Table, v: Version) {
    v in t.mem && v.ts in d.sealedEver && v !in t.flushed
  }

  /** Some snapshot that is not below the horizon sees it. */
  ghost predicate StillSeen(d: Database, t: Table, v: Version) {
    forall w | IsNew(d, t, w) && w.pk == v.pk && w.ts > v.ts :: w.ts > t.horizon
  }

  /** A new row that is seen may be missing only if it deletes what level 1 does not hold anyway. */
  ghost predicate NothingMissed(d: Database, t: Table, l1: seq<Version>) {
    forall v | IsNew(d, t, v) && StillSeen(d, t, v) :: v.tombstone && forall x | x in l1 :: x.pk != v.pk
  }

  /** Helper: of one key, what was never flushed is newer than what was. */
  lemma NewIsNewer(d: Database, t: Table, v: Version, w: Version)
    requires LogOk(t) && OlderFlushed(t) && IsNew(d, t, v) && v.pk == w.pk && w in t.hist && w.ts in d.sealedEver
    ensures w.ts > v.ts ==> IsNew(d, t, w)
    ensures w in t.flushed ==> w.ts < v.ts
  {
  }

  lemma MissedRowShows(d: Database, t: Table, l1: seq<Version>, v: Version)
    requires LogOk(t) && CommitsOk(d, t) && OlderFlushed(t) && (forall x | x in l1 :: x in t.flushed)
    requires IsNew(d, t, v) && StillSeen(d, t, v) && Refines(l1, Filter(t.hist, d.sealedEver), t.horizon)
    ensures v.tombstone && forall x | x in l1 :: x.pk != v.pk
  {
    var sealed := Filter(t.hist, d.sealedEver);
    var snap := if v.ts > t.horizon then v.ts else t.horizon;
    FilterElements(t.hist, d.sealedEver);
    ConsistentPart(t.hist, t.wal);
    forall w | w in sealed && Matches(w, v.pk, snap) ensures w.ts <= v.ts { NewIsNewer(d, t, v, w); }
    NewestUnique(sealed, v.pk, snap, v);
    assert StandsFor(Newest(l1, v.pk, snap), Newest(sealed, v.pk, snap));
    NewestIsNewest(l1, v.pk, snap);
    forall x | x in l1 ensures x.pk != v.pk {
      if x.pk == v.pk { NewIsNewer(d, t, v, x); }
    }
  }

  lemma NothingMissedRefines(d: Database, t: Table, l1: seq<Version>, pk: Value, snap: nat)
    requires LogOk(t) && CommitsOk(d, t) && OlderFlushed(t) && (forall x | x in l1 :: x in t.flushed) && Consistent(t.flushed)
    requires NothingMissed(d, t, l1) && StandsFor(Newest(l1, pk, snap), Newest(t.flushed, pk, snap)) && snap >= t.horizon
    ensures StandsFor(Newest(l1, pk, snap), Newest(Filter(t.hist, d.sealedEver), pk, snap))
  {
    var sealed := Filter(t.hist, d.sealedEver);
    FilterElements(t.hist, d.sealedEver);
    NewestIsNewest(sealed, pk, snap);
    NewestIsNewest(l1, pk, snap);
    NewestIsNewest(t.flushed, pk, snap);
    var newest := Newest(sealed, pk, snap);
    if newest.Some? {
      if newest.value in t.flushed {
        NewestUnique(t.flushed, pk, snap, newest.value);
      } else {
        assert IsNew(d, t, newest.value);
        forall w | IsNew(d, t, w) && w.pk == pk && w.ts > newest.value.ts ensures w.ts > t.horizon {
          assert w in sealed;
        }
        assert StillSeen(d, t, newest.value);
      }
    }
  }

  /** Level 1 alone stands for the sealed history exactly when it misses nothing that is seen. */
  lemma LevelOneAloneIff(d: Database, t: Table, f: Files)
    requires LogOk(t) && CommitsOk(d, t) && OlderFlushed(t)
    requires f.l0 == [] && Represents(OnDisk(f), t.flushed, t.horizon)
    ensures Represents(OnDisk(f), Filter(t.hist, d.sealedEver), t.horizon) <==> NothingMissed(d, t, f.l1)
  {
    var sealed := Filter(t.hist, d.sealedEver);
    assert All(OnDisk(f)) == f.l1;
    FilterElements(t.hist, d.sealedEver);
    ConsistentPart(t.hist, t.wal);
    if NothingMissed(d, t, f.l1) {
      forall pk, snap | snap >= t.horizon ensures StandsFor(Newest(f.l1, pk, snap), Newest(sealed, pk, snap)) {
        NothingMissedRefines(d, t, f.l1, pk, snap);
      }
    } else if Represents(OnDisk(f), sealed, t.horizon) {
      forall v | IsNew(d, t, v) && StillSeen(d, t, v) ensures v.tombstone && forall x | x in f.l1 :: x.pk != v.pk {
        MissedRowShows(d, t, f.l1, v);
      }
    }
  }

  /** A flush between the two file writes of a compaction, the rest of both, and a crash. */
  function FlushedHalfway(sum: Summary, d: Database, n: string): (r: Database)
    ensures n in d.tables ==> n in r.tables
  {
    Next(sum, Next(sum, Next(sum, Next(sum, d, WriteL0(n)), ClearL0(n)), TruncateWal(n)), CrashAndRestart)
  }

  lemma FlushedHalfwayServes(sum: Summary, d: Database, n: string)
    requires n in d.tables
    ensures var t' := FlushedHalfway(sum, d, n).tables[n];
      t'.mem == [] && t'.files.l0 == [] && t'.files.l1 == d.tables[n].files.l1 && Served(t') == d.tables[n].files.l1
  {
    var t := d.tables[n];
    var d1 := Next(sum, d, WriteL0(n));
    var d2 := Next(sum, d1, ClearL0(n));
    assert d2.tables[n].files == t.files.(l0 := []);
    var d3 := Next(sum, d2, TruncateWal(n));
    assert d3.tables[n].wal == [] && d3.tables[n].files == t.files.(l0 := []);
    var t' := Next(sum, d3, CrashAndRestart).tables[n];
    assert t'.mem == [] && t'.files == t.files.(l0 := []);
    assert Served(t') == [] + ([] + t.files.l1);
  }

  /**
   * The second file write of the compaction empties the level 0 that the flush has just written, and the flush truncates
   * the log: the table stands for the sealed history exactly when level 1 misses no new row of the memtable that is seen.
   */
  lemma FlushDuringCompactionSafeIff(sum: Summary, d: Database, n: string)
    requires DatabaseOk(sum, d) && n in d.tables && d.tables[n].phase == HalfCompacted
    ensures var t, t' := d.tables[n], FlushedHalfway(sum, d, n).tables[n];
      Represents(Levels(t'.mem, t'.files.l0, t'.files.l1), Filter(t.hist, d.sealedEver), t.horizon) <==>
        NothingMissed(d, t, t.files.l1)
  {
    var t, t' := d.tables[n], FlushedHalfway(sum, d, n).tables[n];
    assert TableOk(sum, d, t);
    var f := t.files.(l0 := []);
    FlushedHalfwayServes(sum, d, n);
    assert OnDisk(f) == Levels(t'.mem, t'.files.l0, t'.files.l1);
    LevelOneAloneIff(d, t, f);
  }

  /** A run from a new database in which this loses a sealed row. */
  lemma FlushDuringCompactionLosesRow(sum: Summary)
    ensures Possible(sum, NewDatabase(sum, {"t"}), UntilFirstRow())
    ensures var d := Next(sum, Run(sum, NewDatabase(sum, {"t"}), UntilFirstRow()), Seal(2));
      && Enabled(d, WriteL1("t", 0))
      && FirstRow().ts in d.sealedEver && FirstRow() in Served(d.tables["t"])
      && FirstRow() !in Served(FlushedHalfway(sum, Next(sum, d, WriteL1("t", 0)), "t").tables["t"])
  {
    SealedRow(sum);
    var d, v := AfterSeal(sum), FirstRow();
    assert v in Served(d.tables["t"]);
    var half := Next(sum, d, WriteL1("t", 0));
    assert Merged(Files([], [], false), 0) == [];
    assert half.tables["t"].files == Files([], [], true);
    FlushedHalfwayServes(sum, half, "t");
  }

  /** A flush after the file writes of a compaction and before its manifest write, and a crash. */
  function FlushedUnrecorded(sum: Summary, d: Database, n: string): (r: Database)
    ensures n in d.tables ==> n in r.tables
  {
    Next(sum, Next(sum, Next(sum, d, WriteL0(n)), TruncateWal(n)), CrashAndRestart)
  }

  /** The manifest is still that from before the compaction, and its level 0 looks like the one just flushed. */
  predicate Mistaken(sum: Summary, t: Table) {
    && t.files.hasL1
    && !(t.manifest.l1.Some? && SameFile(t.manifest.l1.value, sum(t.files.l1)))
    && t.manifest.l0.Some? && SameFile(t.manifest.l0.value, sum(Merge(t.mem, t.files.l0)))
  }

  lemma FlushedUnrecordedServes(sum: Summary, d: Database, n: string)
    requires n in d.tables
    ensures var t, t' := d.tables[n], FlushedUnrecorded(sum, d, n).tables[n];
      && t'.mem == []
      && t'.files == t.files.(l0 := if Mistaken(sum, t) then [] else Merge(t.mem, t.files.l0))
  {
    var d1 := Next(sum, d, WriteL0(n));
    var d2 := Next(sum, d1, TruncateWal(n));
    assert d2.tables[n].wal == [] && d2.tables[n].files == d1.tables[n].files;
    assert Next(sum, d2, CrashAndRestart).tables[n].mem == [];
  }

  /** Startup then takes the flush for a half-done compaction and empties level 0. */
  lemma FlushBeforeManifestSafeIff(sum: Summary, d: Database, n: string)
    requires DatabaseOk(sum, d) && n in d.tables && d.tables[n].phase == CompactionUnrecorded
    requires NothingOpen(d, d.tables[n])
    ensures var t, t' := d.tables[n], FlushedUnrecorded(sum, d, n).tables[n];
      Represents(Levels(t'.mem, t'.files.l0, t'.files.l1), Filter(t.hist, d.sealedEver), t.horizon) <==>
        !Mistaken(sum, t) || NothingMissed(d, t, t.files.l1)
  {
    var t, t' := d.tables[n], FlushedUnrecorded(sum, d, n).tables[n];
    assert TableOk(sum, d, t);
    FlushedUnrecordedServes(sum, d, n);
    assert OnDisk(t'.files) == Levels(t'.mem, t'.files.l0, t'.files.l1);
    if Mistaken(sum, t) {
      assert t'.files == t.files;
      LevelOneAloneIff(d, t, t.files);
    } else {
      FlushFiles(t, t'.files);
      AllSealed(d, t);
    }
  }

  /** Without an open commit in the memtable the history is sealed. */
  lemma AllSealed(d: Database, t: Table)
    requires LogOk(t) && CommitsOk(d, t) && NothingOpen(d, t)
    ensures Filter(t.hist, d.sealedEver) == t.hist
  {
    assert forall v | v in t.hist :: v.ts in d.sealedEver;
    FilterAll(t.hist, d.sealedEver);
  }

  lemma {:induction false} FilterAll(s: seq<Version>, sealed: set<nat>)
    requires forall v | v in s :: v.ts in sealed
    ensures Filter(s, sealed) == s
  {
    if s != [] { FilterAll(s[1..], sealed); }
  }

  // ---- Before the first seal ----

  /** A crash before the first commit is sealed: the row of the open commit is restored. */
  lemma FirstCommitTornIsRestored(sum: Summary)
    ensures var v := Version(Int(1), 1, false, [Int(1)]);
      var d := Next(sum, Next(sum, NewDatabase(sum, {"t"}), OpenCommit), AppendRow("t", v));
      && Enabled(Next(sum, NewDatabase(sum, {"t"}), OpenCommit), AppendRow("t", v))
      && d.sealedEver == {} && v in Next(sum, d, CrashAndRestart).tables["t"].mem
  {
    var v := Version(Int(1), 1, false, [Int(1)]);
    var d0 := NewDatabase(sum, {"t"});
    NewDatabaseOk(sum, {"t"});
    var d1 := Next(sum, d0, OpenCommit);
    StepKeeps(sum, d0, OpenCommit);
    var d := Next(sum, d1, AppendRow("t", v));
    assert Enabled(d1, AppendRow("t", v));
    assert d.tables["t"].wal == [v] && !d.logPresent;
    assert Consistent(d.tables["t"].hist + d.tables["t"].wal);
    ReplaysAll(d.tables["t"], d.log);
  }

  /**
   * Before the first commit is ever sealed there is no commit log, and a restart replays every
   * logged row: a torn first commit is then restored in part.
   */
  lemma WithoutCommitLogEverythingReplays(sum: Summary, d: Database, n: string)
    requires DatabaseOk(sum, d) && !d.logPresent && n in d.tables
    ensures var t' := Next(sum, d, CrashAndRestart).tables[n];
      (forall v | v in t'.mem :: v.ts in d.sealedEver) <==> (forall v | v in d.tables[n].wal :: v.ts in d.sealedEver)
  {
    assert TableOk(sum, d, d.tables[n]);
    var t' := Next(sum, d, CrashAndRestart).tables[n];
    ReplaysAll(d.tables[n], d.log);
    assert forall v :: v in t'.mem <==> v in d.tables[n].wal;
  }

  lemma ReplaysAll(t: Table, log: set<nat>)
    requires Consistent(t.hist + t.wal)
    ensures forall v :: v in Replay(t.wal, log, false, []) <==> v in t.wal
  {
    assert forall v | v in t.wal :: v in t.hist + t.wal;
    assert [] + t.wal == t.wal;
    ReplayElements(t.wal, log, false, []);
  }
}
