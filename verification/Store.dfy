/** One table of the LSM engine: memtable, level 0 and level 1 as a refinement of its write history. */
module Store {
  import opened Values
  import opened Versions
  import opened Compaction
  import opened ReadPaths
  import opened Bloom
  import Codec

  /** The versions of a table, newest place first; each part is sorted. */
  datatype Levels = Levels(mem: seq<Version>, l0: seq<Version>, l1: seq<Version>)

  function All(s: Levels): seq<Version> {
    s.mem + (s.l0 + s.l1)
  }

  datatype Op = Write(v: Version) | Flush | Compact(horizon: nat)

  /** What each operation does to the three parts. */
  function Apply(s: Levels, op: Op): Levels {
    match op
    case Write(v) => s.(mem := Merge([v], s.mem))
    case Flush => Levels([], Merge(s.mem, s.l0), s.l1)
    case Compact(h) =>
      var merged := Merge(s.l0, s.l1);
      Levels(s.mem, [], if h > 0 then Gc(merged, h) else merged)
  }

  function HistoryAfter(hist: seq<Version>, op: Op): seq<Version> {
    if op.Write? then hist + [op.v] else hist
  }

  function HorizonAfter(h: nat, op: Op): nat {
    if op.Compact? && op.horizon > h then op.horizon else h
  }

  /** A write is younger than every earlier version of its key. */
  ghost predicate InOrder(hist: seq<Version>, op: Op) {
    op.Write? ==> forall w | w in hist && w.pk == op.v.pk :: w.ts < op.v.ts
  }

  /** Sorted parts that agree with each other; a newer part holds the newer versions of its keys. */
  ghost predicate Ok(s: Levels) {
    && Sorted(s.mem) && Sorted(s.l0) && Sorted(s.l1) && Consistent(All(s))
    && Dominates(s.mem, s.l0 + s.l1) && Dominates(s.l0, s.l1)
  }

  /** The table stands for its history at every snapshot not below the largest horizon used. */
  ghost predicate Represents(s: Levels, hist: seq<Version>, h: nat) {
    && Ok(s) && Consistent(hist) && Refines(All(s), hist, h)
    && forall v | v in All(s) :: v in hist
  }

  // ---- Each operation keeps the representation ----

  lemma InsertElements(v: Version, mem: seq<Version>)
    requires forall w | w in mem && w.pk == v.pk :: w.ts != v.ts
    ensures forall w :: w in Merge([v], mem) <==> w == v || w in mem
  {
    MergeElements([v], mem);
  }

  lemma WriteKeeps(s: Levels, hist: seq<Version>, h: nat, v: Version)
    requires Represents(s, hist, h) && InOrder(hist, Write(v))
    ensures Represents(Apply(s, Write(v)), hist + [v], h)
  {
    var s' := Apply(s, Write(v));
    InsertElements(v, s.mem);
    MergeSorted([v], s.mem);
    assert forall w :: w in All(s') <==> w == v || w in All(s);
    forall pk, snap | snap >= h ensures StandsFor(Newest(All(s'), pk, snap), Newest(hist + [v], pk, snap)) {
      NewestOfSameSet(All(s'), All(s) + [v], pk, snap);
      NewestOfConcat(All(s), [v], pk, snap);
      NewestOfConcat(hist, [v], pk, snap);
      NewestIsNewest(hist, pk, snap);
      assert StandsFor(Newest(All(s), pk, snap), Newest(hist, pk, snap));
    }
  }

  lemma FlushKeeps(s: Levels, hist: seq<Version>, h: nat)
    requires Represents(s, hist, h)
    ensures Represents(Apply(s, Flush), hist, h)
    ensures forall v :: v in All(Apply(s, Flush)) <==> v in All(s)
  {
    var s' := Apply(s, Flush);
    assert Consistent(s.mem + s.l0);
    MergeIsUnion(s.mem, s.l0);
    MergeSorted(s.mem, s.l0);
    assert forall v :: v in All(s') <==> v in All(s);
    RefinesOfSameSet(All(s'), All(s));
    RefinesTransitive(All(s'), All(s), hist, 0, h, h);
  }

  lemma CompactOk(s: Levels, horizon: nat)
    requires Ok(s)
    ensures Ok(Apply(s, Compact(horizon)))
    ensures forall v | v in All(Apply(s, Compact(horizon))) :: v in All(s)
  {
    var merged := Merge(s.l0, s.l1);
    assert Consistent(s.l0 + s.l1);
    MergeIsUnion(s.l0, s.l1);
    MergeSorted(s.l0, s.l1);
    GcSorted(merged, horizon);
    GcElements(merged, horizon);
  }

  lemma CompactRefines(s: Levels, horizon: nat)
    requires Ok(s)
    ensures Refines(All(Apply(s, Compact(horizon))), All(s), horizon)
  {
    var s', merged := Apply(s, Compact(horizon)), Merge(s.l0, s.l1);
    assert Consistent(s.l0 + s.l1);
    MergeIsUnion(s.l0, s.l1);
    MergeSorted(s.l0, s.l1);
    var mid := s.mem + merged;
    assert forall v :: v in mid <==> v in All(s);
    RefinesOfSameSet(mid, All(s));
    assert All(s') == s.mem + s'.l1;
    if horizon > 0 {
      GcUnderNewer(s.mem, merged, horizon);
      RefinesTransitive(All(s'), mid, All(s), horizon, 0, horizon);
    }
  }

  lemma CompactKeeps(s: Levels, hist: seq<Version>, h: nat, horizon: nat)
    requires Represents(s, hist, h)
    ensures Represents(Apply(s, Compact(horizon)), hist, HorizonAfter(h, Compact(horizon)))
  {
    CompactOk(s, horizon);
    CompactRefines(s, horizon);
    RefinesTransitive(All(Apply(s, Compact(horizon))), All(s), hist, horizon, h, HorizonAfter(h, Compact(horizon)));
  }

  /** A write is in the memtable; a flush empties it into level 0; a compaction empties level 0 into level 1. */
  lemma ApplyMoves(s: Levels, v: Version, h: nat)
    requires Ok(s)
    ensures v in Apply(s, Write(v)).mem && Apply(s, Write(v)).l0 == s.l0 && Apply(s, Write(v)).l1 == s.l1
    ensures var f := Apply(s, Flush); f.mem == [] && f.l1 == s.l1 && forall w :: w in f.l0 <==> w in s.mem || w in s.l0
    ensures var c := Apply(s, Compact(0)); c.mem == s.mem && c.l0 == [] && forall w :: w in c.l1 <==> w in s.l0 || w in s.l1
    ensures var c := Apply(s, Compact(h)); c.mem == s.mem && c.l0 == [] && forall w | w in c.l1 :: w in s.l0 || w in s.l1
  {
    MergeElements([v], s.mem);
    assert Consistent(s.mem + s.l0) && Consistent(s.l0 + s.l1);
    MergeIsUnion(s.mem, s.l0);
    MergeIsUnion(s.l0, s.l1);
    MergeSorted(s.l0, s.l1);
    GcElements(Merge(s.l0, s.l1), h);
  }

  lemma ApplyKeeps(s: Levels, hist: seq<Version>, h: nat, op: Op)
    requires Represents(s, hist, h) && InOrder(hist, op)
    ensures Represents(Apply(s, op), HistoryAfter(hist, op), HorizonAfter(h, op))
  {
    match op
    case Write(v) => WriteKeeps(s, hist, h, v);
    case Flush => FlushKeeps(s, hist, h);
    case Compact(horizon) => CompactKeeps(s, hist, h, horizon);
  }

  // ---- Whole runs ----

  const EMPTY := Levels([], [], [])

  function RunFrom(s: Levels, ops: seq<Op>): Levels
    decreases ops
  {
    if ops == [] then s else RunFrom(Apply(s, ops[0]), ops[1..])
  }

  function History(hist: seq<Version>, ops: seq<Op>): seq<Version>
    decreases ops
  {
    if ops == [] then hist else History(HistoryAfter(hist, ops[0]), ops[1..])
  }

  function Horizon(h: nat, ops: seq<Op>): nat
    decreases ops
  {
    if ops == [] then h else Horizon(HorizonAfter(h, ops[0]), ops[1..])
  }

  ghost predicate Legal(hist: seq<Version>, ops: seq<Op>)
    decreases ops
  {
    ops == [] || (InOrder(hist, ops[0]) && Legal(HistoryAfter(hist, ops[0]), ops[1..]))
  }

  lemma {:induction false} RunKeeps(s: Levels, hist: seq<Version>, h: nat, ops: seq<Op>)
    requires Represents(s, hist, h) && Legal(hist, ops)
    ensures Represents(RunFrom(s, ops), History(hist, ops), Horizon(h, ops))
    decreases ops
  {
    if ops != [] {
      ApplyKeeps(s, hist, h, ops[0]);
      RunKeeps(Apply(s, ops[0]), HistoryAfter(hist, ops[0]), HorizonAfter(h, ops[0]), ops[1..]);
    }
  }

  /**
   * Any interleaving of in-order writes, flushes and compactions reads like the bare list of
   * writes, at every snapshot that is not below a horizon used.
   */
  lemma RunReadsLikeHistory(ops: seq<Op>, pk: Value, snap: nat)
    requires Legal([], ops) && snap >= Horizon(0, ops)
    ensures Read(All(RunFrom(EMPTY, ops)), pk, snap) == Read(History([], ops), pk, snap)
  {
    assert Represents(EMPTY, [], 0) by { RefinesOfSameSet(All(EMPTY), []); }
    RunKeeps(EMPTY, [], 0, ops);
    RefinesReads(All(RunFrom(EMPTY, ops)), History([], ops), Horizon(0, ops), pk, snap);
  }

  /**
   * Two tables that stand for the same history and then apply the same writes show the same rows,
   * whatever each one's flush and compaction schedule was.
   */
  lemma ReplicaConverges(s: Levels, t: Levels, hist: seq<Version>, hs: nat, ht: nat,
                         primary: seq<Op>, replica: seq<Op>, pk: Value, snap: nat)
    requires Represents(s, hist, hs) && Represents(t, hist, ht)
    requires Legal(hist, primary) && Legal(hist, replica) && History(hist, primary) == History(hist, replica)
    requires snap >= Horizon(hs, primary) && snap >= Horizon(ht, replica)
    ensures Read(All(RunFrom(s, primary)), pk, snap) == Read(All(RunFrom(t, replica)), pk, snap)
  {
    RunKeeps(s, hist, hs, primary);
    RunKeeps(t, hist, ht, replica);
    SameHistorySameRows(RunFrom(s, primary), RunFrom(t, replica), History(hist, primary),
                        Horizon(hs, primary), Horizon(ht, replica), pk, snap);
  }

  lemma SameHistorySameRows(s: Levels, t: Levels, hist: seq<Version>, hs: nat, ht: nat, pk: Value, snap: nat)
    requires Represents(s, hist, hs) && Represents(t, hist, ht) && snap >= hs && snap >= ht
    ensures Read(All(s), pk, snap) == Read(All(t), pk, snap)
  {
    RefinesReads(All(s), hist, hs, pk, snap);
    RefinesReads(All(t), hist, ht, pk, snap);
  }

  // ---- The table object with its scan cache ----

  /** `TableState` and the two level files of one table. */
  class TableState {
    var levels: Levels
    var writeVersion: nat
    var cache: seq<Version>
    var cacheVersion: nat
    var cacheTs: nat
    var cacheMaxTs: nat
    var cacheValid: bool

    /** While no write intervenes, a cache that saw every version answers every later snapshot. */
    ghost predicate CacheSound()
      reads this
    {
      cacheValid && cacheVersion == writeVersion && cacheTs >= cacheMaxTs ==>
        && (forall v | v in All(levels) :: v.ts <= cacheTs)
        && (forall snap | snap >= cacheTs :: IsScan(cache, All(levels), snap))
    }

    ghost predicate Valid()
      reads this
    {
      Ok(levels) && CacheSound() && (cacheValid ==> cacheVersion <= writeVersion)
    }

    constructor ()
      ensures Valid() && levels == EMPTY && !cacheValid
    {
      levels := EMPTY;
      writeVersion, cache, cacheVersion, cacheTs, cacheMaxTs, cacheValid := 0, [], 0, 0, 0, false;
    }

    /** `append_row` and `delete_row_by_key`: one more version in the memtable. */
    method Write(v: Version)
      requires Valid() && forall w | w in All(levels) && w.pk == v.pk :: w.ts < v.ts
      modifies this
      ensures Valid() && levels == Apply(old(levels), Op.Write(v))
    {
      OkAlone(levels);
      WriteKeeps(levels, All(levels), 0, v);
      levels := levels.(mem := Merge([v], levels.mem));
      writeVersion := writeVersion + 1;
    }

    /** `flush_memtable`: the memtable is merged into level 0. */
    method Flush()
      requires Valid()
      modifies this
      ensures Valid() && levels == Apply(old(levels), Op.Flush)
      ensures cache == old(cache) && cacheValid == old(cacheValid)
    {
      OkAlone(levels);
      FlushKeeps(levels, All(levels), 0);
      ghost var before := levels;
      var merged := MergeRuns(levels.mem, levels.l0);
      levels := Levels([], merged, levels.l1);
      if CacheUsable() { ScansSurviveSameSet(cache, All(before), All(levels), cacheTs); }
    }

    /** `compact_levels` for level 0: merge, collect, replace both files. */
    method CompactLevels(horizon: nat)
      requires Valid()
      modifies this
      ensures Valid() && levels == Apply(old(levels), Op.Compact(horizon))
      ensures cache == old(cache) && cacheValid == old(cacheValid)
    {
      OkAlone(levels);
      CompactKeeps(levels, All(levels), 0, horizon);
      ghost var before := levels;
      var merged := MergeRuns(levels.l0, levels.l1);
      var kept := CollectGarbage(merged, horizon);
      levels := Levels(levels.mem, [], kept);
      if CacheUsable() {
        ScansSurviveRefinement(cache, All(before), All(levels), horizon, cacheTs);
      }
    }

    ghost predicate CacheUsable() reads this {
      cacheValid && cacheVersion == writeVersion && cacheTs >= cacheMaxTs
    }

    /** `scan_visible`: answers from the cache when it may, and always answers like a fresh scan. */
    method ScanVisible(snap: nat) returns (out: seq<Version>)
      requires Valid()
      modifies this
      ensures Valid() && levels == old(levels) && writeVersion == old(writeVersion)
      ensures IsScan(out, All(levels), snap)
    {
      if cacheValid && cacheVersion == writeVersion && snap >= cacheTs && cacheTs >= cacheMaxTs {
        return cache;
      }
      ghost var sources := [levels.l0, levels.l1, levels.mem];
      var maxTs;
      out, maxTs := MapScan([levels.l0, levels.l1, levels.mem], snap);
      FlatOfThree(levels.l0, levels.l1, levels.mem);
      ScansOfSameSet(out, Flat(sources), All(levels), snap);
      cache, cacheVersion, cacheTs, cacheMaxTs, cacheValid := out, writeVersion, snap, maxTs, true;
      if cacheTs >= cacheMaxTs { ScansAboveAllVersions(out, All(levels), snap); }
    }

    /** `lookup_visible`: a level whose cached filter denies the key is not read. */
    method LookupVisible(pk: Value, snap: nat, filter0: BloomFilter?, filter1: BloomFilter?)
      returns (row: Option<Row>)
      requires Valid()
      requires filter0 != null ==> Covers(filter0, levels.l0)
      requires filter1 != null ==> Covers(filter1, levels.l1)
      ensures row == Read(All(levels), pk, snap)
    {
      var skip0, skip1 := false, false;
      if filter0 != null {
        var maybe := filter0.MaybeContains(Codec.EncodeValue(pk));
        skip0 := !maybe;
      }
      if filter1 != null {
        var maybe := filter1.MaybeContains(Codec.EncodeValue(pk));
        skip1 := !maybe;
      }
      FlatOfThree(levels.mem, levels.l0, levels.l1);
      row := ReadPaths.LookupVisible([levels.mem, levels.l0, levels.l1], [false, skip0, skip1], pk, snap);
    }

    /** `scan_visible_stream` yields the same rows in the same order as `scan_visible`. */
    method ScanVisibleStream(snap: nat) returns (out: seq<Version>)
      requires Valid()
      ensures IsScan(out, All(levels), snap)
    {
      ghost var sources := [levels.mem, levels.l0, levels.l1];
      FlatOfThree(levels.mem, levels.l0, levels.l1);
      assert Consistent(Flat(sources));
      out := StreamScan([levels.mem, levels.l0, levels.l1], snap);
      ScansOfSameSet(out, Flat(sources), All(levels), snap);
    }
  }

  /** Helper: a table stands for its own contents. */
  lemma OkAlone(s: Levels)
    requires Ok(s)
    ensures Represents(s, All(s), 0)
  {
    RefinesOfSameSet(All(s), All(s));
  }

  lemma FlatOfThree(a: seq<Version>, b: seq<Version>, c: seq<Version>)
    ensures Flat([a, b, c]) == a + (b + c)
  {
    assert Flat([c]) == c + Flat([]) == c;
    assert [b, c][1..] == [c] && [a, b, c][1..] == [b, c];
  }

  lemma ScansOfSameSet(out: seq<Version>, a: seq<Version>, b: seq<Version>, snap: nat)
    requires IsScan(out, a, snap) && Consistent(b) && forall v :: v in a <==> v in b
    ensures IsScan(out, b, snap)
  {
    forall v ensures Shown(a, v, snap) <==> Shown(b, v, snap) { NewestOfSameSet(a, b, v.pk, snap); }
  }

  lemma ScansSurviveSameSet(out: seq<Version>, a: seq<Version>, b: seq<Version>, from: nat)
    requires (forall snap | snap >= from :: IsScan(out, a, snap)) && Consistent(b) && forall v :: v in a <==> v in b
    ensures forall snap | snap >= from :: IsScan(out, b, snap)
  {
    forall snap | snap >= from ensures IsScan(out, b, snap) {
      assert IsScan(out, a, snap);
      ScansOfSameSet(out, a, b, snap);
    }
  }

  /** Helper: a scan that is right at every later snapshot stays right when old versions are collected. */
  lemma ScansSurviveRefinement(out: seq<Version>, a: seq<Version>, b: seq<Version>, h: nat, from: nat)
    requires (forall snap | snap >= from :: IsScan(out, a, snap)) && Refines(b, a, h)
    requires (forall v | v in b :: v in a) && (forall v | v in a :: v.ts <= from)
    ensures forall snap | snap >= from :: IsScan(out, b, snap)
  {
    forall snap | snap >= from ensures IsScan(out, b, snap) {
      var late := if snap >= h then snap else h;
      assert IsScan(out, a, late);
      forall v ensures Shown(a, v, late) <==> Shown(b, v, snap) {
        assert StandsFor(Newest(b, v.pk, late), Newest(a, v.pk, late));
        NewestIsNewest(b, v.pk, late);
        SameBelow(b, v.pk, snap, late);
      }
    }
  }

  lemma ScansAboveAllVersions(out: seq<Version>, a: seq<Version>, from: nat)
    requires IsScan(out, a, from) && forall v | v in a :: v.ts <= from
    ensures forall snap | snap >= from :: IsScan(out, a, snap)
  {
    forall snap | snap >= from ensures IsScan(out, a, snap) {
      forall v ensures Shown(a, v, from) <==> Shown(a, v, snap) {
        NewestIsNewest(a, v.pk, snap);
        SameBelow(a, v.pk, from, snap);
      }
    }
  }
}
