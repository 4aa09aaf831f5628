/** The three ways to read a table at a snapshot, and why they agree. */
module ReadPaths {
  import opened Values
  import opened Versions

  /** All versions of all sources: the memtable and one sorted file per level. */
  function Flat(sources: seq<seq<Version>>): seq<Version> {
    if sources == [] then [] else sources[0] + Flat(sources[1..])
  }

  ghost predicate InSome(sources: seq<seq<Version>>, v: Version) {
    exists i :: 0 <= i < |sources| && v in sources[i]
  }

  ghost predicate AllSorted(sources: seq<seq<Version>>) {
    forall i | 0 <= i < |sources| :: Sorted(sources[i])
  }

  lemma {:induction false} FlatElements(sources: seq<seq<Version>>, v: Version)
    ensures v in Flat(sources) <==> InSome(sources, v)
  {
    if sources != [] {
      var rest := sources[1..];
      FlatElements(rest, v);
      if InSome(rest, v) {
        var i :| 0 <= i < |rest| && v in rest[i];
        assert sources[i + 1] == rest[i];
      }
      if InSome(sources, v) && v !in sources[0] {
        var i :| 0 <= i < |sources| && v in sources[i];
        assert rest[i - 1] == sources[i];
      }
    }
  }

  // ---- What a scan must return ----

  ghost predicate Shown(all: seq<Version>, v: Version, snap: nat) {
    Newest(all, v.pk, snap) == Some(v) && !v.tombstone && v.row != []
  }

  ghost predicate KeysAscend(out: seq<Version>) {
    forall i, j | 0 <= i < j < |out| :: Less(out[i].pk, out[j].pk)
  }

  /** One entry per visible key, in key order. */
  ghost predicate IsScan(out: seq<Version>, all: seq<Version>, snap: nat) {
    KeysAscend(out) && forall v :: v in out <==> Shown(all, v, snap)
  }

  lemma {:induction false} AscendingUnique(a: seq<Version>, b: seq<Version>)
    requires KeysAscend(a) && KeysAscend(b)
    requires forall v :: v in a <==> v in b
    ensures a == b
  {
    if a == [] {
      assert forall i | 0 <= i < |b| :: b[i] in b;
    } else {
      assert a[0] in b && b[0] in a;
      assert a[0] == b[0] by {
        LessTotal(a[0].pk, b[0].pk);
        var i :| 0 <= i < |b| && b[i] == a[0];
        var j :| 0 <= j < |a| && a[j] == b[0];
      }
      LessTotal(a[0].pk, a[0].pk);
      forall v ensures v in a[1..] <==> v in b[1..] {
        assert v in a <==> v == a[0] || v in a[1..];
        assert v in b <==> v == b[0] || v in b[1..];
      }
      AscendingUnique(a[1..], b[1..]);
    }
  }

  /** There is at most one correct answer to a scan, whichever algorithm and source order found it. */
  lemma ScansAgree(a: seq<Version>, allA: seq<Version>, b: seq<Version>, allB: seq<Version>, snap: nat)
    requires IsScan(a, allA, snap) && IsScan(b, allB, snap)
    requires Consistent(allB) && forall v :: v in allA <==> v in allB
    ensures a == b
  {
    forall v ensures v in a <==> v in b {
      NewestOfSameSet(allA, allB, v.pk, snap);
    }
    AscendingUnique(a, b);
  }

  /** A point lookup returns a non-empty row exactly when the scan contains it for that key. */
  lemma LookupAgreesWithScan(out: seq<Version>, all: seq<Version>, snap: nat, pk: Value, row: Row)
    requires IsScan(out, all, snap) && row != []
    ensures Read(all, pk, snap) == Some(row) <==> exists v :: v in out && v.pk == pk && v.row == row
  {
    NewestIsNewest(all, pk, snap);
    var m := Newest(all, pk, snap);
    if m.Some? && Payload(m) == Some(row) { assert Shown(all, m.value, snap); }
    if v :| v in out && v.pk == pk && v.row == row { assert Shown(all, v, snap); }
  }

  // ---- Point lookup ----

  /** Binary search for the first version of `pk`, then the first one the snapshot may see. */
  method FirstVisible(src: seq<Version>, pk: Value, snap: nat) returns (r: Option<Version>)
    requires Sorted(src)
    ensures r == Newest(src, pk, snap)
  {
    var lo, hi := 0, |src|;
    while lo < hi
      invariant 0 <= lo <= hi <= |src|
      invariant forall i | 0 <= i < lo :: Less(src[i].pk, pk)
      invariant forall i | hi <= i < |src| :: !Less(src[i].pk, pk)
    {
      var mid := (lo + hi) / 2;
      if Less(src[mid].pk, pk) {
        KeysBelow(src, mid, pk);
        lo := mid + 1;
      } else {
        KeysAbove(src, mid, pk);
        hi := mid;
      }
    }
    var it := lo;
    LessTotal(pk, pk);
    while it < |src| && src[it].pk == pk
      invariant lo <= it <= |src|
      invariant forall i | lo <= i < it :: src[i].pk == pk && src[i].ts > snap
    {
      if src[it].ts <= snap {
        FoundFirst(src, it, pk, snap);
        return Some(src[it]);
      }
      it := it + 1;
    }
    FoundNone(src, it, pk, snap);
    return None;
  }

  lemma KeysBelow(src: seq<Version>, mid: nat, pk: Value)
    requires Sorted(src) && mid < |src| && Less(src[mid].pk, pk)
    ensures forall i | 0 <= i <= mid :: Less(src[i].pk, pk)
  {
    forall i | 0 <= i < mid ensures Less(src[i].pk, pk) {
      BeforeTotal(src[i], src[mid]);
      if Less(src[i].pk, src[mid].pk) { LessTransitive(src[i].pk, src[mid].pk, pk); }
    }
  }

  lemma KeysAbove(src: seq<Version>, mid: nat, pk: Value)
    requires Sorted(src) && mid < |src| && !Less(src[mid].pk, pk)
    ensures forall i | mid <= i < |src| :: !Less(src[i].pk, pk)
  {
    forall i | mid < i < |src| ensures !Less(src[i].pk, pk) {
      BeforeTotal(src[mid], src[i]);
      if Less(src[mid].pk, src[i].pk) && Less(src[i].pk, pk) { LessTransitive(src[mid].pk, src[i].pk, pk); }
    }
  }

  lemma FoundFirst(src: seq<Version>, it: nat, pk: Value, snap: nat)
    requires Sorted(src) && it < |src| && Matches(src[it], pk, snap)
    requires forall i | 0 <= i < it :: !Matches(src[i], pk, snap)
    ensures Newest(src, pk, snap) == Some(src[it])
  {
    forall w | w in src && Matches(w, pk, snap) ensures w.ts <= src[it].ts && (w.ts == src[it].ts ==> w == src[it]) {
      var j :| 0 <= j < |src| && src[j] == w;
      if j > it {
        BeforeTotal(src[it], src[j]);
        LessTotal(pk, pk);
      }
    }
    NewestIsNewest(src, pk, snap);
  }

  lemma FoundNone(src: seq<Version>, it: nat, pk: Value, snap: nat)
    requires Sorted(src) && it <= |src|
    requires forall i | 0 <= i < it :: !Matches(src[i], pk, snap)
    requires it < |src| ==> !Less(src[it].pk, pk) && src[it].pk != pk
    ensures Newest(src, pk, snap) == None
  {
    forall i | it <= i < |src| ensures src[i].pk != pk {
      LessTotal(src[it].pk, pk);
      if i > it { BeforeTotal(src[it], src[i]); }
    }
    NewestIsNewest(src, pk, snap);
  }

  /** A source may be skipped only when it holds no version of the key. */
  ghost predicate SkipsSoundly(sources: seq<seq<Version>>, skip: seq<bool>, pk: Value) {
    && |skip| == |sources|
    && forall i | 0 <= i < |sources| && skip[i] :: forall v | v in sources[i] :: v.pk != pk
  }

  function AsSeq(c: Option<Version>): seq<Version> {
    if c.Some? then [c.value] else []
  }

  /** One source's candidate stands for the source. */
  lemma CandidateStep(cands: seq<Version>, src: seq<Version>, rest: seq<Version>, pk: Value, snap: nat)
    ensures Better(Newest(cands + AsSeq(Newest(src, pk, snap)), pk, snap), Newest(rest, pk, snap)) ==
      Better(Newest(cands, pk, snap), Newest(src + rest, pk, snap))
  {
    var c := Newest(src, pk, snap);
    NewestIsNewest(src, pk, snap);
    NewestOfConcat(src, rest, pk, snap);
    NewestOfConcat(cands, AsSeq(c), pk, snap);
    assert Newest(AsSeq(c), pk, snap) == c;
  }

  /** `lookup_visible`: one candidate per source that is not skipped, then the newest candidate. */
  method LookupVisible(sources: seq<seq<Version>>, skip: seq<bool>, pk: Value, snap: nat)
    returns (row: Option<Row>)
    requires AllSorted(sources) && SkipsSoundly(sources, skip, pk)
    ensures row == Read(Flat(sources), pk, snap)
  {
    var cands: seq<Version> := [];
    for l := 0 to |sources|
      invariant forall c | c in cands :: Matches(c, pk, snap)
      invariant Better(Newest(cands, pk, snap), Newest(Flat(sources[l..]), pk, snap)) == Newest(Flat(sources), pk, snap)
    {
      assert sources[l..][1..] == sources[l + 1..];
      CandidateStep(cands, sources[l], Flat(sources[l + 1..]), pk, snap);
      NewestIsNewest(sources[l], pk, snap);
      if skip[l] {
        assert cands + [] == cands;
      } else {
        var c := FirstVisible(sources[l], pk, snap);
        cands := cands + AsSeq(c);
      }
    }
    if cands == [] { return None; }
    var best := PickNewest(cands, pk, snap);
    return if best.tombstone then None else Some(best.row);
  }

  /** The newest of the candidates. */
  method PickNewest(cands: seq<Version>, pk: Value, snap: nat) returns (best: Version)
    requires cands != [] && forall c | c in cands :: Matches(c, pk, snap)
    ensures Newest(cands, pk, snap) == Some(best)
  {
    best := cands[0];
    for i := 1 to |cands|
      invariant Newest(cands[..i], pk, snap) == Some(best)
    {
      assert cands[..i + 1] == cands[..i] + [cands[i]];
      NewestOfConcat(cands[..i], [cands[i]], pk, snap);
      if best.ts < cands[i].ts { best := cands[i]; }
    }
    assert cands[..|cands|] == cands;
  }

  // ---- Scan through an ordered map of the best version per key ----

  /** The map entry of `v.pk` after considering `v`: replaced only by a strictly newer version. */
  function Consider(best: seq<Version>, v: Version): seq<Version> {
    if best == [] then [v]
    else if Less(v.pk, best[0].pk) then [v] + best
    else if v.pk == best[0].pk then (if v.ts > best[0].ts then [v] + best[1..] else best)
    else [best[0]] + Consider(best[1..], v)
  }

  /** `best` holds, in key order, exactly the version of each key seen so far that a reader sees. */
  ghost predicate IsBest(best: seq<Version>, seen: seq<Version>, snap: nat) {
    KeysAscend(best) && forall v :: v in best <==> Newest(seen, v.pk, snap) == Some(v)
  }

  lemma {:induction false} ConsiderElements(best: seq<Version>, v: Version)
    requires KeysAscend(best)
    ensures KeysAscend(Consider(best, v))
    ensures forall w :: w in Consider(best, v) <==>
      if w.pk == v.pk then (w in best && w.ts >= v.ts) || (w == v && forall b | b in best && b.pk == v.pk :: b.ts < v.ts)
      else w in best
  {
    if best != [] {
      LessTotal(v.pk, best[0].pk);
      forall b | b in best[1..] ensures Less(best[0].pk, b.pk) && b.pk != best[0].pk {
        var i :| 0 <= i < |best[1..]| && best[1..][i] == b;
        assert best[i + 1] == b;
        LessTotal(best[0].pk, b.pk);
      }
      assert forall w :: w in best <==> w == best[0] || w in best[1..];
      if Less(v.pk, best[0].pk) {
        forall b | b in best ensures Less(v.pk, b.pk) {
          if b != best[0] { LessTransitive(v.pk, best[0].pk, b.pk); }
        }
        LessTotal(v.pk, v.pk);
      } else if v.pk != best[0].pk {
        ConsiderElements(best[1..], v);
        assert forall w | w in Consider(best[1..], v) :: w == v || w in best[1..];
      }
    }
  }

  lemma ConsiderKeepsBest(best: seq<Version>, seen: seq<Version>, v: Version, snap: nat)
    requires IsBest(best, seen, snap)
    ensures IsBest(if v.ts > snap then best else Consider(best, v), seen + [v], snap)
  {
    var next := if v.ts > snap then best else Consider(best, v);
    ConsiderElements(best, v);
    forall w ensures w in next <==> Newest(seen + [v], w.pk, snap) == Some(w) {
      NewestOfConcat(seen, [v], w.pk, snap);
      var m := Newest(seen, w.pk, snap);
      NewestIsNewest(seen, w.pk, snap);
      if m.Some? { assert m.value in best; }
      assert forall b | b in best && b.pk == w.pk :: Some(b) == m;
    }
  }

  ghost predicate NoneAfter(s: seq<Version>, ts: nat) {
    forall v: Version | v in s :: v.ts <= ts
  }

  lemma NoneAfterStep(s: seq<Version>, v: Version, ts: nat)
    requires NoneAfter(s, ts)
    ensures NoneAfter(s + [v], if v.ts > ts then v.ts else ts)
  {
  }

  /** The pass over one source. */
  method ConsiderSource(best: seq<Version>, ghost seen: seq<Version>, src: seq<Version>, snap: nat, maxSoFar: nat)
    returns (next: seq<Version>, maxTs: nat)
    requires IsBest(best, seen, snap) && NoneAfter(seen, maxSoFar)
    ensures IsBest(next, seen + src, snap) && NoneAfter(seen + src, maxTs)
  {
    next, maxTs := best, maxSoFar;
    assert seen + src[..0] == seen;
    for i := 0 to |src|
      invariant IsBest(next, seen + src[..i], snap) && NoneAfter(seen + src[..i], maxTs)
    {
      var v := src[i];
      ConsiderKeepsBest(next, seen + src[..i], v, snap);
      NoneAfterStep(seen + src[..i], v, maxTs);
      assert seen + src[..i] + [v] == seen + src[..i + 1];
      if v.ts > maxTs { maxTs := v.ts; }
      if v.ts <= snap { next := Consider(next, v); }
    }
    assert src[..|src|] == src;
  }

  /** The pass that drops tombstones and empty rows. */
  method LiveOnly(best: seq<Version>) returns (out: seq<Version>)
    requires KeysAscend(best)
    ensures KeysAscend(out)
    ensures forall v :: v in out <==> v in best && !v.tombstone && v.row != []
  {
    out := [];
    for i := 0 to |best|
      invariant forall v :: v in out <==> v in best[..i] && !v.tombstone && v.row != []
      invariant KeysAscend(out)
    {
      assert best[..i + 1] == best[..i] + [best[i]];
      forall v | v in out ensures Less(v.pk, best[i].pk) {
        var j :| 0 <= j < i && best[..i][j] == v;
        assert best[j] == v;
      }
      if !best[i].tombstone && best[i].row != [] { out := out + [best[i]]; }
    }
    assert best[..|best|] == best;
  }

  /** `scan_visible` without its cache: also reports the largest timestamp it met. */
  method MapScan(sources: seq<seq<Version>>, snap: nat) returns (out: seq<Version>, maxTs: nat)
    ensures IsScan(out, Flat(sources), snap)
    ensures NoneAfter(Flat(sources), maxTs)
  {
    var best: seq<Version> := [];
    ghost var seen: seq<Version> := [];
    maxTs := 0;
    for l := 0 to |sources|
      invariant seen + Flat(sources[l..]) == Flat(sources)
      invariant IsBest(best, seen, snap)
      invariant NoneAfter(seen, maxTs)
    {
      best, maxTs := ConsiderSource(best, seen, sources[l], snap, maxTs);
      assert sources[l..][1..] == sources[l + 1..];
      seen := seen + sources[l];
    }
    assert seen == Flat(sources) by { assert sources[|sources|..] == []; }
    out := LiveOnly(best);
  }

  // ---- Streaming scan: k-way merge of the sources ----

  function Total(rest: seq<seq<Version>>): nat {
    if rest == [] then 0 else |rest[0]| + Total(rest[1..])
  }

  lemma {:induction false} TotalAfterPop(rest: seq<seq<Version>>, i: nat)
    requires i < |rest| && rest[i] != []
    ensures Total(rest[i := rest[i][1..]]) < Total(rest)
  {
    if i > 0 {
      TotalAfterPop(rest[1..], i - 1);
      assert rest[i := rest[i][1..]][1..] == rest[1..][i - 1 := rest[i][1..]];
    } else {
      assert rest[0 := rest[0][1..]][1..] == rest[1..];
    }
  }

  /** No waiting version has a smaller key than `pk`. */
  ghost predicate AtLeast(rest: seq<seq<Version>>, pk: Value) {
    forall i, w | 0 <= i < |rest| && w in rest[i] :: w.pk == pk || Less(pk, w.pk)
  }

  /** The source whose head comes first, or -1 when all sources are used up. */
  method FirstHead(rest: seq<seq<Version>>) returns (min: int)
    requires AllSorted(rest)
    ensures -1 <= min < |rest|
    ensures min < 0 ==> forall i | 0 <= i < |rest| :: rest[i] == []
    ensures 0 <= min ==> rest[min] != [] && AtLeast(rest, rest[min][0].pk)
  {
    min := -1;
    for i := 0 to |rest|
      invariant -1 <= min < i
      invariant min < 0 ==> forall j | 0 <= j < i :: rest[j] == []
      invariant 0 <= min ==> rest[min] != []
      invariant 0 <= min ==> forall j | 0 <= j < i && rest[j] != [] ::
        rest[j][0].pk == rest[min][0].pk || Less(rest[min][0].pk, rest[j][0].pk)
    {
      if rest[i] == [] { continue; }
      if min < 0 { min := i; continue; }
      BeforeTotal(rest[i][0], rest[min][0]);
      LessTotal(rest[i][0].pk, rest[min][0].pk);
      if Before(rest[i][0], rest[min][0]) {
        forall j | 0 <= j < i && rest[j] != [] && Less(rest[i][0].pk, rest[min][0].pk)
          ensures rest[j][0].pk == rest[i][0].pk || Less(rest[i][0].pk, rest[j][0].pk)
        {
          if rest[j][0].pk != rest[min][0].pk { LessTransitive(rest[i][0].pk, rest[min][0].pk, rest[j][0].pk); }
        }
        min := i;
      }
    }
    if 0 <= min { HeadsBoundAll(rest, rest[min][0].pk); }
  }

  lemma HeadsBoundAll(rest: seq<seq<Version>>, pk: Value)
    requires AllSorted(rest)
    requires forall j | 0 <= j < |rest| && rest[j] != [] :: rest[j][0].pk == pk || Less(pk, rest[j][0].pk)
    ensures AtLeast(rest, pk)
  {
    forall i, w | 0 <= i < |rest| && w in rest[i] ensures w.pk == pk || Less(pk, w.pk) {
      var n :| 0 <= n < |rest[i]| && rest[i][n] == w;
      if n > 0 {
        BeforeTotal(rest[i][0], w);
        if Less(pk, rest[i][0].pk) && Less(rest[i][0].pk, w.pk) { LessTransitive(pk, rest[i][0].pk, w.pk); }
      }
    }
  }

  /** Among the heads with this key the newest one, or -1 when no source has the key any more. */
  method NewestHead(rest: seq<seq<Version>>, pk: Value) returns (gi: int)
    requires AllSorted(rest) && AtLeast(rest, pk)
    ensures -1 <= gi < |rest|
    ensures gi < 0 ==> forall i, w | 0 <= i < |rest| && w in rest[i] :: w.pk != pk
    ensures 0 <= gi ==> rest[gi] != [] && rest[gi][0].pk == pk
    ensures 0 <= gi ==> forall i, w | 0 <= i < |rest| && w in rest[i] && w.pk == pk :: w.ts <= rest[gi][0].ts
  {
    gi := -1;
    for i := 0 to |rest|
      invariant -1 <= gi < i
      invariant gi < 0 ==> forall j, w | 0 <= j < i && w in rest[j] :: w.pk != pk
      invariant 0 <= gi ==> rest[gi] != [] && rest[gi][0].pk == pk
      invariant 0 <= gi ==> forall j, w | 0 <= j < i && w in rest[j] && w.pk == pk :: w.ts <= rest[gi][0].ts
    {
      HeadBoundsKey(rest[i], pk);
      if rest[i] == [] || rest[i][0].pk != pk { continue; }
      if gi < 0 || rest[i][0].ts > rest[gi][0].ts { gi := i; }
    }
  }

  lemma HeadBoundsKey(s: seq<Version>, pk: Value)
    requires Sorted(s) && forall w | w in s :: w.pk == pk || Less(pk, w.pk)
    ensures s == [] || s[0].pk != pk ==> forall w | w in s :: w.pk != pk
    ensures s != [] && s[0].pk == pk ==> forall w | w in s && w.pk == pk :: w.ts <= s[0].ts
  {
    forall w | w in s && w.pk == pk ensures s[0].pk == pk && w.ts <= s[0].ts {
      var n :| 0 <= n < |s| && s[n] == w;
      assert s[0] in s;
      if n > 0 {
        BeforeTotal(s[0], w);
        LessTotal(pk, s[0].pk);
      }
    }
  }

  /** Bookkeeping of the merge: what was consumed and what still waits make up the table. */
  ghost predicate Splits(all: seq<Version>, done: seq<Version>, rest: seq<seq<Version>>) {
    forall v :: v in all <==> v in done || InSome(rest, v)
  }

  lemma PopSplits(all: seq<Version>, done: seq<Version>, rest: seq<seq<Version>>, gi: nat)
    requires Splits(all, done, rest) && AllSorted(rest) && gi < |rest| && rest[gi] != []
    ensures var rest' := rest[gi := rest[gi][1..]];
      && Splits(all, done + [rest[gi][0]], rest') && AllSorted(rest')
      && (forall v | InSome(rest', v) :: InSome(rest, v))
  {
    var rest' := rest[gi := rest[gi][1..]];
    forall v ensures v == rest[gi][0] || InSome(rest', v) <==> InSome(rest, v) {
      if InSome(rest, v) {
        var i :| 0 <= i < |rest| && v in rest[i];
        assert i != gi ==> v in rest'[i];
        assert i == gi && v != rest[gi][0] ==> v in rest'[gi];
      }
      if InSome(rest', v) {
        var i :| 0 <= i < |rest'| && v in rest'[i];
        assert v in rest[i];
      }
    }
  }

  /** The choice made among the consumed versions of one key. */
  ghost predicate Chosen(done: seq<Version>, rest: seq<seq<Version>>, pk: Value, snap: nat, chosen: Option<Version>) {
    match chosen
    case None => forall u | u in done && u.pk == pk :: u.ts > snap
    case Some(c) =>
      && c in done && Matches(c, pk, snap)
      && (forall u | u in done && Matches(u, pk, snap) :: u.ts <= c.ts)
      && (forall w | InSome(rest, w) && w.pk == pk :: w.ts <= c.ts)
  }

  /** The inner loop: consumes every version of one key and keeps the one the snapshot sees. */
  method ConsumeKey(start: seq<seq<Version>>, first: nat, ghost done: seq<Version>, ghost all: seq<Version>, snap: nat)
    returns (chosen: Option<Version>, rest: seq<seq<Version>>, ghost done': seq<Version>)
    requires first < |start| && start[first] != [] && AtLeast(start, start[first][0].pk)
    requires Splits(all, done, start) && AllSorted(start) && Consistent(all)
    requires forall u | u in done :: Less(u.pk, start[first][0].pk)
    ensures chosen == Newest(all, start[first][0].pk, snap)
    ensures Splits(all, done', rest) && AllSorted(rest) && AtLeast(rest, start[first][0].pk)
    ensures forall w | InSome(rest, w) :: w.pk != start[first][0].pk
    ensures forall u | u in done' :: u in done || u.pk == start[first][0].pk
    ensures forall u | u in done :: u in done'
    ensures Total(rest) < Total(start)
  {
    var pk := start[first][0].pk;
    LessTotal(pk, pk);
    chosen, rest, done' := None, start, done;
    while true
      invariant Splits(all, done', rest) && AllSorted(rest) && AtLeast(rest, pk)
      invariant forall u | u in done' :: u in done || u.pk == pk
      invariant forall u | u in done :: u in done'
      invariant Chosen(done', rest, pk, snap, chosen)
      invariant rest == start || Total(rest) < Total(start)
      decreases Total(rest)
    {
      var gi := NewestHead(rest, pk);
      if gi < 0 { break; }
      if chosen.None? && rest[gi][0].ts <= snap { chosen := Some(rest[gi][0]); }
      PopSplits(all, done', rest, gi);
      TotalAfterPop(rest, gi);
      done', rest := done' + [rest[gi][0]], rest[gi := rest[gi][1..]];
    }
    assert forall w | InSome(rest, w) :: w.pk != pk;
    if chosen.Some? {
      NewestUnique(all, pk, snap, chosen.value);
    } else {
      NewestIsNewest(all, pk, snap);
    }
  }

  function Emit(out: seq<Version>, chosen: Option<Version>): seq<Version> {
    if chosen.Some? && !chosen.value.tombstone && chosen.value.row != [] then out + [chosen.value] else out
  }

  /** What the outer loop keeps: consumed keys precede waiting keys and are answered in `out`. */
  ghost predicate Answered(all: seq<Version>, done: seq<Version>, rest: seq<seq<Version>>, snap: nat, out: seq<Version>) {
    && Splits(all, done, rest) && AllSorted(rest) && KeysAscend(out)
    && (forall u, w | u in done && InSome(rest, w) :: Less(u.pk, w.pk))
    && (forall v :: v in out <==> v in done && Shown(all, v, snap))
  }

  /** `scan_visible_stream`: key after key, from whichever sources hold it. */
  method StreamScan(sources: seq<seq<Version>>, snap: nat) returns (out: seq<Version>)
    requires AllSorted(sources) && Consistent(Flat(sources))
    ensures IsScan(out, Flat(sources), snap)
  {
    ghost var all := Flat(sources);
    ghost var done: seq<Version> := [];
    var rest := sources;
    out := [];
    forall v ensures v in all <==> InSome(sources, v) { FlatElements(sources, v); }
    while true
      invariant Answered(all, done, rest, snap, out)
      decreases Total(rest)
    {
      var min := FirstHead(rest);
      if min < 0 { break; }
      ghost var done0, pk := done, rest[min][0].pk;
      assert InSome(rest, rest[min][0]);
      var chosen;
      chosen, rest, done := ConsumeKey(rest, min, done, all, snap);
      KeyFinished(all, done0, done, rest, pk, snap, out);
      out := Emit(out, chosen);
    }
    AllAnswered(all, done, rest, snap, out);
  }

  /** Helper: after a key is consumed the frontier has moved past it. */
  lemma KeyFinished(all: seq<Version>, done0: seq<Version>, done: seq<Version>, rest: seq<seq<Version>>, pk: Value,
                    snap: nat, out: seq<Version>)
    requires Splits(all, done, rest) && AllSorted(rest) && AtLeast(rest, pk) && KeysAscend(out)
    requires forall w | InSome(rest, w) :: w.pk != pk
    requires forall u | u in done0 :: Less(u.pk, pk) && u in done
    requires forall u | u in done :: u in done0 || u.pk == pk
    requires forall v :: v in out <==> v in done0 && Shown(all, v, snap)
    ensures Answered(all, done, rest, snap, Emit(out, Newest(all, pk, snap)))
  {
    forall u, w | u in done && InSome(rest, w) ensures Less(u.pk, w.pk) {
      var i :| 0 <= i < |rest| && w in rest[i];
      if u.pk != pk { LessTransitive(u.pk, pk, w.pk); }
    }
    NewestIsNewest(all, pk, snap);
    LessTotal(pk, pk);
    var out' := Emit(out, Newest(all, pk, snap));
    forall v ensures v in out' <==> v in done && Shown(all, v, snap) {
      if v.pk == pk { assert v !in done0; }
    }
  }

  /** Helper: when nothing waits any more, every visible key has been answered. */
  lemma AllAnswered(all: seq<Version>, done: seq<Version>, rest: seq<seq<Version>>, snap: nat, out: seq<Version>)
    requires Answered(all, done, rest, snap, out) && forall i | 0 <= i < |rest| :: rest[i] == []
    ensures IsScan(out, all, snap)
  {
    forall v | Shown(all, v, snap) ensures v in done {
      NewestIsNewest(all, v.pk, snap);
      assert v in all;
    }
  }
}
