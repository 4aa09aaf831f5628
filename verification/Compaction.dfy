/** Merging two sorted runs and collecting garbage below a horizon. */
module Compaction {
  import opened Values
  import opened Versions

  // ---- Merge: the newer run wins when both hold the same (key, timestamp) ----

  function Merge(a: seq<Version>, b: seq<Version>): seq<Version>
    decreases |a| + |b|
  {
    if a == [] then b
    else if b == [] then a
    else if Before(a[0], b[0]) then [a[0]] + Merge(a[1..], b)
    else if Before(b[0], a[0]) then [b[0]] + Merge(a, b[1..])
    else [a[0]] + Merge(a[1..], b[1..])
  }

  lemma {:induction false} MergeElements(a: seq<Version>, b: seq<Version>)
    ensures forall v | v in Merge(a, b) :: v in a || v in b
    ensures forall v | v in a :: v in Merge(a, b)
    ensures forall v | v in b :: v in Merge(a, b) || exists w :: w in a && SameKey(v, w)
    decreases |a| + |b|
  {
    if a != [] && b != [] {
      var a', b' := a[1..], b[1..];
      assert forall v :: v in a <==> v == a[0] || v in a';
      assert forall v :: v in b <==> v == b[0] || v in b';
      BeforeTotal(a[0], b[0]);
      if Before(a[0], b[0]) { MergeElements(a', b); }
      else if Before(b[0], a[0]) { MergeElements(a, b'); }
      else {
        MergeElements(a', b');
        assert SameKey(b[0], a[0]);
      }
    }
  }

  /** On runs that agree on shared (key, timestamp) pairs, a merge loses nothing and invents nothing. */
  lemma MergeIsUnion(a: seq<Version>, b: seq<Version>)
    requires Consistent(a + b)
    ensures forall v :: v in Merge(a, b) <==> v in a + b
    ensures Consistent(Merge(a, b))
    ensures Refines(Merge(a, b), a + b, 0)
  {
    MergeElements(a, b);
    forall v | v in b ensures v in Merge(a, b) {
      if w :| w in a && SameKey(v, w) { assert v in a + b && w in a + b; }
    }
    RefinesOfSameSet(Merge(a, b), a + b);
  }

  lemma {:induction false} MergeSorted(a: seq<Version>, b: seq<Version>)
    requires Sorted(a) && Sorted(b)
    ensures Sorted(Merge(a, b))
    decreases |a| + |b|
  {
    if a != [] && b != [] {
      BeforeTotal(a[0], b[0]);
      if Before(a[0], b[0]) {
        MergeSorted(a[1..], b);
        Prepend(a[0], a[1..], b);
      } else if Before(b[0], a[0]) {
        MergeSorted(a, b[1..]);
        Prepend(b[0], a, b[1..]);
      } else {
        MergeSorted(a[1..], b[1..]);
        forall v | v in b[1..] ensures Before(a[0], v) {
          assert Before(b[0], v);
          BeforeTotal(b[0], v); BeforeTotal(a[0], v);
        }
        Prepend(a[0], a[1..], b[1..]);
      }
    }
  }

  /** Helper: a version before the heads of two sorted runs stays sorted in front of their merge. */
  lemma Prepend(v: Version, a: seq<Version>, b: seq<Version>)
    requires Sorted(a) && Sorted(b) && Sorted(Merge(a, b))
    requires a != [] ==> Before(v, a[0])
    requires b != [] ==> Before(v, b[0])
    ensures Sorted([v] + Merge(a, b))
  {
    MergeElements(a, b);
    forall w | w in Merge(a, b) ensures Before(v, w) {
      if w in a {
        if w != a[0] { BeforeTransitive(v, a[0], w); }
      } else if w != b[0] {
        BeforeTransitive(v, b[0], w);
      }
    }
  }

  /** Helper: one turn of the merge loop. */
  lemma MergeStep(done: seq<Version>, v: Version, rest: seq<Version>, all: seq<Version>, step: seq<Version>)
    requires done + step == all && step == [v] + rest
    ensures (done + [v]) + rest == all
  {
    assert (done + [v]) + rest == done + ([v] + rest);
  }

  /** The two-cursor loop of flush and of compaction. */
  method MergeRuns(newer: seq<Version>, older: seq<Version>) returns (merged: seq<Version>)
    ensures merged == Merge(newer, older)
  {
    merged := [];
    var i, j := 0, 0;
    while i < |newer| || j < |older|
      invariant i <= |newer| && j <= |older|
      invariant merged + Merge(newer[i..], older[j..]) == Merge(newer, older)
      decreases |newer| - i + |older| - j
    {
      ghost var a, b, was := newer[i..], older[j..], merged;
      if j == |older| {
        merged := merged + [newer[i]];
        i := i + 1;
        assert a == [a[0]] + newer[i..];
        MergeStep(was, a[0], Merge(newer[i..], older[j..]), Merge(newer, older), Merge(a, b));
      } else if i == |newer| {
        merged := merged + [older[j]];
        j := j + 1;
        assert b == [b[0]] + older[j..];
        MergeStep(was, b[0], Merge(newer[i..], older[j..]), Merge(newer, older), Merge(a, b));
      } else if Before(newer[i], older[j]) {
        merged := merged + [newer[i]];
        i := i + 1;
        assert a[1..] == newer[i..];
        MergeStep(was, a[0], Merge(newer[i..], older[j..]), Merge(newer, older), Merge(a, b));
      } else if Before(older[j], newer[i]) {
        merged := merged + [older[j]];
        j := j + 1;
        assert b[1..] == older[j..];
        MergeStep(was, b[0], Merge(newer[i..], older[j..]), Merge(newer, older), Merge(a, b));
      } else {
        merged := merged + [newer[i]];
        i, j := i + 1, j + 1;
        assert a[1..] == newer[i..] && b[1..] == older[j..];
        MergeStep(was, a[0], Merge(newer[i..], older[j..]), Merge(newer, older), Merge(a, b));
      }
    }
  }

  // ---- Garbage collection ----

  /** Length of the leading run of versions of one key. */
  function RunLength(s: seq<Version>, pk: Value): (n: nat)
    ensures n <= |s|
  {
    if s == [] || s[0].pk != pk then 0 else 1 + RunLength(s[1..], pk)
  }

  /** Index of the first version not younger than the horizon, or the length of the run. */
  function Anchor(run: seq<Version>, h: nat): (k: nat)
    ensures k <= |run|
  {
    if run == [] || run[0].ts <= h then 0 else 1 + Anchor(run[1..], h)
  }

  lemma {:induction false} RunLengthSplits(s: seq<Version>, pk: Value)
    ensures var n := RunLength(s, pk);
      (forall i | 0 <= i < n :: s[i].pk == pk) && (n < |s| ==> s[n].pk != pk)
  {
    if s != [] && s[0].pk == pk { RunLengthSplits(s[1..], pk); }
  }

  lemma {:induction false} AnchorSplits(run: seq<Version>, h: nat)
    ensures var k := Anchor(run, h);
      (forall i | 0 <= i < k :: run[i].ts > h) && (k < |run| ==> run[k].ts <= h)
  {
    if run != [] && run[0].ts > h { AnchorSplits(run[1..], h); }
  }

  function KeepOfRun(run: seq<Version>, h: nat): seq<Version> {
    var k := Anchor(run, h);
    if k == |run| then run
    else if run[k].tombstone && k == 0 then []
    else run[..k + 1]
  }

  /** Versions that survive: everything above the horizon and the newest one below it, run by run. */
  function Gc(s: seq<Version>, h: nat): seq<Version> {
    if s == [] then []
    else
      var n := RunLength(s, s[0].pk);
      KeepOfRun(s[..n], h) + Gc(s[n..], h)
  }

  /** The run of `pk` is discarded whole: its newest version is a tombstone below the horizon. */
  ghost predicate Dropped(s: seq<Version>, h: nat, pk: Value, v: Version) {
    && v in s && v.pk == pk && v.tombstone && v.ts <= h
    && (forall w | w in s && w.pk == pk :: w.ts <= v.ts)
    && (forall w | w in Gc(s, h) :: w.pk != pk)
  }

  lemma {:induction false} GcElements(s: seq<Version>, h: nat)
    ensures forall v | v in Gc(s, h) :: v in s
  {
    if s != [] {
      var n := RunLength(s, s[0].pk);
      GcElements(s[n..], h);
      assert s == s[..n] + s[n..];
    }
  }

  /** Helper: sorted pieces in order are sorted together. */
  lemma SortedConcat(a: seq<Version>, b: seq<Version>)
    requires Sorted(a) && Sorted(b)
    requires forall v, w | v in a && w in b :: Before(v, w)
    ensures Sorted(a + b)
  {
  }

  lemma {:induction false} GcSorted(s: seq<Version>, h: nat)
    requires Sorted(s)
    ensures Sorted(Gc(s, h))
  {
    if s != [] {
      var n := RunLength(s, s[0].pk);
      GcSorted(s[n..], h);
      GcElements(s[n..], h);
      SortedPieces(s, n);
      SortedConcat(KeepOfRun(s[..n], h), Gc(s[n..], h));
    }
  }

  /** Helper: everything before a cut precedes everything after it. */
  lemma SortedPieces(s: seq<Version>, n: nat)
    requires Sorted(s) && n <= |s|
    ensures forall v, w | v in s[..n] && w in s[n..] :: Before(v, w)
  {
    forall v, w | v in s[..n] && w in s[n..] ensures Before(v, w) {
      var i :| 0 <= i < n && s[i] == v;
      var j :| 0 <= j < |s[n..]| && s[n..][j] == w;
      assert s[n + j] == w;
    }
  }

  /** Helper: in a sorted sequence the versions of one key are adjacent. */
  lemma RunIsWhole(s: seq<Version>, n: nat)
    requires Sorted(s) && s != [] && n == RunLength(s, s[0].pk)
    ensures forall w | w in s[n..] :: w.pk != s[0].pk
  {
    RunLengthSplits(s, s[0].pk);
    forall j | n <= j < |s| ensures s[j].pk != s[0].pk {
      BeforeTotal(s[0], s[n]);
      if j > n {
        BeforeTotal(s[n], s[j]);
        BeforeTotal(s[0], s[j]);
        if s[j].pk == s[0].pk { LessTotal(s[0].pk, s[n].pk); }
      }
    }
  }

  /** Helper: cutting one run below its anchor. */
  lemma CutRun(run: seq<Version>, h: nat, pk: Value, snap: nat)
    requires Sorted(run) && run != [] && snap >= h
    requires forall i | 0 <= i < |run| :: run[i].pk == pk
    requires !(Anchor(run, h) == 0 && run[0].tombstone)
    ensures Newest(KeepOfRun(run, h), pk, snap) == Newest(run, pk, snap)
  {
    var k := Anchor(run, h);
    AnchorSplits(run, h);
    if k < |run| {
      var pre, post := run[..k + 1], run[k + 1..];
      assert run == pre + post;
      NewestOfConcat(pre, post, pk, snap);
      NewestIsNewest(pre, pk, snap);
      NewestIsNewest(post, pk, snap);
      assert pre[k] in pre && Matches(pre[k], pk, snap);
      RestIsOlder(run, k, pk);
    }
  }

  lemma RestIsOlder(run: seq<Version>, k: nat, pk: Value)
    requires Sorted(run) && k < |run| && forall i | 0 <= i < |run| :: run[i].pk == pk
    ensures forall w: Version | w in run[k + 1..] :: w.ts < run[k].ts
  {
    forall w | w in run[k + 1..] ensures w.ts < run[k].ts {
      var j :| k < j < |run| && run[j] == w;
      BeforeTotal(run[k], run[j]);
      LessTotal(pk, pk);
    }
  }

  /**
   * Garbage collection at a horizon: every snapshot at or above it sees the same version of every
   * key, except that a key whose whole run is dropped goes from a tombstone to nothing.
   */
  lemma {:induction false} GcKeepsVisible(s: seq<Version>, h: nat, pk: Value, snap: nat)
    requires Sorted(s) && snap >= h
    ensures Newest(Gc(s, h), pk, snap) == Newest(s, pk, snap)
            || (Newest(s, pk, snap).Some? && Dropped(s, h, pk, Newest(s, pk, snap).value))
  {
    if s != [] {
      if pk == s[0].pk {
        FirstRunKeepsVisible(s, h, snap);
      } else {
        var n := RunLength(s, s[0].pk);
        SkipFirstRun(s, h, pk, snap);
        GcKeepsVisible(s[n..], h, pk, snap);
        var m := Newest(s[n..], pk, snap);
        if m.Some? && Dropped(s[n..], h, pk, m.value) { DroppedLater(s, s[n..], h, pk, m.value); }
      }
    }
  }

  /** Helper: a key dropped from a part that holds all its versions is dropped from the whole. */
  lemma DroppedLater(s: seq<Version>, part: seq<Version>, h: nat, pk: Value, v: Version)
    requires Dropped(part, h, pk, v)
    requires forall w: Version | w.pk == pk :: w in s <==> w in part
    requires forall w: Version | w.pk == pk && w in Gc(s, h) :: w in Gc(part, h)
    ensures Dropped(s, h, pk, v)
  {
  }

  /** Helper: the key of the first run. */
  lemma FirstRunKeepsVisible(s: seq<Version>, h: nat, snap: nat)
    requires Sorted(s) && s != [] && snap >= h
    ensures Newest(Gc(s, h), s[0].pk, snap) == Newest(s, s[0].pk, snap)
            || (Dropped(s, h, s[0].pk, s[0]) && Newest(s, s[0].pk, snap) == Some(s[0]))
  {
    var n := RunLength(s, s[0].pk);
    if Anchor(s[..n], h) == 0 && s[0].tombstone {
      RunLengthSplits(s, s[0].pk);
      AnchorSplits(s[..n], h);
      DroppedRun(s, h, snap);
    } else {
      FirstRunKept(s, n, s[..n], s[n..], h, snap);
    }
  }

  lemma FirstRunKept(s: seq<Version>, n: nat, run: seq<Version>, rest: seq<Version>, h: nat, snap: nat)
    requires Sorted(s) && s != [] && snap >= h && n == RunLength(s, s[0].pk) && run == s[..n] && rest == s[n..]
    requires !(Anchor(run, h) == 0 && s[0].tombstone)
    ensures Newest(Gc(s, h), s[0].pk, snap) == Newest(s, s[0].pk, snap)
  {
    FirstRunIsRun(s, n, run, rest);
    RestIsSilent(s, n, h, snap);
    CutRun(run, h, s[0].pk, snap);
    GcUnfold(s, n, h);
    NewestBeforeSilence(KeepOfRun(run, h), Gc(rest, h), s[0].pk, snap);
    NewestBeforeSilence(run, rest, s[0].pk, snap);
  }

  lemma FirstRunIsRun(s: seq<Version>, n: nat, run: seq<Version>, rest: seq<Version>)
    requires Sorted(s) && s != [] && n == RunLength(s, s[0].pk) && run == s[..n] && rest == s[n..]
    ensures Sorted(run) && run != [] && run[0] == s[0] && s == run + rest && forall i | 0 <= i < |run| :: run[i].pk == s[0].pk
  {
    RunLengthSplits(s, s[0].pk);
  }

  /** Helper: behind the first run its key does not occur. */
  lemma RestIsSilent(s: seq<Version>, n: nat, h: nat, snap: nat)
    requires Sorted(s) && s != [] && n == RunLength(s, s[0].pk)
    ensures Newest(s[n..], s[0].pk, snap) == None && Newest(Gc(s[n..], h), s[0].pk, snap) == None
  {
    RunIsWhole(s, n);
    GcElements(s[n..], h);
    NoneElsewhere(s[n..], s[0].pk, snap);
    NoneElsewhere(Gc(s[n..], h), s[0].pk, snap);
  }

  /** Helper: the first run says nothing about other keys. */
  lemma SkipFirstRun(s: seq<Version>, h: nat, pk: Value, snap: nat)
    requires s != [] && pk != s[0].pk
    ensures var n := RunLength(s, s[0].pk);
      && Newest(s, pk, snap) == Newest(s[n..], pk, snap)
      && Newest(Gc(s, h), pk, snap) == Newest(Gc(s[n..], h), pk, snap)
      && (forall w: Version | w.pk == pk :: w in s <==> w in s[n..])
      && (forall w: Version | w.pk == pk && w in Gc(s, h) :: w in Gc(s[n..], h))
  {
    var n := RunLength(s, s[0].pk);
    var run := s[..n];
    RunLengthSplits(s, s[0].pk);
    assert s == run + s[n..];
    NewestOfConcat(run, s[n..], pk, snap);
    NewestOfConcat(KeepOfRun(run, h), Gc(s[n..], h), pk, snap);
    NoneElsewhere(run, pk, snap);
    NoneElsewhere(KeepOfRun(run, h), pk, snap);
  }

  /** Helper: a sequence without versions of a key shows none. */
  lemma NoneElsewhere(s: seq<Version>, pk: Value, snap: nat)
    requires forall w | w in s :: w.pk != pk
    ensures Newest(s, pk, snap) == None
  {
    NewestIsNewest(s, pk, snap);
  }

  /** Helper: a leading tombstone below the horizon is the newest version of its key. */
  lemma DroppedRun(s: seq<Version>, h: nat, snap: nat)
    requires Sorted(s) && s != [] && snap >= h
    requires s[0].tombstone && s[0].ts <= h
    ensures Dropped(s, h, s[0].pk, s[0])
    ensures Newest(s, s[0].pk, snap) == Some(s[0])
  {
    var pk := s[0].pk;
    var n := RunLength(s, pk);
    RunIsWhole(s, n);
    GcElements(s[n..], h);
    assert KeepOfRun(s[..n], h) == [];
    forall j | 0 < j < |s| && s[j].pk == pk ensures s[j].ts < s[0].ts {
      BeforeTotal(s[0], s[j]);
      LessTotal(pk, pk);
    }
    forall w | w in s && w.pk == pk ensures w.ts <= s[0].ts {
      var j :| 0 <= j < |s| && s[j] == w;
    }
    NewestIsNewest(s[1..], pk, snap);
  }

  /**
   * When compaction is safe in the presence of other sources: exactly when no key whose run is
   * dropped has, among the other sources, a live row that the dropped tombstone was hiding.
   */
  lemma GcSafeIff(others: seq<Version>, s: seq<Version>, h: nat)
    requires Sorted(s)
    ensures (forall pk, snap | snap >= h :: Read(others + Gc(s, h), pk, snap) == Read(others + s, pk, snap))
        <==> (forall pk, v | Dropped(s, h, pk, v) ::
                var m := Newest(others, pk, h); m.None? || m.value.tombstone || m.value.ts >= v.ts)
  {
    var g := Gc(s, h);
    forall pk, v | Dropped(s, h, pk, v) && Newest(others, pk, h).Some?
                   && !Newest(others, pk, h).value.tombstone && Newest(others, pk, h).value.ts < v.ts
      ensures Read(others + g, pk, h) != Read(others + s, pk, h)
    {
      NewestOfConcat(others, g, pk, h);
      NewestOfConcat(others, s, pk, h);
      NoneElsewhere(g, pk, h);
      NewestIsNewest(s, pk, h);
      GcKeepsVisible(s, h, pk, h);
    }
    if forall pk, v | Dropped(s, h, pk, v) ::
         var m := Newest(others, pk, h); m.None? || m.value.tombstone || m.value.ts >= v.ts {
      forall pk, snap | snap >= h ensures Read(others + g, pk, snap) == Read(others + s, pk, snap) {
        NewestOfConcat(others, g, pk, snap);
        NewestOfConcat(others, s, pk, snap);
        GcKeepsVisible(s, h, pk, snap);
        if Newest(s, pk, snap).Some? && Dropped(s, h, pk, Newest(s, pk, snap).value) {
          var v := Newest(s, pk, snap).value;
          NoneElsewhere(g, pk, snap);
          var m := Newest(others, pk, snap);
          if m.Some? && m.value.ts < v.ts { SameBelow(others, pk, h, snap); }
        }
      }
    }
  }

  /** Helper: a newest version not above `h` is also the newest one at `h`. */
  lemma {:induction false} SameBelow(s: seq<Version>, pk: Value, h: nat, snap: nat)
    requires h <= snap
    requires Newest(s, pk, snap).Some? ==> Newest(s, pk, snap).value.ts <= h
    ensures Newest(s, pk, h) == Newest(s, pk, snap)
  {
    if s != [] { SameBelow(s[1..], pk, h, snap); }
  }

  /** Compaction under newer sources that dominate its input keeps the whole store's meaning. */
  lemma GcUnderNewer(newer: seq<Version>, s: seq<Version>, h: nat)
    requires Sorted(s) && Dominates(newer, s)
    ensures Refines(newer + Gc(s, h), newer + s, h)
  {
    var g := Gc(s, h);
    forall pk, snap | snap >= h
      ensures StandsFor(Newest(newer + g, pk, snap), Newest(newer + s, pk, snap))
    {
      NewestOfConcat(newer, g, pk, snap);
      NewestOfConcat(newer, s, pk, snap);
      GcKeepsVisible(s, h, pk, snap);
      if Newest(s, pk, snap).Some? && Dropped(s, h, pk, Newest(s, pk, snap).value) {
        NoneElsewhere(g, pk, snap);
        NewestIsNewest(newer, pk, snap);
      }
    }
  }

  // ---- What is left of one version ----

  /** A younger version of the same key at or below the horizon. */
  ghost predicate Hidden(s: seq<Version>, h: nat, v: Version) {
    exists w :: w in s && w.pk == v.pk && v.ts < w.ts <= h
  }

  lemma KeptOfRunAtLeast(run: seq<Version>, h: nat, w: Version)
    requires Sorted(run) && (forall i | 0 <= i < |run| :: run[i].pk == w.pk) && w in run && w.ts <= h
    ensures forall x: Version | x in KeepOfRun(run, h) :: x.ts >= w.ts
  {
    var k := Anchor(run, h);
    AnchorSplits(run, h);
    var j :| 0 <= j < |run| && run[j] == w;
    RestIsOlder(run, k, w.pk);
    assert j > k ==> run[k + 1..][j - k - 1] == w;
    assert run[k].ts >= w.ts;
  }

  lemma KeptOfRunIsRun(run: seq<Version>, h: nat, pk: Value)
    requires forall i | 0 <= i < |run| :: run[i].pk == pk
    ensures forall x: Version | x in KeepOfRun(run, h) :: x.pk == pk
  {
  }

  /** Helper: where a version lies, and where a kept one comes from. */
  lemma RunParts(s: seq<Version>, n: nat)
    requires Sorted(s) && s != [] && n == RunLength(s, s[0].pk)
    ensures forall x: Version | x in s :: if x.pk == s[0].pk then x in s[..n] else x in s[n..]
    ensures (forall i | 0 <= i < n :: s[..n][i].pk == s[0].pk) && forall x: Version | x in s[n..] :: x.pk != s[0].pk
  {
    RunLengthSplits(s, s[0].pk);
    RunIsWhole(s, n);
    assert s == s[..n] + s[n..];
  }

  lemma GcParts(s: seq<Version>, n: nat, h: nat, run: seq<Version>, rest: seq<Version>)
    requires s != [] && n == RunLength(s, s[0].pk) && run == s[..n] && rest == s[n..]
    requires (forall i | 0 <= i < |run| :: run[i].pk == s[0].pk) && forall x: Version | x in rest :: x.pk != s[0].pk
    ensures forall x: Version | x in Gc(s, h) :: if x.pk == s[0].pk then x in KeepOfRun(run, h) else x in Gc(rest, h)
  {
    GcElements(rest, h);
    KeptOfRunIsRun(run, h, s[0].pk);
    GcUnfold(s, n, h);
  }

  /** Of a key with a version at or below the horizon, collection keeps nothing older than that version. */
  lemma {:induction false} GcDropsHidden(s: seq<Version>, h: nat, w: Version)
    requires Sorted(s) && w in s && w.ts <= h
    ensures forall x | x in Gc(s, h) && x.pk == w.pk :: x.ts >= w.ts
  {
    var n := RunLength(s, s[0].pk);
    RunParts(s, n);
    GcParts(s, n, h, s[..n], s[n..]);
    if w.pk == s[0].pk {
      KeptOfRunAtLeast(s[..n], h, w);
    } else {
      GcDropsHidden(s[n..], h, w);
    }
  }

  /** What is not hidden survives, or is the tombstone whose run is discarded. */
  lemma SurvivesOrDropped(s: seq<Version>, h: nat, v: Version)
    requires Sorted(s) && Consistent(s) && v in s && !Hidden(s, h, v)
    ensures v in Gc(s, h) || Dropped(s, h, v.pk, v)
  {
    var snap := if v.ts > h then v.ts else h;
    NewestUnique(s, v.pk, snap, v);
    GcKeepsVisible(s, h, v.pk, snap);
    NewestIsNewest(Gc(s, h), v.pk, snap);
  }

  lemma {:induction false} RunLengthIs(s: seq<Version>, pk: Value, n: nat)
    requires n <= |s| && (forall m | 0 <= m < n :: s[m].pk == pk) && (n < |s| ==> s[n].pk != pk)
    ensures RunLength(s, pk) == n
  {
    if n > 0 { RunLengthIs(s[1..], pk, n - 1); }
  }

  lemma {:induction false} AnchorIs(run: seq<Version>, h: nat, k: nat)
    requires k <= |run| && (forall m | 0 <= m < k :: run[m].ts > h) && (k < |run| ==> run[k].ts <= h)
    ensures Anchor(run, h) == k
  {
    if k > 0 { AnchorIs(run[1..], h, k - 1); }
  }

  /** The scan for the end of the run that starts at `i`. */
  method FindRunEnd(s: seq<Version>, i: nat) returns (j: nat)
    requires i < |s|
    ensures j == i + RunLength(s[i..], s[i].pk)
  {
    j := i;
    while j < |s| && s[j].pk == s[i].pk
      invariant i <= j <= |s|
      invariant forall m | i <= m < j :: s[m].pk == s[i].pk
    {
      j := j + 1;
    }
    RunLengthIs(s[i..], s[i].pk, j - i);
  }

  /** The scan of one run for its first version at or below the horizon. */
  method FindAnchor(s: seq<Version>, i: nat, j: nat, h: nat) returns (anchor: nat)
    requires i <= j <= |s|
    ensures anchor == i + Anchor(s[i..j], h)
  {
    anchor := j;
    for k := i to j
      invariant anchor == j
      invariant forall m | i <= m < k :: s[m].ts > h
    {
      if s[k].ts <= h {
        anchor := k;
        break;
      }
    }
    AnchorIs(s[i..j], h, anchor - i);
  }

  /** The run-by-run loop of garbage collection. A zero horizon collects nothing. */
  method CollectGarbage(merged: seq<Version>, h: nat) returns (kept: seq<Version>)
    ensures kept == if h > 0 then Gc(merged, h) else merged
  {
    if h == 0 { return merged; }
    kept := [];
    var i := 0;
    while i < |merged|
      invariant 0 <= i <= |merged|
      invariant kept + Gc(merged[i..], h) == Gc(merged, h)
    {
      var j := FindRunEnd(merged, i);
      var part := CollectRun(merged, i, j, h);
      Slices(merged, i, j);
      KeepStep(merged[i..], merged[i..j], merged[j..], j - i, h, kept, Gc(merged, h));
      kept, i := kept + part, j;
    }
  }

  /** What is kept of one run of versions of a key. */
  method CollectRun(merged: seq<Version>, i: nat, j: nat, h: nat) returns (part: seq<Version>)
    requires i < j <= |merged|
    ensures part == KeepOfRun(merged[i..j], h)
  {
    KeepOfSlice(merged, i, j, h);
    var anchor := FindAnchor(merged, i, j, h);
    if anchor == j { return merged[i..j]; }
    if merged[anchor].tombstone && anchor == i { return []; }
    return merged[i..anchor + 1];
  }

  /** Helper: what one turn of the collection loop keeps. */
  lemma KeepOfSlice(s: seq<Version>, i: nat, j: nat, h: nat)
    requires i < j <= |s|
    ensures var a := i + Anchor(s[i..j], h);
      KeepOfRun(s[i..j], h) == if a == j then s[i..j] else if s[a].tombstone && a == i then [] else s[i..a + 1]
  {
    var run := s[i..j];
    var k := Anchor(run, h);
    if k < |run| { assert run[k] == s[i + k] && run[..k + 1] == s[i..i + k + 1]; }
  }

  /** Helper: one turn of the collection loop, from `a` over its first run to the rest. */
  lemma KeepStep(a: seq<Version>, run: seq<Version>, rest: seq<Version>, n: nat, h: nat, was: seq<Version>, all: seq<Version>)
    requires a != [] && n == RunLength(a, a[0].pk) && run == a[..n] && rest == a[n..]
    requires was + Gc(a, h) == all
    ensures was + KeepOfRun(run, h) + Gc(rest, h) == all
  {
    GcUnfold(a, n, h);
    Regroup(was, KeepOfRun(run, h), Gc(rest, h));
  }

  lemma Slices(s: seq<Version>, i: nat, j: nat)
    requires i < j <= |s|
    ensures s[i..][0] == s[i] && s[i..][..j - i] == s[i..j] && s[i..][j - i..] == s[j..]
  {
  }

  lemma GcUnfold(s: seq<Version>, n: nat, h: nat)
    requires s != [] && n == RunLength(s, s[0].pk)
    ensures Gc(s, h) == KeepOfRun(s[..n], h) + Gc(s[n..], h)
  {
  }

  lemma Regroup(a: seq<Version>, b: seq<Version>, c: seq<Version>)
    ensures a + (b + c) == a + b + c
  {
  }
}
