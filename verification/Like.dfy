/** The LIKE matcher: one remembered '%', no recursion. */
module Like {

  /** What LIKE means: '%' stands for any characters, '_' for one, anything else for itself. */
  predicate Like(p: string, t: string)
    decreases |p| + |t|
  {
    if p == [] then t == []
    else if p[0] == '%' then Like(p[1..], t) || (t != [] && Like(p, t[1..]))
    else t != [] && (p[0] == '_' || p[0] == t[0]) && Like(p[1..], t[1..])
  }

  /** '%' in front of a pattern: where the rest of the pattern takes over. */
  lemma {:induction false} PercentPosition(q: string, t: string) returns (k: nat)
    requires Like(['%'] + q, t)
    ensures k <= |t| && Like(q, t[k..])
  {
    assert (['%'] + q)[1..] == q;
    if Like(q, t) {
      k := 0;
      assert t[0..] == t;
    } else {
      k := PercentPosition(q, t[1..]);
      assert t[1..][k..] == t[k + 1..];
      k := k + 1;
    }
  }

  /** '%' in front of a pattern: the rest may take over anywhere. */
  lemma {:induction false} PercentFrom(q: string, t: string, k: nat)
    requires k <= |t| && Like(q, t[k..])
    ensures Like(['%'] + q, t)
  {
    assert (['%'] + q)[1..] == q;
    if k == 0 {
      assert t[0..] == t;
    } else {
      assert t[1..][k - 1..] == t[k..];
      PercentFrom(q, t[1..], k - 1);
    }
  }

  /** A pattern without wildcards matches itself; '_' matches one character; '%' matches any beginning. */
  lemma LikeLaws(p: string, t: string)
    ensures '%' !in p && '_' !in p ==> (Like(p, t) <==> p == t)
    ensures Like(['_'] + p, t) <==> t != [] && Like(p, t[1..])
    ensures Like(['%'] + p, t) <==> exists k :: 0 <= k <= |t| && Like(p, t[k..])
  {
    if '%' !in p && '_' !in p { PlainPattern(p, t); }
    assert (['_'] + p)[1..] == p;
    if Like(['%'] + p, t) { var k := PercentPosition(p, t); }
    if k :| 0 <= k <= |t| && Like(p, t[k..]) { PercentFrom(p, t, k); }
  }

  lemma {:induction false} PlainPattern(p: string, t: string)
    requires '%' !in p && '_' !in p
    ensures Like(p, t) <==> p == t
    decreases |p|
  {
    if p != [] && t != [] {
      PlainPattern(p[1..], t[1..]);
      assert p == [p[0]] + p[1..] && t == [t[0]] + t[1..];
    }
  }

  /** The cursors of the matcher; `star` is the last '%' met, or -1. */
  datatype Cursor = Cursor(ti: nat, pi: nat, star: int, starTi: nat) {
    predicate Within(t: string, p: string) {
      && ti <= |t| && pi <= |p| && -1 <= star < pi && starTi <= ti
      && (star < 0 ==> starTi == 0)
      && (star >= 0 ==> p[star] == '%')
    }
  }

  function SkipPercents(p: string, pi: nat): (r: nat)
    requires pi <= |p|
    ensures pi <= r <= |p|
    decreases |p| - pi
  {
    if pi < |p| && p[pi] == '%' then SkipPercents(p, pi + 1) else pi
  }

  /** What the two loops of `match_like` compute from a given state. */
  predicate Matches(t: string, p: string, c: Cursor)
    requires c.Within(t, p)
    decreases |p| - c.star, |t| - c.starTi, |t| - c.ti
  {
    if c.ti == |t| then SkipPercents(p, c.pi) == |p|
    else if c.pi < |p| && (p[c.pi] == '_' || p[c.pi] == t[c.ti]) then
      Matches(t, p, c.(ti := c.ti + 1, pi := c.pi + 1))
    else if c.pi < |p| && p[c.pi] == '%' then
      Matches(t, p, Cursor(c.ti, c.pi + 1, c.pi, c.ti))
    else if c.star >= 0 then
      Matches(t, p, Cursor(c.starTi + 1, c.star + 1, c.star, c.starTi + 1))
    else false
  }

  const START := Cursor(0, 0, -1, 0)

  /** `match_like`: the two loops over cursors. */
  method MatchLike(t: string, p: string) returns (r: bool)
    ensures r == Matches(t, p, START)
  {
    var ti, pi, star, starTi := 0, 0, -1, 0;
    while ti < |t|
      invariant Cursor(ti, pi, star, starTi).Within(t, p)
      invariant Matches(t, p, Cursor(ti, pi, star, starTi)) == Matches(t, p, START)
      decreases |p| - star, |t| - starTi, |t| - ti
    {
      if pi < |p| && (p[pi] == '_' || p[pi] == t[ti]) {
        ti, pi := ti + 1, pi + 1;
      } else if pi < |p| && p[pi] == '%' {
        star, starTi, pi := pi, ti, pi + 1;
      } else if star >= 0 {
        pi, starTi, ti := star + 1, starTi + 1, starTi + 1;
      } else {
        return false;
      }
    }
    ghost var from := pi;
    while pi < |p| && p[pi] == '%'
      invariant from <= pi <= |p| && SkipPercents(p, pi) == SkipPercents(p, from)
    {
      pi := pi + 1;
    }
    return pi == |p|;
  }

  // ---- A match is always right ----

  lemma {:induction false} OnlyPercentsLeft(p: string, pi: nat)
    requires pi <= |p|
    ensures SkipPercents(p, pi) == |p| <==> Like(p[pi..], [])
    decreases |p| - pi
  {
    if pi < |p| && p[pi] == '%' {
      OnlyPercentsLeft(p, pi + 1);
      assert p[pi..][1..] == p[pi + 1..];
    }
  }

  /** Whatever the text, the matcher accepts only what LIKE accepts. */
  lemma {:induction false} Sound(t: string, p: string, c: Cursor)
    requires c.Within(t, p) && Matches(t, p, c)
    requires Like(p[c.pi..], t[c.ti..]) ==> Like(p, t)
    requires c.star >= 0 ==> forall k | c.starTi <= k <= |t| && Like(p[c.star + 1..], t[k..]) :: Like(p, t)
    ensures Like(p, t)
    decreases |p| - c.star, |t| - c.starTi, |t| - c.ti
  {
    if c.ti == |t| {
      OnlyPercentsLeft(p, c.pi);
      assert t[c.ti..] == [];
    } else if c.pi < |p| && (p[c.pi] == '_' || p[c.pi] == t[c.ti]) {
      assert p[c.pi..][1..] == p[c.pi + 1..] && t[c.ti..][1..] == t[c.ti + 1..];
      var q := p[c.pi..];
      assert q[0] == '%' && Like(q[1..], t[c.ti + 1..]) ==> Like(q, t[c.ti + 1..]);
      Sound(t, p, c.(ti := c.ti + 1, pi := c.pi + 1));
    } else if c.pi < |p| && p[c.pi] == '%' {
      assert p[c.pi..] == ['%'] + p[c.pi + 1..];
      forall k | c.ti <= k <= |t| && Like(p[c.pi + 1..], t[k..]) ensures Like(p, t) {
        assert t[c.ti..][k - c.ti..] == t[k..];
        PercentFrom(p[c.pi + 1..], t[c.ti..], k - c.ti);
      }
      Sound(t, p, Cursor(c.ti, c.pi + 1, c.pi, c.ti));
    } else {
      Sound(t, p, Cursor(c.starTi + 1, c.star + 1, c.star, c.starTi + 1));
    }
  }

  // ---- A mismatch is right when the text holds no '%' ----

  /** Helper: a stretch of pattern without '%' consumes exactly its own length. */
  lemma {:induction false} FixedStretch(seg: string, rest: string, t: string)
    requires '%' !in seg && Like(seg + rest, t)
    ensures |t| >= |seg| && Like(rest, t[|seg|..])
  {
    if seg == [] {
      assert seg + rest == rest && t[0..] == t;
    } else {
      assert (seg + rest)[1..] == seg[1..] + rest;
      FixedStretch(seg[1..], rest, t[1..]);
      assert t[1..][|seg| - 1..] == t[|seg|..];
    }
  }

  /** The text can still match: from the cursors, or from the later start `k` for the last '%'. */
  predicate Hope(t: string, p: string, c: Cursor, k: nat)
    requires c.Within(t, p)
  {
    Like(p[c.pi..], t[c.ti..]) || (c.star >= 0 && c.starTi < k <= |t| && Like(p[c.star + 1..], t[k..]))
  }

  /** Since the last '%' the pattern has been matched character by character. */
  predicate InStep(p: string, c: Cursor)
    requires c.star < c.pi <= |p| && c.star >= -1
  {
    c.star >= 0 ==> c.ti - c.starTi == c.pi - (c.star + 1) && '%' !in p[c.star + 1..c.pi]
  }

  /** Helper: once a new '%' is met, later starts of the previous one are not needed. */
  lemma LastPercentSuffices(t: string, p: string, c: Cursor, k: nat)
    requires c.Within(t, p) && InStep(p, c) && c.star >= 0
    requires c.starTi < k <= |t| && Like(p[c.star + 1..], t[k..])
    ensures var m := c.pi - (c.star + 1); k + m <= |t| && k + m > c.ti && Like(p[c.pi..], t[k + m..])
  {
    var seg := p[c.star + 1..c.pi];
    assert p[c.star + 1..] == seg + p[c.pi..];
    FixedStretch(seg, p[c.pi..], t[k..]);
    assert t[k..][|seg|..] == t[k + |seg|..];
  }

  lemma {:induction false} Complete(t: string, p: string, c: Cursor, k: nat)
    requires '%' !in t && c.Within(t, p) && InStep(p, c) && Hope(t, p, c, k)
    ensures Matches(t, p, c)
    decreases |p| - c.star, |t| - c.starTi, |t| - c.ti
  {
    if c.ti == |t| {
      HopeAtEnd(t, p, c, k);
    } else if c.pi < |p| && (p[c.pi] == '_' || p[c.pi] == t[c.ti]) {
      HopeAfterStep(t, p, c, k);
      Complete(t, p, c.(ti := c.ti + 1, pi := c.pi + 1), k);
    } else if c.pi < |p| && p[c.pi] == '%' {
      var j := HopeAtPercent(t, p, c, k);
      Complete(t, p, Cursor(c.ti, c.pi + 1, c.pi, c.ti), j);
    } else {
      HopeAtMismatch(t, p, c, k);
      Complete(t, p, Cursor(c.starTi + 1, c.star + 1, c.star, c.starTi + 1), k);
    }
  }

  /** Helper: at the end of the text only '%' is left. */
  lemma HopeAtEnd(t: string, p: string, c: Cursor, k: nat)
    requires c.Within(t, p) && InStep(p, c) && Hope(t, p, c, k) && c.ti == |t|
    ensures SkipPercents(p, c.pi) == |p|
  {
    OnlyPercentsLeft(p, c.pi);
    assert t[c.ti..] == [];
    if !Like(p[c.pi..], t[c.ti..]) { LastPercentSuffices(t, p, c, k); }
  }

  /** Helper: at a mismatch the hope is in a later start for the last '%'. */
  lemma HopeAtMismatch(t: string, p: string, c: Cursor, k: nat)
    requires c.Within(t, p) && Hope(t, p, c, k) && c.ti < |t|
    requires c.pi < |p| ==> p[c.pi] != '_' && p[c.pi] != '%' && p[c.pi] != t[c.ti]
    ensures c.star >= 0 && c.starTi < |t|
    ensures var d := Cursor(c.starTi + 1, c.star + 1, c.star, c.starTi + 1); d.Within(t, p) && InStep(p, d) && Hope(t, p, d, k)
  {
    assert !Like(p[c.pi..], t[c.ti..]);
  }

  /** Helper: hope carries over a matched character. */
  lemma HopeAfterStep(t: string, p: string, c: Cursor, k: nat)
    requires c.Within(t, p) && InStep(p, c) && Hope(t, p, c, k)
    requires c.ti < |t| && c.pi < |p| && p[c.pi] != '%'
    ensures var d := c.(ti := c.ti + 1, pi := c.pi + 1); d.Within(t, p) && InStep(p, d) && Hope(t, p, d, k)
  {
    assert p[c.pi..][1..] == p[c.pi + 1..] && t[c.ti..][1..] == t[c.ti + 1..];
    if c.star >= 0 { assert p[c.star + 1..c.pi + 1] == p[c.star + 1..c.pi] + [p[c.pi]]; }
  }

  /** Helper: hope carries over to a newly met '%'. */
  lemma HopeAtPercent(t: string, p: string, c: Cursor, k: nat) returns (j: nat)
    requires c.Within(t, p) && InStep(p, c) && Hope(t, p, c, k) && c.pi < |p| && p[c.pi] == '%'
    ensures var d := Cursor(c.ti, c.pi + 1, c.pi, c.ti); d.Within(t, p) && InStep(p, d) && Hope(t, p, d, j)
  {
    var q := p[c.pi + 1..];
    assert p[c.pi..] == ['%'] + q;
    var at := c.ti;
    if !Like(p[c.pi..], t[c.ti..]) {
      LastPercentSuffices(t, p, c, k);
      at := k + (c.pi - (c.star + 1));
    }
    j := PercentPosition(q, t[at..]);
    assert t[at..][j..] == t[at + j..];
    j := at + j;
  }

  // ---- Exactly when the matcher is right ----

  function Underscores(n: nat): string {
    if n == 0 then [] else ['_'] + Underscores(n - 1)
  }

  lemma {:induction false} UnderscoresMatch(n: nat, t: string)
    requires |t| == n
    ensures |Underscores(n)| == n && Like(Underscores(n), t)
    ensures forall i | 0 <= i < n :: Underscores(n)[i] == '_'
  {
    if n > 0 { UnderscoresMatch(n - 1, t[1..]); }
  }

  /** A pattern that the text matches but the matcher, taking '%' of the text for a literal, refuses. */
  function Witness(t: string, i: nat): string
    requires i < |t|
  {
    t[..i] + ['%'] + Underscores(|t| - i)
  }

  lemma PercentThenUnderscores(s: string)
    ensures Like(['%'] + Underscores(|s|), s)
  {
    UnderscoresMatch(|s|, s);
    assert s[0..] == s;
    PercentFrom(Underscores(|s|), s, 0);
  }

  lemma WitnessIsLike(u: string, s: string)
    requires '%' !in u
    ensures Like(u + (['%'] + Underscores(|s|)), u + s)
  {
    PercentThenUnderscores(s);
    SamePrefix(u, ['%'] + Underscores(|s|), s);
  }

  lemma {:induction false} SamePrefix(u: string, q: string, s: string)
    requires '%' !in u && Like(q, s)
    ensures Like(u + q, u + s)
  {
    if u == [] {
      assert u + q == q && u + s == s;
    } else {
      assert (u + q)[1..] == u[1..] + q && (u + s)[1..] == u[1..] + s;
      SamePrefix(u[1..], q, s);
    }
  }

  lemma {:induction false} WitnessIsRefused(t: string, i: nat, n: nat)
    requires i < |t| && t[i] == '%' && n <= |t|
    ensures Cursor(n, n, -1, 0).Within(t, Witness(t, i)) && !Matches(t, Witness(t, i), Cursor(n, n, -1, 0))
    decreases |t| - n
  {
    var p := Witness(t, i);
    UnderscoresMatch(|t| - i, t[i..]);
    if n < |t| {
      WitnessIsRefused(t, i, n + 1);
      assert p[n] == '_' || p[n] == t[n];
    }
  }

  /** For a given text the matcher agrees with LIKE on every pattern exactly when the text has no '%'. */
  lemma RightForEveryPatternIff(t: string)
    ensures (forall p :: Matches(t, p, START) <==> Like(p, t)) <==> '%' !in t
  {
    if '%' in t {
      var i := FirstPercent(t);
      WitnessIsLike(t[..i], t[i..]);
      assert Witness(t, i) == t[..i] + (['%'] + Underscores(|t[i..]|)) && t == t[..i] + t[i..];
      WitnessIsRefused(t, i, 0);
    } else {
      forall p ensures Matches(t, p, START) <==> Like(p, t) {
        assert p[0..] == p && t[0..] == t;
        if Matches(t, p, START) { Sound(t, p, START); }
        if Like(p, t) { Complete(t, p, START, 0); }
      }
    }
  }

  function FirstPercent(t: string): (i: nat)
    requires '%' in t
    ensures i < |t| && t[i] == '%' && '%' !in t[..i]
  {
    if t[0] == '%' then 0
    else
      var i := FirstPercent(t[1..]);
      assert t[..i + 1] == [t[0]] + t[1..][..i];
      i + 1
  }

  /** No false positives, even for texts that contain '%'. */
  lemma NeverAcceptsWrongly(t: string, p: string)
    ensures Matches(t, p, START) ==> Like(p, t)
  {
    assert p[0..] == p && t[0..] == t;
    if Matches(t, p, START) { Sound(t, p, START); }
  }
}
