/** The three join operators against one meaning: nested loops, hash and sort-merge. */
module Joins {
  import opened Values
  import opened Rounding

  datatype Kind = Inner | Left | Right | Full

  predicate KeepsLeft(kind: Kind) { kind.Left? || kind.Full? }
  predicate KeepsRight(kind: Kind) { kind.Right? || kind.Full? }

  /** An output record: two rows side by side, or one row beside the all-NULL record of the other side. */
  datatype Out = Both(l: Row, r: Row) | LeftOnly(l: Row) | RightOnly(r: Row)

  /** When a pair joins: the ON condition evaluates to true. */
  type Pred = (Row, Row) -> bool

  predicate Seen(lefts: seq<Row>, r: Row, p: Pred) {
    exists l :: l in lefts && p(l, r)
  }

  predicate Met(l: Row, rights: seq<Row>, p: Pred) {
    exists r :: r in rights && p(l, r)
  }

  // ---- The meaning, in output order ----

  function MatchesOf(l: Row, rights: seq<Row>, p: Pred): seq<Out> {
    if rights == [] then [] else
    var r := rights[|rights| - 1];
    MatchesOf(l, rights[..|rights| - 1], p) + if p(l, r) then [Both(l, r)] else []
  }

  function LeftOne(l: Row, rights: seq<Row>, p: Pred, kind: Kind): seq<Out> {
    MatchesOf(l, rights, p) + if !Met(l, rights, p) && KeepsLeft(kind) then [LeftOnly(l)] else []
  }

  function LeftPart(lefts: seq<Row>, rights: seq<Row>, p: Pred, kind: Kind): seq<Out> {
    if lefts == [] then [] else
    LeftPart(lefts[..|lefts| - 1], rights, p, kind) + LeftOne(lefts[|lefts| - 1], rights, p, kind)
  }

  function RightPart(lefts: seq<Row>, rights: seq<Row>, p: Pred): seq<Out> {
    if rights == [] then [] else
    var r := rights[|rights| - 1];
    RightPart(lefts, rights[..|rights| - 1], p) + if Seen(lefts, r, p) then [] else [RightOnly(r)]
  }

  function JoinOf(lefts: seq<Row>, rights: seq<Row>, p: Pred, kind: Kind): seq<Out> {
    LeftPart(lefts, rights, p, kind) + if KeepsRight(kind) then RightPart(lefts, rights, p) else []
  }

  // ---- The meaning, counted ----

  /** The product, by its first factor. */
  ghost function Times(a: nat, b: nat): nat {
    if a == 0 then 0 else Times(a - 1, b) + b
  }

  lemma {:induction false} TimesIsProduct(a: nat, b: nat)
    ensures Times(a, b) == a * b
  {
    if a > 0 { TimesIsProduct(a - 1, b); }
  }

  /** How often each record belongs in the result, from how often the rows occur in the inputs. */
  ghost function Multiplicity(lefts: seq<Row>, rights: seq<Row>, p: Pred, kind: Kind, o: Out): nat {
    match o
    case Both(l, r) => if p(l, r) then Times(multiset(lefts)[l], multiset(rights)[r]) else 0
    case LeftOnly(l) => if KeepsLeft(kind) && !Met(l, rights, p) then multiset(lefts)[l] else 0
    case RightOnly(r) => if KeepsRight(kind) && !Seen(lefts, r, p) then multiset(rights)[r] else 0
  }

  lemma DropLast(s: seq<Row>)
    requires s != []
    ensures s == s[..|s| - 1] + [s[|s| - 1]]
    ensures multiset(s) == multiset(s[..|s| - 1]) + multiset{s[|s| - 1]}
  {
    assert s == s[..|s| - 1] + [s[|s| - 1]];
  }

  lemma {:induction false} MatchesCount(l: Row, rights: seq<Row>, p: Pred, o: Out)
    ensures multiset(MatchesOf(l, rights, p))[o] ==
      if o.Both? && o.l == l && p(l, o.r) then multiset(rights)[o.r] else 0
  {
    if rights != [] {
      DropLast(rights);
      MatchesCount(l, rights[..|rights| - 1], p, o);
    }
  }

  lemma LeftOneCount(l: Row, rights: seq<Row>, p: Pred, kind: Kind, o: Out)
    ensures multiset(LeftOne(l, rights, p, kind))[o] ==
      match o
      case Both(l', r) => if l' == l && p(l, r) then multiset(rights)[r] else 0
      case LeftOnly(l') => if l' == l && KeepsLeft(kind) && !Met(l, rights, p) then 1 else 0
      case RightOnly(_) => 0
  {
    MatchesCount(l, rights, p, o);
  }

  /** The count of a record in the left part, one left row at a time. */
  lemma LeftPartStep(lefts: seq<Row>, rights: seq<Row>, p: Pred, kind: Kind, o: Out)
    requires lefts != []
    ensures multiset(LeftPart(lefts, rights, p, kind))[o] ==
      multiset(LeftPart(lefts[..|lefts| - 1], rights, p, kind))[o] +
      multiset(LeftOne(lefts[|lefts| - 1], rights, p, kind))[o]
  {
    assert multiset(LeftPart(lefts, rights, p, kind)) ==
      multiset(LeftPart(lefts[..|lefts| - 1], rights, p, kind)) +
      multiset(LeftOne(lefts[|lefts| - 1], rights, p, kind));
  }

  lemma CountStep(s: seq<Row>, x: Row)
    requires s != []
    ensures multiset(s)[x] == multiset(s[..|s| - 1])[x] + if s[|s| - 1] == x then 1 else 0
  {
    DropLast(s);
  }

  lemma TimesStep(a: nat, b: nat)
    ensures Times(a + 1, b) == Times(a, b) + b
  {
  }

  lemma {:induction false} LeftCountBoth(lefts: seq<Row>, rights: seq<Row>, p: Pred, kind: Kind, l: Row, r: Row)
    ensures multiset(LeftPart(lefts, rights, p, kind))[Both(l, r)] ==
      if p(l, r) then Times(multiset(lefts)[l], multiset(rights)[r]) else 0
  {
    if lefts == [] {
      assert LeftPart(lefts, rights, p, kind) == [];
    } else {
      LeftCountBoth(lefts[..|lefts| - 1], rights, p, kind, l, r);
      LeftPartStep(lefts, rights, p, kind, Both(l, r));
      LeftOneCount(lefts[|lefts| - 1], rights, p, kind, Both(l, r));
      CountStep(lefts, l);
      TimesStep(multiset(lefts[..|lefts| - 1])[l], multiset(rights)[r]);
    }
  }

  lemma {:induction false} LeftCountOnly(lefts: seq<Row>, rights: seq<Row>, p: Pred, kind: Kind, l: Row)
    ensures multiset(LeftPart(lefts, rights, p, kind))[LeftOnly(l)] ==
      if KeepsLeft(kind) && !Met(l, rights, p) then multiset(lefts)[l] else 0
  {
    if lefts == [] {
      assert LeftPart(lefts, rights, p, kind) == [];
    } else {
      LeftCountOnly(lefts[..|lefts| - 1], rights, p, kind, l);
      LeftPartStep(lefts, rights, p, kind, LeftOnly(l));
      LeftOneCount(lefts[|lefts| - 1], rights, p, kind, LeftOnly(l));
      CountStep(lefts, l);
    }
  }

  lemma {:induction false} NoRightOnly(lefts: seq<Row>, rights: seq<Row>, p: Pred, kind: Kind, r: Row)
    ensures multiset(LeftPart(lefts, rights, p, kind))[RightOnly(r)] == 0
  {
    if lefts == [] {
      assert LeftPart(lefts, rights, p, kind) == [];
    } else {
      NoRightOnly(lefts[..|lefts| - 1], rights, p, kind, r);
      LeftPartStep(lefts, rights, p, kind, RightOnly(r));
      LeftOneCount(lefts[|lefts| - 1], rights, p, kind, RightOnly(r));
    }
  }

  lemma {:induction false} RightCount(lefts: seq<Row>, rights: seq<Row>, p: Pred, o: Out)
    ensures multiset(RightPart(lefts, rights, p))[o] ==
      if o.RightOnly? && !Seen(lefts, o.r, p) then multiset(rights)[o.r] else 0
  {
    if rights != [] {
      DropLast(rights);
      RightCount(lefts, rights[..|rights| - 1], p, o);
    }
  }

  /** The output in order contains every record exactly as often as it belongs in the result. */
  lemma JoinCounts(lefts: seq<Row>, rights: seq<Row>, p: Pred, kind: Kind, o: Out)
    ensures multiset(JoinOf(lefts, rights, p, kind))[o] == Multiplicity(lefts, rights, p, kind, o)
  {
    match o {
      case Both(l, r) => LeftCountBoth(lefts, rights, p, kind, l, r);
      case LeftOnly(l) => LeftCountOnly(lefts, rights, p, kind, l);
      case RightOnly(r) => NoRightOnly(lefts, rights, p, kind, r);
    }
    RightCount(lefts, rights, p, o);
  }

  // ---- What the four kinds keep ----

  lemma CountsMembers(s: seq<Out>, o: Out)
    ensures o in s <==> multiset(s)[o] > 0
  {
    assert o in multiset(s) <==> o in s;
  }

  lemma RowCounts(s: seq<Row>, x: Row)
    ensures x in s <==> multiset(s)[x] > 0
  {
    assert x in multiset(s) <==> x in s;
  }

  /** Every kind delivers a pair exactly if both rows are there and ON is true. */
  lemma PairsOf(lefts: seq<Row>, rights: seq<Row>, p: Pred, kind: Kind, l: Row, r: Row)
    ensures Both(l, r) in JoinOf(lefts, rights, p, kind) <==> l in lefts && r in rights && p(l, r)
  {
    JoinCounts(lefts, rights, p, kind, Both(l, r));
    CountsMembers(JoinOf(lefts, rights, p, kind), Both(l, r));
    RowCounts(lefts, l);
    RowCounts(rights, r);
    TimesIsProduct(multiset(lefts)[l], multiset(rights)[r]);
  }

  /** LEFT and FULL deliver a left row alone exactly if no right row joins it; INNER and RIGHT never do. */
  lemma LeftRowAlone(lefts: seq<Row>, rights: seq<Row>, p: Pred, l: Row)
    ensures LeftOnly(l) in JoinOf(lefts, rights, p, Left) <==> l in lefts && forall r | r in rights :: !p(l, r)
    ensures LeftOnly(l) in JoinOf(lefts, rights, p, Full) <==> l in lefts && forall r | r in rights :: !p(l, r)
    ensures LeftOnly(l) !in JoinOf(lefts, rights, p, Inner) && LeftOnly(l) !in JoinOf(lefts, rights, p, Right)
  {
    RowCounts(lefts, l);
    forall kind: Kind ensures LeftOnly(l) in JoinOf(lefts, rights, p, kind) <==> KeepsLeft(kind) && !Met(l, rights, p) && l in lefts {
      JoinCounts(lefts, rights, p, kind, LeftOnly(l));
      CountsMembers(JoinOf(lefts, rights, p, kind), LeftOnly(l));
    }
  }

  /** RIGHT and FULL deliver a right row alone exactly if no left row joins it; INNER and LEFT never do. */
  lemma RightRowAlone(lefts: seq<Row>, rights: seq<Row>, p: Pred, r: Row)
    ensures RightOnly(r) in JoinOf(lefts, rights, p, Right) <==> r in rights && forall l | l in lefts :: !p(l, r)
    ensures RightOnly(r) in JoinOf(lefts, rights, p, Full) <==> r in rights && forall l | l in lefts :: !p(l, r)
    ensures RightOnly(r) !in JoinOf(lefts, rights, p, Inner) && RightOnly(r) !in JoinOf(lefts, rights, p, Left)
  {
    RowCounts(rights, r);
    forall kind: Kind ensures RightOnly(r) in JoinOf(lefts, rights, p, kind) <==> KeepsRight(kind) && !Seen(lefts, r, p) && r in rights {
      JoinCounts(lefts, rights, p, kind, RightOnly(r));
      CountsMembers(JoinOf(lefts, rights, p, kind), RightOnly(r));
    }
  }

  /** No left row of a LEFT or FULL join, and no right row of a RIGHT or FULL join, is dropped. */
  lemma KeptRowsOccur(lefts: seq<Row>, rights: seq<Row>, p: Pred, x: Row)
    ensures x in lefts ==> forall kind | kind == Left || kind == Full ::
      exists o :: o in JoinOf(lefts, rights, p, kind) && !o.RightOnly? && o.l == x
    ensures x in rights ==> forall kind | kind == Right || kind == Full ::
      exists o :: o in JoinOf(lefts, rights, p, kind) && !o.LeftOnly? && o.r == x
  {
    LeftRowAlone(lefts, rights, p, x);
    RightRowAlone(lefts, rights, p, x);
    forall kind | x in lefts && (kind == Left || kind == Full)
      ensures exists o :: o in JoinOf(lefts, rights, p, kind) && !o.RightOnly? && o.l == x
    {
      if r :| r in rights && p(x, r) {
        PairsOf(lefts, rights, p, kind, x, r);
        assert Both(x, r) in JoinOf(lefts, rights, p, kind);
      } else {
        assert LeftOnly(x) in JoinOf(lefts, rights, p, kind);
      }
    }
    forall kind | x in rights && (kind == Right || kind == Full)
      ensures exists o :: o in JoinOf(lefts, rights, p, kind) && !o.LeftOnly? && o.r == x
    {
      if l :| l in lefts && p(l, x) {
        PairsOf(lefts, rights, p, kind, l, x);
        assert Both(l, x) in JoinOf(lefts, rights, p, kind);
      } else {
        assert RightOnly(x) in JoinOf(lefts, rights, p, kind);
      }
    }
  }

  function Swapped(o: Out): Out {
    match o
    case Both(l, r) => Both(r, l)
    case LeftOnly(l) => RightOnly(l)
    case RightOnly(r) => LeftOnly(r)
  }

  lemma {:induction false} TimesSwaps(a: nat, b: nat)
    ensures Times(a, b) == Times(b, a)
  {
    TimesIsProduct(a, b);
    TimesIsProduct(b, a);
  }

  /** RIGHT is LEFT with the inputs swapped, record by record. */
  lemma RightIsLeftSwapped(lefts: seq<Row>, rights: seq<Row>, p: Pred, q: Pred, o: Out)
    requires forall l, r :: p(l, r) == q(r, l)
    ensures multiset(JoinOf(lefts, rights, p, Right))[o] == multiset(JoinOf(rights, lefts, q, Left))[Swapped(o)]
  {
    JoinCounts(lefts, rights, p, Right, o);
    JoinCounts(rights, lefts, q, Left, Swapped(o));
    match o
    case Both(l, r) => TimesSwaps(multiset(lefts)[l], multiset(rights)[r]);
    case LeftOnly(_) =>
    case RightOnly(r) => assert Seen(lefts, r, p) <==> Met(r, lefts, q);
  }

  /** FULL is LEFT and the right rows that RIGHT delivers alone. */
  lemma FullIsBoth(lefts: seq<Row>, rights: seq<Row>, p: Pred, o: Out)
    ensures multiset(JoinOf(lefts, rights, p, Full))[o] ==
      multiset(JoinOf(lefts, rights, p, if o.RightOnly? then Right else Left))[o]
    ensures multiset(JoinOf(lefts, rights, p, Inner))[o] ==
      if o.Both? then multiset(JoinOf(lefts, rights, p, Left))[o] else 0
  {
    JoinCounts(lefts, rights, p, Full, o);
    JoinCounts(lefts, rights, p, Inner, o);
    JoinCounts(lefts, rights, p, Left, o);
    JoinCounts(lefts, rights, p, Right, o);
  }

  lemma SameRows(a: seq<Row>, b: seq<Row>, x: Row)
    requires multiset(a) == multiset(b)
    ensures x in a <==> x in b
  {
    assert x in multiset(a) <==> x in multiset(b);
  }

  lemma MetPermuted(l: Row, rights: seq<Row>, rights': seq<Row>, p: Pred)
    requires multiset(rights) == multiset(rights')
    ensures Met(l, rights, p) ==> Met(l, rights', p)
  {
    if Met(l, rights, p) {
      var r :| r in rights && p(l, r);
      SameRows(rights, rights', r);
    }
  }

  lemma SeenPermuted(lefts: seq<Row>, lefts': seq<Row>, r: Row, p: Pred)
    requires multiset(lefts) == multiset(lefts')
    ensures Seen(lefts, r, p) ==> Seen(lefts', r, p)
  {
    if Seen(lefts, r, p) {
      var l :| l in lefts && p(l, r);
      SameRows(lefts, lefts', l);
    }
  }

  /** The order of the inputs only changes the order of the output. */
  lemma JoinOfPermuted(lefts: seq<Row>, rights: seq<Row>, lefts': seq<Row>, rights': seq<Row>, p: Pred, kind: Kind)
    requires multiset(lefts) == multiset(lefts') && multiset(rights) == multiset(rights')
    ensures multiset(JoinOf(lefts, rights, p, kind)) == multiset(JoinOf(lefts', rights', p, kind))
  {
    forall o ensures multiset(JoinOf(lefts, rights, p, kind))[o] == multiset(JoinOf(lefts', rights', p, kind))[o] {
      JoinCounts(lefts, rights, p, kind, o);
      JoinCounts(lefts', rights', p, kind, o);
      if o.LeftOnly? { MetPermuted(o.l, rights, rights', p); MetPermuted(o.l, rights', rights, p); }
      if o.RightOnly? { SeenPermuted(lefts, lefts', o.r, p); SeenPermuted(lefts', lefts, o.r, p); }
    }
  }

  // ---- Nested loops ----

  /** Which right rows have joined with one of these left rows. */
  ghost predicate Marks(matched: seq<bool>, lefts: seq<Row>, rights: seq<Row>, p: Pred) {
    |matched| == |rights| && forall x | 0 <= x < |rights| :: matched[x] <==> Seen(lefts, rights[x], p)
  }

  lemma SeenStep(lefts: seq<Row>, l: Row, r: Row, p: Pred)
    ensures Seen(lefts + [l], r, p) <==> Seen(lefts, r, p) || p(l, r)
  {
    if Seen(lefts, r, p) {
      var l' :| l' in lefts && p(l', r);
      assert l' in lefts + [l];
    }
    if p(l, r) { assert l in lefts + [l]; }
  }

  lemma MarksStep(matched: seq<bool>, matched': seq<bool>, lefts: seq<Row>, l: Row, rights: seq<Row>, p: Pred)
    requires Marks(matched, lefts, rights, p) && |matched'| == |matched|
    requires forall x | 0 <= x < |rights| :: matched'[x] == (matched[x] || p(l, rights[x]))
    ensures Marks(matched', lefts + [l], rights, p)
  {
    forall x | 0 <= x < |rights| ensures matched'[x] <==> Seen(lefts + [l], rights[x], p) {
      SeenStep(lefts, l, rights[x], p);
    }
  }

  lemma {:induction false} NoMatches(l: Row, rights: seq<Row>, p: Pred)
    ensures MatchesOf(l, rights, p) == [] <==> !Met(l, rights, p)
  {
    if rights != [] {
      NoMatches(l, rights[..|rights| - 1], p);
      DropLast(rights);
    }
  }

  lemma Prefix(s: seq<Row>, i: nat)
    requires i < |s|
    ensures s[..i + 1] == s[..i] + [s[i]] && s[..i + 1][..i] == s[..i] && s[..i + 1][i] == s[i]
  {
  }

  /** What one more left row adds to the output. */
  lemma LeftAdvance(lefts: seq<Row>, i: nat, rights: seq<Row>, p: Pred, kind: Kind)
    requires i < |lefts|
    ensures var found := MatchesOf(lefts[i], rights, p);
      LeftPart(lefts[..i + 1], rights, p, kind) ==
        LeftPart(lefts[..i], rights, p, kind) + (found + if found == [] && KeepsLeft(kind) then [LeftOnly(lefts[i])] else [])
  {
    Prefix(lefts, i);
    NoMatches(lefts[i], rights, p);
  }

  lemma JoinAdvance(lefts: seq<Row>, i: nat, rights: seq<Row>, p: Pred, kind: Kind, matched: seq<bool>, matched': seq<bool>)
    requires i < |lefts| && Marks(matched, lefts[..i], rights, p) && |matched'| == |matched|
    requires forall x | 0 <= x < |rights| :: matched'[x] == (matched[x] || p(lefts[i], rights[x]))
    ensures Marks(matched', lefts[..i + 1], rights, p)
    ensures var found := MatchesOf(lefts[i], rights, p);
      LeftPart(lefts[..i + 1], rights, p, kind) ==
        LeftPart(lefts[..i], rights, p, kind) + (found + if found == [] && KeepsLeft(kind) then [LeftOnly(lefts[i])] else [])
  {
    LeftAdvance(lefts, i, rights, p, kind);
    MarksAdvance(lefts, i, rights, p, matched, matched');
  }

  lemma MarksAdvance(lefts: seq<Row>, i: nat, rights: seq<Row>, p: Pred, matched: seq<bool>, matched': seq<bool>)
    requires i < |lefts| && Marks(matched, lefts[..i], rights, p) && |matched'| == |matched|
    requires forall x | 0 <= x < |rights| :: matched'[x] == (matched[x] || p(lefts[i], rights[x]))
    ensures Marks(matched', lefts[..i + 1], rights, p)
  {
    MarksStep(matched, matched', lefts[..i], lefts[i], rights, p);
    assert lefts[..i + 1] == lefts[..i] + [lefts[i]];
  }

  /** One left row against every right row. */
  method ScanRights(l: Row, rights: seq<Row>, on: Pred, before: seq<bool>) returns (found: seq<Out>, matched: seq<bool>)
    requires |before| == |rights|
    ensures found == MatchesOf(l, rights, on) && |matched| == |rights|
    ensures forall x | 0 <= x < |rights| :: matched[x] == (before[x] || on(l, rights[x]))
  {
    found, matched := [], before;
    for i := 0 to |rights|
      invariant found == MatchesOf(l, rights[..i], on) && |matched| == |rights|
      invariant forall x | 0 <= x < |rights| :: matched[x] == (before[x] || (x < i && on(l, rights[x])))
    {
      Prefix(rights, i);
      if on(l, rights[i]) {
        matched := matched[i := true];
        found := found + [Both(l, rights[i])];
      }
    }
    assert rights[..|rights|] == rights;
  }

  /** The right rows that never joined. */
  method Unmatched(ghost lefts: seq<Row>, rights: seq<Row>, ghost p: Pred, matched: seq<bool>) returns (out: seq<Out>)
    requires Marks(matched, lefts, rights, p)
    ensures out == RightPart(lefts, rights, p)
  {
    out := [];
    for i := 0 to |rights|
      invariant out == RightPart(lefts, rights[..i], p)
    {
      Prefix(rights, i);
      if !matched[i] { out := out + [RightOnly(rights[i])]; }
    }
    assert rights[..|rights|] == rights;
  }

  method NestedLoopJoin(lefts: seq<Row>, rights: seq<Row>, on: Pred, kind: Kind) returns (out: seq<Out>)
    ensures out == JoinOf(lefts, rights, on, kind)
  {
    out := [];
    var matched := seq(|rights|, _ => false);
    for i := 0 to |lefts|
      invariant out == LeftPart(lefts[..i], rights, on, kind) && Marks(matched, lefts[..i], rights, on)
    {
      var l := lefts[i];
      var found, matched' := ScanRights(l, rights, on, matched);
      JoinAdvance(lefts, i, rights, on, kind, matched, matched');
      if found == [] && KeepsLeft(kind) { found := found + [LeftOnly(l)]; }
      out, matched := out + found, matched';
    }
    assert lefts[..|lefts|] == lefts;
    if KeepsRight(kind) {
      var rest := Unmatched(lefts, rights, on, matched);
      out := out + rest;
    }
  }

  // ---- Hash join ----

  /** An equi-join: a key column on each side and what else ON demands. */
  datatype Keys = Keys(left: Row -> Value, right: Row -> Value, residual: Pred)

  /** Equality in ON: NULL equals nothing, integers are compared as doubles. */
  function OnEqual(k: Keys): Pred {
    (l, r) => k.left(l) != Null && Rounded(k.left(l)) == Rounded(k.right(r)) && k.residual(l, r)
  }

  /** Equality of the hash table: exact, and NULL equals NULL. */
  function OnSameKey(k: Keys): Pred {
    (l, r) => k.left(l) == k.right(r) && k.residual(l, r)
  }

  /** The right rows with a key, in input order. */
  function Bucket(rights: seq<Row>, key: Row -> Value, v: Value, n: nat): seq<nat>
    requires n <= |rights|
  {
    if n == 0 then [] else
    Bucket(rights, key, v, n - 1) + if key(rights[n - 1]) == v then [n - 1] else []
  }

  function Get(buckets: map<Value, seq<nat>>, v: Value): seq<nat> {
    if v in buckets then buckets[v] else []
  }

  method BuildBuckets(rights: seq<Row>, key: Row -> Value) returns (buckets: map<Value, seq<nat>>)
    ensures forall v :: Get(buckets, v) == Bucket(rights, key, v, |rights|)
  {
    buckets := map[];
    for i := 0 to |rights|
      invariant forall v :: Get(buckets, v) == Bucket(rights, key, v, i)
    {
      var v := key(rights[i]);
      buckets := buckets[v := Get(buckets, v) + [i]];
    }
  }

  lemma {:induction false} BucketMembers(rights: seq<Row>, key: Row -> Value, v: Value, n: nat, x: nat)
    requires n <= |rights|
    ensures x in Bucket(rights, key, v, n) <==> x < n && key(rights[x]) == v
  {
    if n > 0 { BucketMembers(rights, key, v, n - 1, x); }
  }

  predicate Within(bucket: seq<nat>, n: nat) {
    forall i | 0 <= i < |bucket| :: bucket[i] < n
  }

  /** The joins of one left row found by walking a bucket. */
  function Walk(l: Row, rights: seq<Row>, residual: Pred, bucket: seq<nat>): seq<Out>
    requires Within(bucket, |rights|)
  {
    if bucket == [] then [] else
    var r := rights[bucket[|bucket| - 1]];
    Walk(l, rights, residual, bucket[..|bucket| - 1]) + if residual(l, r) then [Both(l, r)] else []
  }

  lemma WalkStep(l: Row, rights: seq<Row>, residual: Pred, bucket: seq<nat>, x: nat)
    requires Within(bucket, |rights|) && x < |rights|
    ensures Within(bucket + [x], |rights|)
    ensures Walk(l, rights, residual, bucket + [x]) ==
      Walk(l, rights, residual, bucket) + if residual(l, rights[x]) then [Both(l, rights[x])] else []
  {
    assert (bucket + [x])[..|bucket|] == bucket;
  }

  lemma MatchesStep(l: Row, rights: seq<Row>, p: Pred, n: nat)
    requires n < |rights|
    ensures MatchesOf(l, rights[..n + 1], p) ==
      MatchesOf(l, rights[..n], p) + if p(l, rights[n]) then [Both(l, rights[n])] else []
  {
    Prefix(rights, n);
  }

  lemma {:induction false} WalkFindsAll(l: Row, rights: seq<Row>, k: Keys, n: nat)
    requires n <= |rights|
    ensures Within(Bucket(rights, k.right, k.left(l), n), |rights|)
    ensures Walk(l, rights, k.residual, Bucket(rights, k.right, k.left(l), n)) == MatchesOf(l, rights[..n], OnSameKey(k))
  {
    if n > 0 {
      WalkFindsAll(l, rights, k, n - 1);
      MatchesStep(l, rights, OnSameKey(k), n - 1);
      var b := Bucket(rights, k.right, k.left(l), n - 1);
      WalkStep(l, rights, k.residual, b, n - 1);
      assert Bucket(rights, k.right, k.left(l), n) == if k.right(rights[n - 1]) == k.left(l) then b + [n - 1] else b;
    }
  }

  /** One left row against its bucket. */
  method Probe(l: Row, rights: seq<Row>, residual: Pred, bucket: seq<nat>, before: seq<bool>)
    returns (found: seq<Out>, matched: seq<bool>)
    requires |before| == |rights| && Within(bucket, |rights|)
    ensures found == Walk(l, rights, residual, bucket) && |matched| == |rights|
    ensures forall x | 0 <= x < |rights| :: matched[x] == (before[x] || (x in bucket && residual(l, rights[x])))
  {
    found, matched := [], before;
    for i := 0 to |bucket|
      invariant found == Walk(l, rights, residual, bucket[..i]) && |matched| == |rights|
      invariant forall x | 0 <= x < |rights| :: matched[x] == (before[x] || (x in bucket[..i] && residual(l, rights[x])))
    {
      var r := rights[bucket[i]];
      assert bucket[..i + 1] == bucket[..i] + [bucket[i]] && bucket[..i + 1][..i] == bucket[..i];
      if residual(l, r) {
        matched := matched[bucket[i] := true];
        found := found + [Both(l, r)];
      }
    }
    assert bucket[..|bucket|] == bucket;
  }

  method ProbeRow(l: Row, rights: seq<Row>, k: Keys, bucket: seq<nat>, before: seq<bool>)
    returns (found: seq<Out>, matched: seq<bool>)
    requires |before| == |rights| && bucket == Bucket(rights, k.right, k.left(l), |rights|)
    ensures found == MatchesOf(l, rights, OnSameKey(k)) && |matched| == |rights|
    ensures forall x | 0 <= x < |rights| :: matched[x] == (before[x] || OnSameKey(k)(l, rights[x]))
  {
    WalkFindsAll(l, rights, k, |rights|);
    assert rights[..|rights|] == rights;
    found, matched := Probe(l, rights, k.residual, bucket, before);
    forall x | 0 <= x < |rights| ensures matched[x] == (before[x] || OnSameKey(k)(l, rights[x])) {
      BucketMembers(rights, k.right, k.left(l), |rights|, x);
    }
  }

  method HashJoin(lefts: seq<Row>, rights: seq<Row>, k: Keys, kind: Kind) returns (out: seq<Out>)
    ensures out == JoinOf(lefts, rights, OnSameKey(k), kind)
  {
    out := [];
    ghost var on := OnSameKey(k);
    var matched := seq(|rights|, _ => false);
    var buckets := BuildBuckets(rights, k.right);
    for i := 0 to |lefts|
      invariant out == LeftPart(lefts[..i], rights, on, kind) && Marks(matched, lefts[..i], rights, on)
    {
      var l := lefts[i];
      var found, matched' := ProbeRow(l, rights, k, Get(buckets, k.left(l)), matched);
      JoinAdvance(lefts, i, rights, on, kind, matched, matched');
      if found == [] && KeepsLeft(kind) { found := found + [LeftOnly(l)]; }
      out, matched := out + found, matched';
    }
    assert lefts[..|lefts|] == lefts;
    if KeepsRight(kind) {
      var rest := Unmatched(lefts, rights, on, matched);
      out := out + rest;
    }
  }

  // ---- Hash join against nested loops ----

  ghost predicate AgreeOn(lefts: seq<Row>, rights: seq<Row>, p: Pred, q: Pred) {
    forall l, r | l in lefts && r in rights :: p(l, r) == q(l, r)
  }

  lemma {:induction false} MatchesAgree(l: Row, rights: seq<Row>, p: Pred, q: Pred)
    requires forall r | r in rights :: p(l, r) == q(l, r)
    ensures MatchesOf(l, rights, p) == MatchesOf(l, rights, q) && Met(l, rights, p) == Met(l, rights, q)
  {
    if rights != [] { MatchesAgree(l, rights[..|rights| - 1], p, q); }
  }

  lemma {:induction false} LeftPartsAgree(lefts: seq<Row>, rights: seq<Row>, p: Pred, q: Pred, kind: Kind)
    requires AgreeOn(lefts, rights, p, q)
    ensures LeftPart(lefts, rights, p, kind) == LeftPart(lefts, rights, q, kind)
  {
    if lefts != [] {
      MatchesAgree(lefts[|lefts| - 1], rights, p, q);
      LeftPartsAgree(lefts[..|lefts| - 1], rights, p, q, kind);
    }
  }

  lemma {:induction false} RightPartsAgree(lefts: seq<Row>, rights: seq<Row>, p: Pred, q: Pred)
    requires AgreeOn(lefts, rights, p, q)
    ensures RightPart(lefts, rights, p) == RightPart(lefts, rights, q)
  {
    if rights != [] {
      assert Seen(lefts, rights[|rights| - 1], p) == Seen(lefts, rights[|rights| - 1], q);
      RightPartsAgree(lefts, rights[..|rights| - 1], p, q);
    }
  }

  /** Some pair joins in one meaning and not in the other: the outputs differ. */
  lemma OutputTellsPairs(lefts: seq<Row>, rights: seq<Row>, p: Pred, q: Pred, kind: Kind, l: Row, r: Row)
    requires l in lefts && r in rights && p(l, r) && !q(l, r)
    ensures multiset(JoinOf(lefts, rights, p, kind)) != multiset(JoinOf(lefts, rights, q, kind))
  {
    JoinCounts(lefts, rights, p, kind, Both(l, r));
    JoinCounts(lefts, rights, q, kind, Both(l, r));
    var a, b := multiset(lefts)[l], multiset(rights)[r];
    assert l in multiset(lefts) && r in multiset(rights);
    TimesIsProduct(a, b);
  }

  /** A pair whose keys are both NULL and which the rest of ON would let through. */
  ghost predicate NullPair(lefts: seq<Row>, rights: seq<Row>, k: Keys) {
    exists l, r :: l in lefts && r in rights && k.left(l) == Null && k.right(r) == Null && k.residual(l, r)
  }

  /** A pair of different integers that ON compares as equal and the rest of ON would let through. */
  ghost predicate RoundPair(lefts: seq<Row>, rights: seq<Row>, k: Keys) {
    exists l, r :: l in lefts && r in rights && RoundsOnto(k.left(l), k.right(r)) && k.residual(l, r)
  }

  /** Two conditions that differ on some pair, or on none. */
  lemma AgreeingJoins(lefts: seq<Row>, rights: seq<Row>, p: Pred, q: Pred, kind: Kind)
    requires AgreeOn(lefts, rights, p, q)
    ensures JoinOf(lefts, rights, p, kind) == JoinOf(lefts, rights, q, kind)
  {
    LeftPartsAgree(lefts, rights, p, q, kind);
    RightPartsAgree(lefts, rights, p, q);
  }

  /**
   * The hash join delivers what the nested loops deliver, record by record, if and only if no two NULL keys meet, nor
   * two different integers that ON compares as equal.
   */
  lemma HashJoinRightIff(lefts: seq<Row>, rights: seq<Row>, k: Keys, kind: Kind)
    ensures JoinOf(lefts, rights, OnSameKey(k), kind) == JoinOf(lefts, rights, OnEqual(k), kind) <==>
      !NullPair(lefts, rights, k) && !RoundPair(lefts, rights, k)
  {
    var p, q := OnSameKey(k), OnEqual(k);
    if NullPair(lefts, rights, k) {
      var l, r :| l in lefts && r in rights && k.left(l) == Null && k.right(r) == Null && k.residual(l, r);
      OutputTellsPairs(lefts, rights, p, q, kind, l, r);
    } else if RoundPair(lefts, rights, k) {
      var l, r :| l in lefts && r in rights && RoundsOnto(k.left(l), k.right(r)) && k.residual(l, r);
      OutputTellsPairs(lefts, rights, q, p, kind, l, r);
    } else {
      AgreeingJoins(lefts, rights, p, q, kind);
    }
  }

  // ---- Sort-merge join ----

  /** `compare_order`: NULL is the largest value and equals itself, integers are compared as doubles. */
  function Order(a: Value, b: Value): int {
    if a.Null? && b.Null? then 0
    else if a.Null? then 1
    else if b.Null? then -1
    else if Less(Rounded(a), Rounded(b)) then -1 else if Less(Rounded(b), Rounded(a)) then 1 else 0
  }

  lemma OrderTotal(a: Value, b: Value)
    ensures Order(a, b) == 0 <==> Rounded(a) == Rounded(b)
    ensures Order(a, b) == -Order(b, a)
  {
    LessTotal(Rounded(a), Rounded(b));
  }

  /** NULL sorts last, integers by size and texts by their bytes. */
  lemma OrderSorts(v: Value, i: int, j: int, t: seq<Byte>, u: seq<Byte>)
    ensures v != Null ==> Order(v, Null) == -1
    ensures 0 - EXACT <= i < j <= EXACT ==> Order(Int(i), Int(j)) == -1
    ensures LexLess(t, u) ==> Order(Text(t), Text(u)) == -1
  {
    if 0 - EXACT <= i < j <= EXACT {
      DblSmall(i);
      DblSmall(j);
    }
  }

  lemma OrderTransitive(a: Value, b: Value, c: Value)
    requires Order(a, b) <= 0 && Order(b, c) <= 0
    ensures Order(a, c) <= 0
    ensures Order(a, b) < 0 || Order(b, c) < 0 ==> Order(a, c) < 0
  {
    OrderTotal(a, b); OrderTotal(b, c); OrderTotal(a, c);
    if Less(Rounded(a), Rounded(b)) && Less(Rounded(b), Rounded(c)) { LessTransitive(Rounded(a), Rounded(b), Rounded(c)); }
  }

  ghost predicate SortedBy(s: seq<Row>, key: Row -> Value) {
    forall i, j | 0 <= i < j < |s| :: Order(key(s[i]), key(s[j])) <= 0
  }

  /** Equality of the merge: NULL equals NULL, integers are compared as doubles. */
  function SameKey(k: Keys): Pred {
    (l, r) => Rounded(k.left(l)) == Rounded(k.right(r))
  }

  function OnSameOrder(k: Keys): Pred {
    (l, r) => Rounded(k.left(l)) == Rounded(k.right(r)) && k.residual(l, r)
  }

  /** Against ON the merge's equality differs only for NULL. */
  lemma OrderJoinRight(lefts: seq<Row>, rights: seq<Row>, k: Keys, kind: Kind)
    requires !NullPair(lefts, rights, k)
    ensures JoinOf(lefts, rights, OnSameOrder(k), kind) == JoinOf(lefts, rights, OnEqual(k), kind)
  {
    var p, q := OnSameOrder(k), OnEqual(k);
    forall l, r | l in lefts && r in rights ensures p(l, r) == q(l, r) {
      RoundedMonotone(k.right(r), Null);
    }
    AgreeingJoins(lefts, rights, p, q, kind);
  }

  /** How often the merge delivers each record: a row stands alone only if no key on the other side equals its own. */
  ghost function MergeCount(lefts: seq<Row>, rights: seq<Row>, k: Keys, kind: Kind, o: Out): nat {
    match o
    case Both(l, r) => if OnSameOrder(k)(l, r) then Times(multiset(lefts)[l], multiset(rights)[r]) else 0
    case LeftOnly(l) => if KeepsLeft(kind) && !Met(l, rights, SameKey(k)) then multiset(lefts)[l] else 0
    case RightOnly(r) => if KeepsRight(kind) && !Seen(lefts, r, SameKey(k)) then multiset(rights)[r] else 0
  }

  ghost predicate Counted(out: seq<Out>, lefts: seq<Row>, rights: seq<Row>, k: Keys, kind: Kind) {
    forall o :: multiset(out)[o] == MergeCount(lefts, rights, k, kind, o)
  }

  /** No key occurs on both sides. */
  ghost predicate KeysApart(lefts: seq<Row>, rights: seq<Row>, k: Keys) {
    forall l, r | l in lefts && r in rights :: Rounded(k.left(l)) != Rounded(k.right(r))
  }

  lemma CountOfConcat(a: seq<Row>, b: seq<Row>, x: Row)
    ensures multiset(a + b)[x] == multiset(a)[x] + multiset(b)[x]
    ensures multiset(a)[x] > 0 <==> x in a
  {
    assert multiset(a + b) == multiset(a) + multiset(b);
    assert x in multiset(a) <==> x in a;
  }

  lemma {:induction false} TimesZero(a: nat)
    ensures Times(a, 0) == 0
  {
    if a > 0 { TimesZero(a - 1); }
  }

  lemma SplitBoth(a: seq<Row>, g: seq<Row>, b: seq<Row>, h: seq<Row>, k: Keys, l: Row, r: Row)
    requires KeysApart(a, h, k) && KeysApart(g, b, k) && Rounded(k.left(l)) == Rounded(k.right(r))
    ensures Times(multiset(a + g)[l], multiset(b + h)[r]) ==
      Times(multiset(a)[l], multiset(b)[r]) + Times(multiset(g)[l], multiset(h)[r])
  {
    CountOfConcat(a, g, l); CountOfConcat(g, a, l);
    CountOfConcat(b, h, r); CountOfConcat(h, b, r);
    TimesZero(multiset(a)[l]); TimesZero(multiset(g)[l]); TimesZero(multiset(a + g)[l]);
  }

  lemma SplitMet(l: Row, b: seq<Row>, h: seq<Row>, p: Pred)
    ensures Met(l, b + h, p) <==> Met(l, b, p) || Met(l, h, p)
  {
    if Met(l, b, p) { var r :| r in b && p(l, r); assert r in b + h; }
    if Met(l, h, p) { var r :| r in h && p(l, r); assert r in b + h; }
  }

  lemma SplitSeen(a: seq<Row>, g: seq<Row>, r: Row, p: Pred)
    ensures Seen(a + g, r, p) <==> Seen(a, r, p) || Seen(g, r, p)
  {
    if Seen(a, r, p) { var l :| l in a && p(l, r); assert l in a + g; }
    if Seen(g, r, p) { var l :| l in g && p(l, r); assert l in a + g; }
  }

  /** Parts of the inputs that share no key with each other can be joined separately. */
  lemma MergeSplits(a: seq<Row>, g: seq<Row>, b: seq<Row>, h: seq<Row>, k: Keys, kind: Kind, o: Out)
    requires KeysApart(a, h, k) && KeysApart(g, b, k)
    ensures MergeCount(a + g, b + h, k, kind, o) == MergeCount(a, b, k, kind, o) + MergeCount(g, h, k, kind, o)
  {
    match o
    case Both(l, r) =>
      if OnSameOrder(k)(l, r) { SplitBoth(a, g, b, h, k, l, r); }
    case LeftOnly(l) =>
      SplitMet(l, b, h, SameKey(k));
      CountOfConcat(a, g, l); CountOfConcat(g, a, l);
    case RightOnly(r) =>
      SplitSeen(a, g, r, SameKey(k));
      CountOfConcat(b, h, r); CountOfConcat(h, b, r);
  }

  lemma CountedSplits(out: seq<Out>, more: seq<Out>, a: seq<Row>, g: seq<Row>, b: seq<Row>, h: seq<Row>, k: Keys, kind: Kind)
    requires Counted(out, a, b, k, kind) && Counted(more, g, h, k, kind)
    requires KeysApart(a, h, k) && KeysApart(g, b, k)
    ensures Counted(out + more, a + g, b + h, k, kind)
  {
    forall o ensures multiset(out + more)[o] == MergeCount(a + g, b + h, k, kind, o) {
      assert multiset(out + more) == multiset(out) + multiset(more);
      MergeSplits(a, g, b, h, k, kind, o);
    }
  }

  /** The merge up to positions `i` and `j`: what lies before them is joined, and shares no key with what lies after. */
  ghost predicate MergedTo(out: seq<Out>, lefts: seq<Row>, i: nat, rights: seq<Row>, j: nat, k: Keys, kind: Kind)
    requires i <= |lefts| && j <= |rights|
  {
    && Counted(out, lefts[..i], rights[..j], k, kind)
    && KeysApart(lefts[..i], rights[j..], k)
    && KeysApart(lefts[i..], rights[..j], k)
  }

  lemma Cut(s: seq<Row>, i: nat, i': nat)
    requires i <= i' <= |s|
    ensures s[..i'] == s[..i] + s[i..i'] && s[i..] == s[i..i'] + s[i'..]
  {
  }

  lemma ApartAt(a: seq<Row>, g: seq<Row>, h: seq<Row>, t: seq<Row>, k: Keys)
    ensures KeysApart(a + g, t, k) <==> KeysApart(a, t, k) && KeysApart(g, t, k)
    ensures KeysApart(a, h + t, k) <==> KeysApart(a, h, k) && KeysApart(a, t, k)
  {
    assert forall x :: x in a + g <==> x in a || x in g;
    assert forall x :: x in h + t <==> x in h || x in t;
  }

  lemma MergeStep(out: seq<Out>, more: seq<Out>, lefts: seq<Row>, i: nat, i': nat, rights: seq<Row>, j: nat, j': nat,
                  k: Keys, kind: Kind)
    requires i <= i' <= |lefts| && j <= j' <= |rights| && MergedTo(out, lefts, i, rights, j, k, kind)
    requires Counted(more, lefts[i..i'], rights[j..j'], k, kind)
    requires KeysApart(lefts[i..i'], rights[j'..], k) && KeysApart(lefts[i'..], rights[j..j'], k)
    ensures MergedTo(out + more, lefts, i', rights, j', k, kind)
  {
    Cut(lefts, i, i');
    Cut(rights, j, j');
    ApartAt(lefts[..i], lefts[i..i'], rights[j..j'], rights[j'..], k);
    ApartAt(lefts[i..i'], lefts[i'..], [], rights[..j], k);
    ApartAt(lefts[i'..], [], rights[..j], rights[j..j'], k);
    CountedSplits(out, more, lefts[..i], lefts[i..i'], rights[..j], rights[j..j'], k, kind);
  }

  /** From a larger key on, a sorted input does not come back to a smaller one. */
  lemma Beyond(s: seq<Row>, key: Row -> Value, j: nat, v: Value)
    requires SortedBy(s, key) && j <= |s| && (j == |s| || Order(v, key(s[j])) < 0)
    ensures forall r | r in s[j..] :: Rounded(key(r)) != Rounded(v)
  {
    forall r | r in s[j..] ensures Rounded(key(r)) != Rounded(v) {
      var x :| j <= x < |s| && s[x] == r;
      if x > j { OrderTransitive(v, key(s[j]), key(s[x])); }
      OrderTotal(v, key(s[x]));
    }
  }

  lemma LeftAlone(l: Row, k: Keys, kind: Kind)
    ensures Counted(if KeepsLeft(kind) then [LeftOnly(l)] else [], [l], [], k, kind)
  {
    forall x: Row ensures multiset([l])[x] == if x == l then 1 else 0 {}
    TimesZero(1);
  }

  lemma RightAlone(r: Row, k: Keys, kind: Kind)
    ensures Counted(if KeepsRight(kind) then [RightOnly(r)] else [], [], [r], k, kind)
  {
  }

  /** Rows that are neither joined nor kept. */
  lemma {:induction false} LeftSilent(lefts: seq<Row>, k: Keys, kind: Kind)
    requires !KeepsLeft(kind)
    ensures Counted([], lefts, [], k, kind)
  {
    forall o ensures MergeCount(lefts, [], k, kind, o) == 0 {
      if o.Both? { TimesZero(multiset(lefts)[o.l]); }
    }
  }

  lemma RightSilent(rights: seq<Row>, k: Keys, kind: Kind)
    requires !KeepsRight(kind)
    ensures Counted([], [], rights, k, kind)
  {
  }

  ghost predicate OneKey(s: seq<Row>, key: Row -> Value, v: Value) {
    forall x | x in s :: Rounded(key(x)) == Rounded(v)
  }

  /** In two groups with one key no row stands alone. */
  lemma NoneAlone(g: seq<Row>, h: seq<Row>, k: Keys, kind: Kind, v: Value, o: Out)
    requires g != [] && h != [] && OneKey(g, k.left, v) && OneKey(h, k.right, v) && !o.Both?
    ensures MergeCount(g, h, k, kind, o) == 0
  {
    match o
    case LeftOnly(l) =>
      CountOfConcat(g, [], l);
      if l in g { assert h[0] in h && SameKey(k)(l, h[0]); }
    case RightOnly(r) =>
      CountOfConcat(h, [], r);
      if r in h { assert g[0] in g && SameKey(k)(g[0], r); }
  }

  lemma GroupCount(g: seq<Row>, h: seq<Row>, k: Keys, kind: Kind, v: Value, o: Out)
    requires g != [] && h != [] && OneKey(g, k.left, v) && OneKey(h, k.right, v)
    ensures multiset(LeftPart(g, h, OnSameOrder(k), Inner))[o] == MergeCount(g, h, k, kind, o)
  {
    if !o.Both? { NoneAlone(g, h, k, kind, v, o); }
    match o
    case Both(l, r) => LeftCountBoth(g, h, OnSameOrder(k), Inner, l, r);
    case LeftOnly(l) => LeftCountOnly(g, h, OnSameOrder(k), Inner, l);
    case RightOnly(r) => NoRightOnly(g, h, OnSameOrder(k), Inner, r);
  }

  /** All pairs of two groups with one key. */
  lemma GroupCounted(g: seq<Row>, h: seq<Row>, k: Keys, kind: Kind, v: Value)
    requires g != [] && h != [] && OneKey(g, k.left, v) && OneKey(h, k.right, v)
    ensures Counted(LeftPart(g, h, k.residual, Inner), g, h, k, kind)
  {
    LeftPartsAgree(g, h, k.residual, OnSameOrder(k), Inner);
    forall o ensures multiset(LeftPart(g, h, k.residual, Inner))[o] == MergeCount(g, h, k, kind, o) {
      GroupCount(g, h, k, kind, v, o);
    }
  }

  /** The end of the group of equal keys that starts at `i`. */
  method GroupEnd(s: seq<Row>, key: Row -> Value, i: nat) returns (e: nat)
    requires i < |s| && SortedBy(s, key)
    ensures i < e <= |s| && OneKey(s[i..e], key, key(s[i]))
    ensures e == |s| || Order(key(s[i]), key(s[e])) < 0
  {
    e := i + 1;
    while e < |s| && Order(key(s[e]), key(s[i])) == 0
      invariant i < e <= |s| && forall x | i <= x < e :: Rounded(key(s[x])) == Rounded(key(s[i]))
    {
      OrderTotal(key(s[e]), key(s[i]));
      e := e + 1;
    }
    if e < |s| { OrderTotal(key(s[i]), key(s[e])); }
  }

  method JoinGroup(g: seq<Row>, h: seq<Row>, residual: Pred) returns (out: seq<Out>)
    ensures out == LeftPart(g, h, residual, Inner)
  {
    out := [];
    for i := 0 to |g|
      invariant out == LeftPart(g[..i], h, residual, Inner)
    {
      ghost var before := out;
      for j := 0 to |h|
        invariant out == before + MatchesOf(g[i], h[..j], residual)
      {
        Prefix(h, j);
        if residual(g[i], h[j]) { out := out + [Both(g[i], h[j])]; }
      }
      assert h[..|h|] == h;
      LeftAdvance(g, i, h, residual, Inner);
    }
    assert g[..|g|] == g;
  }

  /**
   * Both inputs sorted by their keys. The match flags of the operator are set only for rows of a group, and read only
   * for rows after the last group, so they never change the output and are not part of the state here.
   */
  method MergeJoin(lefts: seq<Row>, rights: seq<Row>, k: Keys, kind: Kind) returns (out: seq<Out>)
    requires SortedBy(lefts, k.left) && SortedBy(rights, k.right)
    ensures Counted(out, lefts, rights, k, kind)
  {
    var i, j := 0, 0;
    out := [];
    while i < |lefts| && j < |rights|
      invariant 0 <= i <= |lefts| && 0 <= j <= |rights| && MergedTo(out, lefts, i, rights, j, k, kind)
      decreases |lefts| - i + |rights| - j
    {
      out, i, j := MergeOnce(lefts, i, rights, j, k, kind, out);
    }
    out := RemainingLeft(lefts, i, rights, j, k, kind, out);
    out := RemainingRight(lefts, rights, j, k, kind, out);
    assert lefts[..|lefts|] == lefts && rights[..|rights|] == rights;
  }

  /** One round of the merge: a smaller left key, a smaller right key, or two groups. */
  method MergeOnce(lefts: seq<Row>, i: nat, rights: seq<Row>, j: nat, k: Keys, kind: Kind, before: seq<Out>)
    returns (out: seq<Out>, i': nat, j': nat)
    requires SortedBy(lefts, k.left) && SortedBy(rights, k.right)
    requires i < |lefts| && j < |rights| && MergedTo(before, lefts, i, rights, j, k, kind)
    ensures i <= i' <= |lefts| && j <= j' <= |rights| && i + j < i' + j'
    ensures MergedTo(out, lefts, i', rights, j', k, kind)
  {
    var lv, rv := k.left(lefts[i]), k.right(rights[j]);
    var ord := Order(lv, rv);
    OrderTotal(lv, rv);
    var more;
    if ord < 0 {
      more, i', j' := if KeepsLeft(kind) then [LeftOnly(lefts[i])] else [], i + 1, j;
      LeftAlone(lefts[i], k, kind);
      Beyond(rights, k.right, j, lv);
      assert lefts[i..i'] == [lefts[i]] && rights[j..j'] == [];
    } else if ord > 0 {
      more, i', j' := if KeepsRight(kind) then [RightOnly(rights[j])] else [], i, j + 1;
      RightAlone(rights[j], k, kind);
      Beyond(lefts, k.left, i, rv);
      assert lefts[i..i'] == [] && rights[j..j'] == [rights[j]];
    } else {
      i' := GroupEnd(lefts, k.left, i);
      j' := GroupEnd(rights, k.right, j);
      more := JoinGroup(lefts[i..i'], rights[j..j'], k.residual);
      GroupCounted(lefts[i..i'], rights[j..j'], k, kind, lv);
      Beyond(lefts, k.left, i', lv);
      Beyond(rights, k.right, j', lv);
    }
    MergeStep(before, more, lefts, i, i', rights, j, j', k, kind);
    out := before + more;
  }

  lemma TakeLeft(out: seq<Out>, lefts: seq<Row>, i: nat, rights: seq<Row>, k: Keys, kind: Kind)
    requires i < |lefts| && MergedTo(out, lefts, i, rights, |rights|, k, kind) && KeepsLeft(kind)
    ensures MergedTo(out + [LeftOnly(lefts[i])], lefts, i + 1, rights, |rights|, k, kind)
  {
    LeftAlone(lefts[i], k, kind);
    assert lefts[i..i + 1] == [lefts[i]] && rights[|rights|..|rights|] == [] && rights[|rights|..] == [];
    MergeStep(out, [LeftOnly(lefts[i])], lefts, i, i + 1, rights, |rights|, |rights|, k, kind);
  }

  lemma TakeRight(out: seq<Out>, lefts: seq<Row>, rights: seq<Row>, j: nat, k: Keys, kind: Kind)
    requires j < |rights| && MergedTo(out, lefts, |lefts|, rights, j, k, kind) && KeepsRight(kind)
    ensures MergedTo(out + [RightOnly(rights[j])], lefts, |lefts|, rights, j + 1, k, kind)
  {
    RightAlone(rights[j], k, kind);
    assert rights[j..j + 1] == [rights[j]] && lefts[|lefts|..|lefts|] == [] && lefts[|lefts|..] == [];
    MergeStep(out, [RightOnly(rights[j])], lefts, |lefts|, |lefts|, rights, j, j + 1, k, kind);
  }

  lemma SkipLeft(out: seq<Out>, lefts: seq<Row>, i: nat, rights: seq<Row>, k: Keys, kind: Kind)
    requires i <= |lefts| && MergedTo(out, lefts, i, rights, |rights|, k, kind) && !KeepsLeft(kind)
    ensures MergedTo(out, lefts, |lefts|, rights, |rights|, k, kind)
  {
    LeftSilent(lefts[i..], k, kind);
    assert lefts[i..|lefts|] == lefts[i..] && rights[|rights|..|rights|] == [] && lefts[|lefts|..] == [];
    MergeStep(out, [], lefts, i, |lefts|, rights, |rights|, |rights|, k, kind);
    assert out + [] == out;
  }

  lemma SkipRight(out: seq<Out>, lefts: seq<Row>, rights: seq<Row>, j: nat, k: Keys, kind: Kind)
    requires j <= |rights| && MergedTo(out, lefts, |lefts|, rights, j, k, kind) && !KeepsRight(kind)
    ensures MergedTo(out, lefts, |lefts|, rights, |rights|, k, kind)
  {
    RightSilent(rights[j..], k, kind);
    assert rights[j..|rights|] == rights[j..] && lefts[|lefts|..|lefts|] == [] && lefts[|lefts|..] == [];
    MergeStep(out, [], lefts, |lefts|, |lefts|, rights, j, |rights|, k, kind);
    assert out + [] == out;
  }

  function LeftsAlone(lefts: seq<Row>, i: nat): seq<Out>
    requires i <= |lefts|
    decreases |lefts| - i
  {
    if i == |lefts| then [] else [LeftOnly(lefts[i])] + LeftsAlone(lefts, i + 1)
  }

  function RightsAlone(rights: seq<Row>, j: nat): seq<Out>
    requires j <= |rights|
    decreases |rights| - j
  {
    if j == |rights| then [] else [RightOnly(rights[j])] + RightsAlone(rights, j + 1)
  }

  lemma {:induction false} TakeLefts(out: seq<Out>, lefts: seq<Row>, i: nat, rights: seq<Row>, k: Keys, kind: Kind)
    requires i <= |lefts| && MergedTo(out, lefts, i, rights, |rights|, k, kind) && KeepsLeft(kind)
    ensures MergedTo(out + LeftsAlone(lefts, i), lefts, |lefts|, rights, |rights|, k, kind)
    decreases |lefts| - i
  {
    if i == |lefts| {
      assert out + [] == out;
    } else {
      TakeLeft(out, lefts, i, rights, k, kind);
      TakeLefts(out + [LeftOnly(lefts[i])], lefts, i + 1, rights, k, kind);
      assert out + LeftsAlone(lefts, i) == out + [LeftOnly(lefts[i])] + LeftsAlone(lefts, i + 1);
    }
  }

  lemma {:induction false} TakeRights(out: seq<Out>, lefts: seq<Row>, rights: seq<Row>, j: nat, k: Keys, kind: Kind)
    requires j <= |rights| && MergedTo(out, lefts, |lefts|, rights, j, k, kind) && KeepsRight(kind)
    ensures MergedTo(out + RightsAlone(rights, j), lefts, |lefts|, rights, |rights|, k, kind)
    decreases |rights| - j
  {
    if j == |rights| {
      assert out + [] == out;
    } else {
      TakeRight(out, lefts, rights, j, k, kind);
      TakeRights(out + [RightOnly(rights[j])], lefts, rights, j + 1, k, kind);
      assert out + RightsAlone(rights, j) == out + [RightOnly(rights[j])] + RightsAlone(rights, j + 1);
    }
  }

  method EmitLefts(lefts: seq<Row>, i: nat, before: seq<Out>) returns (out: seq<Out>)
    requires i <= |lefts|
    ensures out == before + LeftsAlone(lefts, i)
  {
    out := before;
    for e := i to |lefts|
      invariant out + LeftsAlone(lefts, e) == before + LeftsAlone(lefts, i)
    {
      out := out + [LeftOnly(lefts[e])];
    }
  }

  method EmitRights(rights: seq<Row>, j: nat, before: seq<Out>) returns (out: seq<Out>)
    requires j <= |rights|
    ensures out == before + RightsAlone(rights, j)
  {
    out := before;
    for e := j to |rights|
      invariant out + RightsAlone(rights, e) == before + RightsAlone(rights, j)
    {
      out := out + [RightOnly(rights[e])];
    }
  }

  method RemainingLeft(lefts: seq<Row>, i: nat, ghost rights: seq<Row>, ghost j: nat, ghost k: Keys, kind: Kind, before: seq<Out>)
    returns (out: seq<Out>)
    requires i <= |lefts| && j <= |rights| && (i == |lefts| || j == |rights|) && MergedTo(before, lefts, i, rights, j, k, kind)
    ensures MergedTo(out, lefts, |lefts|, rights, j, k, kind)
  {
    if i == |lefts| { return before; }
    if !KeepsLeft(kind) {
      SkipLeft(before, lefts, i, rights, k, kind);
      return before;
    }
    TakeLefts(before, lefts, i, rights, k, kind);
    out := EmitLefts(lefts, i, before);
  }

  method RemainingRight(ghost lefts: seq<Row>, rights: seq<Row>, j: nat, ghost k: Keys, kind: Kind, before: seq<Out>)
    returns (out: seq<Out>)
    requires j <= |rights| && MergedTo(before, lefts, |lefts|, rights, j, k, kind)
    ensures MergedTo(out, lefts, |lefts|, rights, |rights|, k, kind)
  {
    if !KeepsRight(kind) {
      SkipRight(before, lefts, rights, j, k, kind);
      return before;
    }
    TakeRights(before, lefts, rights, j, k, kind);
    out := EmitRights(rights, j, before);
  }

  // ---- Merge join against nested loops ----

  /** A kept row whose key occurs on the other side, but whose partners all fail the rest of ON: the merge drops it. */
  ghost predicate LostRow(lefts: seq<Row>, rights: seq<Row>, k: Keys, kind: Kind) {
    || (KeepsLeft(kind) && exists l :: l in lefts && Met(l, rights, SameKey(k)) && !Met(l, rights, OnSameOrder(k)))
    || (KeepsRight(kind) && exists r :: r in rights && Seen(lefts, r, SameKey(k)) && !Seen(lefts, r, OnSameOrder(k)))
  }

  lemma MergeCountPermuted(lefts: seq<Row>, rights: seq<Row>, lefts': seq<Row>, rights': seq<Row>, k: Keys, kind: Kind, o: Out)
    requires multiset(lefts) == multiset(lefts') && multiset(rights) == multiset(rights')
    ensures MergeCount(lefts, rights, k, kind, o) == MergeCount(lefts', rights', k, kind, o)
  {
    var p := SameKey(k);
    if o.LeftOnly? { MetPermuted(o.l, rights, rights', p); MetPermuted(o.l, rights', rights, p); }
    if o.RightOnly? { SeenPermuted(lefts, lefts', o.r, p); SeenPermuted(lefts', lefts, o.r, p); }
  }

  lemma MatchHasSameKey(lefts: seq<Row>, rights: seq<Row>, k: Keys, x: Row)
    ensures Met(x, rights, OnSameOrder(k)) ==> Met(x, rights, SameKey(k))
    ensures Seen(lefts, x, OnSameOrder(k)) ==> Seen(lefts, x, SameKey(k))
  {
    if Met(x, rights, OnSameOrder(k)) {
      var r :| r in rights && OnSameOrder(k)(x, r);
      assert SameKey(k)(x, r);
    }
    if Seen(lefts, x, OnSameOrder(k)) {
      var l :| l in lefts && OnSameOrder(k)(l, x);
      assert SameKey(k)(l, x);
    }
  }

  /** A record is missing from the merge exactly when it is a lost row. */
  lemma MissingIsLost(lefts: seq<Row>, rights: seq<Row>, k: Keys, kind: Kind, o: Out)
    requires !LostRow(lefts, rights, k, kind)
    ensures MergeCount(lefts, rights, k, kind, o) == Multiplicity(lefts, rights, OnSameOrder(k), kind, o)
  {
    match o
    case Both(l, r) =>
    case LeftOnly(l) =>
      MatchHasSameKey(lefts, rights, k, l);
      CountOfConcat(lefts, [], l);
    case RightOnly(r) =>
      MatchHasSameKey(lefts, rights, k, r);
      CountOfConcat(rights, [], r);
  }

  lemma LostIsMissing(lefts: seq<Row>, rights: seq<Row>, k: Keys, kind: Kind) returns (o: Out)
    requires LostRow(lefts, rights, k, kind)
    ensures MergeCount(lefts, rights, k, kind, o) < Multiplicity(lefts, rights, OnSameOrder(k), kind, o)
  {
    if KeepsLeft(kind) && exists l :: l in lefts && Met(l, rights, SameKey(k)) && !Met(l, rights, OnSameOrder(k)) {
      var l :| l in lefts && Met(l, rights, SameKey(k)) && !Met(l, rights, OnSameOrder(k));
      CountOfConcat(lefts, [], l);
      return LeftOnly(l);
    } else {
      var r :| r in rights && Seen(lefts, r, SameKey(k)) && !Seen(lefts, r, OnSameOrder(k));
      CountOfConcat(rights, [], r);
      return RightOnly(r);
    }
  }

  /** The merge against the meaning with the same notion of key equality. */
  lemma MergeRightIffNothingLost(out: seq<Out>, lefts: seq<Row>, rights: seq<Row>, k: Keys, kind: Kind)
    requires Counted(out, lefts, rights, k, kind)
    ensures multiset(out) == multiset(JoinOf(lefts, rights, OnSameOrder(k), kind)) <==> !LostRow(lefts, rights, k, kind)
  {
    var spec := JoinOf(lefts, rights, OnSameOrder(k), kind);
    if LostRow(lefts, rights, k, kind) {
      var o := LostIsMissing(lefts, rights, k, kind);
      JoinCounts(lefts, rights, OnSameOrder(k), kind, o);
    } else {
      forall o ensures multiset(out)[o] == multiset(spec)[o] {
        MissingIsLost(lefts, rights, k, kind, o);
        JoinCounts(lefts, rights, OnSameOrder(k), kind, o);
      }
    }
  }

  /**
   * The merge of the sorted inputs delivers what the nested loops deliver on the inputs as they are, up to order,
   * if and only if no two NULL keys meet and no kept row is lost.
   */
  lemma MergeJoinRightIff(out: seq<Out>, sortedLefts: seq<Row>, sortedRights: seq<Row>,
                          lefts: seq<Row>, rights: seq<Row>, k: Keys, kind: Kind)
    requires Counted(out, sortedLefts, sortedRights, k, kind)
    requires multiset(sortedLefts) == multiset(lefts) && multiset(sortedRights) == multiset(rights)
    ensures multiset(out) == multiset(JoinOf(lefts, rights, OnEqual(k), kind)) <==>
      !NullPair(lefts, rights, k) && !LostRow(lefts, rights, k, kind)
  {
    forall o ensures multiset(out)[o] == MergeCount(lefts, rights, k, kind, o) {
      MergeCountPermuted(sortedLefts, sortedRights, lefts, rights, k, kind, o);
    }
    MergeRightIffNothingLost(out, lefts, rights, k, kind);
    if NullPair(lefts, rights, k) {
      NullPairShows(out, lefts, rights, k, kind);
    } else {
      OrderJoinRight(lefts, rights, k, kind);
    }
  }

  lemma NullPairShows(out: seq<Out>, lefts: seq<Row>, rights: seq<Row>, k: Keys, kind: Kind)
    requires Counted(out, lefts, rights, k, kind) && NullPair(lefts, rights, k)
    ensures multiset(out) != multiset(JoinOf(lefts, rights, OnEqual(k), kind))
  {
    var l, r :| l in lefts && r in rights && k.left(l) == Null && k.right(r) == Null && k.residual(l, r);
    JoinCounts(lefts, rights, OnEqual(k), kind, Both(l, r));
    CountOfConcat(lefts, [], l);
    CountOfConcat(rights, [], r);
    TimesIsProduct(multiset(lefts)[l], multiset(rights)[r]);
  }

  /** Without further conditions in ON, or for an inner join, the merge loses nothing. */
  lemma NothingLostWithoutResidual(lefts: seq<Row>, rights: seq<Row>, k: Keys, kind: Kind)
    requires kind.Inner? || forall l, r :: k.residual(l, r)
    ensures !LostRow(lefts, rights, k, kind)
  {
    if !kind.Inner? {
      forall x | Met(x, rights, SameKey(k)) ensures Met(x, rights, OnSameOrder(k)) {
        var r :| r in rights && SameKey(k)(x, r);
        assert OnSameOrder(k)(x, r);
      }
      forall x | Seen(lefts, x, SameKey(k)) ensures Seen(lefts, x, OnSameOrder(k)) {
        var l :| l in lefts && SameKey(k)(l, x);
        assert OnSameOrder(k)(l, x);
      }
    }
  }

  // ---- Where the operators differ ----

  function First(row: Row): Value { if row == [] then Null else row[0] }
  function Always(l: Row, r: Row): bool { true }
  function Never(l: Row, r: Row): bool { false }

  lemma OnePair(l: Row, r: Row, p: Pred, kind: Kind)
    ensures JoinOf([l], [r], p, kind) ==
      if p(l, r) then [Both(l, r)]
      else (if KeepsLeft(kind) then [LeftOnly(l)] else []) + (if KeepsRight(kind) then [RightOnly(r)] else [])
  {
    assert [l][..0] == [] && [r][..0] == [] && [l][0] == l && [r][0] == r;
    assert MatchesOf(l, [r], p) == if p(l, r) then [Both(l, r)] else [];
    assert l in [l] && r in [r];
    assert LeftPart([l], [r], p, kind) == LeftOne(l, [r], p, kind);
    assert RightPart([l], [r], p) == if p(l, r) then [] else [RightOnly(r)];
  }

  /** a.x = b.x over one NULL on each side: the nested loops give nothing, the hash join a pair. */
  lemma HashJoinPairsNulls()
    ensures var k := Keys(First, First, Always);
      && JoinOf([[Null]], [[Null]], OnEqual(k), Inner) == []
      && JoinOf([[Null]], [[Null]], OnSameKey(k), Inner) == [Both([Null], [Null])]
  {
    var k := Keys(First, First, Always);
    assert k.left([Null]) == Null && k.right([Null]) == Null && k.residual([Null], [Null]);
    OnePair([Null], [Null], OnEqual(k), Inner);
    OnePair([Null], [Null], OnSameKey(k), Inner);
  }

  /** A left join with equal keys and a further condition that fails: the nested loops keep the row, the merge drops it. */
  lemma MergeJoinLosesRow(out: seq<Out>)
    requires Counted(out, [[Int(1)]], [[Int(1)]], Keys(First, First, Never), Left)
    ensures JoinOf([[Int(1)]], [[Int(1)]], OnEqual(Keys(First, First, Never)), Left) == [LeftOnly([Int(1)])]
    ensures LeftOnly([Int(1)]) !in out
  {
    var k, row := Keys(First, First, Never), [Int(1)];
    assert k.left(row) == Int(1) && k.right(row) == Int(1) && !k.residual(row, row);
    OnePair(row, row, OnEqual(k), Left);
    assert row in [row] && SameKey(k)(row, row);
    assert multiset(out)[LeftOnly(row)] == 0;
  }

  /** a.x = b.x over 2^53 and 2^53 + 1: the nested loops pair them, the hash join does not. */
  lemma HashJoinSplitsRounded()
    ensures var k, x, y := Keys(First, First, Always), [Int(EXACT)], [Int(EXACT + 1)];
      && JoinOf([x], [y], OnEqual(k), Inner) == [Both(x, y)]
      && JoinOf([x], [y], OnSameKey(k), Inner) == []
  {
    var k, x, y := Keys(First, First, Always), [Int(EXACT)], [Int(EXACT + 1)];
    DblLarge();
    RoundedPair(k, x, y, Int(EXACT), Int(EXACT + 1));
  }

  lemma RoundedPair(k: Keys, x: Row, y: Row, a: Value, b: Value)
    requires k.left(x) == a && k.right(y) == b && k.residual(x, y) && a != Null && a != b && Rounded(a) == Rounded(b)
    ensures JoinOf([x], [y], OnEqual(k), Inner) == [Both(x, y)]
    ensures JoinOf([x], [y], OnSameKey(k), Inner) == []
  {
    OnePair(x, y, OnEqual(k), Inner);
    OnePair(x, y, OnSameKey(k), Inner);
  }
}
