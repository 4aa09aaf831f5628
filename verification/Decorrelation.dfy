/** Rewriting correlated EXISTS and IN into uncorrelated IN, and resolving uncorrelated subqueries before planning. */
module Decorrelation {
  import opened Values
  import opened Rounding
  import opened Subqueries

  const TRUE: BoolExpr := Compare(Eq, Lit(Int(1)), Lit(Int(1)))

  // ---- The conjuncts of WHERE ----

  function Leaves(b: BoolExpr): seq<BoolExpr> {
    match b
    case And(x, y) => Leaves(x) + Leaves(y)
    case _ => [b]
  }

  /** One conjunct replaced by a true one, the AND tree kept. */
  function DropLeaf(b: BoolExpr, i: nat): BoolExpr
    requires i < |Leaves(b)|
  {
    match b
    case And(x, y) =>
      if i < |Leaves(x)| then And(DropLeaf(x, i), y) else And(x, DropLeaf(y, i - |Leaves(x)|))
    case _ => TRUE
  }

  /** A conjunction is true when one conjunct is and the rest without it is. */
  lemma {:induction false} DropLeafMeans(b: BoolExpr, i: nat, scopes: Scopes)
    requires i < |Leaves(b)|
    ensures Eval(b, scopes) == True <==> Eval(DropLeaf(b, i), scopes) == True && Eval(Leaves(b)[i], scopes) == True
  {
    match b
    case And(x, y) =>
      if i < |Leaves(x)| { DropLeafMeans(x, i, scopes); } else { DropLeafMeans(y, i - |Leaves(x)|, scopes); }
    case _ =>
  }

  lemma {:induction false} DropLeafLooks(b: BoolExpr, i: nat, local: set<string>)
    requires i < |Leaves(b)| && forall j | 0 <= j < |Leaves(b)| && j != i :: !LooksOut(Leaves(b)[j], local)
    ensures !LooksOut(DropLeaf(b, i), local)
  {
    match b
    case And(x, y) =>
      var n := |Leaves(x)|;
      assert forall j | 0 <= j < n :: Leaves(b)[j] == Leaves(x)[j];
      assert forall j | 0 <= j < |Leaves(y)| :: Leaves(b)[n + j] == Leaves(y)[j];
      if i < n {
        DropLeafLooks(x, i, local);
        LeavesLook(y, local);
      } else {
        LeavesLook(x, local);
        DropLeafLooks(y, i - n, local);
      }
    case _ =>
  }

  lemma {:induction false} LeavesLook(b: BoolExpr, local: set<string>)
    requires forall j | 0 <= j < |Leaves(b)| :: !LooksOut(Leaves(b)[j], local)
    ensures !LooksOut(b, local)
  {
    match b
    case And(x, y) =>
      assert forall j | 0 <= j < |Leaves(x)| :: Leaves(b)[j] == Leaves(x)[j];
      assert forall j | 0 <= j < |Leaves(y)| :: Leaves(b)[|Leaves(x)| + j] == Leaves(y)[j];
      LeavesLook(x, local);
      LeavesLook(y, local);
    case _ => assert Leaves(b)[0] == b;
  }

  lemma {:induction false} DropLeafLocal(b: BoolExpr, i: nat, local: set<string>)
    requires i < |Leaves(b)| && ProjectsLocally(b, local)
    ensures ProjectsLocally(DropLeaf(b, i), local)
  {
    match b
    case And(x, y) =>
      if i < |Leaves(x)| { DropLeafLocal(x, i, local); } else { DropLeafLocal(y, i - |Leaves(x)|, local); }
    case _ =>
  }

  // ---- The one correlated conjunct ----

  /** A comparison for equality of a column of the subquery with one of an outer query. */
  predicate IsLink(b: BoolExpr, local: set<string>) {
    b.Compare? && b.op == Eq && b.l.Col? && b.r.Col? && Owns(local, b.l.ref) != Owns(local, b.r.ref)
  }

  function LocalRef(b: BoolExpr, local: set<string>): Ref
    requires IsLink(b, local)
  {
    if Owns(local, b.l.ref) then b.l.ref else b.r.ref
  }

  function OuterRef(b: BoolExpr, local: set<string>): Ref
    requires IsLink(b, local)
  {
    if Owns(local, b.l.ref) then b.r.ref else b.l.ref
  }

  /** The position of the only conjunct that looks out, if there is one and it is a link. */
  ghost predicate OnlyLink(leaves: seq<BoolExpr>, local: set<string>, i: nat) {
    && i < |leaves| && IsLink(leaves[i], local)
    && forall j | 0 <= j < |leaves| && j != i :: !LooksOut(leaves[j], local)
  }

  function FirstOut(leaves: seq<BoolExpr>, local: set<string>, k: nat): (i: nat)
    requires k <= |leaves|
    ensures k <= i <= |leaves|
    decreases |leaves| - k
  {
    if k == |leaves| || LooksOut(leaves[k], local) then k else FirstOut(leaves, local, k + 1)
  }

  lemma {:induction false} FirstOutIsFirst(leaves: seq<BoolExpr>, local: set<string>, k: nat)
    requires k <= |leaves|
    ensures k <= FirstOut(leaves, local, k) <= |leaves|
    ensures forall j | k <= j < FirstOut(leaves, local, k) :: !LooksOut(leaves[j], local)
    ensures FirstOut(leaves, local, k) < |leaves| ==> LooksOut(leaves[FirstOut(leaves, local, k)], local)
    decreases |leaves| - k
  {
    if k < |leaves| && !LooksOut(leaves[k], local) { FirstOutIsFirst(leaves, local, k + 1); }
  }

  function Link(leaves: seq<BoolExpr>, local: set<string>): (found: Option<nat>)
    ensures found.Some? ==> found.value < |leaves| && IsLink(leaves[found.value], local)
  {
    var i := FirstOut(leaves, local, 0);
    if i == |leaves| || !IsLink(leaves[i], local) || FirstOut(leaves, local, i + 1) < |leaves| then None else Some(i)
  }

  lemma LinkIsOnlyLink(leaves: seq<BoolExpr>, local: set<string>, i: nat)
    ensures Link(leaves, local) == Some(i) <==> OnlyLink(leaves, local, i)
  {
    FirstOutIsFirst(leaves, local, 0);
    var f := FirstOut(leaves, local, 0);
    if f < |leaves| { FirstOutIsFirst(leaves, local, f + 1); }
  }

  /** Among the first conjuncts only the one found looks out. */
  ghost predicate LinkSoFar(leaves: seq<BoolExpr>, local: set<string>, n: nat, found: Option<nat>) {
    && n <= |leaves|
    && (found.Some? ==> found.value < n && IsLink(leaves[found.value], local) && LooksOut(leaves[found.value], local))
    && forall j | 0 <= j < n && found != Some(j) :: !LooksOut(leaves[j], local)
  }

  /** The loop over the conjuncts: it gives up at a second correlated conjunct or at one that is no link. */
  method FindLink(leaves: seq<BoolExpr>, local: set<string>) returns (found: Option<nat>)
    ensures found == Link(leaves, local)
  {
    found := None;
    for i := 0 to |leaves|
      invariant LinkSoFar(leaves, local, i, found)
    {
      if !LooksOut(leaves[i], local) { continue; }
      if found.Some? || !IsLink(leaves[i], local) {
        GivesUp(leaves, local, i, found);
        return None;
      }
      found := Some(i);
    }
    if found.Some? { LinkIsOnlyLink(leaves, local, found.value); }
    if found.None? && Link(leaves, local).Some? {
      LinkIsOnlyLink(leaves, local, Link(leaves, local).value);
      LinkLooksOut(leaves[Link(leaves, local).value], local);
    }
  }

  lemma LinkLooksOut(b: BoolExpr, local: set<string>)
    requires IsLink(b, local)
    ensures LooksOut(b, local)
  {
  }

  lemma GivesUp(leaves: seq<BoolExpr>, local: set<string>, i: nat, found: Option<nat>)
    requires i < |leaves| && LooksOut(leaves[i], local) && (found.Some? || !IsLink(leaves[i], local))
    requires found.Some? ==> found.value < i && LooksOut(leaves[found.value], local)
    ensures Link(leaves, local).None?
  {
    if Link(leaves, local).Some? {
      LinkIsOnlyLink(leaves, local, Link(leaves, local).value);
    }
  }

  // ---- The rewrites ----

  predicate Correlated(sub: Select) {
    LooksOut(sub.where, sub.names)
  }

  /** `try_decorrelate_exists`: the link's two columns become the two sides of IN. */
  function RewriteExists(sub: Select): Option<BoolExpr> {
    if sub.shape.Other? then None else
    match Link(Leaves(sub.where), sub.names)
    case None => None
    case Some(i) =>
      var link := Leaves(sub.where)[i];
      Some(InQuery(Col(OuterRef(link, sub.names)),
                   Select(sub.names, sub.rows, Col(LocalRef(link, sub.names)), DropLeaf(sub.where, i), Plain), false))
  }

  /** `try_decorrelate_in`: the link is dropped when its outer column is the left side of IN. */
  function RewriteIn(e: Expr, sub: Select, negated: bool): Option<BoolExpr> {
    if sub.shape.Other? || !e.Col? then None else
    match Link(Leaves(sub.where), sub.names)
    case None => None
    case Some(i) =>
      if OuterRef(Leaves(sub.where)[i], sub.names) != e.ref then None
      else Some(InQuery(e, sub.(where := DropLeaf(sub.where, i)), negated))
  }

  // ---- What the rewrites do to each record of the subquery ----

  predicate Passes(sub: Select, scopes: Scopes, i: nat)
    requires i < |sub.rows|
  {
    Eval(sub.where, Enter(sub, i, scopes)) == True
  }

  function Projected(sub: Select, scopes: Scopes, i: nat): Value
    requires i < |sub.rows|
  {
    ValueOf(sub.proj, Enter(sub, i, scopes))
  }

  lemma PassingStep(sub: Select, scopes: Scopes, n: nat)
    requires 0 < n <= |sub.rows|
    ensures Passing(sub, scopes, n) ==
      Passing(sub, scopes, n - 1) + if Passes(sub, scopes, n - 1) then [Projected(sub, scopes, n - 1)] else []
  {
  }

  lemma {:induction false} PassingMembers(sub: Select, scopes: Scopes, n: nat, v: Value)
    requires n <= |sub.rows|
    ensures v in Passing(sub, scopes, n) <==> exists i :: 0 <= i < n && Passes(sub, scopes, i) && Projected(sub, scopes, i) == v
  {
    if n > 0 {
      PassingMembers(sub, scopes, n - 1, v);
      PassingStep(sub, scopes, n);
      if Passes(sub, scopes, n - 1) && Projected(sub, scopes, n - 1) == v { assert v in Passing(sub, scopes, n); }
    }
  }

  lemma {:induction false} PassingEmpty(sub: Select, scopes: Scopes, n: nat)
    requires n <= |sub.rows|
    ensures Passing(sub, scopes, n) != [] <==> exists i :: 0 <= i < n && Passes(sub, scopes, i)
  {
    if n > 0 {
      PassingEmpty(sub, scopes, n - 1);
      PassingStep(sub, scopes, n);
    }
  }

  /** The column of the link in one record. */
  function LinkValue(sub: Select, scopes: Scopes, k: nat, i: nat): Value
    requires i < |sub.rows| && k < |Leaves(sub.where)| && IsLink(Leaves(sub.where)[k], sub.names)
  {
    Lookup(Enter(sub, i, scopes), LocalRef(Leaves(sub.where)[k], sub.names))
  }

  /** A record passes with the link exactly when it passes without it and its column compares as equal to the outer value. */
  lemma PassesByLink(sub: Select, scopes: Scopes, k: nat, i: nat)
    requires i < |sub.rows| && OnlyLink(Leaves(sub.where), sub.names, k)
    ensures var link := Leaves(sub.where)[k]; var o := Lookup(scopes, OuterRef(link, sub.names));
      Passes(sub, scopes, i) <==>
        && Eval(DropLeaf(sub.where, k), Enter(sub, i, scopes)) == True
        && o != Null && Rounded(LinkValue(sub, scopes, k, i)) == Rounded(o)
  {
    RoundedMonotone(LinkValue(sub, scopes, k, i), Null);
    RoundedMonotone(Lookup(scopes, OuterRef(Leaves(sub.where)[k], sub.names)), Null);
    var inside := Enter(sub, i, scopes);
    DropLeafMeans(sub.where, k, inside);
    assert inside[1..] == scopes;
  }

  // ---- EXISTS ----

  /** Over a subquery with a link: the records that satisfy it all. */
  ghost predicate SomePasses(sub: Select, scopes: Scopes) {
    exists i :: 0 <= i < |sub.rows| && Passes(sub, scopes, i)
  }

  /** One of them has exactly the outer value in the column of the link. */
  ghost predicate SomePassesExactly(sub: Select, scopes: Scopes)
    requires Link(Leaves(sub.where), sub.names).Some?
  {
    var k := Link(Leaves(sub.where), sub.names).value;
    exists i :: 0 <= i < |sub.rows| && Passes(sub, scopes, i)
      && LinkValue(sub, scopes, k, i) == Lookup(scopes, OuterRef(Leaves(sub.where)[k], sub.names))
  }

  /** The IN is true exactly when some record of the original subquery passes with exactly the outer value. */
  lemma RewrittenExistsMeans(sub: Select, scopes: Scopes)
    requires RewriteExists(sub).Some?
    ensures Eval(RewriteExists(sub).value, scopes) == True <==> SomePassesExactly(sub, scopes)
  {
    var k := Link(Leaves(sub.where), sub.names).value;
    LinkIsOnlyLink(Leaves(sub.where), sub.names, k);
    var sub' := RewriteExists(sub).value.sub;
    var o := Lookup(scopes, OuterRef(Leaves(sub.where)[k], sub.names));
    PassingMembers(sub', scopes, |sub.rows|, o);
    forall i | 0 <= i < |sub.rows|
      ensures Passes(sub, scopes, i) && LinkValue(sub, scopes, k, i) == o <==>
        o != Null && Passes(sub', scopes, i) && Projected(sub', scopes, i) == o
    {
      PassesByLink(sub, scopes, k, i);
      assert Enter(sub', i, scopes) == Enter(sub, i, scopes);
    }
  }

  lemma ExistsMeans(sub: Select, scopes: Scopes)
    requires !sub.shape.Other?
    ensures Eval(Exists(sub), scopes) == True <==> sub.shape.Aggregate? || SomePasses(sub, scopes)
  {
    PassingEmpty(sub, scopes, |sub.rows|);
  }

  /** Records pass, but only with integers that differ from the outer value and compare as equal to it. */
  ghost predicate OnlyRounded(sub: Select, scopes: Scopes)
    requires Link(Leaves(sub.where), sub.names).Some?
  {
    SomePasses(sub, scopes) && !SomePassesExactly(sub, scopes)
  }

  /**
   * The rewrite keeps EXISTS true and untrue, if and only if it is no aggregate over an empty set and the records that
   * pass do not all differ from the outer value.
   */
  lemma ExistsRewriteRightIff(sub: Select, scopes: Scopes)
    requires RewriteExists(sub).Some?
    ensures (Eval(Exists(sub), scopes) == True <==> Eval(RewriteExists(sub).value, scopes) == True) <==>
      (sub.shape.Plain? || SomePasses(sub, scopes)) && !OnlyRounded(sub, scopes)
  {
    RewrittenExistsMeans(sub, scopes);
    ExistsMeans(sub, scopes);
    if SomePassesExactly(sub, scopes) { ExactPasses(sub, scopes); }
  }

  lemma ExactPasses(sub: Select, scopes: Scopes)
    requires Link(Leaves(sub.where), sub.names).Some? && SomePassesExactly(sub, scopes)
    ensures SomePasses(sub, scopes)
  {
  }

  // ---- IN ----

  /** The subquery has a link, and projects the link's own column. */
  predicate ProjectsLink(sub: Select) {
    match Link(Leaves(sub.where), sub.names)
    case None => false
    case Some(i) =>
      sub.proj == Col(LocalRef(Leaves(sub.where)[i], sub.names))
  }

  /** The rewrite keeps a plain IN true and untrue when the column of the link is the projected one. */
  lemma InRewriteRight(e: Expr, sub: Select, scopes: Scopes)
    requires RewriteIn(e, sub, false).Some? && sub.shape.Plain?
    requires ProjectsLink(sub)
    ensures Eval(InQuery(e, sub, false), scopes) == True <==> Eval(RewriteIn(e, sub, false).value, scopes) == True
  {
    RewrittenInResults(e, sub, false, scopes, ValueOf(e, scopes));
  }

  /** With that projection, the outer value is among the results before exactly when it is after. */
  lemma RewrittenInResults(e: Expr, sub: Select, negated: bool, scopes: Scopes, o: Value)
    requires RewriteIn(e, sub, negated).Some? && sub.shape.Plain? && o == ValueOf(e, scopes)
    requires ProjectsLink(sub)
    ensures var sub' := RewriteIn(e, sub, negated).value.sub;
      && (o != Null ==> (o in Results(sub, scopes) <==> o in Results(sub', scopes)))
      && Null !in Results(sub, scopes)
  {
    var k := Link(Leaves(sub.where), sub.names).value;
    LinkIsOnlyLink(Leaves(sub.where), sub.names, k);
    var sub' := RewriteIn(e, sub, negated).value.sub;
    PassingMembers(sub, scopes, |sub.rows|, o);
    PassingMembers(sub, scopes, |sub.rows|, Null);
    PassingMembers(sub', scopes, |sub.rows|, o);
    forall i | 0 <= i < |sub.rows|
      ensures Projected(sub', scopes, i) == Projected(sub, scopes, i)
      ensures Passes(sub, scopes, i) <==>
        o != Null && Passes(sub', scopes, i) && Rounded(Projected(sub', scopes, i)) == Rounded(o)
    {
      PassesByLink(sub, scopes, k, i);
      assert Enter(sub', i, scopes) == Enter(sub, i, scopes);
      RoundedMonotone(o, Projected(sub', scopes, i));
    }
  }

  /** Dropping the link loses no value. */
  lemma LinkedAmongAll(e: Expr, sub: Select, negated: bool, scopes: Scopes, v: Value)
    requires RewriteIn(e, sub, negated).Some? && sub.shape.Plain? && v in Results(sub, scopes)
    ensures v in Results(RewriteIn(e, sub, negated).value.sub, scopes)
  {
    var k := Link(Leaves(sub.where), sub.names).value;
    LinkIsOnlyLink(Leaves(sub.where), sub.names, k);
    var sub' := RewriteIn(e, sub, negated).value.sub;
    PassingMembers(sub, scopes, |sub.rows|, v);
    PassingMembers(sub', scopes, |sub.rows|, v);
    var i :| 0 <= i < |sub.rows| && Passes(sub, scopes, i) && Projected(sub, scopes, i) == v;
    PassesByLink(sub, scopes, k, i);
    assert Enter(sub', i, scopes) == Enter(sub, i, scopes);
    assert Passes(sub', scopes, i) && Projected(sub', scopes, i) == v;
  }

  /**
   * NOT IN is rewritten as well. Over given records that is right if and only if the outer value is NULL, or it or NULL
   * is among the linked values, or neither is among all values.
   */
  lemma NotInRewriteRightIff(e: Expr, sub: Select, scopes: Scopes)
    requires RewriteIn(e, sub, true).Some? && sub.shape.Plain?
    ensures var o, before, after := ValueOf(e, scopes), Results(sub, scopes), Results(RewriteIn(e, sub, true).value.sub, scopes);
      (Eval(InQuery(e, sub, true), scopes) == True <==> Eval(RewriteIn(e, sub, true).value, scopes) == True) <==>
        o == Null || o in before || Null in before || (o !in after && Null !in after)
  {
    var o, before := ValueOf(e, scopes), Results(sub, scopes);
    if o in before { LinkedAmongAll(e, sub, true, scopes, o); }
    if Null in before { LinkedAmongAll(e, sub, true, scopes, Null); }
  }

  // ---- IN and NOT IN over all table contents ----

  /** The condition before and after the rewrite, over given records of FROM. */
  function BeforeRewrite(sub: Select, rows: seq<Record>, o: Ref, negated: bool): BoolExpr {
    InQuery(Col(o), sub.(rows := rows), negated)
  }

  function AfterRewrite(sub: Select, k: nat, rows: seq<Record>, o: Ref, negated: bool): BoolExpr
    requires k < |Leaves(sub.where)|
  {
    InQuery(Col(o), sub.(rows := rows, where := DropLeaf(sub.where, k)), negated)
  }

  /** The only correlated conjunct is the link at `k`, with outer column `o`. */
  ghost predicate HasLink(sub: Select, k: nat, o: Ref) {
    && OnlyLink(Leaves(sub.where), sub.names, k) && OuterRef(Leaves(sub.where)[k], sub.names) == o
    && !sub.shape.Other? && SelectLocal(sub, {})
  }

  ghost predicate Linked(sub: Select, k: nat, o: Ref) {
    HasLink(sub, k, o) && sub.shape.Plain?
  }

  lemma RewriteInIs(sub: Select, k: nat, rows: seq<Record>, o: Ref, negated: bool)
    requires HasLink(sub, k, o)
    ensures RewriteIn(Col(o), sub.(rows := rows), negated) == Some(AfterRewrite(sub, k, rows, o, negated))
  {
    LinkIsOnlyLink(Leaves(sub.where), sub.names, k);
  }

  /** The rewrite is made, and keeps whether the condition is true. */
  predicate RightOn(sub: Select, o: Ref, negated: bool, rows: seq<Record>, scopes: Scopes) {
    var before, after := BeforeRewrite(sub, rows, o, negated), RewriteIn(Col(o), sub.(rows := rows), negated);
    after.Some? && (Eval(before, scopes) == True <==> Eval(after.value, scopes) == True)
  }

  ghost predicate RightOnAllData(sub: Select, o: Ref, negated: bool) {
    forall rows, scopes :: RightOn(sub, o, negated, rows, scopes)
  }

  /** The other conjuncts on one record, by itself. */
  predicate RestTrue(sub: Select, k: nat, r: Record)
    requires k < |Leaves(sub.where)|
  {
    Eval(DropLeaf(sub.where, k), [Scope(sub.names, r)]) == True
  }

  /** The projected and the linked value of a record. */
  function ProjectedOf(sub: Select, r: Record): Value {
    ValueOf(sub.proj, [Scope(sub.names, r)])
  }

  function LinkedOf(sub: Select, k: nat, r: Record): Value
    requires k < |Leaves(sub.where)| && IsLink(Leaves(sub.where)[k], sub.names)
  {
    Lookup([Scope(sub.names, r)], LocalRef(Leaves(sub.where)[k], sub.names))
  }

  /** The projected value compares as equal to the linked one, on every record that the other conjuncts let through. */
  ghost predicate ProjectionFollowsLink(sub: Select, k: nat, negated: bool)
    requires k < |Leaves(sub.where)| && IsLink(Leaves(sub.where)[k], sub.names)
  {
    forall r | RestTrue(sub, k, r) ::
      if ProjectedOf(sub, r) == Null then !negated else Rounded(ProjectedOf(sub, r)) == Rounded(LinkedOf(sub, k, r))
  }

  /** Helper: one record inside the subquery is what it is by itself. */
  lemma RecordAlone(sub: Select, k: nat, o: Ref, rows: seq<Record>, scopes: Scopes, i: nat)
    requires HasLink(sub, k, o) && i < |rows|
    ensures var s, s', v := sub.(rows := rows), sub.(rows := rows, where := DropLeaf(sub.where, k)), Lookup(scopes, o);
      && (Passes(s', scopes, i) <==> RestTrue(sub, k, rows[i]))
      && (Passes(s, scopes, i) <==> RestTrue(sub, k, rows[i]) && v != Null && Rounded(LinkedOf(sub, k, rows[i])) == Rounded(v))
      && Projected(s, scopes, i) == ProjectedOf(sub, rows[i]) && Projected(s', scopes, i) == ProjectedOf(sub, rows[i])
  {
    var s, inner := sub.(rows := rows), [Scope(sub.names, rows[i])];
    assert Enter(s, i, scopes) == inner + scopes;
    assert NamesOf(inner) == sub.names by { assert inner[1..] == []; }
    assert {} + sub.names == sub.names;
    DropLeafLooks(sub.where, k, sub.names);
    DropLeafLocal(sub.where, k, sub.names);
    EvalInner(DropLeaf(sub.where, k), inner, scopes);
    ValueInner(sub.proj, inner, scopes);
    LookupInner(inner, scopes, LocalRef(Leaves(sub.where)[k], sub.names));
    PassesByLink(s, scopes, k, i);
  }

  /** Some record projects a value: among those the other conjuncts let through, or among those with a linked value. */
  ghost predicate SomeRest(sub: Select, k: nat, rows: seq<Record>, v: Value)
    requires k < |Leaves(sub.where)|
  {
    exists r :: r in rows && RestTrue(sub, k, r) && ProjectedOf(sub, r) == v
  }

  ghost predicate SomeLinked(sub: Select, k: nat, rows: seq<Record>, v: Value, x: Value)
    requires k < |Leaves(sub.where)| && IsLink(Leaves(sub.where)[k], sub.names)
  {
    exists r :: r in rows && RestTrue(sub, k, r) && ProjectedOf(sub, r) == v && Rounded(LinkedOf(sub, k, r)) == Rounded(x)
  }

  /** Helper: a value among the results. */
  lemma ResultsOf(sub: Select, k: nat, o: Ref, rows: seq<Record>, scopes: Scopes, v: Value)
    requires Linked(sub, k, o)
    ensures var s, s', x := sub.(rows := rows), sub.(rows := rows, where := DropLeaf(sub.where, k)), Lookup(scopes, o);
      && (v in Results(s', scopes) <==> SomeRest(sub, k, rows, v))
      && (v in Results(s, scopes) <==> x != Null && SomeLinked(sub, k, rows, v, x))
  {
    var s, s', x := sub.(rows := rows), sub.(rows := rows, where := DropLeaf(sub.where, k)), Lookup(scopes, o);
    PassingMembers(s, scopes, |rows|, v);
    PassingMembers(s', scopes, |rows|, v);
    forall i | 0 <= i < |rows|
      ensures (Passes(s', scopes, i) <==> RestTrue(sub, k, rows[i])) && Projected(s', scopes, i) == ProjectedOf(sub, rows[i])
      ensures Passes(s, scopes, i) <==> RestTrue(sub, k, rows[i]) && x != Null && Rounded(LinkedOf(sub, k, rows[i])) == Rounded(x)
      ensures Projected(s, scopes, i) == ProjectedOf(sub, rows[i])
    {
      RecordAlone(sub, k, o, rows, scopes, i);
    }
  }

  lemma FollowsThenRight(sub: Select, k: nat, o: Ref, negated: bool, rows: seq<Record>, scopes: Scopes)
    requires Linked(sub, k, o) && ProjectionFollowsLink(sub, k, negated)
    ensures Eval(BeforeRewrite(sub, rows, o, negated), scopes) == True <==>
      Eval(AfterRewrite(sub, k, rows, o, negated), scopes) == True
  {
    ResultsOf(sub, k, o, rows, scopes, Lookup(scopes, o));
    ResultsOf(sub, k, o, rows, scopes, Null);
  }

  /** Helper: FROM delivers one record and the outer column has one value. */
  lemma OneRecord(sub: Select, k: nat, o: Ref, r: Record, v: Value, scopes: Scopes)
    requires Linked(sub, k, o) && RestTrue(sub, k, r) && v != Null && scopes == [Scope({o.table}, map[o := v])]
    ensures var s, s' := sub.(rows := [r]), sub.(rows := [r], where := DropLeaf(sub.where, k));
      && Lookup(scopes, o) == v
      && Results(s', scopes) == [ProjectedOf(sub, r)]
      && Results(s, scopes) == if Rounded(LinkedOf(sub, k, r)) == Rounded(v) then [ProjectedOf(sub, r)] else []
  {
    var s, s' := sub.(rows := [r]), sub.(rows := [r], where := DropLeaf(sub.where, k));
    RecordAlone(sub, k, o, [r], scopes, 0);
    PassingStep(s, scopes, 1);
    PassingStep(s', scopes, 1);
  }

  lemma ViolationShows(sub: Select, k: nat, o: Ref, negated: bool, r: Record)
    requires Linked(sub, k, o) && RestTrue(sub, k, r)
    requires if ProjectedOf(sub, r) == Null then negated else Rounded(ProjectedOf(sub, r)) != Rounded(LinkedOf(sub, k, r))
    ensures !RightOnAllData(sub, o, negated)
  {
    var c, x := ProjectedOf(sub, r), LinkedOf(sub, k, r);
    var v := c;
    if c == Null { v := OtherValue(x); }
    var scopes := [Scope({o.table}, map[o := v])];
    OneRecord(sub, k, o, r, v, scopes);
    RewriteInIs(sub, k, [r], o, negated);
    assert !RightOn(sub, o, negated, [r], scopes);
  }

  /**
   * Over all table contents and outer rows, the rewrite of a plain IN or NOT IN is right if and only if the projection
   * follows the link: on every record that the other conjuncts let through a projected value compares as equal to the
   * linked one, and for NOT IN it is not NULL.
   */
  lemma InRewriteRightIff(sub: Select, k: nat, o: Ref, negated: bool)
    requires Linked(sub, k, o)
    ensures RightOnAllData(sub, o, negated) <==> ProjectionFollowsLink(sub, k, negated)
  {
    if ProjectionFollowsLink(sub, k, negated) {
      forall rows, scopes ensures RightOn(sub, o, negated, rows, scopes) {
        RewriteInIs(sub, k, rows, o, negated);
        FollowsThenRight(sub, k, o, negated, rows, scopes);
      }
    } else {
      var r :| RestTrue(sub, k, r) &&
        !(if ProjectedOf(sub, r) == Null then !negated else Rounded(ProjectedOf(sub, r)) == Rounded(LinkedOf(sub, k, r)));
      ViolationShows(sub, k, o, negated, r);
    }
  }

  // ---- Aggregates ----

  /** The projected values of the records that the other conjuncts let through, and of those with a linked value. */
  function RestValues(sub: Select, k: nat, rows: seq<Record>): seq<Value>
    requires k < |Leaves(sub.where)|
  {
    if rows == [] then [] else
    var n := |rows| - 1;
    RestValues(sub, k, rows[..n]) + if RestTrue(sub, k, rows[n]) then [ProjectedOf(sub, rows[n])] else []
  }

  function LinkedValues(sub: Select, k: nat, rows: seq<Record>, v: Value): seq<Value>
    requires k < |Leaves(sub.where)| && IsLink(Leaves(sub.where)[k], sub.names)
  {
    if rows == [] then [] else
    var n := |rows| - 1;
    LinkedValues(sub, k, rows[..n], v) +
    if RestTrue(sub, k, rows[n]) && Rounded(LinkedOf(sub, k, rows[n])) == Rounded(v) then [ProjectedOf(sub, rows[n])] else []
  }

  lemma {:induction false} PassingValues(sub: Select, k: nat, o: Ref, rows: seq<Record>, scopes: Scopes, n: nat)
    requires HasLink(sub, k, o) && n <= |rows| && Lookup(scopes, o) != Null
    ensures var s, s' := sub.(rows := rows), sub.(rows := rows, where := DropLeaf(sub.where, k));
      && Passing(s', scopes, n) == RestValues(sub, k, rows[..n])
      && Passing(s, scopes, n) == LinkedValues(sub, k, rows[..n], Lookup(scopes, o))
  {
    if n > 0 {
      PassingValues(sub, k, o, rows, scopes, n - 1);
      RecordAlone(sub, k, o, rows, scopes, n - 1);
      assert rows[..n][..n - 1] == rows[..n - 1] && rows[..n][n - 1] == rows[n - 1];
      PassingStep(sub.(rows := rows), scopes, n);
      PassingStep(sub.(rows := rows, where := DropLeaf(sub.where, k)), scopes, n);
    }
  }

  /** IN, or NOT IN, over one value is true. */
  predicate Agrees(x: Value, v: Value, negated: bool) {
    x != Null && (x == v) != negated
  }

  /** The aggregate of the linked values decides as the aggregate of all. */
  ghost predicate AggregateFollowsLink(sub: Select, k: nat, f: seq<Value> -> Value, negated: bool)
    requires k < |Leaves(sub.where)| && IsLink(Leaves(sub.where)[k], sub.names)
  {
    forall rows, v | v != Null ::
      Agrees(f(LinkedValues(sub, k, rows, v)), v, negated) == Agrees(f(RestValues(sub, k, rows)), v, negated)
  }

  lemma AggregateRightOnIff(sub: Select, k: nat, o: Ref, negated: bool, rows: seq<Record>, scopes: Scopes)
    requires HasLink(sub, k, o) && sub.shape.Aggregate?
    ensures var v := Lookup(scopes, o);
      RightOn(sub, o, negated, rows, scopes) <==>
        v == Null || Agrees(sub.shape.f(LinkedValues(sub, k, rows, v)), v, negated)
                     == Agrees(sub.shape.f(RestValues(sub, k, rows)), v, negated)
  {
    RewriteInIs(sub, k, rows, o, negated);
    var v := Lookup(scopes, o);
    if v != Null {
      AggregateResults(sub, k, o, rows, scopes);
      InOne(v, sub.shape.f(LinkedValues(sub, k, rows, v)), negated);
      InOne(v, sub.shape.f(RestValues(sub, k, rows)), negated);
    }
  }

  lemma AggregateResults(sub: Select, k: nat, o: Ref, rows: seq<Record>, scopes: Scopes)
    requires HasLink(sub, k, o) && sub.shape.Aggregate? && Lookup(scopes, o) != Null
    ensures Results(sub.(rows := rows), scopes) == [sub.shape.f(LinkedValues(sub, k, rows, Lookup(scopes, o)))]
    ensures Results(sub.(rows := rows, where := DropLeaf(sub.where, k)), scopes) == [sub.shape.f(RestValues(sub, k, rows))]
  {
    PassingValues(sub, k, o, rows, scopes, |rows|);
    assert rows[..|rows|] == rows;
  }

  lemma InOne(v: Value, x: Value, negated: bool)
    requires v != Null
    ensures InValues(v, [x], negated) == True <==> Agrees(x, v, negated)
  {
  }

  /** Over all table contents, the rewrite of an aggregate IN or NOT IN is right if and only if the aggregate follows the link. */
  lemma AggregateInRightIff(sub: Select, k: nat, o: Ref, negated: bool)
    requires HasLink(sub, k, o) && sub.shape.Aggregate?
    ensures RightOnAllData(sub, o, negated) <==> AggregateFollowsLink(sub, k, sub.shape.f, negated)
  {
    if AggregateFollowsLink(sub, k, sub.shape.f, negated) {
      forall rows, scopes ensures RightOn(sub, o, negated, rows, scopes) {
        AggregateRightOnIff(sub, k, o, negated, rows, scopes);
      }
    } else {
      var rows, v :| v != Null &&
        Agrees(sub.shape.f(LinkedValues(sub, k, rows, v)), v, negated) != Agrees(sub.shape.f(RestValues(sub, k, rows)), v, negated);
      var scopes := [Scope({o.table}, map[o := v])];
      AggregateRightOnIff(sub, k, o, negated, rows, scopes);
      assert !RightOn(sub, o, negated, rows, scopes);
    }
  }

  function NonNull(vals: seq<Value>): seq<Value> {
    if vals == [] then [] else
    var n := |vals| - 1;
    NonNull(vals[..n]) + if vals[n] == Null then [] else [vals[n]]
  }

  /** MIN and MAX: one of the values that are not NULL, if there is one. */
  predicate PicksOf(f: seq<Value> -> Value, vals: seq<Value>) {
    && f(vals) == f(NonNull(vals))
    && (f(vals) == Null <==> NonNull(vals) == [])
    && (f(vals) != Null ==> f(vals) in vals)
  }

  ghost predicate Picks(f: seq<Value> -> Value) {
    forall vals :: PicksOf(f, vals)
  }

  /** The other conjuncts let only values through that compare as equal, and for NOT IN only NULL. */
  ghost predicate OneValue(sub: Select, k: nat, negated: bool)
    requires k < |Leaves(sub.where)| && IsLink(Leaves(sub.where)[k], sub.names)
  {
    && (negated ==> forall r | RestTrue(sub, k, r) :: LinkedOf(sub, k, r) == Null)
    && forall r, q | RestTrue(sub, k, r) && RestTrue(sub, k, q) ::
         LinkedOf(sub, k, r) == Null || LinkedOf(sub, k, q) == Null || Rounded(LinkedOf(sub, k, r)) == Rounded(LinkedOf(sub, k, q))
  }

  ghost predicate ProjectsLinked(sub: Select, k: nat)
    requires k < |Leaves(sub.where)| && IsLink(Leaves(sub.where)[k], sub.names)
  {
    forall r :: ProjectedOf(sub, r) == LinkedOf(sub, k, r)
  }

  /** Helper: what the values of one record and of two records are. */
  lemma FewRecords(sub: Select, k: nat, r: Record, q: Record, v: Value)
    requires k < |Leaves(sub.where)| && IsLink(Leaves(sub.where)[k], sub.names) && ProjectsLinked(sub, k)
    requires RestTrue(sub, k, r) && RestTrue(sub, k, q)
    ensures var x, y := LinkedOf(sub, k, r), LinkedOf(sub, k, q);
      && RestValues(sub, k, [r]) == [x] && RestValues(sub, k, [r, q]) == [x, y]
      && LinkedValues(sub, k, [r], v) == (if Rounded(x) == Rounded(v) then [x] else [])
      && LinkedValues(sub, k, [r, q], v) ==
           (if Rounded(x) == Rounded(v) then [x] else []) + (if Rounded(y) == Rounded(v) then [y] else [])
  {
    assert [r, q][..1] == [r] && [r][..0] == [];
  }

  lemma PickOfOne(f: seq<Value> -> Value, x: Value)
    requires Picks(f) && x != Null
    ensures f([x]) == x && f([]) == Null
  {
    assert [x][..0] == [] && NonNull([x]) == [x] && NonNull([]) == [];
    assert PicksOf(f, [x]) && PicksOf(f, []);
  }

  lemma PickOfTwo(f: seq<Value> -> Value, x: Value, y: Value)
    requires Picks(f) && x != Null && y != Null
    ensures f([x, y]) == x || f([x, y]) == y
  {
    NonNullStep([x], y);
    assert [x] + [y] == [x, y] && [x][..0] == [];
    assert PicksOf(f, [x, y]);
  }

  /** Two values that compare as different: the one that is not picked is lost. */
  lemma TwoValuesDisagree(sub: Select, k: nat, f: seq<Value> -> Value, r: Record, q: Record)
    requires k < |Leaves(sub.where)| && IsLink(Leaves(sub.where)[k], sub.names) && ProjectsLinked(sub, k) && Picks(f)
    requires RestTrue(sub, k, r) && RestTrue(sub, k, q) && LinkedOf(sub, k, r) != Null && LinkedOf(sub, k, q) != Null
    requires Rounded(LinkedOf(sub, k, r)) != Rounded(LinkedOf(sub, k, q))
    ensures !AggregateFollowsLink(sub, k, f, false)
  {
    var x, y := LinkedOf(sub, k, r), LinkedOf(sub, k, q);
    var v := if f([x, y]) == x then y else x;
    FewRecords(sub, k, r, q, v);
    PickOfTwo(f, x, y);
    PickOfOne(f, v);
    assert LinkedValues(sub, k, [r, q], v) == [v];
    assert Agrees(f(LinkedValues(sub, k, [r, q], v)), v, false) && !Agrees(f(RestValues(sub, k, [r, q])), v, false);
  }

  lemma OneValueDisagrees(sub: Select, k: nat, f: seq<Value> -> Value, r: Record)
    requires k < |Leaves(sub.where)| && IsLink(Leaves(sub.where)[k], sub.names) && ProjectsLinked(sub, k) && Picks(f)
    requires RestTrue(sub, k, r) && LinkedOf(sub, k, r) != Null
    ensures !AggregateFollowsLink(sub, k, f, true)
  {
    var x := LinkedOf(sub, k, r);
    var v := OtherValue(x);
    FewRecords(sub, k, r, r, v);
    PickOfOne(f, x);
    assert !Agrees(f(LinkedValues(sub, k, [r], v)), v, true) && Agrees(f(RestValues(sub, k, [r])), v, true);
  }

  lemma OtherValue(x: Value) returns (v: Value)
    ensures v != Null && v != x && Rounded(v) != Rounded(x)
  {
    DblSmall(0);
    DblSmall(1);
    v := if Rounded(x) == Int(0) then Int(1) else Int(0);
  }

  lemma NonNullStep(all: seq<Value>, x: Value)
    ensures NonNull(all + [x]) == NonNull(all) + if x == Null then [] else [x]
  {
    assert (all + [x])[..|all|] == all && (all + [x])[|all|] == x;
  }

  /** Helper: the last record. */
  lemma LastRecord(sub: Select, k: nat, rows: seq<Record>, v: Value)
    requires k < |Leaves(sub.where)| && IsLink(Leaves(sub.where)[k], sub.names) && ProjectsLinked(sub, k) && rows != []
    ensures var n := |rows| - 1; var x, pass := LinkedOf(sub, k, rows[n]), RestTrue(sub, k, rows[n]);
      && RestValues(sub, k, rows) == RestValues(sub, k, rows[..n]) + (if pass then [x] else [])
      && LinkedValues(sub, k, rows, v) ==
           LinkedValues(sub, k, rows[..n], v) + (if pass && Rounded(x) == Rounded(v) then [x] else [])
  {
    assert ProjectedOf(sub, rows[|rows| - 1]) == LinkedOf(sub, k, rows[|rows| - 1]);
  }

  lemma OneMoreLinked(all: seq<Value>, linked: seq<Value>, x: Value, v: Value, pass: bool)
    requires linked == NonNull(all) && v != Null && (pass && x != Null ==> Rounded(x) == Rounded(v))
    ensures linked + (if pass && Rounded(x) == Rounded(v) then [x] else []) == NonNull(all + if pass then [x] else [])
  {
    RoundedMonotone(v, x);
    RoundedMonotone(x, v);
    NonNullStep(all, x);
    assert all + [] == all && linked + [] == linked;
  }

  /** All values compare as equal to the outer one: the linked values are those that are not NULL. */
  lemma {:induction false} AllLinked(sub: Select, k: nat, rows: seq<Record>, v: Value)
    requires k < |Leaves(sub.where)| && IsLink(Leaves(sub.where)[k], sub.names) && ProjectsLinked(sub, k) && v != Null
    requires forall r | RestTrue(sub, k, r) && LinkedOf(sub, k, r) != Null :: Rounded(LinkedOf(sub, k, r)) == Rounded(v)
    ensures LinkedValues(sub, k, rows, v) == NonNull(RestValues(sub, k, rows))
  {
    if rows == [] {
    } else {
      var n := |rows| - 1;
      AllLinked(sub, k, rows[..n], v);
      LastRecord(sub, k, rows, v);
      OneMoreLinked(RestValues(sub, k, rows[..n]), LinkedValues(sub, k, rows[..n], v), LinkedOf(sub, k, rows[n]), v,
                    RestTrue(sub, k, rows[n]));
    }
  }

  lemma {:induction false} NoneLinked(sub: Select, k: nat, rows: seq<Record>, v: Value)
    requires k < |Leaves(sub.where)| && IsLink(Leaves(sub.where)[k], sub.names) && ProjectsLinked(sub, k)
    requires forall r | RestTrue(sub, k, r) :: Rounded(LinkedOf(sub, k, r)) != Rounded(v)
    ensures LinkedValues(sub, k, rows, v) == [] && v !in RestValues(sub, k, rows)
  {
    if rows == [] {
    } else {
      NoneLinked(sub, k, rows[..|rows| - 1], v);
      LastRecord(sub, k, rows, v);
    }
  }

  lemma {:induction false} AllNull(sub: Select, k: nat, rows: seq<Record>)
    requires k < |Leaves(sub.where)| && IsLink(Leaves(sub.where)[k], sub.names) && ProjectsLinked(sub, k)
    requires forall r | RestTrue(sub, k, r) :: LinkedOf(sub, k, r) == Null
    ensures NonNull(RestValues(sub, k, rows)) == []
  {
    if rows == [] {
    } else {
      var n := |rows| - 1;
      AllNull(sub, k, rows[..n]);
      LastRecord(sub, k, rows, Null);
      NonNullStep(RestValues(sub, k, rows[..n]), LinkedOf(sub, k, rows[n]));
      assert RestValues(sub, k, rows[..n]) + [] == RestValues(sub, k, rows[..n]);
    }
  }

  /** MIN and MAX of the link's column: right if and only if the other conjuncts let one value through, for NOT IN only NULL. */
  lemma PickInRightIff(sub: Select, k: nat, f: seq<Value> -> Value, negated: bool)
    requires k < |Leaves(sub.where)| && IsLink(Leaves(sub.where)[k], sub.names) && ProjectsLinked(sub, k) && Picks(f)
    ensures AggregateFollowsLink(sub, k, f, negated) <==> OneValue(sub, k, negated)
  {
    if OneValue(sub, k, negated) {
      forall rows, v | v != Null
        ensures Agrees(f(LinkedValues(sub, k, rows, v)), v, negated) == Agrees(f(RestValues(sub, k, rows)), v, negated)
      {
        OneValueAgrees(sub, k, f, negated, rows, v);
      }
    } else if negated && exists r :: RestTrue(sub, k, r) && LinkedOf(sub, k, r) != Null {
      var r :| RestTrue(sub, k, r) && LinkedOf(sub, k, r) != Null;
      OneValueDisagrees(sub, k, f, r);
    } else {
      var r, q :| RestTrue(sub, k, r) && RestTrue(sub, k, q) && LinkedOf(sub, k, r) != Null && LinkedOf(sub, k, q) != Null
        && Rounded(LinkedOf(sub, k, r)) != Rounded(LinkedOf(sub, k, q));
      TwoValuesDisagree(sub, k, f, r, q);
    }
  }

  lemma OneValueAgrees(sub: Select, k: nat, f: seq<Value> -> Value, negated: bool, rows: seq<Record>, v: Value)
    requires k < |Leaves(sub.where)| && IsLink(Leaves(sub.where)[k], sub.names) && ProjectsLinked(sub, k) && Picks(f)
    requires OneValue(sub, k, negated) && v != Null
    ensures Agrees(f(LinkedValues(sub, k, rows, v)), v, negated) == Agrees(f(RestValues(sub, k, rows)), v, negated)
  {
    var all := RestValues(sub, k, rows);
    assert PicksOf(f, all) && PicksOf(f, []) && NonNull([]) == [];
    if r :| RestTrue(sub, k, r) && Rounded(LinkedOf(sub, k, r)) == Rounded(v) {
      RoundedMonotone(v, LinkedOf(sub, k, r));
      RoundedMonotone(LinkedOf(sub, k, r), v);
      AllLinked(sub, k, rows, v);
    } else {
      NoneLinked(sub, k, rows, v);
      if negated { AllNull(sub, k, rows); }
    }
  }

  /** SELECT c FROM ... WHERE x = o, with o a column of the outer query. */
  function ByLink(names: set<string>, rows: seq<Record>, c: Ref, x: Ref, o: Ref): Select {
    Select(names, rows, Col(c), Compare(Eq, Col(x), Col(o)), Plain)
  }

  // ---- Whole conditions ----

  /**
   * `resolve_subqueries_in_bool`: under an even number of NOTs a correlated subquery is decorrelated where possible;
   * a subquery that is then uncorrelated is run once and replaced by its values.
   */
  function Resolve(b: BoolExpr, underNot: bool): BoolExpr {
    match b
    case And(x, y) => And(Resolve(x, underNot), Resolve(y, underNot))
    case Or(x, y) => Or(Resolve(x, underNot), Resolve(y, underNot))
    case Not(x) => Not(Resolve(x, !underNot))
    case Exists(sub) =>
      if !underNot && Correlated(sub) && RewriteExists(sub).Some? then RunOnce(RewriteExists(sub).value) else RunOnce(b)
    case InQuery(e, sub, negated) =>
      if !underNot && Correlated(sub) && RewriteIn(e, sub, negated).Some?
      then RunOnce(RewriteIn(e, sub, negated).value) else RunOnce(b)
    case _ => b
  }

  function Literals(vals: seq<Value>): seq<Expr> {
    seq(|vals|, i => if 0 <= i < |vals| then Lit(vals[i]) else Lit(Null))
  }

  function RunOnce(b: BoolExpr): BoolExpr
    requires b.InQuery? || b.Exists?
  {
    if Correlated(b.sub) then b
    else if b.InQuery? then InList(b.e, Literals(Results(b.sub, [])), b.negated)
    else Compare(Eq, Lit(Int(1)), Lit(Int(if Results(b.sub, []) != [] then 1 else 0)))
  }

  /** An uncorrelated subquery has one result for every outer row. */
  lemma RunOnceMeans(b: BoolExpr, scopes: Scopes)
    requires (b.InQuery? || b.Exists?) && SelectLocal(b.sub, {})
    ensures Eval(RunOnce(b), scopes) == Eval(b, scopes)
  {
    if !Correlated(b.sub) {
      RunsAlone(b.sub, scopes);
      var vals := Results(b.sub, []);
      if b.InQuery? {
        LiteralsEvaluate(vals, scopes);
      } else {
        DblSmall(0);
        DblSmall(1);
      }
    }
  }

  lemma RunsAlone(sub: Select, scopes: Scopes)
    requires !Correlated(sub) && SelectLocal(sub, {})
    ensures Results(sub, scopes) == Results(sub, [])
  {
    assert {} + sub.names == sub.names && NamesOf([]) == {};
    PassingInner(sub, [], scopes, |sub.rows|);
    assert [] + scopes == scopes;
  }

  lemma LiteralsEvaluate(vals: seq<Value>, scopes: Scopes)
    ensures ValuesOf(Literals(vals), scopes) == vals
  {
  }

  /** What the rewrites need at each subquery they reach. */
  ghost predicate Rewritable(b: BoolExpr, underNot: bool, scopes: Scopes) {
    match b
    case And(x, y) => Rewritable(x, underNot, scopes) && Rewritable(y, underNot, scopes)
    case Or(x, y) => Rewritable(x, underNot, scopes) && Rewritable(y, underNot, scopes)
    case Not(x) => Rewritable(x, !underNot, scopes)
    case Exists(sub) => underNot || RewriteExists(sub).None? || (sub.shape.Plain? && !OnlyRounded(sub, scopes))
    case InQuery(e, sub, negated) =>
      underNot || RewriteIn(e, sub, negated).None? || (!negated && sub.shape.Plain? && ProjectsLink(sub))
    case _ => true
  }

  lemma ResolveExists(sub: Select, scopes: Scopes)
    requires Rewritable(Exists(sub), false, scopes) && SelectLocal(sub, {})
    ensures Eval(Resolve(Exists(sub), false), scopes) == True <==> Eval(Exists(sub), scopes) == True
  {
    if Correlated(sub) && RewriteExists(sub).Some? {
      ExistsRewriteRightIff(sub, scopes);
      var k := Link(Leaves(sub.where), sub.names).value;
      LinkIsOnlyLink(Leaves(sub.where), sub.names, k);
      DropLeafLocal(sub.where, k, {} + sub.names);
      RunOnceMeans(RewriteExists(sub).value, scopes);
    } else {
      RunOnceMeans(Exists(sub), scopes);
    }
  }

  lemma ResolveIn(e: Expr, sub: Select, negated: bool, scopes: Scopes)
    requires Rewritable(InQuery(e, sub, negated), false, scopes) && SelectLocal(sub, {})
    ensures Eval(Resolve(InQuery(e, sub, negated), false), scopes) == True <==> Eval(InQuery(e, sub, negated), scopes) == True
  {
    if Correlated(sub) && RewriteIn(e, sub, negated).Some? {
      InRewriteRight(e, sub, scopes);
      var k := Link(Leaves(sub.where), sub.names).value;
      LinkIsOnlyLink(Leaves(sub.where), sub.names, k);
      DropLeafLocal(sub.where, k, {} + sub.names);
      RunOnceMeans(RewriteIn(e, sub, negated).value, scopes);
    } else {
      RunOnceMeans(InQuery(e, sub, negated), scopes);
    }
  }

  /**
   * Resolving never changes which rows pass: it keeps what is true under an even number of NOTs and what is false
   * under an odd number, although a leaf may change between false and unknown.
   */
  lemma {:induction false} ResolveKeepsFilter(b: BoolExpr, underNot: bool, scopes: Scopes)
    requires Rewritable(b, underNot, scopes) && ProjectsLocally(b, {})
    ensures !underNot ==> (Eval(Resolve(b, underNot), scopes) == True <==> Eval(b, scopes) == True)
    ensures underNot ==> (Eval(Resolve(b, underNot), scopes) == False <==> Eval(b, scopes) == False)
  {
    match b
    case And(x, y) => ResolveKeepsFilter(x, underNot, scopes); ResolveKeepsFilter(y, underNot, scopes);
    case Or(x, y) => ResolveKeepsFilter(x, underNot, scopes); ResolveKeepsFilter(y, underNot, scopes);
    case Not(x) => ResolveKeepsFilter(x, !underNot, scopes);
    case Exists(sub) =>
      if underNot { RunOnceMeans(b, scopes); } else { ResolveExists(sub, scopes); }
    case InQuery(e, sub, negated) =>
      if underNot { RunOnceMeans(b, scopes); } else { ResolveIn(e, sub, negated, scopes); }
    case _ =>
  }

  /** Only correlated subqueries are left, and outside NOT only those that cannot be rewritten. */
  predicate Resolved(b: BoolExpr, underNot: bool) {
    match b
    case And(x, y) => Resolved(x, underNot) && Resolved(y, underNot)
    case Or(x, y) => Resolved(x, underNot) && Resolved(y, underNot)
    case Not(x) => Resolved(x, !underNot)
    case Exists(sub) => Correlated(sub) && (underNot || RewriteExists(sub).None?)
    case InQuery(e, sub, negated) => Correlated(sub) && (underNot || RewriteIn(e, sub, negated).None?)
    case _ => true
  }

  lemma {:induction false} ResolveResolves(b: BoolExpr, underNot: bool)
    ensures Resolved(Resolve(b, underNot), underNot)
  {
    match b
    case And(x, y) => ResolveResolves(x, underNot); ResolveResolves(y, underNot);
    case Or(x, y) => ResolveResolves(x, underNot); ResolveResolves(y, underNot);
    case Not(x) => ResolveResolves(x, !underNot);
    case Exists(sub) => RewrittenIsUncorrelated(Lit(Null), sub, false);
    case InQuery(e, sub, negated) => RewrittenIsUncorrelated(e, sub, negated);
    case _ =>
  }

  /** A rewritten subquery is uncorrelated: it is always run only once. */
  lemma RewrittenIsUncorrelated(e: Expr, sub: Select, negated: bool)
    ensures RewriteExists(sub).Some? ==> !Correlated(RewriteExists(sub).value.sub)
    ensures RewriteIn(e, sub, negated).Some? ==> !Correlated(RewriteIn(e, sub, negated).value.sub)
  {
    if Link(Leaves(sub.where), sub.names).Some? {
      var k := Link(Leaves(sub.where), sub.names).value;
      LinkIsOnlyLink(Leaves(sub.where), sub.names, k);
      DropLeafLooks(sub.where, k, sub.names);
    }
  }

  // ---- Where the rewrites go wrong ----

  const A: Ref := Ref("s", "a")
  const B: Ref := Ref("t", "b")

  /** The outer row has b = 1. */
  function Outside(): Scopes {
    [Scope({"t"}, map[B := Int(1)])]
  }

  lemma OutsideHasOne()
    ensures Lookup(Outside(), B) == Int(1) && Owns({"s"}, A) && !Owns({"s"}, B)
  {
  }

  /** EXISTS (SELECT COUNT(*) FROM s WHERE s.a = t.b) over an empty table is true; its rewrite is false. */
  lemma AggregateExistsWrong(count: seq<Value> -> Value)
    ensures var sub := ByLink({"s"}, [], A, A, B).(shape := Aggregate(count));
      && RewriteExists(sub).Some?
      && Eval(Exists(sub), Outside()) == True && Eval(RewriteExists(sub).value, Outside()) == False
  {
    var sub := ByLink({"s"}, [], A, A, B).(shape := Aggregate(count));
    OutsideHasOne();
    LinkIsOnlyLink(Leaves(sub.where), sub.names, 0);
  }

  const C: Ref := Ref("s", "c")

  /** t.b IN (SELECT s.c FROM s WHERE s.a = t.b) over one record with c = 1 and a = 2 is false; its rewrite is true. */
  lemma OtherColumnWrong()
    ensures var sub := ByLink({"s"}, [map[A := Int(2), C := Int(1)]], C, A, B);
      && RewriteIn(Col(B), sub, false).Some?
      && Eval(InQuery(Col(B), sub, false), Outside()) == False
      && Eval(RewriteIn(Col(B), sub, false).value, Outside()) == True
  {
    var sub := ByLink({"s"}, [map[A := Int(2), C := Int(1)]], C, A, B);
    OutsideHasOne();
    LinkIsOnlyLink(Leaves(sub.where), sub.names, 0);
    var inside := Enter(sub, 0, Outside());
    assert inside[1..] == Outside() && Lookup(inside, A) == Int(2) && Lookup(inside, C) == Int(1);
    PassingStep(sub, Outside(), 1);
    PassingStep(sub.(where := TRUE), Outside(), 1);
  }

  /** t.b IN (SELECT MAX(s.a) FROM s WHERE s.a = t.b) over 1 and 2 is true; its rewrite takes the maximum of both and is false. */
  lemma AggregateInWrong(max: seq<Value> -> Value)
    requires max([Int(1)]) == Int(1) && max([Int(1), Int(2)]) == Int(2)
    ensures var sub := ByLink({"s"}, [map[A := Int(1)], map[A := Int(2)]], A, A, B).(shape := Aggregate(max));
      && RewriteIn(Col(B), sub, false).Some?
      && Eval(InQuery(Col(B), sub, false), Outside()) == True
      && Eval(RewriteIn(Col(B), sub, false).value, Outside()) == False
  {
    var sub := ByLink({"s"}, [map[A := Int(1)], map[A := Int(2)]], A, A, B).(shape := Aggregate(max));
    var sub' := sub.(where := TRUE);
    OutsideHasOne();
    LinkIsOnlyLink(Leaves(sub.where), sub.names, 0);
    var first, second := Enter(sub, 0, Outside()), Enter(sub, 1, Outside());
    assert first[1..] == Outside() && Lookup(first, A) == Int(1);
    assert second[1..] == Outside() && Lookup(second, A) == Int(2);
    PassingStep(sub, Outside(), 1);
    PassingStep(sub, Outside(), 2);
    PassingStep(sub', Outside(), 1);
    PassingStep(sub', Outside(), 2);
    assert Passing(sub, Outside(), 2) == [Int(1)] && Passing(sub', Outside(), 2) == [Int(1), Int(2)];
  }

  /** t.b NOT IN (SELECT s.a FROM s WHERE s.a = t.b) over one NULL is true; its rewrite is unknown. */
  lemma NotInWrong()
    ensures var sub := ByLink({"s"}, [map[A := Null]], A, A, B);
      && RewriteIn(Col(B), sub, true).Some?
      && Eval(InQuery(Col(B), sub, true), Outside()) == True
      && Eval(RewriteIn(Col(B), sub, true).value, Outside()) == Unknown
  {
    var sub := ByLink({"s"}, [map[A := Null]], A, A, B);
    OutsideHasOne();
    LinkIsOnlyLink(Leaves(sub.where), sub.names, 0);
    var inside := Enter(sub, 0, Outside());
    assert inside[1..] == Outside() && Lookup(inside, A) == Null;
    PassingStep(sub, Outside(), 1);
    PassingStep(sub.(where := TRUE), Outside(), 1);
  }

  /** Why EXISTS under NOT is left alone: over one NULL it is false, and its rewrite unknown. */
  lemma RewriteUnderNotWrong()
    ensures var sub := ByLink({"s"}, [map[A := Null]], A, A, B);
      && RewriteExists(sub).Some?
      && Eval(Not(Exists(sub)), Outside()) == True
      && Eval(Not(RewriteExists(sub).value), Outside()) == Unknown
  {
    var sub := ByLink({"s"}, [map[A := Null]], A, A, B);
    OutsideHasOne();
    LinkIsOnlyLink(Leaves(sub.where), sub.names, 0);
    var inside := Enter(sub, 0, Outside());
    assert inside[1..] == Outside() && Lookup(inside, A) == Null;
    PassingStep(sub, Outside(), 1);
    PassingStep(sub.(where := TRUE), Outside(), 1);
    assert Eval(Exists(sub), Outside()) == False;
    assert RewriteExists(sub).value == InQuery(Col(B), sub.(where := TRUE), false);
    assert Eval(RewriteExists(sub).value, Outside()) == Unknown;
  }

  /** EXISTS (SELECT * FROM s WHERE s.a = t.b) over 2^53 for the outer value 2^53 + 1 is true; its rewrite is false. */
  lemma RoundedLinkWrong()
    ensures var sub, scopes := ByLink({"s"}, [map[A := Int(EXACT)]], A, A, B), [Scope({"t"}, map[B := Int(EXACT + 1)])];
      && RewriteExists(sub).Some?
      && Eval(Exists(sub), scopes) == True && Eval(RewriteExists(sub).value, scopes) == False
  {
    var sub, scopes := ByLink({"s"}, [map[A := Int(EXACT)]], A, A, B), [Scope({"t"}, map[B := Int(EXACT + 1)])];
    assert Owns({"s"}, A) && !Owns({"s"}, B) && Lookup(scopes, B) == Int(EXACT + 1);
    LinkIsOnlyLink(Leaves(sub.where), sub.names, 0);
    DblLarge();
    var inside := Enter(sub, 0, scopes);
    assert inside[1..] == scopes && Lookup(inside, A) == Int(EXACT);
    PassingStep(sub, scopes, 1);
    PassingStep(sub.(where := TRUE), scopes, 1);
    assert RewriteExists(sub).value == InQuery(Col(B), sub.(where := TRUE), false);
  }
}
