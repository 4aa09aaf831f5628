/** Correlated subqueries: three-valued evaluation, substitution of the outer row, and decorrelation. */
module Subqueries {
  import opened Values
  import opened Rounding

  datatype Sql = True | False | Unknown

  function And3(a: Sql, b: Sql): Sql {
    if a.False? || b.False? then False else if a.Unknown? || b.Unknown? then Unknown else True
  }

  function Or3(a: Sql, b: Sql): Sql {
    if a.True? || b.True? then True else if a.Unknown? || b.Unknown? then Unknown else False
  }

  function Not3(a: Sql): Sql {
    match a case True => False case False => True case Unknown => Unknown
  }

  function Truth(b: bool): Sql { if b then True else False }

  // ---- Expressions ----

  /** A column reference; an empty table name means the innermost query. */
  datatype Ref = Ref(table: string, name: string)

  datatype Expr = Col(ref: Ref) | Lit(v: Value) | Apply(f: (Value, Value) -> Value, l: Expr, r: Expr)

  datatype Op = Eq | Ne | Lt | Le | Gt | Ge

  datatype BoolExpr =
    | Compare(op: Op, l: Expr, r: Expr)
    | IsNull(e: Expr)
    | And(a: BoolExpr, b: BoolExpr)
    | Or(a: BoolExpr, b: BoolExpr)
    | Not(a: BoolExpr)
    | Between(e: Expr, low: Expr, high: Expr, negated: bool)
    | InList(e: Expr, values: seq<Expr>, negated: bool)
    | InQuery(e: Expr, sub: Select, negated: bool)
    | Exists(sub: Select)

  /** What happens to the projected values: nothing, one aggregate over them, or DISTINCT, GROUP BY, LIMIT and the like. */
  datatype Shape = Plain | Aggregate(f: seq<Value> -> Value) | Other(g: seq<Value> -> seq<Value>)

  type Record = map<Ref, Value>

  /** A subquery: the names its FROM introduces, the records FROM delivers, and one projected expression. */
  datatype Select = Select(names: set<string>, rows: seq<Record>, proj: Expr, where: BoolExpr, shape: Shape)

  /** The queries around an expression, innermost first, each at one of its records. */
  datatype Scope = Scope(names: set<string>, row: Record)

  type Scopes = seq<Scope>

  function Field(row: Record, ref: Ref): Value {
    if ref in row then row[ref] else Null
  }

  predicate Owns(names: set<string>, ref: Ref) {
    ref.table == "" || ref.table in names
  }

  function Lookup(scopes: Scopes, ref: Ref): Value {
    if scopes == [] then Null
    else if Owns(scopes[0].names, ref) then Field(scopes[0].row, ref)
    else Lookup(scopes[1..], ref)
  }

  function ValueOf(e: Expr, scopes: Scopes): Value {
    match e
    case Col(ref) => Lookup(scopes, ref)
    case Lit(v) => v
    case Apply(f, l, r) => f(ValueOf(l, scopes), ValueOf(r, scopes))
  }

  /** `compare_order` under a comparison operator: integers are compared as doubles. */
  function CompareValues(op: Op, x: Value, y: Value): Sql {
    if x == Null || y == Null then Unknown else
    var a, b := Rounded(x), Rounded(y);
    match op
    case Eq => Truth(a == b)
    case Ne => Truth(a != b)
    case Lt => Truth(Less(a, b))
    case Le => Truth(!Less(b, a))
    case Gt => Truth(Less(b, a))
    case Ge => Truth(!Less(a, b))
  }

  /** IN compares exactly. */
  function InValues(x: Value, vals: seq<Value>, negated: bool): Sql {
    if x == Null then Unknown
    else if x in vals then Truth(!negated)
    else if Null in vals then Unknown
    else Truth(negated)
  }

  function ValuesOf(es: seq<Expr>, scopes: Scopes): seq<Value> {
    seq(|es|, i requires 0 <= i < |es| => ValueOf(es[i], scopes))
  }

  function Enter(sub: Select, i: nat, scopes: Scopes): Scopes
    requires i < |sub.rows|
  {
    [Scope(sub.names, sub.rows[i])] + scopes
  }

  /** The meaning of a condition, by scoping: a name belongs to the innermost query that introduces it. */
  function Eval(b: BoolExpr, scopes: Scopes): Sql
    decreases b, 0
  {
    match b
    case Compare(op, l, r) => CompareValues(op, ValueOf(l, scopes), ValueOf(r, scopes))
    case IsNull(e) => Truth(ValueOf(e, scopes) == Null)
    case And(x, y) => And3(Eval(x, scopes), Eval(y, scopes))
    case Or(x, y) => Or3(Eval(x, scopes), Eval(y, scopes))
    case Not(x) => Not3(Eval(x, scopes))
    case Between(e, low, high, negated) =>
      var v, lo, hi := ValueOf(e, scopes), ValueOf(low, scopes), ValueOf(high, scopes);
      if v == Null || lo == Null || hi == Null then Unknown
      else Truth((!Less(Rounded(v), Rounded(lo)) && !Less(Rounded(hi), Rounded(v))) != negated)
    case InList(e, values, negated) => InValues(ValueOf(e, scopes), ValuesOf(values, scopes), negated)
    case InQuery(e, sub, negated) => InValues(ValueOf(e, scopes), Results(sub, scopes), negated)
    case Exists(sub) => Truth(Results(sub, scopes) != [])
  }

  function Results(sub: Select, scopes: Scopes): seq<Value>
    decreases sub, |sub.rows| + 1
  {
    var vals := Passing(sub, scopes, |sub.rows|);
    match sub.shape
    case Plain => vals
    case Aggregate(f) => [f(vals)]
    case Other(g) => g(vals)
  }

  /** The projected values of the first `n` records that pass WHERE. */
  function Passing(sub: Select, scopes: Scopes, n: nat): seq<Value>
    requires n <= |sub.rows|
    decreases sub, n
  {
    if n == 0 then [] else
    var inside := Enter(sub, n - 1, scopes);
    Passing(sub, scopes, n - 1) + if Eval(sub.where, inside) == True then [ValueOf(sub.proj, inside)] else []
  }

  // ---- The laws of conditions ----

  lemma AndMeans(a: BoolExpr, b: BoolExpr, s: Scopes)
    ensures Eval(And(a, b), s) == True <==> Eval(a, s) == True && Eval(b, s) == True
    ensures Eval(And(a, b), s) == False <==> Eval(a, s) == False || Eval(b, s) == False
  {
  }

  lemma OrMeans(a: BoolExpr, b: BoolExpr, s: Scopes)
    ensures Eval(Or(a, b), s) == True <==> Eval(a, s) == True || Eval(b, s) == True
    ensures Eval(Or(a, b), s) == False <==> Eval(a, s) == False && Eval(b, s) == False
  {
  }

  lemma NotMeans(a: BoolExpr, s: Scopes)
    ensures Eval(Not(a), s) == True <==> Eval(a, s) == False
    ensures Eval(Not(a), s) == False <==> Eval(a, s) == True
  {
  }

  lemma DeMorgan(a: BoolExpr, b: BoolExpr, s: Scopes)
    ensures Eval(Not(Or(a, b)), s) == Eval(And(Not(a), Not(b)), s)
    ensures Eval(Not(And(a, b)), s) == Eval(Or(Not(a), Not(b)), s)
    ensures Eval(Not(Not(a)), s) == Eval(a, s)
  {
  }

  /** A comparison with NULL is unknown. Otherwise exactly one of less, equal and greater is true, and the rest follow. */
  lemma CompareMeans(l: Expr, r: Expr, s: Scopes)
    ensures ValueOf(l, s) == Null || ValueOf(r, s) == Null ==> forall op :: Eval(Compare(op, l, r), s) == Unknown
    ensures ValueOf(l, s) != Null && ValueOf(r, s) != Null ==>
      var lt, eq, gt := Eval(Compare(Lt, l, r), s), Eval(Compare(Eq, l, r), s), Eval(Compare(Gt, l, r), s);
      && ((lt, eq, gt) == (True, False, False) || (lt, eq, gt) == (False, True, False) || (lt, eq, gt) == (False, False, True))
      && Eval(Compare(Le, l, r), s) == Or3(lt, eq) && Eval(Compare(Ge, l, r), s) == Or3(gt, eq)
      && Eval(Compare(Ne, l, r), s) == Not3(eq)
  {
    LessTotal(Rounded(ValueOf(l, s)), Rounded(ValueOf(r, s)));
  }

  /** Integers up to 2^53 are compared by size, texts by their bytes. */
  lemma CompareOrders(i: int, j: int, t: seq<Byte>, u: seq<Byte>, s: Scopes)
    ensures 0 - EXACT <= i <= EXACT && 0 - EXACT <= j <= EXACT ==>
      && (Eval(Compare(Lt, Lit(Int(i)), Lit(Int(j))), s) == True <==> i < j)
      && (Eval(Compare(Eq, Lit(Int(i)), Lit(Int(j))), s) == True <==> i == j)
    ensures Eval(Compare(Lt, Lit(Text(t)), Lit(Text(u))), s) == True <==> LexLess(t, u)
    ensures Eval(Compare(Eq, Lit(Text(t)), Lit(Text(u))), s) == True <==> t == u
  {
    if 0 - EXACT <= i <= EXACT && 0 - EXACT <= j <= EXACT {
      DblSmall(i);
      DblSmall(j);
    }
  }

  /** BETWEEN is two comparisons, except that it is unknown for every NULL. */
  lemma BetweenMeans(e: Expr, low: Expr, high: Expr, s: Scopes)
    ensures Eval(Between(e, low, high, true), s) == Eval(Not(Between(e, low, high, false)), s)
    ensures ValueOf(e, s) == Null || ValueOf(low, s) == Null || ValueOf(high, s) == Null ==>
      Eval(Between(e, low, high, false), s) == Unknown
    ensures ValueOf(e, s) != Null && ValueOf(low, s) != Null && ValueOf(high, s) != Null ==>
      Eval(Between(e, low, high, false), s) == Eval(And(Compare(Ge, e, low), Compare(Le, e, high)), s)
  {
  }

  lemma IsNullMeans(e: Expr, s: Scopes)
    ensures Eval(IsNull(e), s) == True <==> ValueOf(e, s) == Null
    ensures Eval(IsNull(e), s) != Unknown
  {
  }

  /** IN is an OR of exact equalities: true for a member, false only when no value is NULL. */
  lemma InListMeans(e: Expr, values: seq<Expr>, s: Scopes)
    ensures Eval(InList(e, values, true), s) == Eval(Not(InList(e, values, false)), s)
    ensures Eval(InList(e, values, false), s) == True <==>
      ValueOf(e, s) != Null && exists i :: 0 <= i < |values| && ValueOf(values[i], s) == ValueOf(e, s)
    ensures Eval(InList(e, values, false), s) == False <==>
      ValueOf(e, s) != Null && forall i | 0 <= i < |values| :: ValueOf(values[i], s) != Null && ValueOf(values[i], s) != ValueOf(e, s)
  {
    var vals := ValuesOf(values, s);
    assert forall i | 0 <= i < |values| :: vals[i] == ValueOf(values[i], s);
    assert forall v | v in vals :: exists i :: 0 <= i < |values| && ValueOf(values[i], s) == v;
    forall i | 0 <= i < |values| ensures ValueOf(values[i], s) in vals { assert vals[i] in vals; }
  }

  /** A subquery in IN is the list of its results. */
  lemma InQueryMeans(e: Expr, sub: Select, s: Scopes)
    ensures Eval(InQuery(e, sub, true), s) == Eval(Not(InQuery(e, sub, false)), s)
    ensures Eval(InQuery(e, sub, false), s) == True <==> ValueOf(e, s) != Null && ValueOf(e, s) in Results(sub, s)
    ensures Eval(InQuery(e, sub, false), s) == False <==>
      ValueOf(e, s) != Null && ValueOf(e, s) !in Results(sub, s) && Null !in Results(sub, s)
    ensures Eval(Exists(sub), s) != Unknown && (Eval(Exists(sub), s) == True <==> Results(sub, s) != [])
  {
  }

  /** The results of a plain subquery: the projected values of the records whose WHERE is true, in order. */
  lemma ResultsMean(sub: Select, s: Scopes, v: Value)
    requires sub.shape.Plain?
    ensures v in Results(sub, s) <==>
      exists i :: 0 <= i < |sub.rows| && Eval(sub.where, Enter(sub, i, s)) == True && ValueOf(sub.proj, Enter(sub, i, s)) == v
  {
    PassingMean(sub, s, |sub.rows|, v);
  }

  lemma {:induction false} PassingMean(sub: Select, s: Scopes, n: nat, v: Value)
    requires n <= |sub.rows|
    ensures v in Passing(sub, s, n) <==>
      exists i :: 0 <= i < n && Eval(sub.where, Enter(sub, i, s)) == True && ValueOf(sub.proj, Enter(sub, i, s)) == v
  {
    if n > 0 {
      PassingMean(sub, s, n - 1, v);
      var here := if Eval(sub.where, Enter(sub, n - 1, s)) == True then [ValueOf(sub.proj, Enter(sub, n - 1, s))] else [];
      assert Passing(sub, s, n) == Passing(sub, s, n - 1) + here;
    }
  }

  /** A name belongs to the innermost query that introduces it. */
  lemma {:induction false} LookupMeans(scopes: Scopes, ref: Ref, k: nat)
    requires k < |scopes| && Owns(scopes[k].names, ref) && forall i | 0 <= i < k :: !Owns(scopes[i].names, ref)
    ensures Lookup(scopes, ref) == if ref in scopes[k].row then scopes[k].row[ref] else Null
  {
    if k > 0 { LookupMeans(scopes[1..], ref, k - 1); }
  }

  // ---- Which conditions look outside ----

  predicate ExprLooksOut(e: Expr, local: set<string>) {
    match e
    case Col(ref) => !Owns(local, ref)
    case Lit(_) => false
    case Apply(_, l, r) => ExprLooksOut(l, local) || ExprLooksOut(r, local)
  }

  /** `detect_outer_refs_bool`: of a nested subquery only the condition is inspected. */
  predicate LooksOut(b: BoolExpr, local: set<string>) {
    match b
    case Compare(_, l, r) => ExprLooksOut(l, local) || ExprLooksOut(r, local)
    case IsNull(e) => ExprLooksOut(e, local)
    case And(x, y) => LooksOut(x, local) || LooksOut(y, local)
    case Or(x, y) => LooksOut(x, local) || LooksOut(y, local)
    case Not(x) => LooksOut(x, local)
    case Between(e, low, high, _) => ExprLooksOut(e, local) || ExprLooksOut(low, local) || ExprLooksOut(high, local)
    case InList(e, values, _) => ExprLooksOut(e, local) || exists i :: 0 <= i < |values| && ExprLooksOut(values[i], local)
    case InQuery(e, sub, _) => ExprLooksOut(e, local) || LooksOut(sub.where, local + sub.names)
    case Exists(sub) => LooksOut(sub.where, local + sub.names)
  }

  /** No nested subquery projects a column of an outer query; the planner rejects those as unknown columns. */
  predicate ProjectsLocally(b: BoolExpr, local: set<string>) {
    match b
    case And(x, y) => ProjectsLocally(x, local) && ProjectsLocally(y, local)
    case Or(x, y) => ProjectsLocally(x, local) && ProjectsLocally(y, local)
    case Not(x) => ProjectsLocally(x, local)
    case InQuery(_, sub, _) => SelectLocal(sub, local)
    case Exists(sub) => SelectLocal(sub, local)
    case _ => true
  }

  predicate SelectLocal(sub: Select, local: set<string>) {
    !ExprLooksOut(sub.proj, local + sub.names) && ProjectsLocally(sub.where, local + sub.names)
  }

  function NamesOf(scopes: Scopes): set<string> {
    if scopes == [] then {} else scopes[0].names + NamesOf(scopes[1..])
  }

  lemma {:induction false} LookupInner(inner: Scopes, outer: Scopes, ref: Ref)
    requires inner != [] && Owns(NamesOf(inner), ref)
    ensures Lookup(inner + outer, ref) == Lookup(inner, ref)
  {
    assert (inner + outer)[0] == inner[0] && (inner + outer)[1..] == inner[1..] + outer;
    if !Owns(inner[0].names, ref) {
      assert ref.table in NamesOf(inner[1..]);
      LookupInner(inner[1..], outer, ref);
    }
  }

  lemma {:induction false} ValueInner(e: Expr, inner: Scopes, outer: Scopes)
    requires inner != [] && !ExprLooksOut(e, NamesOf(inner))
    ensures ValueOf(e, inner + outer) == ValueOf(e, inner)
  {
    match e
    case Col(ref) => LookupInner(inner, outer, ref);
    case Lit(_) =>
    case Apply(_, l, r) => ValueInner(l, inner, outer); ValueInner(r, inner, outer);
  }

  lemma EnterNames(sub: Select, i: nat, inner: Scopes, outer: Scopes)
    requires i < |sub.rows|
    ensures Enter(sub, i, inner + outer) == Enter(sub, i, inner) + outer
    ensures NamesOf(Enter(sub, i, inner)) == NamesOf(inner) + sub.names
  {
    assert Enter(sub, i, inner)[1..] == inner;
  }

  /** A condition that does not look out does not depend on the queries around it. */
  lemma {:induction false} EvalInner(b: BoolExpr, inner: Scopes, outer: Scopes)
    requires inner != [] && !LooksOut(b, NamesOf(inner)) && ProjectsLocally(b, NamesOf(inner))
    ensures Eval(b, inner + outer) == Eval(b, inner)
    decreases b, 0
  {
    match b
    case Compare(_, l, r) => ValueInner(l, inner, outer); ValueInner(r, inner, outer);
    case IsNull(e) => ValueInner(e, inner, outer);
    case And(x, y) => EvalInner(x, inner, outer); EvalInner(y, inner, outer);
    case Or(x, y) => EvalInner(x, inner, outer); EvalInner(y, inner, outer);
    case Not(x) => EvalInner(x, inner, outer);
    case Between(e, low, high, _) =>
      ValueInner(e, inner, outer); ValueInner(low, inner, outer); ValueInner(high, inner, outer);
    case InList(e, values, _) =>
      ValueInner(e, inner, outer);
      ValuesInner(values, inner, outer);
    case InQuery(e, sub, _) =>
      ValueInner(e, inner, outer);
      PassingInner(sub, inner, outer, |sub.rows|);
    case Exists(sub) => PassingInner(sub, inner, outer, |sub.rows|);
  }

  lemma ValuesInner(es: seq<Expr>, inner: Scopes, outer: Scopes)
    requires inner != [] && forall i | 0 <= i < |es| :: !ExprLooksOut(es[i], NamesOf(inner))
    ensures ValuesOf(es, inner + outer) == ValuesOf(es, inner)
  {
    forall i | 0 <= i < |es| ensures ValueOf(es[i], inner + outer) == ValueOf(es[i], inner) {
      ValueInner(es[i], inner, outer);
    }
  }

  lemma {:induction false} PassingInner(sub: Select, inner: Scopes, outer: Scopes, n: nat)
    requires n <= |sub.rows| && !LooksOut(sub.where, NamesOf(inner) + sub.names) && SelectLocal(sub, NamesOf(inner))
    ensures Passing(sub, inner + outer, n) == Passing(sub, inner, n)
    decreases sub, n
  {
    if n > 0 {
      PassingInner(sub, inner, outer, n - 1);
      EnterNames(sub, n - 1, inner, outer);
      EvalInner(sub.where, Enter(sub, n - 1, inner), outer);
      ValueInner(sub.proj, Enter(sub, n - 1, inner), outer);
    }
  }

  // ---- Substituting the outer row ----

  function SubstExpr(e: Expr, local: set<string>, outer: Record): Expr {
    match e
    case Col(ref) => if !Owns(local, ref) && ref in outer then Lit(outer[ref]) else e
    case Lit(_) => e
    case Apply(f, l, r) => Apply(f, SubstExpr(l, local, outer), SubstExpr(r, local, outer))
  }

  /** `substitute_outer_refs_bool`: of a nested subquery only the condition is rewritten. */
  function Subst(b: BoolExpr, local: set<string>, outer: Record): BoolExpr {
    match b
    case Compare(op, l, r) => Compare(op, SubstExpr(l, local, outer), SubstExpr(r, local, outer))
    case IsNull(e) => IsNull(SubstExpr(e, local, outer))
    case And(x, y) => And(Subst(x, local, outer), Subst(y, local, outer))
    case Or(x, y) => Or(Subst(x, local, outer), Subst(y, local, outer))
    case Not(x) => Not(Subst(x, local, outer))
    case Between(e, low, high, negated) =>
      Between(SubstExpr(e, local, outer), SubstExpr(low, local, outer), SubstExpr(high, local, outer), negated)
    case InList(e, values, negated) =>
      InList(SubstExpr(e, local, outer), seq(|values|, i requires 0 <= i < |values| => SubstExpr(values[i], local, outer)), negated)
    case InQuery(e, sub, negated) => InQuery(SubstExpr(e, local, outer), SubstSelect(sub, local, outer), negated)
    case Exists(sub) => Exists(SubstSelect(sub, local, outer))
  }

  function SubstSelect(sub: Select, local: set<string>, outer: Record): Select {
    sub.(where := Subst(sub.where, local + sub.names, outer))
  }

  /** The columns of a record belong to the names of its query. */
  predicate Belongs(outer: Scope) {
    forall ref | ref in outer.row && ref.table != "" :: ref.table in outer.names
  }

  lemma {:induction false} LookupOuter(inner: Scopes, outer: Scope, ref: Ref)
    requires !Owns(NamesOf(inner), ref) && Belongs(outer)
    ensures Lookup(inner + [outer], ref) == Field(outer.row, ref)
    ensures Lookup(inner, ref) == Null
  {
    if inner == [] {
      assert [] + [outer] == [outer] && [outer][1..] == [];
    } else {
      assert (inner + [outer])[0] == inner[0] && (inner + [outer])[1..] == inner[1..] + [outer];
      LookupOuter(inner[1..], outer, ref);
    }
  }

  lemma {:induction false} SubstExprMeans(e: Expr, inner: Scopes, outer: Scope)
    requires inner != [] && Belongs(outer)
    ensures ValueOf(SubstExpr(e, NamesOf(inner), outer.row), inner) == ValueOf(e, inner + [outer])
  {
    match e
    case Col(ref) =>
      if Owns(NamesOf(inner), ref) { LookupInner(inner, [outer], ref); } else { LookupOuter(inner, outer, ref); }
    case Lit(_) =>
    case Apply(_, l, r) => SubstExprMeans(l, inner, outer); SubstExprMeans(r, inner, outer);
  }

  /** Substitution is scoping: after it, the outer query is no longer needed. */
  lemma {:induction false} SubstMeans(b: BoolExpr, inner: Scopes, outer: Scope)
    requires inner != [] && Belongs(outer) && ProjectsLocally(b, NamesOf(inner))
    ensures Eval(Subst(b, NamesOf(inner), outer.row), inner) == Eval(b, inner + [outer])
    decreases b, 0
  {
    match b
    case Compare(_, l, r) => SubstExprMeans(l, inner, outer); SubstExprMeans(r, inner, outer);
    case IsNull(e) => SubstExprMeans(e, inner, outer);
    case And(x, y) => SubstMeans(x, inner, outer); SubstMeans(y, inner, outer);
    case Or(x, y) => SubstMeans(x, inner, outer); SubstMeans(y, inner, outer);
    case Not(x) => SubstMeans(x, inner, outer);
    case Between(e, low, high, _) =>
      SubstExprMeans(e, inner, outer); SubstExprMeans(low, inner, outer); SubstExprMeans(high, inner, outer);
    case InList(e, values, negated) =>
      SubstExprMeans(e, inner, outer);
      SubstListMeans(values, inner, outer, negated);
    case InQuery(e, sub, _) =>
      SubstExprMeans(e, inner, outer);
      SubstPassing(sub, inner, outer, |sub.rows|);
    case Exists(sub) => SubstPassing(sub, inner, outer, |sub.rows|);
  }

  lemma SubstListMeans(values: seq<Expr>, inner: Scopes, outer: Scope, negated: bool)
    requires inner != [] && Belongs(outer)
    ensures ValuesOf(seq(|values|, i requires 0 <= i < |values| => SubstExpr(values[i], NamesOf(inner), outer.row)), inner) ==
      ValuesOf(values, inner + [outer])
  {
    forall i | 0 <= i < |values|
      ensures ValueOf(SubstExpr(values[i], NamesOf(inner), outer.row), inner) == ValueOf(values[i], inner + [outer])
    {
      SubstExprMeans(values[i], inner, outer);
    }
  }

  lemma {:induction false} SubstPassing(sub: Select, inner: Scopes, outer: Scope, n: nat)
    requires n <= |sub.rows| && Belongs(outer) && SelectLocal(sub, NamesOf(inner))
    ensures Passing(SubstSelect(sub, NamesOf(inner), outer.row), inner, n) == Passing(sub, inner + [outer], n)
    decreases sub, n
  {
    if n > 0 {
      var sub' := SubstSelect(sub, NamesOf(inner), outer.row);
      SubstPassing(sub, inner, outer, n - 1);
      EnterNames(sub, n - 1, inner, [outer]);
      assert Enter(sub', n - 1, inner) == Enter(sub, n - 1, inner);
      SubstMeans(sub.where, Enter(sub, n - 1, inner), outer);
      ValueInner(sub.proj, Enter(sub, n - 1, inner), [outer]);
    }
  }

  /** Running a correlated subquery per outer row: substitute, then run it alone. */
  lemma NestedApplyIsScoping(sub: Select, outer: Scope)
    requires Belongs(outer) && SelectLocal(sub, {})
    ensures Results(SubstSelect(sub, {}, outer.row), []) == Results(sub, [outer])
  {
    SubstPassing(sub, [], outer, |sub.rows|);
    assert [] + [outer] == [outer];
  }
}
