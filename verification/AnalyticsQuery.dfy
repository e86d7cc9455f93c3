/** The tenant-scoped query builder, and the rows a built query selects. */
module AnalyticsQuery {
  import opened Common
  import opened AnalyticsStore
  import Decimal

  // --------------------------------------------------------------- builder

  datatype Value = Text(text: string) | Instant(at: int)

  datatype Operator = Equal | AtLeast | Below

  /** One `column <op> %(param)s` clause. */
  datatype Clause = Clause(column: string, operator: Operator, param: string)

  datatype Query = Query(table: string, tenant: string, clauses: seq<Clause>, params: map<string, Value>,
                         limit: Option<nat>)

  datatype Error = UnknownTable | InvalidTenant | LimitBelowOne

  const TENANT_CLAUSE := Clause("tenant_id", Equal, "tenant_id")
  const START_CLAUSE := Clause("occurred_at", AtLeast, "range_start")
  const END_CLAUSE := Clause("occurred_at", Below, "range_end")

  function ForTenant(table: string, tenant: string): Result<Query, Error> {
    if table !in TABLE_NAMES then Err(UnknownTable)
    else if !ValidTenant(tenant) then Err(InvalidTenant)
    else Ok(Query(table, tenant, [TENANT_CLAUSE], map["tenant_id" := Text(tenant)], None))
  }

  /** `eq_<column>_<number of clauses so far>` */
  function EqParam(column: string, n: nat): string {
    "eq_" + column + "_" + Decimal.Numeral(n)
  }

  function FilterEq(q: Query, column: string, value: Value): Query {
    var param := EqParam(column, |q.clauses|);
    q.(clauses := q.clauses + [Clause(column, Equal, param)], params := q.params[param := value])
  }

  function AddBound(q: Query, clause: Clause, at: int): Query {
    q.(clauses := q.clauses + [clause], params := q.params[clause.param := Instant(at)])
  }

  function WithTimeRange(q: Query, start: Option<int>, end: Option<int>): Query {
    var q1 := if start.None? then q else AddBound(q, START_CLAUSE, start.value);
    if end.None? then q1 else AddBound(q1, END_CLAUSE, end.value)
  }

  function WithLimit(q: Query, limit: int): Result<Query, Error> {
    if limit < 1 then Err(LimitBelowOne) else Ok(q.(limit := Some(limit)))
  }

  /** One builder call. */
  datatype Step = Filter(column: string, value: Value) | Range(start: Option<int>, end: Option<int>) | Limit(n: int)

  function BuilderCall(q: Query, step: Step): Result<Query, Error> {
    match step
    case Filter(column, value) => Ok(FilterEq(q, column, value))
    case Range(start, end) => Ok(WithTimeRange(q, start, end))
    case Limit(n) => WithLimit(q, n)
  }

  /** A chain of builder calls from `for_tenant`. */
  function Build(table: string, tenant: string, steps: seq<Step>): Result<Query, Error> {
    if steps == [] then ForTenant(table, tenant) else
      match Build(table, tenant, steps[..|steps| - 1])
      case Err(e) => Err(e)
      case Ok(q) => BuilderCall(q, steps[|steps| - 1])
  }

  // -------------------------------------------------------- what it selects

  /** A business column of a row. */
  function Column(row: Row, column: string): Option<Value> {
    if column == "tenant_id" then Some(Text(row.tenant))
    else if column == "idempotency_key" then Some(Text(row.key))
    else if column == "id" then Some(Text(row.id))
    else if column == "occurred_at" then Some(Instant(row.occurredAt))
    else if column == "payload" then Some(Text(row.payload))
    else None
  }

  predicate Compare(operator: Operator, left: Value, right: Value) {
    match operator
    case Equal => left == right
    case AtLeast => left.Instant? && right.Instant? && left.at >= right.at
    case Below => left.Instant? && right.Instant? && left.at < right.at
  }

  predicate Holds(c: Clause, params: map<string, Value>, row: Row) {
    && c.param in params && Column(row, c.column).Some?
    && Compare(c.operator, Column(row, c.column).value, params[c.param])
  }

  predicate Selects(q: Query, row: Row) {
    forall c :: c in q.clauses ==> Holds(c, q.params, row)
  }

  // ------------------------------------------------------ what was asked for

  ghost predicate PassesFilters(steps: seq<Step>, row: Row) {
    forall s :: s in steps && s.Filter? ==> Column(row, s.column) == Some(s.value)
  }

  function LastStart(steps: seq<Step>): Option<int> {
    if steps == [] then None else
      var s := steps[|steps| - 1];
      if s.Range? && s.start.Some? then s.start else LastStart(steps[..|steps| - 1])
  }

  function LastEnd(steps: seq<Step>): Option<int> {
    if steps == [] then None else
      var s := steps[|steps| - 1];
      if s.Range? && s.end.Some? then s.end else LastEnd(steps[..|steps| - 1])
  }

  /** The rows a chain of calls means: those of the tenant that pass every filter, in the time range last given. */
  ghost predicate Asked(tenant: string, steps: seq<Step>, row: Row) {
    && row.tenant == tenant
    && PassesFilters(steps, row)
    && (LastStart(steps).Some? ==> row.occurredAt >= LastStart(steps).value)
    && (LastEnd(steps).Some? ==> row.occurredAt < LastEnd(steps).value)
  }

  // ------------------------------------------------------- parameters apart

  ghost predicate EqParamBelow(p: string, n: nat) {
    exists column, k :: 0 <= k < n && p == EqParam(column, k)
  }

  /** The number at the end of an equality parameter tells the call that made it. */
  lemma EqParamTellsCall(c: string, m: nat, d: string, n: nat)
    requires EqParam(c, m) == EqParam(d, n)
    ensures m == n
  {
    var left, right := "eq_" + c, "eq_" + d;
    var a, b := Decimal.Numeral(m), Decimal.Numeral(n);
    assert EqParam(c, m) == left + "_" + a && EqParam(d, n) == right + "_" + b;
    LastFieldUnique(left, right, a, b);
    Decimal.NumeralInjective(m, n);
  }

  lemma LastFieldUnique(l: string, r: string, a: string, b: string)
    requires '_' !in a && '_' !in b
    requires l + "_" + a == r + "_" + b
    ensures a == b
  {
    var x, y := l + "_" + a, r + "_" + b;
    assert x[|l|] == '_' && y[|r|] == '_';
    assert forall i :: 0 <= i < |a| ==> x[|l| + 1 + i] == a[i];
    assert forall i :: 0 <= i < |b| ==> y[|r| + 1 + i] == b[i];
    assert forall i :: |l| < i < |x| ==> x[i] == a[i - |l| - 1] && x[i] in a;
    assert forall i :: |r| < i < |y| ==> y[i] == b[i - |r| - 1] && y[i] in b;
    assert |l| == |r|;
    assert a == x[|l| + 1..] && b == y[|r| + 1..];
  }

  /** Each clause of a built query is the tenant's, a time bound's, or an equality filter's with a parameter of its
      own. */
  ghost predicate ClauseKnown(q: Query, i: nat)
    requires i < |q.clauses|
  {
    var c := q.clauses[i];
    && c.param in q.params
    && ((i == 0 && c == TENANT_CLAUSE) || c == START_CLAUSE || c == END_CLAUSE
        || (i > 0 && c == Clause(c.column, Equal, EqParam(c.column, i))))
  }

  ghost predicate WellBuilt(q: Query) {
    && q.clauses != [] && q.clauses[0] == TENANT_CLAUSE
    && "tenant_id" in q.params && q.params["tenant_id"] == Text(q.tenant)
    && (forall i {:trigger q.clauses[i]} :: 0 <= i < |q.clauses| ==> ClauseKnown(q, i))
    && (forall p :: p in q.params ==>
          p == "tenant_id" || p == "range_start" || p == "range_end" || EqParamBelow(p, |q.clauses|))
    && (START_CLAUSE in q.clauses <==> "range_start" in q.params)
    && (END_CLAUSE in q.clauses <==> "range_end" in q.params)
    && ("range_start" in q.params ==> q.params["range_start"].Instant?)
    && ("range_end" in q.params ==> q.params["range_end"].Instant?)
  }

  /** The clauses other than the time bounds. */
  ghost predicate SelectsCore(q: Query, row: Row) {
    forall c :: c in q.clauses && c != START_CLAUSE && c != END_CLAUSE ==> Holds(c, q.params, row)
  }

  ghost predicate InRange(q: Query, row: Row) {
    && ("range_start" in q.params && q.params["range_start"].Instant? ==> row.occurredAt >= q.params["range_start"].at)
    && ("range_end" in q.params && q.params["range_end"].Instant? ==> row.occurredAt < q.params["range_end"].at)
  }

  lemma SelectsSplits(q: Query, row: Row)
    requires WellBuilt(q)
    ensures Selects(q, row) <==> SelectsCore(q, row) && InRange(q, row)
  {
    hide EqParamBelow, EqParam, ClauseKnown;
    if SelectsCore(q, row) && InRange(q, row) {
      forall c | c in q.clauses ensures Holds(c, q.params, row) {
        if c == START_CLAUSE {
        } else if c == END_CLAUSE {
        }
      }
    }
  }

  // ------------------------------------------------------------ each call

  lemma EqParamIsNew(q: Query, column: string)
    requires WellBuilt(q)
    ensures EqParam(column, |q.clauses|) !in q.params
  {
    var p := EqParam(column, |q.clauses|);
    assert p[0] == 'e' && "tenant_id"[0] == 't' && "range_start"[0] == 'r' && "range_end"[0] == 'r';
    if p in q.params {
      assert EqParamBelow(p, |q.clauses|);
      var d, k :| 0 <= k < |q.clauses| && p == EqParam(d, k);
      EqParamTellsCall(column, |q.clauses|, d, k);
      assert false;
    }
  }

  lemma FilterEqKeeps(q: Query, column: string, value: Value)
    requires WellBuilt(q)
    ensures var q' := FilterEq(q, column, value);
            && WellBuilt(q')
            && q'.tenant == q.tenant
            && q.params.Keys <= q'.params.Keys
            && (forall p :: p in q.params ==> q'.params[p] == q.params[p])
  {
    EqParamIsNew(q, column);
    var q' := FilterEq(q, column, value);
    var p := EqParam(column, |q.clauses|);
    assert p[0] == 'e';
    assert forall i :: 0 <= i < |q.clauses| ==> q'.clauses[i] == q.clauses[i];
    forall i | 0 <= i < |q'.clauses| ensures ClauseKnown(q', i) {
      if i < |q.clauses| {
        assert ClauseKnown(q, i);
      }
    }
    forall x | x in q'.params
      ensures x == "tenant_id" || x == "range_start" || x == "range_end" || EqParamBelow(x, |q'.clauses|)
    {
      if x != p && EqParamBelow(x, |q.clauses|) {
        var d, k :| 0 <= k < |q.clauses| && x == EqParam(d, k);
      }
    }
  }

  lemma FilterEqSelects(q: Query, column: string, value: Value, row: Row)
    requires WellBuilt(q)
    ensures var q' := FilterEq(q, column, value);
            && (SelectsCore(q', row) <==> SelectsCore(q, row) && Column(row, column) == Some(value))
            && (InRange(q', row) <==> InRange(q, row))
  {
    FilterEqKeeps(q, column, value);
    var q' := FilterEq(q, column, value);
    var added := q'.clauses[|q.clauses|];
    assert added == Clause(column, Equal, EqParam(column, |q.clauses|));
    assert forall c :: c in q'.clauses <==> c in q.clauses || c == added;
    forall c | c in q.clauses ensures Holds(c, q'.params, row) <==> Holds(c, q.params, row) {
      var i :| 0 <= i < |q.clauses| && q.clauses[i] == c;
      assert ClauseKnown(q, i);
    }
    assert Holds(added, q'.params, row) <==> Column(row, column) == Some(value);
    assert added in q'.clauses && added != START_CLAUSE && added != END_CLAUSE;
    if SelectsCore(q', row) {
      assert Holds(added, q'.params, row);
      forall c | c in q.clauses && c != START_CLAUSE && c != END_CLAUSE ensures Holds(c, q.params, row) {
        assert Holds(c, q'.params, row);
      }
    }
  }

  /** A bound rebinds its one parameter: it replaces the bound given before, and touches nothing else. */
  lemma AddBoundKeeps(q: Query, clause: Clause, at: int)
    requires WellBuilt(q) && (clause == START_CLAUSE || clause == END_CLAUSE)
    ensures var q' := AddBound(q, clause, at);
            && WellBuilt(q')
            && q'.tenant == q.tenant
            && q.params.Keys <= q'.params.Keys
            && (forall p :: p in q.params && p != clause.param ==> q'.params[p] == q.params[p])
  {
    var q' := AddBound(q, clause, at);
    assert forall i :: 0 <= i < |q.clauses| ==> q'.clauses[i] == q.clauses[i];
    assert q'.clauses[|q.clauses|] == clause;
    forall i | 0 <= i < |q'.clauses| ensures ClauseKnown(q', i) {
      if i < |q.clauses| {
        assert ClauseKnown(q, i);
      }
    }
    forall x | x in q'.params
      ensures x == "tenant_id" || x == "range_start" || x == "range_end" || EqParamBelow(x, |q'.clauses|)
    {
      if x != clause.param && EqParamBelow(x, |q.clauses|) {
        var d, k :| 0 <= k < |q.clauses| && x == EqParam(d, k);
      }
    }
    assert forall c :: c in q'.clauses <==> c in q.clauses || c == clause;
  }

  lemma AddBoundSelects(q: Query, clause: Clause, at: int, row: Row)
    requires WellBuilt(q) && (clause == START_CLAUSE || clause == END_CLAUSE)
    ensures SelectsCore(AddBound(q, clause, at), row) <==> SelectsCore(q, row)
  {
    var q' := AddBound(q, clause, at);
    assert forall c :: c in q'.clauses <==> c in q.clauses || c == clause;
    forall c | c in q.clauses && c != START_CLAUSE && c != END_CLAUSE
      ensures Holds(c, q'.params, row) <==> Holds(c, q.params, row)
    {
      var i :| 0 <= i < |q.clauses| && q.clauses[i] == c;
      assert ClauseKnown(q, i);
      EqParamIsNotABound(c.column, i);
    }
  }

  lemma EqParamIsNotABound(column: string, n: nat)
    ensures EqParam(column, n) != "range_start" && EqParam(column, n) != "range_end"
  {
    assert EqParam(column, n)[0] == 'e' && "range_start"[0] == 'r' && "range_end"[0] == 'r';
  }

  // ------------------------------------------------------- chains of calls

  /** What the parameters of a built query say of the steps that built it. */
  ghost predicate BoundsAre(q: Query, start: Option<int>, end: Option<int>) {
    && (start.Some? <==> "range_start" in q.params)
    && (start.Some? ==> q.params["range_start"] == Instant(start.value))
    && (end.Some? <==> "range_end" in q.params)
    && (end.Some? ==> q.params["range_end"] == Instant(end.value))
  }

  lemma ForTenantIsWellBuilt(table: string, tenant: string)
    requires ForTenant(table, tenant).Ok?
    ensures var q := ForTenant(table, tenant).value;
            WellBuilt(q) && q.tenant == tenant && BoundsAre(q, None, None)
            && forall row :: SelectsCore(q, row) <==> row.tenant == tenant
  {
    hide ValidTenant, TABLE_NAMES;
    var q := ForTenant(table, tenant).value;
    assert q.clauses[0] == TENANT_CLAUSE;
    forall row ensures SelectsCore(q, row) <==> row.tenant == tenant {
      assert TENANT_CLAUSE in q.clauses;
      assert Holds(TENANT_CLAUSE, q.params, row) <==> row.tenant == tenant;
    }
  }

  /** Over any chain of builder calls: the tenant predicate stays first, and the query selects exactly what was asked
      for. */
  lemma {:induction false} BuiltQueryMeansSteps(table: string, tenant: string, steps: seq<Step>)
    requires Build(table, tenant, steps).Ok?
    ensures var q := Build(table, tenant, steps).value;
            && WellBuilt(q) && q.tenant == tenant && BoundsAre(q, LastStart(steps), LastEnd(steps))
            && forall row :: SelectsCore(q, row) <==> row.tenant == tenant && PassesFilters(steps, row)
  {
    if steps == [] {
      ForTenantIsWellBuilt(table, tenant);
    } else {
      var earlier, step := steps[..|steps| - 1], steps[|steps| - 1];
      BuiltQueryMeansSteps(table, tenant, earlier);
      var q := Build(table, tenant, earlier).value;
      assert steps == earlier + [step];
      CallKeeps(q, step, LastStart(earlier), LastEnd(earlier));
      var q' := Build(table, tenant, steps).value;
      forall row ensures SelectsCore(q', row) <==> row.tenant == tenant && PassesFilters(steps, row) {
        CallSelects(q, step, row);
        OneMoreFilter(earlier, step, row);
      }
    }
  }

  lemma CallKeeps(q: Query, step: Step, start: Option<int>, end: Option<int>)
    requires WellBuilt(q) && BoundsAre(q, start, end) && BuilderCall(q, step).Ok?
    ensures var q' := BuilderCall(q, step).value;
            && WellBuilt(q') && q'.tenant == q.tenant
            && BoundsAre(q', if step.Range? && step.start.Some? then step.start else start,
                             if step.Range? && step.end.Some? then step.end else end)
  {
    match step {
      case Filter(column, value) =>
        FilterEqKeeps(q, column, value);
        var q' := FilterEq(q, column, value);
        EqParamIsNotABound(column, |q.clauses|);
      case Range(start1, end1) =>
        var q1 := if start1.None? then q else AddBound(q, START_CLAUSE, start1.value);
        if start1.Some? {
          AddBoundKeeps(q, START_CLAUSE, start1.value);
        }
        if end1.Some? {
          AddBoundKeeps(q1, END_CLAUSE, end1.value);
        }
      case Limit(n) =>
        LimitKeeps(q, q.(limit := Some(n)));
    }
  }

  lemma LimitKeeps(q: Query, q': Query)
    requires WellBuilt(q) && q'.clauses == q.clauses && q'.params == q.params && q'.tenant == q.tenant
    ensures WellBuilt(q')
  {
    forall i | 0 <= i < |q'.clauses| ensures ClauseKnown(q', i) {
      assert ClauseKnown(q, i);
    }
  }

  lemma CallSelects(q: Query, step: Step, row: Row)
    requires WellBuilt(q) && BuilderCall(q, step).Ok?
    ensures SelectsCore(BuilderCall(q, step).value, row) <==>
              SelectsCore(q, row) && (step.Filter? ==> Column(row, step.column) == Some(step.value))
  {
    match step {
      case Filter(column, value) =>
        FilterEqSelects(q, column, value, row);
      case Range(start, end) =>
        var q1 := if start.None? then q else AddBound(q, START_CLAUSE, start.value);
        if start.Some? {
          AddBoundKeeps(q, START_CLAUSE, start.value);
          AddBoundSelects(q, START_CLAUSE, start.value, row);
        }
        if end.Some? {
          AddBoundSelects(q1, END_CLAUSE, end.value, row);
        }
      case Limit(n) =>
        assert forall c :: Holds(c, q.params, row) <==> Holds(c, q.(limit := Some(n)).params, row);
    }
  }

  lemma OneMoreFilter(steps: seq<Step>, step: Step, row: Row)
    ensures PassesFilters(steps + [step], row) <==>
              PassesFilters(steps, row) && (step.Filter? ==> Column(row, step.column) == Some(step.value))
  {
    assert forall s :: s in steps + [step] <==> s in steps || s == step;
  }

  /** The builder's promise: a built query selects exactly the rows asked for, all of them the tenant's. */
  lemma BuiltQuerySelects(table: string, tenant: string, steps: seq<Step>, row: Row)
    requires Build(table, tenant, steps).Ok?
    ensures var clauses := Build(table, tenant, steps).value.clauses;
            clauses != [] && clauses[0] == TENANT_CLAUSE
    ensures Selects(Build(table, tenant, steps).value, row) <==> Asked(tenant, steps, row)
  {
    BuiltQueryMeansSteps(table, tenant, steps);
    SelectsSplits(Build(table, tenant, steps).value, row);
  }

  /** No equality filter's parameter is overwritten by the calls that follow it. */
  lemma {:induction false} FilterParametersSurvive(table: string, tenant: string, steps: seq<Step>, more: seq<Step>)
    requires steps != [] && steps[|steps| - 1].Filter?
    requires Build(table, tenant, steps + more).Ok?
    ensures Build(table, tenant, steps).Ok?
    ensures var filter := steps[|steps| - 1];
            var q, later := Build(table, tenant, steps).value, Build(table, tenant, steps + more).value;
            && |q.clauses| >= 1
            && var p := EqParam(filter.column, |q.clauses| - 1);
               p in later.params && later.params[p] == filter.value
    decreases |more|
  {
    var filter := steps[|steps| - 1];
    if more == [] {
      assert steps + more == steps;
    } else {
      var all := steps + more;
      var less := more[..|more| - 1];
      assert all[..|all| - 1] == steps + less;
      FilterParametersSurvive(table, tenant, steps, less);
      BuiltQueryMeansSteps(table, tenant, steps + less);
      var q := Build(table, tenant, steps + less).value;
      var n := |Build(table, tenant, steps).value.clauses| - 1;
      EqParamIsNotABound(filter.column, n);
      ParametersKept(q, all[|all| - 1], EqParam(filter.column, n));
    }
  }

  lemma ParametersKept(q: Query, step: Step, p: string)
    requires WellBuilt(q) && BuilderCall(q, step).Ok? && p in q.params && p != "range_start" && p != "range_end"
    ensures var q' := BuilderCall(q, step).value;
            p in q'.params && q'.params[p] == q.params[p]
  {
    match step {
      case Filter(column, value) => FilterEqKeeps(q, column, value);
      case Range(start, end) =>
      case Limit(n) =>
    }
  }

  // ------------------------------------------------------ a second range

  /** Between two bounds, either of which may be missing. */
  predicate Within(start: Option<int>, end: Option<int>, t: int) {
    (start.Some? ==> t >= start.value) && (end.Some? ==> t < end.value)
  }

  function OrElse(given: Option<int>, before: Option<int>): Option<int> {
    if given.Some? then given else before
  }

  /** The new bounds are no looser than the ones they replace. */
  predicate NotLooser(start: Option<int>, end: Option<int>, start0: Option<int>, end0: Option<int>) {
    && (start.Some? && start0.Some? ==> start.value >= start0.value)
    && (end.Some? && end0.Some? ==> end.value <= end0.value)
  }

  /** No time lies between the two bounds. */
  predicate EmptyRange(start: Option<int>, end: Option<int>) {
    start.Some? && end.Some? && start.value >= end.value
  }

  /** The range call, as documented, adds its bounds to those the query has. */
  ghost predicate Narrows(first: Query, second: Query, start: Option<int>, end: Option<int>) {
    forall row :: Selects(second, row) <==> Selects(first, row) && Within(start, end, row.occurredAt)
  }

  /** A time that the second range lets in although the first keeps it out, unless the second is no looser, or empty. */
  lemma LooserLetsIn(start: Option<int>, end: Option<int>, start0: Option<int>, end0: Option<int>) returns (t: int)
    requires !NotLooser(start, end, start0, end0) && !EmptyRange(OrElse(start, start0), OrElse(end, end0))
    ensures Within(OrElse(start, start0), OrElse(end, end0), t) && !Within(start0, end0, t)
  {
    t := if start.Some? && start0.Some? && start.value < start0.value then start.value else end.value - 1;
  }

  /** No equality filter names the time column, so the filters say nothing of a row's time. */
  predicate TimeIsFree(steps: seq<Step>) {
    forall s :: s in steps && s.Filter? ==> s.column != "occurred_at"
  }

  lemma FiltersIgnoreTime(steps: seq<Step>, row: Row, t: int)
    requires TimeIsFree(steps) && PassesFilters(steps, row)
    ensures PassesFilters(steps, row.(occurredAt := t))
  {}

  lemma BuiltSelects(table: string, tenant: string, steps: seq<Step>, row: Row)
    requires Build(table, tenant, steps).Ok?
    ensures Selects(Build(table, tenant, steps).value, row) <==>
              row.tenant == tenant && PassesFilters(steps, row)
                  && Within(LastStart(steps), LastEnd(steps), row.occurredAt)
  {
    hide Selects, PassesFilters, Build;
    BuiltQuerySelects(table, tenant, steps, row);
  }

  lemma RangeRebinds(table: string, tenant: string, steps: seq<Step>, start: Option<int>, end: Option<int>)
    requires Build(table, tenant, steps + [Range(start, end)]).Ok?
    ensures Build(table, tenant, steps).Ok?
    ensures LastStart(steps + [Range(start, end)]) == OrElse(start, LastStart(steps))
    ensures LastEnd(steps + [Range(start, end)]) == OrElse(end, LastEnd(steps))
    ensures forall row :: PassesFilters(steps + [Range(start, end)], row) <==> PassesFilters(steps, row)
  {
    var all := steps + [Range(start, end)];
    assert all[..|all| - 1] == steps;
    hide PassesFilters;
    forall row ensures PassesFilters(all, row) <==> PassesFilters(steps, row) {
      OneMoreFilter(steps, Range(start, end), row);
    }
  }

  /** A further range call, with either bound or both, adds its bounds as documented when they are no looser than the
      bounds they replace, or when the range then bound is empty; and when the filters leave the time free and some row
      passes them, only then. */
  lemma SecondRangeNarrowsIffNotLooser(table: string, tenant: string, steps: seq<Step>, start: Option<int>,
                                       end: Option<int>)
    requires Build(table, tenant, steps + [Range(start, end)]).Ok?
    ensures Build(table, tenant, steps).Ok?
    ensures var first, second := Build(table, tenant, steps).value,
            Build(table, tenant, steps + [Range(start, end)]).value;
            var narrow := NotLooser(start, end, LastStart(steps), LastEnd(steps))
                       || EmptyRange(OrElse(start, LastStart(steps)), OrElse(end, LastEnd(steps)));
            && (narrow ==> Narrows(first, second, start, end))
            && (TimeIsFree(steps) && (exists row: Row :: row.tenant == tenant && PassesFilters(steps, row)) ==>
                  (narrow <==> Narrows(first, second, start, end)))
  {
    hide PassesFilters, Selects, Build, LastStart, LastEnd;
    var all := steps + [Range(start, end)];
    RangeRebinds(table, tenant, steps, start, end);
    var first, second := Build(table, tenant, steps).value, Build(table, tenant, all).value;
    var start0, end0 := LastStart(steps), LastEnd(steps);
    forall row
      ensures Selects(first, row) <==>
                row.tenant == tenant && PassesFilters(steps, row)
                && Within(start0, end0, row.occurredAt)
      ensures Selects(second, row) <==>
                row.tenant == tenant && PassesFilters(steps, row)
                && Within(OrElse(start, start0), OrElse(end, end0), row.occurredAt)
    {
      BuiltSelects(table, tenant, steps, row);
      BuiltSelects(table, tenant, all, row);
    }
    if !NotLooser(start, end, start0, end0) && !EmptyRange(OrElse(start, start0), OrElse(end, end0)) {
      var t := LooserLetsIn(start, end, start0, end0);
      if TimeIsFree(steps) {
        if row: Row :| row.tenant == tenant && PassesFilters(steps, row) {
          FiltersIgnoreTime(steps, row, t);
          assert Selects(second, row.(occurredAt := t)) && !Selects(first, row.(occurredAt := t));
        }
      }
    }
  }

  /** It does happen: after the range from 10 to 20, a call that only gives the start 0 brings in a row at time 5. */
  lemma SecondRangeCanWiden(tenant: string)
    requires ValidTenant(tenant)
    ensures var steps := [Range(Some(10), Some(20))];
            var row := Row(tenant, "key", "id", 5, "payload");
            && Build("observations", tenant, steps).Ok?
              && Build("observations", tenant, steps + [Range(Some(0), None)]).Ok?
            && !Selects(Build("observations", tenant, steps).value, row)
            && Selects(Build("observations", tenant, steps + [Range(Some(0), None)]).value, row)
  {
    var first, next := Range(Some(10), Some(20)), Range(Some(0), None);
    var row := Row(tenant, "key", "id", 5, "payload");
    assert "observations" in TABLE_NAMES by { assert TABLE_NAMES[0] == "observations"; }
    hide ValidTenant, TABLE_NAMES;
    assert [first][..0] == [] && ([first] + [next])[..1] == [first];
    assert Build("observations", tenant, []).Ok?;
    assert Build("observations", tenant, [first]).Ok? && Build("observations", tenant, [first] + [next]).Ok?;
    assert LastStart([first]) == Some(10) && LastEnd([first]) == Some(20);
    hide Selects, Build;
    BuiltSelects("observations", tenant, [first], row);
    BuiltSelects("observations", tenant, [first] + [next], row);
    RangeRebinds("observations", tenant, [first], Some(0), None);
  }

  // -------------------------------------------------- limits and failures

  function LastLimit(steps: seq<Step>): Option<int> {
    if steps == [] then None else
      var s := steps[|steps| - 1];
      if s.Limit? then Some(s.n) else LastLimit(steps[..|steps| - 1])
  }

  /** A row is told by its columns, and there are no others. */
  lemma RowIsItsColumns(a: Row, b: Row)
    ensures (forall c :: Column(a, c) == Column(b, c)) <==> a == b
    ensures forall c :: Column(a, c).Some? <==>
              c in ["tenant_id", "idempotency_key", "id", "occurred_at", "payload"]
    ensures Column(a, "tenant_id") == Some(Text(a.tenant)) && Column(a, "occurred_at") == Some(Instant(a.occurredAt))
  {
    if forall c :: Column(a, c) == Column(b, c) {
      assert Column(a, "tenant_id") == Column(b, "tenant_id");
      assert Column(a, "idempotency_key") == Column(b, "idempotency_key");
      assert Column(a, "id") == Column(b, "id");
      assert Column(a, "occurred_at") == Column(b, "occurred_at");
      assert Column(a, "payload") == Column(b, "payload");
    }
  }

  predicate OwnedTable(table: string) {
    || table == "observations" || table == "citations" || table == "experiment_registrations"
    || table == "measurement_outcome"
  }

  lemma OwnedTables(table: string)
    ensures table in TABLE_NAMES <==> OwnedTable(table)
  {
    var t := TABLE_NAMES;
    assert t[0] == "observations" && t[1] == "citations" && t[2] == "experiment_registrations"
        && t[3] == "measurement_outcome";
  }

  ghost predicate LimitsAreSound(steps: seq<Step>) {
    forall s :: s in steps && s.Limit? ==> s.n >= 1
  }

  /** A chain fails exactly for a table that is not owned, a tenant that is not valid, or a limit below one; what it
      builds is for that table, under the limit given last. */
  lemma {:induction false} BuildSucceedsIff(table: string, tenant: string, steps: seq<Step>)
    ensures var r := Build(table, tenant, steps);
            && (r == Err(UnknownTable) <==> !OwnedTable(table))
            && (r == Err(InvalidTenant) <==> OwnedTable(table) && !ValidTenant(tenant))
            && (r == Err(LimitBelowOne) <==> OwnedTable(table) && ValidTenant(tenant) && !LimitsAreSound(steps))
            && (r.Ok? <==> OwnedTable(table) && ValidTenant(tenant) && LimitsAreSound(steps))
            && (r.Ok? ==> r.value.table == table
                          && (r.value.limit.Some? <==> LastLimit(steps).Some?)
                          && (r.value.limit.Some? ==> r.value.limit.value == LastLimit(steps).value))
  {
    OwnedTables(table);
    hide ValidTenant, TABLE_NAMES, OwnedTable;
    if steps != [] {
      var earlier, step := steps[..|steps| - 1], steps[|steps| - 1];
      BuildSucceedsIff(table, tenant, earlier);
      assert steps == earlier + [step];
      assert forall s :: s in steps <==> s in earlier || s == step;
    }
  }
}
