/** The collected predicate selects exactly the rows DuckDB's plan outputs, and a DELETE removes exactly those. */
module DmlExact {
  import opened Options
  import opened Values
  import opened Casts
  import opened Sql
  import opened Expressions
  import opened Dml

  // ---------------------------------------------------------------- which plans

  /** A condition that keeps the row out. */
  predicate Drops(r: Res) {
    r.Ok? && r != Ok(TRUE)
  }

  /** On this row both systems make alike the comparisons of all of a filter's conditions, or of one that keeps the row
      out whatever the others are. */
  predicate ConditionsAgree(es: seq<Expr>, tuple: seq<Value>, server: Server) {
    AllCompareAlike(es, tuple, server) ||
    exists k :: 0 <= k < |es| && ComparesAlike(es[k], tuple, server) && Drops(DuckEval(es[k], tuple, server))
  }

  predicate ScanFiltersAgree(filters: seq<TableFilter>, values: seq<Value>, server: Server) {
    (forall k :: 0 <= k < |filters| ==>
      ComparesAlike(filters[k].expression, [At(values, filters[k].position)], server)) ||
    exists k :: 0 <= k < |filters| && ComparesAlike(filters[k].expression, [At(values, filters[k].position)], server) &&
      Drops(DuckEval(filters[k].expression, [At(values, filters[k].position)], server))
  }

  /** On this row both systems make alike the comparisons of every expression that the plan gets to and that
      matters. */
  predicate PlanComparesAlike(plan: Plan, row: Row, server: Server) {
    match plan
    case Get(_, columnIds, _, filters, _) => ScanFiltersAgree(filters, ScanValues(columnIds, row), server)
    case Filter(child, expressions, _) =>
      var below := RowOutcome(child, row, server);
      PlanComparesAlike(child, row, server) && (below.Emitted? ==> ConditionsAgree(expressions, below.tuple, server))
    case Projection(child, expressions) =>
      var below := RowOutcome(child, row, server);
      PlanComparesAlike(child, row, server) && (below.Emitted? ==> AllCompareAlike(expressions, below.tuple, server))
    case MarkJoin(child, _, lhs, _, _) =>
      var below := RowOutcome(child, row, server);
      PlanComparesAlike(child, row, server) && (below.Emitted? ==> ComparesAlike(lhs, below.tuple, server))
    case _ => true
  }

  /** No division and no DATE arithmetic anywhere. */
  predicate PlanNeverFails(plan: Plan) {
    match plan
    case Get(_, _, _, filters, _) => forall f :: f in filters ==> NeverFailsOnServer(f.expression)
    case Filter(child, expressions, _) => NoneFails(expressions) && PlanNeverFails(child)
    case Projection(child, expressions) => NoneFails(expressions) && PlanNeverFails(child)
    case MarkJoin(child, _, lhs, _, _) => NeverFailsOnServer(lhs) && PlanNeverFails(child)
    case _ => true
  }

  /** The rows of a plan the exactness results are about. `total` asks for more of the plan, and promises more. */
  predicate Exact(plan: Plan, row: Row, server: Server, total: bool) {
    PlanComparesAlike(plan, row, server) && (total ==> PlanNeverFails(plan))
  }

  // ---------------------------------------------------------------- outputs

  lemma {:induction false} EmittedArity(plan: Plan, row: Row, server: Server)
    requires RowOutcome(plan, row, server).Emitted?
    ensures |RowOutcome(plan, row, server).tuple| == Arity(plan)
  {
    hide DuckEval, DuckEvalAll, DuckIn, Junction, TableFilterResults;
    match plan
    case Filter(child, _, _) => EmittedArity(child, row, server);
    case Projection(child, _) =>
    case MarkJoin(child, _, _, _, _) => EmittedArity(child, row, server);
    case _ =>
  }

  lemma {:induction false} ProjectedExact(es: seq<Expr>, index: nat, resolve: Resolver, tuple: seq<Value>,
                                          row: seq<Value>, server: Server, total: bool)
    requires index < |es| && Translate(es[index], resolve).Some? && Resolves(resolve, tuple, row, server, total)
    requires AllCompareAlike(es, tuple, server) && (total ==> NoneFails(es))
    requires Collect(DuckEvalAll(es, tuple, server)).Results?
    ensures Keeps(Ok(Collect(DuckEvalAll(es, tuple, server)).values[index]),
                  Eval(Translate(es[index], resolve).value, row, server), total)
  {
    hide Translate, DuckEval, ComparesAlike, NeverFailsOnServer, Eval;
    ghost var results := DuckEvalAll(es, tuple, server);
    DuckEvalAllAt(es, tuple, server, index);
    PartsOf(es, index, tuple, server);
    TranslateExact(es[index], resolve, tuple, row, server, total);
    assert results[index] == Ok(Collect(results).values[index]);
  }

  lemma {:induction false} DuckEvalAllAt(es: seq<Expr>, tuple: seq<Value>, server: Server, k: nat)
    requires k < |es|
    ensures DuckEvalAll(es, tuple, server)[k] == DuckEval(es[k], tuple, server)
  {
    if k > 0 {
      DuckEvalAllAt(es[1..], tuple, server, k - 1);
    }
  }

  lemma {:induction false} PartsOf(es: seq<Expr>, k: nat, tuple: seq<Value>, server: Server)
    requires k < |es|
    ensures AllCompareAlike(es, tuple, server) ==> ComparesAlike(es[k], tuple, server)
    ensures NoneFails(es) ==> NeverFailsOnServer(es[k])
  {
    if k > 0 {
      PartsOf(es[1..], k - 1, tuple, server);
    }
  }

  /** ResolveOutput's SQL for an output column has that column's value, for every plan and row. */
  lemma {:induction false} ResolveExact(columns: seq<ColumnInfo>, plan: Plan, index: nat, row: Row, server: Server,
                                        total: bool)
    requires RowOf(row, columns) && Exact(plan, row, server, total)
    requires RowOutcome(plan, row, server).Emitted? && ResolveOutput(columns, plan, index).Some?
    ensures index < |RowOutcome(plan, row, server).tuple|
    ensures Keeps(Ok(RowOutcome(plan, row, server).tuple[index]),
                  Eval(ResolveOutput(columns, plan, index).value, row.stored, server), total)
    decreases plan, 0
  {
    hide DuckEval, DuckEvalAll, DuckIn, Junction, TableFilterResults, Translate, ComparesAlike, AllCompareAlike,
      NeverFailsOnServer, NoneFails;
    EmittedArity(plan, row, server);
    match plan
    case Get(_, columnIds, projectionIds, _, _) => ScanExact(columns, plan, index, row, server, total);
    case Filter(child, _, projectionMap) =>
      hide Eval;
      ResolveExact(columns, child, if projectionMap == [] then index else projectionMap[index], row, server, total);
    case Projection(child, expressions) =>
      hide Eval;
      ResolverExact(columns, child, row, server, total);
      ProjectedExact(expressions, index, ResolverOf(columns, child), RowOutcome(child, row, server).tuple, row.stored,
                     server, total);
    case MarkJoin(child, leftMap, _, _, _) =>
      hide Eval;
      EmittedArity(child, row, server);
      ResolveExact(columns, child, if leftMap == [] then index else leftMap[index], row, server, total);
    case _ =>
  }

  lemma ScanExact(columns: seq<ColumnInfo>, plan: Plan, index: nat, row: Row, server: Server, total: bool)
    requires RowOf(row, columns) && plan.Get?
    requires RowOutcome(plan, row, server).Emitted? && ResolveOutput(columns, plan, index).Some?
    ensures index < |RowOutcome(plan, row, server).tuple|
    ensures Keeps(Ok(RowOutcome(plan, row, server).tuple[index]),
                  Eval(ResolveOutput(columns, plan, index).value, row.stored, server), total)
  {
    hide Junction, TableFilterResults, Translate, IsComparedExactly;
    ghost var position := if plan.projectionIds == [] then index else plan.projectionIds[index];
    assert ScanValues(plan.columnIds, row)[position] == ScanValue(plan.columnIds[position], row);
  }

  lemma {:induction false} ResolverExact(columns: seq<ColumnInfo>, plan: Plan, row: Row, server: Server, total: bool)
    requires RowOf(row, columns) && Exact(plan, row, server, total) && RowOutcome(plan, row, server).Emitted?
    ensures Resolves(ResolverOf(columns, plan), RowOutcome(plan, row, server).tuple, row.stored, server, total)
    decreases plan, 1
  {
    hide RowOutcome, ResolveOutput, Eval;
    ghost var resolve := ResolverOf(columns, plan);
    forall i: nat {:trigger resolve(i)} | resolve(i).Some?
      ensures i < |RowOutcome(plan, row, server).tuple| &&
              Keeps(Ok(RowOutcome(plan, row, server).tuple[i]), Eval(resolve(i).value, row.stored, server), total)
    {
      assert resolve(i) == ResolveOutput(columns, plan, i);
      ResolveExact(columns, plan, i, row, server, total);
    }
  }

  // ---------------------------------------------------------------- IN lists

  /** Under a traced mark column: the row the join's left input put out, and the mark it was given. */
  lemma {:induction false} TraceMark(plan: Plan, index: nat, row: Row, server: Server)
    requires RowOutcome(plan, row, server).Emitted?
    requires Trace(plan, index).Some? && Trace(plan, index).value.MarkColumn?
    ensures var join := Trace(plan, index).value.join;
      join.MarkJoin? && RowOutcome(join.child, row, server).Emitted? &&
      var x := DuckEval(join.lhs, RowOutcome(join.child, row, server).tuple, server);
      x.Ok? && index < |RowOutcome(plan, row, server).tuple| &&
      RowOutcome(plan, row, server).tuple[index] == DuckIn(x.value, join.constants).value
    decreases plan
  {
    hide DuckIn, Junction, TableFilterResults;
    EmittedArity(plan, row, server);
    match plan
    case Filter(child, _, projectionMap) =>
      TraceMark(child, if projectionMap == [] then index else projectionMap[index], row, server);
    case Projection(child, expressions) =>
      if expressions[index].Ref? {
        TraceMark(child, expressions[index].index, row, server);
        TracedReference(expressions, index, RowOutcome(child, row, server).tuple, server);
      }
    case MarkJoin(child, leftMap, _, _, _) =>
      EmittedArity(child, row, server);
      if index < Arity(plan) - 1 {
        TraceMark(child, if leftMap == [] then index else leftMap[index], row, server);
      }
    case _ =>
  }

  lemma TracedReference(es: seq<Expr>, index: nat, tuple: seq<Value>, server: Server)
    requires index < |es| && es[index].Ref? && es[index].index < |tuple|
    requires Collect(DuckEvalAll(es, tuple, server)).Results?
    ensures Collect(DuckEvalAll(es, tuple, server)).values[index] == tuple[es[index].index]
  {
    DuckEvalAllAt(es, tuple, server, index);
    assert DuckEvalAll(es, tuple, server)[index] == Ok(Collect(DuckEvalAll(es, tuple, server)).values[index]);
  }

  lemma {:induction false} TraceExact(plan: Plan, index: nat, row: Row, server: Server, total: bool)
    requires RowOutcome(plan, row, server).Emitted?
    requires Exact(plan, row, server, total) && Trace(plan, index).Some? && Trace(plan, index).value.MarkColumn?
    ensures var join := Trace(plan, index).value.join;
      join.MarkJoin? && RowOutcome(join.child, row, server).Emitted? && Exact(join.child, row, server, total) &&
      ComparesAlike(join.lhs, RowOutcome(join.child, row, server).tuple, server) &&
      (total ==> NeverFailsOnServer(join.lhs))
    decreases plan
  {
    hide ComparesAlike, NeverFailsOnServer, NoneFails;
    var step := StepReference(plan, index);
    if step.value.PassThrough? {
      TraceExact(step.value.next, step.value.index, row, server, total);
    }
  }

  /** The constants of an accepted IN list are what its literals evaluate to, and none of them is NULL. */
  lemma {:induction false} LiteralsExact(values: seq<Value>, row: seq<Value>, server: Server)
    requires LiteralsSql(values).Some?
    ensures Null !in values
    ensures Collect(EvalAll(LiteralsSql(values).value, row, server)) == Results(values)
  {
    hide LiteralSql, Eval;
    if values != [] {
      hide Collect, EvalAll;
      LiteralExact(values[0], row, server);
      LiteralsExact(values[1..], row, server);
      var first, rest := LiteralSql(values[0]).value, LiteralsSql(values[1..]).value;
      EvaluatedCons(first, rest, row, server);
      assert values == [values[0]] + values[1..];
    }
  }

  lemma EvaluatedCons(first: Sql, rest: seq<Sql>, row: seq<Value>, server: Server)
    ensures Collect(EvalAll([first] + rest, row, server)) ==
            Cons(Eval(first, row, server), Collect(EvalAll(rest, row, server)))
  {
    hide Eval;
    assert ([first] + rest)[1..] == rest;
    var results := EvalAll(rest, row, server);
    assert EvalAll([first] + rest, row, server) == [Eval(first, row, server)] + results;
    assert ([Eval(first, row, server)] + results)[1..] == results;
  }

  lemma MarkedExact(x: Value, left: Sql, constants: seq<Value>, negated: bool, row: seq<Value>, server: Server,
                    total: bool)
    requires Keeps(Ok(x), Eval(left, row, server), total)
    requires LiteralsSql(constants).Some? && constants != []
    ensures var mark := DuckIn(x, constants);
      Keeps(if negated then Negation(mark) else mark,
            Eval(InList(left, LiteralsSql(constants).value, negated), row, server), total)
  {
    hide LiteralsSql, Eval;
    LiteralsExact(constants, row, server);
    InListMeaning(left, LiteralsSql(constants).value, negated, row, server);
  }

  /** A filter's expression and its SQL agree on every row its input puts out. */
  lemma FilterExpressionExact(columns: seq<ColumnInfo>, e: Expr, input: Plan, row: Row, server: Server, total: bool)
    requires RowOf(row, columns) && Exact(input, row, server, total) && RowOutcome(input, row, server).Emitted?
    requires ComparesAlike(e, RowOutcome(input, row, server).tuple, server) && (total ==> NeverFailsOnServer(e))
    requires FilterExpressionSql(columns, e, input).Some?
    ensures Keeps(DuckEval(e, RowOutcome(input, row, server).tuple, server),
                  Eval(FilterExpressionSql(columns, e, input).value, row.stored, server), total)
  {
    hide RowOutcome, Eval, Translate, ComparesAlike, NeverFailsOnServer, Trace, InListFilter, DuckEval, Exact;
    if InListFilter(columns, e, input).value.Some? {
      InListFilterExact(columns, e, input, row, server, total);
    } else {
      ResolverExact(columns, input, row, server, total);
      TranslateExact(e, ResolverOf(columns, input), RowOutcome(input, row, server).tuple, row.stored, server, total);
    }
  }

  lemma InListFilterExact(columns: seq<ColumnInfo>, e: Expr, input: Plan, row: Row, server: Server, total: bool)
    requires RowOf(row, columns) && Exact(input, row, server, total) && RowOutcome(input, row, server).Emitted?
    requires InListFilter(columns, e, input).Some? && InListFilter(columns, e, input).value.Some?
    ensures Keeps(DuckEval(e, RowOutcome(input, row, server).tuple, server),
                  Eval(InListFilter(columns, e, input).value.value, row.stored, server), total)
  {
    hide RowOutcome, Eval, Translate, ComparesAlike, NeverFailsOnServer, Trace, DuckEval, Exact, LiteralsSql;
    ghost var negated := e.Operator?;
    ghost var inner := if negated then e.children[0] else e;
    ghost var join := Trace(input, inner.index).value.join;
    ghost var tuple := RowOutcome(input, row, server).tuple;
    TraceMark(input, inner.index, row, server);
    ghost var below := RowOutcome(join.child, row, server).tuple;
    TraceExact(input, inner.index, row, server, total);
    ResolverExact(columns, join.child, row, server, total);
    TranslateExact(join.lhs, ResolverOf(columns, join.child), below, row.stored, server, total);
    MarkedExact(DuckEval(join.lhs, below, server).value, Translate(join.lhs, ResolverOf(columns, join.child)).value,
                join.constants, negated, row.stored, server, total);
    MarkReference(e, tuple, server);
  }

  /** A reference, or NOT of one, reads the tuple. */
  lemma MarkReference(e: Expr, tuple: seq<Value>, server: Server)
    ensures e.Ref? && e.index < |tuple| ==> DuckEval(e, tuple, server) == Ok(tuple[e.index])
    ensures e.Operator? && e.op.OpNot? && |e.children| == 1 && e.children[0].Ref? && e.children[0].index < |tuple| ==>
      DuckEval(e, tuple, server) == Negation(Ok(tuple[e.children[0].index]))
  {
    if e.Operator? && e.op.OpNot? && |e.children| == 1 {
      DuckEvalAllAt(e.children, tuple, server, 0);
    }
  }

  lemma {:induction false} FilterExpressionsExact(columns: seq<ColumnInfo>, es: seq<Expr>, input: Plan, row: Row,
                                                  server: Server, total: bool)
    requires RowOf(row, columns) && Exact(input, row, server, total) && RowOutcome(input, row, server).Emitted?
    requires AllCompareAlike(es, RowOutcome(input, row, server).tuple, server) && (total ==> NoneFails(es))
    requires FilterExpressionsSql(columns, es, input).Some?
    ensures AllKeep(DuckEvalAll(es, RowOutcome(input, row, server).tuple, server),
                    EvalAll(FilterExpressionsSql(columns, es, input).value, row.stored, server), total)
  {
    hide RowOutcome, Eval, FilterExpressionSql, DuckEval, Exact, ComparesAlike, NeverFailsOnServer;
    if es != [] {
      FilterExpressionExact(columns, es[0], input, row, server, total);
      FilterExpressionsExact(columns, es[1..], input, row, server, total);
    }
  }

  // ---------------------------------------------------------------- filters pushed into the scan

  lemma JunctionCons(isAnd: bool, first: Res, rest: seq<Res>)
    ensures Junction(isAnd, [first] + rest) == Combine(isAnd, first, Junction(isAnd, rest))
  {
    var all := [first] + rest;
    assert forall r :: r in all <==> r == first || r in rest;
    if exists k :: 0 <= k < |rest| && !IsTruth(rest[k]) {
      var k :| 0 <= k < |rest| && !IsTruth(rest[k]);
      assert !IsTruth(all[k + 1]);
    }
    if !IsTruth(first) {
      assert !IsTruth(all[0]);
    }
  }

  /** The results of the operands that are not skipped. */
  function KeptResults(es: seq<Expr>, column: Sql, tuple: seq<Value>, server: Server): seq<Res> {
    if es == [] then []
    else
      var rest := KeptResults(es[1..], column, tuple, server);
      if TableFilterSql(es[0], column) == Some(None) then rest else [DuckEval(es[0], tuple, server)] + rest
  }

  lemma JunctionIsTruth(isAnd: bool, results: seq<Res>)
    ensures Junction(isAnd, results).Ok? ==> IsTruth(Junction(isAnd, results))
  {
  }

  /** A pushed filter's SQL has the filter's value, its optional leaves read as TRUE; a skipped filter is TRUE. */
  lemma {:induction false} TableFilterExact(e: Expr, id: nat, v: Value, row: seq<Value>, server: Server, total: bool)
    requires id < |row| && row[id] == v
    requires ComparesAlike(e, [v], server) && (total ==> NeverFailsOnServer(e))
    requires TableFilterSql(e, Column(id)).Some?
    ensures TableFilterSql(e, Column(id)).value.None? ==> DuckEval(e, [v], server) == Ok(TRUE)
    ensures TableFilterSql(e, Column(id)).value.Some? ==>
      Keeps(DuckEval(e, [v], server), Eval(TableFilterSql(e, Column(id)).value.value, row, server), total)
    decreases e, 1
  {
    hide Junction, Translate, ContainsHint;
    if e.Conjunction? && !e.kind.OtherJunction? {
      TablePartsExact(e.children, id, e.kind.And?, v, row, server, total);
      ghost var parts := TableFilterParts(e.children, Column(id), e.kind.And?).value;
      JunctionKeeps(e.kind.And?, KeptResults(e.children, Column(id), [v], server), EvalAll(parts, row, server), total);
      ConjunctionTrue([]);
    } else if !e.OptionalHint? && !e.Conjunction? {
      ColumnResolves(id, v, row, server, total);
      TranslateExact(e, ColumnResolver(Column(id)), [v], row, server, total);
    }
  }

  lemma ColumnResolves(id: nat, v: Value, row: seq<Value>, server: Server, total: bool)
    requires id < |row| && row[id] == v
    ensures Resolves(ColumnResolver(Column(id)), [v], row, server, total)
  {
  }

  lemma {:induction false} TablePartsExact(es: seq<Expr>, id: nat, isAnd: bool, v: Value, row: seq<Value>,
                                           server: Server, total: bool)
    requires id < |row| && row[id] == v
    requires AllCompareAlike(es, [v], server) && (total ==> NoneFails(es))
    requires TableFilterParts(es, Column(id), isAnd).Some?
    ensures Junction(isAnd, DuckEvalAll(es, [v], server)) == Junction(isAnd, KeptResults(es, Column(id), [v], server))
    ensures AllKeep(KeptResults(es, Column(id), [v], server),
                    EvalAll(TableFilterParts(es, Column(id), isAnd).value, row, server), total)
    decreases es, 0
  {
    hide Junction, TableFilterSql, DuckEval, Eval, ComparesAlike, NeverFailsOnServer;
    if es != [] {
      TableFilterExact(es[0], id, v, row, server, total);
      TablePartsExact(es[1..], id, isAnd, v, row, server, total);
      SkipPart(es, id, isAnd, v, server);
    }
  }

  lemma SkipPart(es: seq<Expr>, id: nat, isAnd: bool, v: Value, server: Server)
    requires es != [] && TableFilterParts(es, Column(id), isAnd).Some?
    requires TableFilterSql(es[0], Column(id)) == Some(None) ==> DuckEval(es[0], [v], server) == Ok(TRUE)
    requires Junction(isAnd, DuckEvalAll(es[1..], [v], server)) ==
             Junction(isAnd, KeptResults(es[1..], Column(id), [v], server))
    ensures Junction(isAnd, DuckEvalAll(es, [v], server)) == Junction(isAnd, KeptResults(es, Column(id), [v], server))
  {
    hide Junction, TableFilterSql, DuckEval;
    var first, rest := DuckEval(es[0], [v], server), KeptResults(es[1..], Column(id), [v], server);
    JunctionCons(isAnd, first, DuckEvalAll(es[1..], [v], server));
    JunctionCons(isAnd, first, rest);
    JunctionIsTruth(isAnd, rest);
  }

  /** The conditions of the filters pushed into the scan, against their values on one row. */
  lemma {:induction false} TableConditionsExact(columns: seq<ColumnInfo>, columnIds: seq<ColumnIndex>,
                                                filters: seq<TableFilter>, row: Row, server: Server, total: bool)
    requires RowOf(row, columns) && TableConditions(columns, columnIds, filters).Some?
    requires forall k :: 0 <= k < |filters| ==>
      ComparesAlike(filters[k].expression, [At(ScanValues(columnIds, row), filters[k].position)], server) &&
      (total ==> NeverFailsOnServer(filters[k].expression))
    ensures Agree(TableFilterResults(filters, ScanValues(columnIds, row), server),
                  EvalAll(TableConditions(columns, columnIds, filters).value, row.stored, server), total)
  {
    hide ComparesAlike, NeverFailsOnServer, TableFilterSql, DuckEval, Eval, IsComparedExactly;
    if filters != [] {
      var f, values := filters[0], ScanValues(columnIds, row);
      var id := columnIds[f.position].id;
      TableConditionsExact(columns, columnIds, filters[1..], row, server, total);
      assert values[f.position] == ScanValue(columnIds[f.position], row) == row.stored[id];
      TableFilterExact(f.expression, id, row.stored[id], row.stored, server, total);
      AgreeCons(DuckEval(f.expression, [row.stored[id]], server), TableFilterSql(f.expression, Column(id)).value,
                TableFilterResults(filters[1..], values, server),
                TableConditions(columns, columnIds, filters[1..]).value, row.stored, server, total);
    }
  }

  /** One pushed filter that keeps the row out is enough: so does its condition. */
  lemma {:induction false} TableConditionDrops(columns: seq<ColumnInfo>, columnIds: seq<ColumnIndex>,
                                               filters: seq<TableFilter>, k: nat, row: Row, server: Server)
    requires RowOf(row, columns) && TableConditions(columns, columnIds, filters).Some? && k < |filters|
    requires var v := At(ScanValues(columnIds, row), filters[k].position);
      ComparesAlike(filters[k].expression, [v], server) && Drops(DuckEval(filters[k].expression, [v], server))
    ensures exists c :: c in EvalAll(TableConditions(columns, columnIds, filters).value, row.stored, server) &&
                        c != Ok(TRUE)
  {
    hide ComparesAlike, NeverFailsOnServer, TableFilterSql, DuckEval, Eval, IsComparedExactly;
    var f, values := filters[0], ScanValues(columnIds, row);
    var id := columnIds[f.position].id;
    var sql := TableFilterSql(f.expression, Column(id)).value;
    var rest := TableConditions(columns, columnIds, filters[1..]).value;
    var all := TableConditions(columns, columnIds, filters).value;
    if k == 0 {
      assert values[f.position] == ScanValue(columnIds[f.position], row) == row.stored[id];
      TableFilterExact(f.expression, id, row.stored[id], row.stored, server, false);
      assert EvalAll(all, row.stored, server)[0] == Eval(sql.value, row.stored, server);
      assert EvalAll(all, row.stored, server)[0] in EvalAll(all, row.stored, server);
    } else {
      TableConditionDrops(columns, columnIds, filters[1..], k - 1, row, server);
      var c :| c in EvalAll(rest, row.stored, server) && c != Ok(TRUE);
      if sql.Some? {
        assert all == [sql.value] + rest && all[1..] == rest;
        assert EvalAll(all, row.stored, server) ==
               [Eval(sql.value, row.stored, server)] + EvalAll(rest, row.stored, server);
      }
      assert c in EvalAll(all, row.stored, server);
    }
  }

  // ---------------------------------------------------------------- the predicate

  /** DuckDB's conditions on a row and the server's select the same: all TRUE here means none but TRUE (or an error)
      there, and one that is neither TRUE nor an error here means one that is not TRUE there. */
  ghost predicate Agree(duck: seq<Res>, server: seq<Res>, total: bool) {
    ((forall d :: d in duck ==> d == Ok(TRUE)) ==>
      forall s :: s in server ==> s == Ok(TRUE) || (s == Err && !total)) &&
    ((exists d :: d in duck && d.Ok? && d != Ok(TRUE)) ==> exists s :: s in server && s != Ok(TRUE))
  }

  lemma AgreeCons(d: Res, sql: Option<Sql>, duck: seq<Res>, rest: seq<Sql>, row: seq<Value>, server: Server,
                  total: bool)
    requires sql.None? ==> d == Ok(TRUE)
    requires sql.Some? ==> Keeps(d, Eval(sql.value, row, server), total)
    requires Agree(duck, EvalAll(rest, row, server), total)
    ensures Agree([d] + duck, EvalAll(if sql.Some? then [sql.value] + rest else rest, row, server), total)
  {
    hide Eval;
    var tail := EvalAll(rest, row, server);
    assert d in [d] + duck;
    assert forall x :: x in duck ==> x in [d] + duck;
    assert forall x :: x in [d] + duck ==> x == d || x in duck;
    if sql.Some? {
      var s := Eval(sql.value, row, server);
      assert ([sql.value] + rest)[1..] == rest;
      assert EvalAll([sql.value] + rest, row, server) == [s] + tail;
      assert s in [s] + tail;
      assert forall x :: x in tail ==> x in [s] + tail;
      assert forall x :: x in [s] + tail ==> x == s || x in tail;
      if exists x :: x in [d] + duck && x.Ok? && x != Ok(TRUE) {
        if d.Ok? && d != Ok(TRUE) {
          assert s != Ok(TRUE);
        }
      }
    }
  }

  lemma KeptAgree(duck: seq<Res>, server: seq<Res>, total: bool)
    requires AllKeep(duck, server, total)
    ensures Agree(duck, server, total)
  {
    if forall d :: d in duck ==> d == Ok(TRUE) {
      forall s | s in server ensures s == Ok(TRUE) || (s == Err && !total) {
        var k :| 0 <= k < |server| && server[k] == s;
        assert duck[k] in duck && Keeps(duck[k], server[k], total);
      }
    }
    if d :| d in duck && d.Ok? && d != Ok(TRUE) {
      var k :| 0 <= k < |duck| && duck[k] == d;
      assert server[k] in server && Keeps(duck[k], server[k], total);
    }
  }

  /** What a conjunction of results says about its operands. */
  lemma KeepMeaning(results: seq<Res>)
    ensures Junction(true, results) == Ok(TRUE) <==> forall r :: r in results ==> r == Ok(TRUE)
    ensures Junction(true, results).Ok? && Junction(true, results) != Ok(TRUE) ==>
      exists r :: r in results && r.Ok? && r != Ok(TRUE)
  {
    ConjunctionTrue(results);
    assert forall k :: 0 <= k < |results| ==> results[k] in results;
    if Junction(true, results).Ok? && Junction(true, results) != Ok(TRUE) && Ok(FALSE) !in results {
      assert Ok(Null) in results;
    }
  }

  /** What every row's outcome means for the conditions collected from a plan, at any depth: a row that comes out
      fails none of them, and a row that is dropped fails one. */
  ghost predicate Selects(outcome: Outcome, conditions: seq<Res>, total: bool) {
    (outcome.Emitted? ==> forall c :: c in conditions ==> c == Ok(TRUE) || (c == Err && !total)) &&
    (outcome.Dropped? ==> exists c :: c in conditions && c != Ok(TRUE))
  }

  lemma SelectsMore(outcome: Outcome, conditions: seq<Res>, more: seq<Res>, total: bool)
    requires Selects(outcome, conditions, total) && outcome.Dropped?
    ensures Selects(outcome, more + conditions, total)
  {
    var c :| c in conditions && c != Ok(TRUE);
    assert c in more + conditions;
  }

  /** The scan's filters and all those above it, together, on one row. */
  lemma {:induction false} ConditionsExact(columns: seq<ColumnInfo>, plan: Plan, row: Row, server: Server, total: bool)
    requires RowOf(row, columns) && Exact(plan, row, server, total)
    requires Base(plan).Some? && Base(plan).value.Get?
    requires TableConditions(columns, Base(plan).value.columnIds, Base(plan).value.filters).Some?
    requires FilterConditions(columns, plan).Some?
    ensures Selects(RowOutcome(plan, row, server),
                    EvalAll(FilterConditions(columns, plan).value, row.stored, server) +
                    EvalAll(TableConditions(columns, Base(plan).value.columnIds, Base(plan).value.filters).value,
                            row.stored, server), total)
  {
    hide Eval, ComparesAlike, AllCompareAlike, NeverFailsOnServer, NoneFails, TableConditions, FilterExpressionsSql,
      Junction, DuckEvalAll, EvalAll, TableFilterResults, DuckEval, DuckIn, Agree, Collect;
    match plan
    case Get(_, columnIds, _, filters, _) => GetConditions(columns, plan, row, server, total);
    case Filter(child, expressions, _) =>
      ConditionsExact(columns, child, row, server, total);
      FilterStep(columns, plan, row, server, total);
    case Projection(child, _) => ConditionsExact(columns, child, row, server, total);
    case MarkJoin(child, _, _, _, _) => ConditionsExact(columns, child, row, server, total);
    case _ =>
  }

  lemma GetConditions(columns: seq<ColumnInfo>, plan: Plan, row: Row, server: Server, total: bool)
    requires RowOf(row, columns) && Exact(plan, row, server, total) && plan.Get?
    requires TableConditions(columns, plan.columnIds, plan.filters).Some?
    ensures Selects(RowOutcome(plan, row, server),
                    EvalAll([], row.stored, server) +
                    EvalAll(TableConditions(columns, plan.columnIds, plan.filters).value, row.stored, server), total)
  {
    hide Eval, ComparesAlike, NeverFailsOnServer, TableConditions, Junction, DuckEval, TableFilterResults;
    ghost var values := ScanValues(plan.columnIds, row);
    ghost var results := TableFilterResults(plan.filters, values, server);
    KeepMeaning(results);
    ghost var conditions := EvalAll(TableConditions(columns, plan.columnIds, plan.filters).value, row.stored, server);
    assert EvalAll([], row.stored, server) + conditions == conditions;
    if k :| 0 <= k < |plan.filters| && var v := At(values, plan.filters[k].position);
            ComparesAlike(plan.filters[k].expression, [v], server) &&
            Drops(DuckEval(plan.filters[k].expression, [v], server)) {
      TableResultAt(plan.filters, k, values, server);
      assert results[k] in results;
      TableConditionDrops(columns, plan.columnIds, plan.filters, k, row, server);
    } else {
      TableConditionsExact(columns, plan.columnIds, plan.filters, row, server, total);
    }
  }

  lemma {:induction false} TableResultAt(filters: seq<TableFilter>, k: nat, values: seq<Value>, server: Server)
    requires k < |filters|
    ensures TableFilterResults(filters, values, server)[k] ==
      DuckEval(filters[k].expression, [At(values, filters[k].position)], server)
  {
    if k > 0 {
      TableResultAt(filters[1..], k - 1, values, server);
    }
  }

  /** The same for a filter's conditions. */
  lemma {:induction false} ConditionDrops(columns: seq<ColumnInfo>, es: seq<Expr>, k: nat, input: Plan, row: Row,
                                          server: Server)
    requires RowOf(row, columns) && Exact(input, row, server, false) && RowOutcome(input, row, server).Emitted?
    requires FilterExpressionsSql(columns, es, input).Some? && k < |es|
    requires var tuple := RowOutcome(input, row, server).tuple;
      ComparesAlike(es[k], tuple, server) && Drops(DuckEval(es[k], tuple, server))
    ensures exists c ::
      c in EvalAll(FilterExpressionsSql(columns, es, input).value, row.stored, server) && c != Ok(TRUE)
  {
    hide RowOutcome, Eval, FilterExpressionSql, DuckEval, Exact, ComparesAlike, NeverFailsOnServer;
    var all := FilterExpressionsSql(columns, es, input).value;
    var results := EvalAll(all, row.stored, server);
    if k == 0 {
      FilterExpressionExact(columns, es[0], input, row, server, false);
      assert results[0] == Eval(all[0], row.stored, server) && results[0] in results;
    } else {
      ConditionDrops(columns, es[1..], k - 1, input, row, server);
      assert all[1..] == FilterExpressionsSql(columns, es[1..], input).value;
      var c :| c in EvalAll(all[1..], row.stored, server) && c != Ok(TRUE);
      assert c in results;
    }
  }

  lemma FilterStep(columns: seq<ColumnInfo>, plan: Plan, row: Row, server: Server, total: bool)
    requires RowOf(row, columns) && Exact(plan, row, server, total) && plan.Filter?
    requires Base(plan).Some? && Base(plan).value.Get?
    requires TableConditions(columns, Base(plan).value.columnIds, Base(plan).value.filters).Some?
    requires FilterConditions(columns, plan).Some?
    requires Selects(RowOutcome(plan.child, row, server),
                     EvalAll(FilterConditions(columns, plan.child).value, row.stored, server) +
                     EvalAll(TableConditions(columns, Base(plan).value.columnIds, Base(plan).value.filters).value,
                             row.stored, server), total)
    ensures Selects(RowOutcome(plan, row, server),
                    EvalAll(FilterConditions(columns, plan).value, row.stored, server) +
                    EvalAll(TableConditions(columns, Base(plan).value.columnIds, Base(plan).value.filters).value,
                            row.stored, server), total)
  {
    hide Eval, ComparesAlike, AllCompareAlike, NeverFailsOnServer, NoneFails, TableConditions, FilterExpressionsSql,
      Junction, DuckEvalAll, EvalAll;
    ghost var here := FilterExpressionsSql(columns, plan.expressions, plan.child).value;
    ghost var below := FilterConditions(columns, plan.child).value;
    ghost var scan := EvalAll(TableConditions(columns, Base(plan).value.columnIds, Base(plan).value.filters).value,
                              row.stored, server);
    EvalAllConcat(here, below, row.stored, server);
    ghost var mine, theirs := EvalAll(here, row.stored, server), EvalAll(below, row.stored, server) + scan;
    assert EvalAll(FilterConditions(columns, plan).value, row.stored, server) + scan == mine + theirs;
    ghost var outcome := RowOutcome(plan.child, row, server);
    if outcome.Emitted? {
      ghost var results := DuckEvalAll(plan.expressions, outcome.tuple, server);
      KeepMeaning(results);
      assert forall c :: c in mine + theirs <==> c in mine || c in theirs;
      if k :| 0 <= k < |plan.expressions| && ComparesAlike(plan.expressions[k], outcome.tuple, server) &&
              Drops(DuckEval(plan.expressions[k], outcome.tuple, server)) {
        DuckEvalAllAt(plan.expressions, outcome.tuple, server, k);
        assert results[k] in results;
        ConditionDrops(columns, plan.expressions, k, plan.child, row, server);
      } else {
        FilterExpressionsExact(columns, plan.expressions, plan.child, row, server, total);
        KeptAgree(results, mine, total);
      }
    } else if outcome.Dropped? {
      SelectsMore(outcome, theirs, mine, total);
    }
  }

  /** The predicate's value on a row; no conditions at all is WHERE 1. */
  function PredicateValue(conditions: seq<Sql>, row: Row, server: Server): Res {
    Junction(true, EvalAll(conditions, row.stored, server))
  }

  /** The result of this module: on every row DuckDB does not fail on, for either transform_null_in, the predicate is
      TRUE only if DuckDB's plan outputs the row; it is TRUE or fails if DuckDB's plan outputs the row; and without
      divisions and DATE arithmetic it is TRUE exactly if DuckDB's plan outputs the row. */
  lemma PredicateExact(columns: seq<ColumnInfo>, plan: Plan, row: Row, server: Server, total: bool)
    requires RowOf(row, columns) && Exact(plan, row, server, total)
    requires Analyze(columns, plan).Some? && Analyze(columns, plan).value.Where?
    ensures var value := PredicateValue(Analyze(columns, plan).value.conditions, row, server);
      var outcome := RowOutcome(plan, row, server);
      !outcome.Fails? ==>
        (value == Ok(TRUE) ==> outcome.Emitted?) &&
        (outcome.Emitted? ==> value == Ok(TRUE) || (value == Err && !total))
  {
    hide RowOutcome, FilterConditions, TableConditions, Eval, Exact, Junction, EvalAll, RowOf;
    ConditionsExact(columns, plan, row, server, total);
    var base := Base(plan).value;
    var pushed := TableConditions(columns, base.columnIds, base.filters).value;
    var filters := FilterConditions(columns, plan).value;
    var p, f := EvalAll(pushed, row.stored, server), EvalAll(filters, row.stored, server);
    EvalAllConcat(pushed, filters, row.stored, server);
    assert forall c :: c in p + f <==> c in f + p;
    NearlyTrue(p + f);
    KeepMeaning(p + f);
  }

  lemma NearlyTrue(results: seq<Res>)
    ensures (forall r :: r in results ==> r == Ok(TRUE) || r == Err) ==>
      Junction(true, results) == Ok(TRUE) || Junction(true, results) == Err
  {
    if forall r :: r in results ==> r == Ok(TRUE) || r == Err {
      assert Ok(FALSE) !in results && Ok(Null) !in results;
    }
  }

  // ---------------------------------------------------------------- DELETE

  datatype DeleteStatement = UnboundDelete | DeleteNothing | Truncate | DeleteWhere(conditions: seq<Sql>)

  predicate EndsWith(text: string, suffix: string) {
    |suffix| <= |text| && text[|text| - |suffix|..] == suffix
  }

  predicate TruncateRemovesRows(engine: string) {
    EndsWith(engine, "MergeTree") || engine in {"Memory", "Log", "TinyLog", "StripeLog", "Set", "Join"}
  }

  function PlanDelete(columns: seq<ColumnInfo>, plan: Plan, engine: string, returning: bool): Option<DeleteStatement> {
    if returning then None
    else
      var target :- Analyze(columns, plan);
      match target
      case UnboundParameters => Some(UnboundDelete)
      case MatchesNothing => Some(DeleteNothing)
      case Where(conditions) =>
        if conditions != [] then Some(DeleteWhere(conditions))
        else if TruncateRemovesRows(engine) then Some(Truncate)
        else None
  }

  /** Whether TRUNCATE TABLE, as the engine's documentation has it, empties a table; a parameter of the result below. */
  type Empties = string -> bool

  function RowsLeft(plan: Plan, rows: seq<Row>, server: Server): seq<Row> {
    if rows == [] then []
    else
      var rest := RowsLeft(plan, rows[1..], server);
      if RowOutcome(plan, rows[0], server).Emitted? then rest else [rows[0]] + rest
  }

  function RowsWhere(conditions: seq<Sql>, rows: seq<Row>, server: Server, matching: bool): (r: seq<Row>) {
    if rows == [] then []
    else
      var rest := RowsWhere(conditions, rows[1..], server, matching);
      if (PredicateValue(conditions, rows[0], server) == Ok(TRUE)) == matching then [rows[0]] + rest else rest
  }

  /** The rows left after the statement, and the number count_sql gives before it. */
  function RowsAfter(statement: DeleteStatement, engine: string, empties: Empties, rows: seq<Row>, server: Server):
    seq<Row>
  {
    match statement
    case Truncate => if empties(engine) then [] else rows
    case DeleteWhere(conditions) => RowsWhere(conditions, rows, server, false)
    case _ => rows
  }

  function RowCount(statement: DeleteStatement, rows: seq<Row>, server: Server): nat {
    match statement
    case Truncate => |rows|
    case DeleteWhere(conditions) => |RowsWhere(conditions, rows, server, true)|
    case _ => 0
  }

  /** DuckDB and the server both get through the table. */
  ghost predicate Completes(columns: seq<ColumnInfo>, plan: Plan, rows: seq<Row>, server: Server) {
    forall k :: 0 <= k < |rows| ==>
      RowOf(rows[k], columns) && !RowOutcome(plan, rows[k], server).Fails? &&
      (Analyze(columns, plan).Some? && Analyze(columns, plan).value.Where? ==>
        PredicateValue(Analyze(columns, plan).value.conditions, rows[k], server).Ok?)
  }

  /** Both make alike the comparisons that matter on the table's rows. */
  ghost predicate AllExact(plan: Plan, rows: seq<Row>, server: Server) {
    forall k :: 0 <= k < |rows| ==> Exact(plan, rows[k], server, false)
  }

  /** A DELETE leaves exactly the rows DuckDB's would leave, in order, and its count is the number it removed. */
  lemma DeleteExact(columns: seq<ColumnInfo>, plan: Plan, engine: string, empties: Empties, rows: seq<Row>,
                    server: Server)
    requires Completes(columns, plan, rows, server) && AllExact(plan, rows, server)
    requires PlanDelete(columns, plan, engine, false).Some?
    requires !PlanDelete(columns, plan, engine, false).value.UnboundDelete?
    requires TruncateRemovesRows(engine) ==> empties(engine)
    ensures var statement := PlanDelete(columns, plan, engine, false).value;
      RowsAfter(statement, engine, empties, rows, server) == RowsLeft(plan, rows, server) &&
      RowCount(statement, rows, server) == |rows| - |RowsLeft(plan, rows, server)|
  {
    hide RowOutcome, PredicateValue, Exact, TruncateRemovesRows, Analyze, RowOf;
    var target := Analyze(columns, plan).value;
    if target.MatchesNothing? {
      NothingLeft(columns, plan, rows, server);
    } else {
      WhereExact(columns, plan, rows, server);
      if target.conditions == [] {
        AllMatch(rows, server);
      }
    }
  }

  lemma {:induction false} WhereExact(columns: seq<ColumnInfo>, plan: Plan, rows: seq<Row>, server: Server)
    requires Completes(columns, plan, rows, server) && AllExact(plan, rows, server)
    requires Analyze(columns, plan).Some? && Analyze(columns, plan).value.Where?
    ensures var conditions := Analyze(columns, plan).value.conditions;
      RowsWhere(conditions, rows, server, false) == RowsLeft(plan, rows, server) &&
      |RowsWhere(conditions, rows, server, true)| == |rows| - |RowsLeft(plan, rows, server)|
  {
    hide RowOutcome, PredicateValue, Exact, Analyze, RowOf;
    if rows != [] {
      assert Completes(columns, plan, rows[1..], server) && AllExact(plan, rows[1..], server);
      WhereExact(columns, plan, rows[1..], server);
      PredicateExact(columns, plan, rows[0], server, false);
    }
  }

  lemma {:induction false} AllMatch(rows: seq<Row>, server: Server)
    ensures RowsWhere([], rows, server, false) == []
  {
    if rows != [] {
      AllMatch(rows[1..], server);
      ConjunctionTrue([]);
    }
  }

  /** DuckDB's EMPTY_RESULT, under any filters and projections, outputs no row. */
  lemma {:induction false} NothingEmitted(plan: Plan, row: Row, server: Server)
    requires Base(plan) == Some(EmptyResult)
    ensures RowOutcome(plan, row, server).Dropped?
  {
    match plan
    case Filter(child, _, _) => NothingEmitted(child, row, server);
    case Projection(child, _) => NothingEmitted(child, row, server);
    case MarkJoin(child, _, _, _, _) => NothingEmitted(child, row, server);
    case _ =>
  }

  lemma {:induction false} NothingLeft(columns: seq<ColumnInfo>, plan: Plan, rows: seq<Row>, server: Server)
    requires Analyze(columns, plan) == Some(MatchesNothing)
    ensures RowsLeft(plan, rows, server) == rows
  {
    hide RowOutcome, PlanHasParameters;
    if rows != [] {
      NothingEmitted(plan, rows[0], server);
      NothingLeft(columns, plan, rows[1..], server);
    }
  }
}
