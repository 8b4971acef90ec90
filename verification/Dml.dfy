/** UPDATE and DELETE: from the logical plan below the statement to one exact ClickHouse predicate
    (src/storage/clickhouse_dml.cpp). */
module Dml {
  import opened Options
  import opened LogicalTypes
  import opened Values
  import opened TypeParser
  import opened TypeMapping
  import opened Sql
  import opened Expressions

  // ---------------------------------------------------------------- tables and plans

  datatype ColumnInfo = ColumnInfo(name: string, node: TypeNode, readable: bool, kind: LogicalType)

  /** A column the scan outputs: a table column, rowid, or a table column of which only a nested field is needed. */
  datatype ColumnIndex = Whole(id: nat) | Virtual | Nested(id: nat, path: seq<nat>)

  /** A filter DuckDB pushed into the scan, on the column at `position` of the scan's column ids. */
  datatype TableFilter = TableFilter(position: nat, expression: Expr)

  /** The plan below the DML operator, every reference an index into the output of the operator below. `exactShape`
      says whether a MARK join over constants is exactly what InClauseRewriter builds (ValidateInListJoin). */
  datatype Plan =
    | Get(modifiedTable: bool, columnIds: seq<ColumnIndex>, projectionIds: seq<nat>, filters: seq<TableFilter>,
          limited: bool)
    | Filter(child: Plan, expressions: seq<Expr>, projectionMap: seq<nat>)
    | Projection(child: Plan, expressions: seq<Expr>)
    | MarkJoin(child: Plan, leftMap: seq<nat>, lhs: Expr, constants: seq<Value>, exactShape: bool)
    | EmptyResult
    | OtherPlan(arity: nat)

  /** A row: what the columns' read expressions give on the server, and the values DuckDB reads. */
  datatype Row = Row(stored: seq<Value>, read: seq<Value>)

  /** FixedString's padding and digits beyond microseconds are the differences between the two. */
  predicate IsComparedExactly(node: TypeNode)
    decreases node, 1
  {
    node.name != "FixedString" &&
    (node.name == "DateTime64" ==> IntegerLiteral(node, 0, 3).Some? && IntegerLiteral(node, 0, 3).value <= 6) &&
    AllComparedExactly(node.children)
  }

  predicate AllComparedExactly(nodes: seq<TypeNode>)
    decreases nodes, 0
  {
    nodes == [] || (IsComparedExactly(nodes[0]) && AllComparedExactly(nodes[1..]))
  }

  ghost predicate RowOf(row: Row, columns: seq<ColumnInfo>) {
    |row.stored| == |columns| && |row.read| == |columns| &&
    forall id :: 0 <= id < |columns| && IsComparedExactly(columns[id].node) ==> row.stored[id] == row.read[id]
  }

  // ---------------------------------------------------------------- DuckDB's plan, row by row

  /** What a plan makes of one table row. Every operator here works row by row and outputs a row at most once. */
  datatype Outcome = Emitted(tuple: seq<Value>) | Dropped | Fails

  function At(tuple: seq<Value>, index: nat): Value {
    if index < |tuple| then tuple[index] else Null
  }

  function Select(tuple: seq<Value>, projectionMap: seq<nat>): (r: seq<Value>)
    ensures |r| == if projectionMap == [] then |tuple| else |projectionMap|
  {
    if projectionMap == [] then tuple
    else seq(|projectionMap|, k requires 0 <= k < |projectionMap| => At(tuple, projectionMap[k]))
  }

  /** rowid is always NULL. Which field is needed is a hint to the scan: it reads the whole column, and a filter pushed
      into it is on the whole value. References to such a column from above are all refused. */
  function ScanValue(column: ColumnIndex, row: Row): Value {
    if column.Virtual? then Null else At(row.read, column.id)
  }

  function ScanValues(columnIds: seq<ColumnIndex>, row: Row): (r: seq<Value>)
    ensures |r| == |columnIds|
    ensures forall k :: 0 <= k < |r| ==> r[k] == ScanValue(columnIds[k], row)
  {
    seq(|columnIds|, k requires 0 <= k < |columnIds| => ScanValue(columnIds[k], row))
  }

  function TableFilterResults(filters: seq<TableFilter>, values: seq<Value>, server: Server): (r: seq<Res>)
    ensures |r| == |filters|
  {
    if filters == [] then []
    else [DuckEval(filters[0].expression, [At(values, filters[0].position)], server)] +
         TableFilterResults(filters[1..], values, server)
  }

  function Keep(condition: Res, tuple: seq<Value>): Outcome {
    if condition == Ok(TRUE) then Emitted(tuple) else if condition.Ok? then Dropped else Fails
  }

  function RowOutcome(plan: Plan, row: Row, server: Server): Outcome {
    match plan
    case Get(_, columnIds, projectionIds, filters, _) =>
      var values := ScanValues(columnIds, row);
      Keep(Junction(true, TableFilterResults(filters, values, server)), Select(values, projectionIds))
    case Filter(child, expressions, projectionMap) =>
      var below := RowOutcome(child, row, server);
      if !below.Emitted? then below
      else Keep(Junction(true, DuckEvalAll(expressions, below.tuple, server)), Select(below.tuple, projectionMap))
    case Projection(child, expressions) =>
      var below := RowOutcome(child, row, server);
      if !below.Emitted? then below
      else
        var results := Collect(DuckEvalAll(expressions, below.tuple, server));
        if results.Results? then Emitted(results.values) else Fails
    case MarkJoin(child, leftMap, lhs, constants, _) =>
      var below := RowOutcome(child, row, server);
      if !below.Emitted? then below
      else
        var x := DuckEval(lhs, below.tuple, server);
        if x.Ok? then Emitted(Select(below.tuple, leftMap) + [DuckIn(x.value, constants).value]) else Fails
    case EmptyResult => Dropped
    case OtherPlan(_) => Fails
  }

  // ---------------------------------------------------------------- references

  /** How many columns an operator outputs. */
  function Arity(plan: Plan): nat {
    match plan
    case Get(_, columnIds, projectionIds, _, _) => if projectionIds == [] then |columnIds| else |projectionIds|
    case Filter(child, _, projectionMap) => if projectionMap == [] then Arity(child) else |projectionMap|
    case Projection(_, expressions) => |expressions|
    case MarkJoin(child, leftMap, _, _, _) => (if leftMap == [] then Arity(child) else |leftMap|) + 1
    case EmptyResult => 0
    case OtherPlan(arity) => arity
  }

  datatype Step =
    | PassThrough(next: Plan, index: nat)
    | ScanColumn(column: ColumnIndex)
    | ProjectionExpression(operator: Plan, index: nat)
    | MarkColumn(join: Plan)
    | Unresolved

  /** What the operator itself says about its output column `index`; None where ValidateInListJoin throws. */
  function StepReference(plan: Plan, index: nat): (r: Option<Step>)
    ensures r.Some? && r.value.PassThrough? ==> r.value.next < plan
    ensures r.Some? && r.value.MarkColumn? ==> r.value.join == plan && plan.MarkJoin?
    ensures r.Some? && r.value.ProjectionExpression? ==>
      r.value.operator == plan && plan.Projection? && r.value.index == index < |plan.expressions|
  {
    match plan
    case Get(_, columnIds, projectionIds, _, _) =>
      if projectionIds != [] && index >= |projectionIds| then Some(Unresolved)
      else
        var position := if projectionIds == [] then index else projectionIds[index];
        if position >= |columnIds| || columnIds[position].Nested? then Some(Unresolved)
        else Some(ScanColumn(columnIds[position]))
    case Filter(child, _, projectionMap) =>
      if projectionMap == [] then Some(PassThrough(child, index))
      else if index >= |projectionMap| then Some(Unresolved)
      else Some(PassThrough(child, projectionMap[index]))
    case Projection(child, expressions) =>
      if index >= |expressions| then Some(Unresolved)
      else if expressions[index].Ref? then Some(PassThrough(child, expressions[index].index))
      else Some(ProjectionExpression(plan, index))
    case MarkJoin(child, leftMap, _, _, exactShape) =>
      if !exactShape then None
      else
        var leftCount := Arity(plan) - 1;
        if index == leftCount then Some(MarkColumn(plan))
        else if index > leftCount then Some(Unresolved)
        else Some(PassThrough(child, if leftMap == [] then index else leftMap[index]))
    case EmptyResult => Some(Unresolved)
    case OtherPlan(_) => Some(Unresolved)
  }

  /** Where an output column comes from, through every operator that hands it on. */
  function Trace(plan: Plan, index: nat): (r: Option<Step>)
    ensures r.Some? ==> !r.value.PassThrough?
    ensures r.Some? && r.value.MarkColumn? ==> r.value.join.MarkJoin? && (r.value.join == plan || r.value.join < plan)
    decreases plan
  {
    var step :- StepReference(plan, index);
    if step.PassThrough? then Trace(step.next, step.index) else Some(step)
  }

  /** The loop on `step`. */
  method TraceReference(plan: Plan, index: nat) returns (step: Option<Step>)
    ensures step == Trace(plan, index)
  {
    step := StepReference(plan, index);
    ghost var at := plan;
    while step.Some? && step.value.PassThrough?
      invariant step.Some? && step.value.PassThrough? ==>
        step.value.next < at && Trace(plan, index) == Trace(step.value.next, step.value.index)
      invariant step.Some? && !step.value.PassThrough? ==> Trace(plan, index) == step
      invariant step.None? ==> Trace(plan, index) == None
      decreases if step.Some? && step.value.PassThrough? then 1 else 0, at
    {
      at := step.value.next;
      step := StepReference(step.value.next, step.value.index);
    }
  }

  function ColumnSql(columns: seq<ColumnInfo>, id: nat): Option<Sql> {
    if id >= |columns| || !columns[id].readable || !IsComparedExactly(columns[id].node) then None
    else Some(Column(id))
  }

  /** SQL for output column `index` of `plan`. */
  function ResolveOutput(columns: seq<ColumnInfo>, plan: Plan, index: nat): Option<Sql>
    decreases plan, 0
  {
    var step :- StepReference(plan, index);
    match step
    case ProjectionExpression(_, _) => Translate(plan.expressions[index], ResolverOf(columns, plan.child))
    case PassThrough(next, below) =>
      if plan.Projection? then Translate(plan.expressions[index], ResolverOf(columns, plan.child))
      else ResolveOutput(columns, next, below)
    case ScanColumn(column) => if column.Whole? then ColumnSql(columns, column.id) else None
    case MarkColumn(_) => None
    case Unresolved => None
  }

  function ResolverOf(columns: seq<ColumnInfo>, plan: Plan): Resolver
    decreases plan, 1
  {
    (index: nat) => ResolveOutput(columns, plan, index)
  }

  // ---------------------------------------------------------------- filters

  function LiteralsSql(values: seq<Value>): (r: Option<seq<Sql>>)
    ensures r.Some? ==> |r.value| == |values|
  {
    if values == [] then Some([])
    else if values[0].Null? then None
    else
      var first :- LiteralSql(values[0]);
      var rest :- LiteralsSql(values[1..]);
      Some([first] + rest)
  }

  /** A filter expression that is an IN-list mark column, or NOT of one, as an IN list. None rejects the statement;
      Some(None) is any other expression. */
  function InListFilter(columns: seq<ColumnInfo>, e: Expr, input: Plan): Option<Option<Sql>> {
    if e.Operator? && e.op.OpNot? && |e.children| != 1 then Some(None)
    else
      var negated := e.Operator? && e.op.OpNot?;
      var inner := if negated then e.children[0] else e;
      if !inner.Ref? then Some(None)
      else
        var traced :- Trace(input, inner.index);
        if !traced.MarkColumn? then Some(None)
        else
          var left :- Translate(traced.join.lhs, ResolverOf(columns, traced.join.child));
          var values :- LiteralsSql(traced.join.constants);
          if values == [] then None else Some(Some(InList(left, values, negated)))
  }

  function FilterExpressionSql(columns: seq<ColumnInfo>, e: Expr, input: Plan): Option<Sql> {
    var inList :- InListFilter(columns, e, input);
    if inList.Some? then inList else Translate(e, ResolverOf(columns, input))
  }

  function FilterExpressionsSql(columns: seq<ColumnInfo>, es: seq<Expr>, input: Plan): (r: Option<seq<Sql>>)
    ensures r.Some? ==> |r.value| == |es|
  {
    if es == [] then Some([])
    else
      var first :- FilterExpressionSql(columns, es[0], input);
      var rest :- FilterExpressionsSql(columns, es[1..], input);
      Some([first] + rest)
  }

  predicate ContainsHint(e: Expr)
    decreases e, 1
  {
    match e
    case RuntimeHint => true
    case OptionalHint(child) => ContainsHint(child)
    case Conjunction(_, children) => AnyContainsHint(children)
    case Operator(_, children) => AnyContainsHint(children)
    case CompareExpr(_, left, right, _) => ContainsHint(left) || ContainsHint(right)
    case Between(input, lower, upper, _, _, _) => ContainsHint(input) || ContainsHint(lower) || ContainsHint(upper)
    case Arithmetic(_, args, _, _) => AnyContainsHint(args)
    case Case(whens, thens, otherwise) => AnyContainsHint(whens) || AnyContainsHint(thens) || ContainsHint(otherwise)
    case CastExpr(child, _, _, _) => ContainsHint(child)
    case Call(_, args, _) => AnyContainsHint(args)
    case _ => false
  }

  predicate AnyContainsHint(es: seq<Expr>)
    decreases es, 0
  {
    es != [] && (ContainsHint(es[0]) || AnyContainsHint(es[1..]))
  }

  function ColumnResolver(column: Sql): Resolver {
    (index: nat) => if index == 0 then Some(column) else None
  }

  /** A filter pushed into the scan. Some(None) is a filter to skip: optional, or an AND of nothing else. */
  function TableFilterSql(e: Expr, column: Sql): Option<Option<Sql>>
    decreases e, 1
  {
    if e.OptionalHint? then Some(None)
    else if ContainsHint(e) && !e.Conjunction? then None
    else if e.Conjunction? then
      var parts :- TableFilterParts(e.children, column, e.kind.And?);
      if parts != [] then Some(Some(Logical(e.kind.And?, parts)))
      else if e.kind.And? then Some(None)
      else None
    else
      var sql :- Translate(e, ColumnResolver(column));
      Some(Some(sql))
  }

  /** The parts of an AND that are not skipped; an OR may not hold one that is. */
  function TableFilterParts(es: seq<Expr>, column: Sql, isAnd: bool): Option<seq<Sql>>
    decreases es, 0
  {
    if es == [] then Some([])
    else
      var part :- TableFilterSql(es[0], column);
      if part.None? && !isAnd then None
      else
        var rest :- TableFilterParts(es[1..], column, isAnd);
        Some(if part.Some? then [part.value] + rest else rest)
  }

  function TableConditions(columns: seq<ColumnInfo>, columnIds: seq<ColumnIndex>, filters: seq<TableFilter>):
    Option<seq<Sql>>
  {
    if filters == [] then Some([])
    else if filters[0].position >= |columnIds| || columnIds[filters[0].position].Virtual? then None
    else
      var column :- ColumnSql(columns, columnIds[filters[0].position].id);
      var sql :- TableFilterSql(filters[0].expression, column);
      var rest :- TableConditions(columns, columnIds, filters[1..]);
      Some(if sql.Some? then [sql.value] + rest else rest)
  }

  // ---------------------------------------------------------------- AnalyzeTarget

  predicate HasParameter(e: Expr)
    decreases e, 1
  {
    match e
    case Parameter => true
    case Conjunction(_, children) => AnyHasParameter(children)
    case Operator(_, children) => AnyHasParameter(children)
    case CompareExpr(_, left, right, _) => HasParameter(left) || HasParameter(right)
    case Between(input, lower, upper, _, _, _) => HasParameter(input) || HasParameter(lower) || HasParameter(upper)
    case Arithmetic(_, args, _, _) => AnyHasParameter(args)
    case Case(whens, thens, otherwise) => AnyHasParameter(whens) || AnyHasParameter(thens) || HasParameter(otherwise)
    case CastExpr(child, _, _, _) => HasParameter(child)
    case Call(_, args, _) => AnyHasParameter(args)
    case OptionalHint(child) => HasParameter(child)
    case _ => false
  }

  predicate AnyHasParameter(es: seq<Expr>)
    decreases es, 0
  {
    es != [] && (HasParameter(es[0]) || AnyHasParameter(es[1..]))
  }

  predicate PlanHasParameters(plan: Plan) {
    match plan
    case Filter(child, expressions, _) => AnyHasParameter(expressions) || PlanHasParameters(child)
    case Projection(child, expressions) => AnyHasParameter(expressions) || PlanHasParameters(child)
    case MarkJoin(child, _, lhs, _, _) => HasParameter(lhs) || PlanHasParameters(child)
    case _ => false
  }

  /** The operator under the filters, projections and IN-list joins; None for a join of another shape. */
  function Base(plan: Plan): (r: Option<Plan>)
    ensures r.Some? ==> !r.value.Filter? && !r.value.Projection? && !r.value.MarkJoin?
  {
    match plan
    case Filter(child, _, _) => Base(child)
    case Projection(child, _) => Base(child)
    case MarkJoin(child, _, _, _, exactShape) => if exactShape then Base(child) else None
    case _ => Some(plan)
  }

  function Appended(before: Option<seq<Sql>>, after: Option<seq<Sql>>): Option<seq<Sql>> {
    if before.Some? && after.Some? then Some(before.value + after.value) else None
  }

  lemma AppendedAssociative(a: Option<seq<Sql>>, b: Option<seq<Sql>>, c: Option<seq<Sql>>)
    ensures Appended(Appended(a, b), c) == Appended(a, Appended(b, c))
  {
    if a.Some? && b.Some? && c.Some? {
      assert a.value + b.value + c.value == a.value + (b.value + c.value);
    }
  }

  lemma AppendedNil(a: Option<seq<Sql>>)
    ensures Appended(a, Some([])) == a && Appended(Some([]), a) == a
  {
    if a.Some? {
      assert a.value + [] == a.value && [] + a.value == a.value;
    }
  }

  /** The conditions of the plan's filters, the topmost filter's first. */
  function FilterConditions(columns: seq<ColumnInfo>, plan: Plan): Option<seq<Sql>> {
    match plan
    case Filter(child, expressions, _) =>
      Appended(FilterExpressionsSql(columns, expressions, child), FilterConditions(columns, child))
    case Projection(child, _) => FilterConditions(columns, child)
    case MarkJoin(child, _, _, _, _) => FilterConditions(columns, child)
    case _ => Some([])
  }

  datatype Target = UnboundParameters | MatchesNothing | Where(conditions: seq<Sql>)

  function Analyze(columns: seq<ColumnInfo>, plan: Plan): Option<Target> {
    if PlanHasParameters(plan) then Some(UnboundParameters)
    else
      var base :- Base(plan);
      if base.EmptyResult? then Some(MatchesNothing)
      else if !base.Get? || !base.modifiedTable || base.limited then None
      else
        var pushed :- TableConditions(columns, base.columnIds, base.filters);
        var filters :- FilterConditions(columns, plan);
        Some(Where(pushed + filters))
  }

  /** FilterConditions over the filters a walk from the top has collected. */
  function CollectedConditions(columns: seq<ColumnInfo>, filters: seq<Plan>): Option<seq<Sql>>
    requires forall f :: f in filters ==> f.Filter?
  {
    if filters == [] then Some([])
    else Appended(FilterExpressionsSql(columns, filters[0].expressions, filters[0].child),
                  CollectedConditions(columns, filters[1..]))
  }

  lemma {:induction false} CollectedSnoc(columns: seq<ColumnInfo>, filters: seq<Plan>, last: Plan)
    requires last.Filter? && forall f :: f in filters ==> f.Filter?
    ensures CollectedConditions(columns, filters + [last]) ==
            Appended(CollectedConditions(columns, filters),
                     FilterExpressionsSql(columns, last.expressions, last.child))
  {
    hide FilterExpressionsSql, Appended;
    var here := FilterExpressionsSql(columns, last.expressions, last.child);
    AppendedNil(here);
    if filters == [] {
      assert [last][1..] == [];
      assert filters + [last] == [last];
    } else {
      assert (filters + [last])[1..] == filters[1..] + [last];
      CollectedSnoc(columns, filters[1..], last);
      AppendedAssociative(FilterExpressionsSql(columns, filters[0].expressions, filters[0].child),
                          CollectedConditions(columns, filters[1..]), here);
    }
  }

  /** AnalyzeTarget: a walk that moves `current` down and collects the filters, then a loop over them. */
  method AnalyzeTarget(columns: seq<ColumnInfo>, plan: Plan) returns (target: Option<Target>)
    ensures target == Analyze(columns, plan)
  {
    hide FilterExpressionsSql, TableConditions;
    if PlanHasParameters(plan) {
      return Some(UnboundParameters);
    }
    var filters: seq<Plan> := [];
    var current := plan;
    AppendedNil(FilterConditions(columns, plan));
    while current.Filter? || current.Projection? || current.MarkJoin?
      invariant forall f :: f in filters ==> f.Filter?
      invariant Base(plan) == Base(current)
      invariant FilterConditions(columns, plan) ==
                Appended(CollectedConditions(columns, filters), FilterConditions(columns, current))
      decreases current
    {
      if current.MarkJoin? && !current.exactShape {
        return None;
      }
      if current.Filter? {
        CollectedSnoc(columns, filters, current);
        AppendedAssociative(CollectedConditions(columns, filters),
                            FilterExpressionsSql(columns, current.expressions, current.child),
                            FilterConditions(columns, current.child));
        filters := filters + [current];
      }
      current := current.child;
    }
    AppendedNil(CollectedConditions(columns, filters));
    if current.EmptyResult? {
      return Some(MatchesNothing);
    }
    if !current.Get? || !current.modifiedTable || current.limited {
      return None;
    }
    var conditions := TableConditions(columns, current.columnIds, current.filters);
    if conditions.None? {
      return None;
    }
    var translated := TranslateFilters(columns, filters);
    if translated.None? {
      return None;
    }
    return Some(Where(conditions.value + translated.value));
  }

  /** The loop that appends each filter's conditions. */
  method TranslateFilters(columns: seq<ColumnInfo>, filters: seq<Plan>) returns (conditions: Option<seq<Sql>>)
    requires forall f :: f in filters ==> f.Filter?
    ensures conditions == CollectedConditions(columns, filters)
  {
    hide FilterExpressionsSql;
    var pushed: seq<Sql> := [];
    assert filters[0..] == filters;
    AppendedNil(CollectedConditions(columns, filters));
    for i := 0 to |filters|
      invariant CollectedConditions(columns, filters) ==
        Appended(Some(pushed), CollectedConditions(columns, filters[i..]))
    {
      var here := FilterExpressionsSql(columns, filters[i].expressions, filters[i].child);
      assert filters[i..][1..] == filters[i + 1..];
      if here.None? {
        return None;
      }
      AppendedAssociative(Some(pushed), here, CollectedConditions(columns, filters[i + 1..]));
      pushed := pushed + here.value;
    }
    AppendedNil(Some(pushed));
    return Some(pushed);
  }
}
