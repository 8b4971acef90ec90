/** On which rows filters of comparisons are exact (src/storage/clickhouse_dml.cpp). */
module DmlComparisons {
  import opened Options
  import opened LogicalTypes
  import opened Values
  import opened Comparisons
  import opened Casts
  import opened TypeParser
  import opened Sql
  import opened Expressions
  import opened Dml
  import opened DmlExact

  // ---------------------------------------------------------------- comparisons of columns and constants

  predicate IsOperand(e: Expr) {
    e.Ref? || e.Const?
  }

  predicate IsComparison(e: Expr) {
    e.CompareExpr? && e.comparison.Plain? && IsOperand(e.left) && IsOperand(e.right)
  }

  /** WHERE with nothing but comparisons, over a scan. */
  function ComparisonPlan(columnIds: seq<ColumnIndex>, es: seq<Expr>): Plan {
    Filter(Get(true, columnIds, [], [], false), es, [])
  }

  function OperandValue(e: Expr, values: seq<Value>): Value {
    if e.Ref? then At(values, e.index) else if e.Const? then e.value else Null
  }

  /** Whether a comparison keeps the row out on the server: one that is TRUE in DuckDB does unless both make it alike,
      another one does unless it is reversed. */
  predicate KeepsOut(e: Expr, values: seq<Value>)
    requires IsComparison(e)
  {
    var op, x, y := e.comparison.op, OperandValue(e.left, values), OperandValue(e.right, values);
    if Compare(op, x, y) == Ok(TRUE) then !ComparedAlike(op, x, y) else !Reversed(op, x, y)
  }

  lemma KeepsOutExactly(e: Expr, values: seq<Value>)
    requires IsComparison(e)
    ensures var x, y := OperandValue(e.left, values), OperandValue(e.right, values);
      ServerCompare(e.comparison.op, x, y) == Ok(TRUE) <==> !KeepsOut(e, values)
  {
    hide ServerCompare, Decide, SurelyDiffer, OrderedAlike, Precedes, Holds, Judged, OperandValue, Compare, Undecided,
      Reversed;
    var op, x, y := e.comparison.op, OperandValue(e.left, values), OperandValue(e.right, values);
    Judgement(op, x, y);
    VerdictKept(Compare(op, x, y), ServerCompare(op, x, y), Undecided(op, x, y), Reversed(op, x, y));
  }

  lemma VerdictKept(duck: Res, server: Res, undecided: bool, reversed: bool)
    requires Judged(duck, server, undecided, reversed)
    ensures server == Ok(TRUE) <==> if duck == Ok(TRUE) then !undecided && !reversed else reversed
  {
  }

  lemma OperandSql(columns: seq<ColumnInfo>, columnIds: seq<ColumnIndex>, e: Expr, row: Row, server: Server)
    requires RowOf(row, columns) && IsOperand(e)
    requires Translate(e, ResolverOf(columns, Get(true, columnIds, [], [], false))).Some?
    ensures Eval(Translate(e, ResolverOf(columns, Get(true, columnIds, [], [], false))).value, row.stored, server) ==
            Ok(OperandValue(e, ScanValues(columnIds, row)))
  {
    hide IsComparedExactly, LiteralSql;
    var scan := Get(true, columnIds, [], [], false);
    if e.Const? {
      LiteralExact(e.value, row.stored, server);
    } else {
      assert ResolverOf(columns, scan)(e.index) == ResolveOutput(columns, scan, e.index);
      assert ScanValues(columnIds, row)[e.index] == ScanValue(columnIds[e.index], row);
    }
  }

  lemma ComparisonSql(columns: seq<ColumnInfo>, columnIds: seq<ColumnIndex>, e: Expr, row: Row, server: Server)
    requires RowOf(row, columns) && IsComparison(e)
    requires FilterExpressionSql(columns, e, Get(true, columnIds, [], [], false)).Some?
    ensures var values := ScanValues(columnIds, row);
      Eval(FilterExpressionSql(columns, e, Get(true, columnIds, [], [], false)).value, row.stored, server) ==
      ServerCompare(e.comparison.op, OperandValue(e.left, values), OperandValue(e.right, values))
  {
    hide ServerCompare, OperandValue, ResolverOf, RowOf;
    OperandSql(columns, columnIds, e.left, row, server);
    OperandSql(columns, columnIds, e.right, row, server);
  }

  lemma {:induction false} ComparisonsSql(columns: seq<ColumnInfo>, columnIds: seq<ColumnIndex>, es: seq<Expr>,
                                          row: Row, server: Server)
    requires RowOf(row, columns) && forall k :: 0 <= k < |es| ==> IsComparison(es[k])
    requires FilterExpressionsSql(columns, es, Get(true, columnIds, [], [], false)).Some?
    ensures var sql := FilterExpressionsSql(columns, es, Get(true, columnIds, [], [], false)).value;
      forall k :: 0 <= k < |es| ==>
        (EvalAll(sql, row.stored, server)[k] == Ok(TRUE) <==> !KeepsOut(es[k], ScanValues(columnIds, row)))
  {
    hide FilterExpressionSql, Eval, RowOf, KeepsOut, IsComparison;
    if es != [] {
      ComparisonSql(columns, columnIds, es[0], row, server);
      KeepsOutExactly(es[0], ScanValues(columnIds, row));
      ComparisonsSql(columns, columnIds, es[1..], row, server);
    }
  }

  lemma {:induction false} ComparesNoParameter(es: seq<Expr>)
    requires forall k :: 0 <= k < |es| ==> IsComparison(es[k])
    ensures !AnyHasParameter(es)
  {
    if es != [] {
      assert !HasParameter(es[0].left) && !HasParameter(es[0].right);
      ComparesNoParameter(es[1..]);
    }
  }

  lemma ComparisonConditions(columns: seq<ColumnInfo>, columnIds: seq<ColumnIndex>, es: seq<Expr>)
    requires forall k :: 0 <= k < |es| ==> IsComparison(es[k])
    requires FilterExpressionsSql(columns, es, Get(true, columnIds, [], [], false)).Some?
    ensures Analyze(columns, ComparisonPlan(columnIds, es)) ==
            Some(Where(FilterExpressionsSql(columns, es, Get(true, columnIds, [], [], false)).value))
  {
    hide FilterExpressionsSql, IsComparison;
    var plan := ComparisonPlan(columnIds, es);
    var conditions := FilterExpressionsSql(columns, es, plan.child).value;
    ComparesNoParameter(es);
    assert !PlanHasParameters(plan.child) && Base(plan) == Some(plan.child);
    assert FilterConditions(columns, plan.child) == Some([]);
    assert [] + (conditions + []) == conditions;
  }

  /** A WHERE of comparisons selects the row if and only if DuckDB does, exactly if no comparison keeps out a row they
      are all TRUE on, and one does keep out any other row. */
  lemma ComparisonsExactly(columns: seq<ColumnInfo>, columnIds: seq<ColumnIndex>, es: seq<Expr>, row: Row,
                           server: Server)
    requires RowOf(row, columns) && forall k :: 0 <= k < |es| ==> IsComparison(es[k])
    requires FilterExpressionsSql(columns, es, Get(true, columnIds, [], [], false)).Some?
    ensures var plan := ComparisonPlan(columnIds, es);
      var target := Analyze(columns, plan);
      var values := ScanValues(columnIds, row);
      var outcome := RowOutcome(plan, row, server);
      target.Some? && target.value.Where? &&
      ((PredicateValue(target.value.conditions, row, server) == Ok(TRUE) <==> outcome.Emitted?) <==>
       if outcome.Emitted? then forall k :: 0 <= k < |es| ==> !KeepsOut(es[k], values)
       else exists k :: 0 <= k < |es| && KeepsOut(es[k], values))
  {
    hide FilterExpressionsSql, KeepsOut, IsComparison, RowOutcome, RowOf;
    var sql := FilterExpressionsSql(columns, es, Get(true, columnIds, [], [], false)).value;
    ComparisonConditions(columns, columnIds, es);
    ComparisonsSql(columns, columnIds, es, row, server);
    ConjunctionTrue(EvalAll(sql, row.stored, server));
  }

  // ---------------------------------------------------------------- one comparison

  /** The same for one comparison, and DuckDB's side of it spelled out. */
  lemma ComparisonFilterExactly(columns: seq<ColumnInfo>, columnIds: seq<ColumnIndex>, e: Expr, row: Row,
                                server: Server)
    requires RowOf(row, columns) && IsComparison(e)
    requires FilterExpressionsSql(columns, [e], Get(true, columnIds, [], [], false)).Some?
    requires var values := ScanValues(columnIds, row);
      (e.left.Ref? ==> e.left.index < |values|) && (e.right.Ref? ==> e.right.index < |values|) &&
      HasType(OperandValue(e.left, values), e.operands) && HasType(OperandValue(e.right, values), e.operands)
    ensures var plan := ComparisonPlan(columnIds, [e]);
      var target := Analyze(columns, plan);
      var values := ScanValues(columnIds, row);
      var op, x, y := e.comparison.op, OperandValue(e.left, values), OperandValue(e.right, values);
      target.Some? && target.value.Where? &&
      (RowOutcome(plan, row, server).Emitted? <==> Compare(op, x, y) == Ok(TRUE)) &&
      ((PredicateValue(target.value.conditions, row, server) == Ok(TRUE) <==>
        RowOutcome(plan, row, server).Emitted?) <==>
       if Compare(op, x, y) == Ok(TRUE) then ComparedAlike(op, x, y) else !Reversed(op, x, y))
  {
    hide FilterExpressionsSql, RowOf, Compare, ServerCompare, Analyze, PredicateValue, HasType, Undecided, Reversed;
    ComparisonsExactly(columns, columnIds, [e], row, server);
    var values := ScanValues(columnIds, row);
    OperandsEmitted(columnIds, e, row, server);
    assert [e][0] == e;
    assert (exists k :: 0 <= k < |[e]| && KeepsOut([e][k], values)) <==> KeepsOut(e, values);
    assert (forall k :: 0 <= k < |[e]| ==> !KeepsOut([e][k], values)) <==> !KeepsOut(e, values);
  }

  lemma OperandsEmitted(columnIds: seq<ColumnIndex>, e: Expr, row: Row, server: Server)
    requires IsComparison(e)
    requires var values := ScanValues(columnIds, row);
      (e.left.Ref? ==> e.left.index < |values|) && (e.right.Ref? ==> e.right.index < |values|) &&
      HasType(OperandValue(e.left, values), e.operands) && HasType(OperandValue(e.right, values), e.operands)
    ensures var values := ScanValues(columnIds, row);
      RowOutcome(ComparisonPlan(columnIds, [e]), row, server).Emitted? <==>
      Compare(e.comparison.op, OperandValue(e.left, values), OperandValue(e.right, values)) == Ok(TRUE)
  {
    hide Compare, HasType;
    var plan, values := ComparisonPlan(columnIds, [e]), ScanValues(columnIds, row);
    ConjunctionTrue([]);
    assert RowOutcome(plan.child, row, server) == Emitted(values);
    ComparisonValue(e, values, server);
    var results := [DuckEval(e, values, server)];
    assert [e][1..] == [];
    assert DuckEvalAll([e], values, server) == results;
    ConjunctionTrue(results);
    assert Junction(true, results) == Ok(TRUE) <==> results[0] == Ok(TRUE);
    assert RowOutcome(plan, row, server) == Keep(Junction(true, results), values);
  }

  lemma ComparisonValue(e: Expr, values: seq<Value>, server: Server)
    requires IsComparison(e)
    requires (e.left.Ref? ==> e.left.index < |values|) && (e.right.Ref? ==> e.right.index < |values|)
    requires HasType(OperandValue(e.left, values), e.operands) && HasType(OperandValue(e.right, values), e.operands)
    ensures DuckEval(e, values, server) ==
            Compare(e.comparison.op, OperandValue(e.left, values), OperandValue(e.right, values))
  {
    hide Compare, HasType;
    assert DuckEval(e.left, values, server) == Ok(OperandValue(e.left, values));
    assert DuckEval(e.right, values, server) == Ok(OperandValue(e.right, values));
  }

  // ---------------------------------------------------------------- ordered UUIDs

  /** WHERE u <op> c over a scan of one UUID column. */
  function UuidPlan(op: Comparison, c: Value): Plan {
    ComparisonPlan([Whole(0)], [CompareExpr(Plain(op), Ref(0), Const(c), UuidType)])
  }

  /** An accepted filter that orders UUIDs selects the rows DuckDB would exactly when the two halves of the UUIDs are
      ordered the same way. */
  lemma UuidFilterExactly(op: Comparison, c: Value, u: Value, column: ColumnInfo, server: Server)
    requires op.IsOrdered() && c.Uuid? && u.Uuid? && HasType(c, UuidType) && HasType(u, UuidType)
    requires column.readable && IsComparedExactly(column.node)
    ensures var target := Analyze([column], UuidPlan(op, c));
      var row := Row([u], [u]);
      target.Some? && target.value.Where? &&
      ((PredicateValue(target.value.conditions, row, server) == Ok(TRUE) <==>
        RowOutcome(UuidPlan(op, c), row, server).Emitted?) <==> HalvesAgree(u, c))
  {
    hide IsComparedExactly, Analyze, RowOutcome, PredicateValue, Translate, FilterExpressionsSql, Compare, HasType;
    var e, row := CompareExpr(Plain(op), Ref(0), Const(c), UuidType), Row([u], [u]);
    UuidAccepted(op, c, column);
    assert ScanValues([Whole(0)], row) == [u];
    ComparisonFilterExactly([column], [Whole(0)], e, row, server);
    assert Comparable(u, c);
  }

  lemma UuidAccepted(op: Comparison, c: Value, column: ColumnInfo)
    requires c.Uuid? && column.readable && IsComparedExactly(column.node)
    ensures FilterExpressionsSql([column], [CompareExpr(Plain(op), Ref(0), Const(c), UuidType)],
                                 Get(true, [Whole(0)], [], [], false)).Some?
  {
    hide IsComparedExactly;
    var e, scan := CompareExpr(Plain(op), Ref(0), Const(c), UuidType), Get(true, [Whole(0)], [], [], false);
    assert ResolveOutput([column], scan, 0) == Some(Column(0));
    assert Translate(e, ResolverOf([column], scan)) == Some(CompareSql(op, Column(0), Literal(c)));
    assert [e][1..] == [];
    assert FilterExpressionsSql([column], [], scan) == Some([]);
  }

  /** One such row: DuckDB orders the first halves, the server the second. */
  lemma UuidFilterDiffers(server: Server)
    ensures var u, c := Uuid(1, 0), Uuid(0, 1);
      var column := ColumnInfo("u", TypeNode("UUID", [], [], [], "UUID"), true, UuidType);
      var target := Analyze([column], UuidPlan(Greater, c));
      target.Some? && target.value.Where? &&
      RowOutcome(UuidPlan(Greater, c), Row([u], [u]), server).Emitted? &&
      PredicateValue(target.value.conditions, Row([u], [u]), server) != Ok(TRUE)
  {
    hide Analyze, RowOutcome, PredicateValue, FilterExpressionsSql;
    var u, c := Uuid(1, 0), Uuid(0, 1);
    var column := ColumnInfo("u", TypeNode("UUID", [], [], [], "UUID"), true, UuidType);
    var e := CompareExpr(Plain(Greater), Ref(0), Const(c), UuidType);
    UuidAccepted(Greater, c, column);
    assert ScanValues([Whole(0)], Row([u], [u])) == [u];
    ComparisonFilterExactly([column], [Whole(0)], e, Row([u], [u]), server);
    UuidFilterExactly(Greater, c, u, column, server);
  }

  // ---------------------------------------------------------------- Tuples

  /** WHERE a <op> b over a scan of two columns. */
  function PairPlan(op: Comparison, operands: LogicalType): Plan {
    ComparisonPlan([Whole(0), Whole(1)], [CompareExpr(Plain(op), Ref(0), Ref(1), operands)])
  }

  /** An accepted filter on two columns of any type, nested or not, selects the rows DuckDB would exactly when the two
      systems make the comparison alike, or find it other than TRUE both. */
  lemma PairFilterExactly(op: Comparison, a: Value, b: Value, first: ColumnInfo, second: ColumnInfo,
                          operands: LogicalType, server: Server)
    requires HasType(a, operands) && HasType(b, operands)
    requires first.readable && second.readable && IsComparedExactly(first.node) && IsComparedExactly(second.node)
    ensures var plan := PairPlan(op, operands);
      var target := Analyze([first, second], plan);
      var row := Row([a, b], [a, b]);
      target.Some? && target.value.Where? &&
      (RowOutcome(plan, row, server).Emitted? <==> Compare(op, a, b) == Ok(TRUE)) &&
      ((PredicateValue(target.value.conditions, row, server) == Ok(TRUE) <==>
        RowOutcome(plan, row, server).Emitted?) <==>
       if Compare(op, a, b) == Ok(TRUE) then ComparedAlike(op, a, b) else !Reversed(op, a, b))
  {
    hide IsComparedExactly, Analyze, RowOutcome, PredicateValue, FilterExpressionsSql, Compare, HasType, ComparedAlike,
      Reversed;
    var e, row := CompareExpr(Plain(op), Ref(0), Ref(1), operands), Row([a, b], [a, b]);
    PairAccepted(e, first, second);
    assert ScanValues([Whole(0), Whole(1)], row) == [a, b];
    ComparisonFilterExactly([first, second], [Whole(0), Whole(1)], e, row, server);
  }

  lemma PairAccepted(e: Expr, first: ColumnInfo, second: ColumnInfo)
    requires IsComparison(e) && e.left == Ref(0) && e.right == Ref(1)
    requires first.readable && second.readable && IsComparedExactly(first.node) && IsComparedExactly(second.node)
    ensures FilterExpressionsSql([first, second], [e], Get(true, [Whole(0), Whole(1)], [], [], false)).Some?
  {
    hide IsComparedExactly;
    var columns, scan := [first, second], Get(true, [Whole(0), Whole(1)], [], [], false);
    assert ResolveOutput(columns, scan, 0) == Some(Column(0)) && ResolveOutput(columns, scan, 1) == Some(Column(1));
    assert Translate(e, ResolverOf(columns, scan)) == Some(CompareSql(e.comparison.op, Column(0), Column(1)));
    assert [e][1..] == [];
    assert FilterExpressionsSql(columns, [], scan) == Some([]);
  }

  /** One such row: two Tuples (1, NULL) are equal in DuckDB, and a comparison with NULL on the server. */
  lemma TupleFilterDiffers(server: Server)
    ensures var int32 := TypeNode("Int32", [], [], [], "Int32");
      var nullable := TypeNode("Nullable", [int32], [], [], "Nullable(Int32)");
      var node := TypeNode("Tuple", [int32, nullable], ["x", "y"], [], "Tuple(x Int32, y Nullable(Int32))");
      var kind := StructType(["x", "y"], [IntegerType(32, true), IntegerType(32, true)]);
      var column := ColumnInfo("t", node, true, kind);
      var t := StructOf([Int(1), Null]);
      var target := Analyze([column, column], PairPlan(Equal, kind));
      target.Some? && target.value.Where? &&
      RowOutcome(PairPlan(Equal, kind), Row([t, t], [t, t]), server).Emitted? &&
      PredicateValue(target.value.conditions, Row([t, t], [t, t]), server) != Ok(TRUE)
  {
    hide Analyze, RowOutcome, PredicateValue, Compare, Undecided, Reversed;
    var int32 := TypeNode("Int32", [], [], [], "Int32");
    var nullable := TypeNode("Nullable", [int32], [], [], "Nullable(Int32)");
    var node := TypeNode("Tuple", [int32, nullable], ["x", "y"], [], "Tuple(x Int32, y Nullable(Int32))");
    var kind := StructType(["x", "y"], [IntegerType(32, true), IntegerType(32, true)]);
    var column, t := ColumnInfo("t", node, true, kind), StructOf([Int(1), Null]);
    assert IsComparedExactly(int32) && IsComparedExactly(nullable) && IsComparedExactly(node) by {
      assert [int32, nullable][1..] == [nullable] && [nullable][1..] == [] && [int32][1..] == [];
      assert AllComparedExactly([int32]) && AllComparedExactly([nullable]) && AllComparedExactly([int32, nullable]);
    }
    assert HasType(t, kind);
    PairFilterExactly(Equal, t, t, column, column, kind, server);
    NullMet();
  }

  lemma NullMet()
    ensures var t := StructOf([Int(1), Null]); Undecided(Equal, t, t) && Compare(Equal, t, t) == Ok(TRUE)
  {
    var t := StructOf([Int(1), Null]);
    assert t.fields[1..][0] == Null && Decide(t, t) == DecidedBy(Null, Null);
    assert !SurelyDiffer(t.fields[0], t.fields[0]) && !SurelyDiffer(t.fields[1], t.fields[1]);
  }
}
