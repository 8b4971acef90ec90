/** UPDATE of a whole table: the statement PlanUpdate builds, and the rows after it (src/storage/clickhouse_dml.cpp). */
module DmlTable {
  import opened Options
  import opened Values
  import opened TypeParser
  import opened Sql
  import opened Expressions
  import opened Dml
  import opened DmlExact
  import opened DmlUpdate

  // ---------------------------------------------------------------- the NULL check

  /** countIf(isNull(value)) over the rows the predicate matches. */
  function NullCount(a: Assignment, conditions: seq<Sql>, rows: seq<Row>, server: Server): nat
    requires a.Assign?
  {
    if rows == [] then 0
    else
      (if PredicateValue(conditions, rows[0], server) == Ok(TRUE) &&
          AssignedValue(a, rows[0].stored, server) == Ok(Null)
       then 1 else 0) + NullCount(a, conditions, rows[1..], server)
  }

  lemma {:induction false} NoneCounted(a: Assignment, conditions: seq<Sql>, rows: seq<Row>, server: Server, k: nat)
    requires a.Assign? && NullCount(a, conditions, rows, server) == 0 && k < |rows|
    requires PredicateValue(conditions, rows[k], server) == Ok(TRUE)
    ensures AssignedValue(a, rows[k].stored, server) != Ok(Null)
  {
    hide PredicateValue, AssignedValue;
    if k > 0 {
      NoneCounted(a, conditions, rows[1..], server, k - 1);
    }
  }

  /** All the counts of the statement's check are zero, so that it goes on to the mutation. */
  predicate NullCheckPasses(conditions: seq<Sql>, assignments: seq<Assignment>, rows: seq<Row>, server: Server) {
    forall i :: 0 <= i < |assignments| && assignments[i].Assign? && assignments[i].counted ==>
      NullCount(assignments[i], conditions, rows, server) == 0
  }

  // ---------------------------------------------------------------- rows and statements

  /** On this row both systems make alike the comparisons of the statement, in its plan and in its new values. */
  predicate UpdateAgrees(plan: Plan, items: seq<SetItem>, row: Row, server: Server, total: bool) {
    var outcome := RowOutcome(plan, row, server);
    Exact(plan, row, server, total) && !outcome.Fails? &&
    (outcome.Emitted? ==> forall i :: 0 <= i < |items| ==>
      ComparesAlike(items[i].value, outcome.tuple, server) && (total ==> NeverFailsOnServer(items[i].value)))
  }

  /** A table's rows: ComparesAlike on each, and the server computes the predicate. */
  ghost predicate Updates(columns: seq<ColumnInfo>, plan: Plan, items: seq<SetItem>, conditions: seq<Sql>,
                          rows: seq<Row>, server: Server, total: bool) {
    forall k :: 0 <= k < |rows| ==>
      RowOf(rows[k], columns) && UpdateAgrees(plan, items, rows[k], server, total) &&
      PredicateValue(conditions, rows[k], server).Ok?
  }

  lemma {:induction false} ItemAt(columns: seq<ColumnInfo>, plan: Plan, items: seq<SetItem>, i: nat)
    requires i < |items| && (forall item :: item in items ==> item.column < |columns|)
    requires AssignItems(columns, plan, items).Some?
    ensures AssignItem(columns, plan, items[i]) == Some(AssignItems(columns, plan, items).value[i])
  {
    hide AssignItem;
    if i > 0 {
      ItemAt(columns, plan, items[1..], i - 1);
    }
  }

  /** What an accepted UPDATE consists of: conditions that select the plan's rows, and an assignment for every item. */
  lemma StatementParts(columns: seq<ColumnInfo>, plan: Plan, items: seq<SetItem>, conditions: seq<Sql>,
                       assignments: seq<Assignment>)
    requires PlanUpdate(columns, plan, items, false) == Some(Update(conditions, assignments))
    ensures Analyze(columns, plan) == Some(Where(conditions)) && |assignments| == |items|
    ensures forall i :: 0 <= i < |items| ==>
      items[i].column < |columns| && AssignItem(columns, plan, items[i]) == Some(assignments[i])
  {
    hide Analyze, AssignItem;
    forall i | 0 <= i < |items|
      ensures items[i].column < |columns| && AssignItem(columns, plan, items[i]) == Some(assignments[i])
    {
      assert items[i] in items;
      ItemAt(columns, plan, items, i);
    }
  }

  /** An UPDATE that has passed its NULL check assigns no NULL that a column cannot hold, at the top or inside any
      Array, Tuple or Map, to any row its predicate matches. */
  lemma UpdateNullSafe(columns: seq<ColumnInfo>, plan: Plan, items: seq<SetItem>, conditions: seq<Sql>,
                       assignments: seq<Assignment>, rows: seq<Row>, server: Server)
    requires PlanUpdate(columns, plan, items, false) == Some(Update(conditions, assignments))
    requires forall k :: 0 <= k < |rows| ==> RowOf(rows[k], columns) && Conforms(rows[k], columns)
    requires forall c :: c in columns ==> AsInClickHouse(c.node)
    requires NullCheckPasses(conditions, assignments, rows, server)
    ensures |assignments| == |items|
    ensures forall k, i :: 0 <= k < |rows| && 0 <= i < |items| && !assignments[i].Skipped? ==>
      items[i].column < |columns| &&
      (PredicateValue(conditions, rows[k], server) == Ok(TRUE) ==>
        NoNullMisplaced(AssignedValue(assignments[i], rows[k].stored, server), columns[items[i].column].node))
  {
    hide PlanUpdate, PredicateValue, RowOf, Conforms, AsInClickHouse, AssignItem, Analyze, AssignedValue, NullCount,
      NoNullMisplaced;
    StatementParts(columns, plan, items, conditions, assignments);
    forall k, i | 0 <= k < |rows| && 0 <= i < |items| && !assignments[i].Skipped?
      ensures items[i].column < |columns| &&
        (PredicateValue(conditions, rows[k], server) == Ok(TRUE) ==>
          NoNullMisplaced(AssignedValue(assignments[i], rows[k].stored, server), columns[items[i].column].node))
    {
      if PredicateValue(conditions, rows[k], server) == Ok(TRUE) {
        if assignments[i].Assign? && assignments[i].counted {
          NoneCounted(assignments[i], conditions, rows, server, k);
        }
        assert columns[items[i].column] in columns;
        AssignmentNullSafe(columns, plan, items[i], rows[k], server);
      }
    }
  }

  ghost predicate NoNullMisplaced(given: Res, node: TypeNode) {
    given.Ok? ==> NullsFit(given.value, node) && !NullOutOfPlace(given.value, node)
  }

  lemma AssignmentNullSafe(columns: seq<ColumnInfo>, plan: Plan, item: SetItem, row: Row, server: Server)
    requires item.column < |columns| && AsInClickHouse(columns[item.column].node)
    requires RowOf(row, columns) && Conforms(row, columns) && AssignItem(columns, plan, item).Some?
    requires var a := AssignItem(columns, plan, item).value;
      !a.Skipped? && (a.Assign? && a.counted ==> AssignedValue(a, row.stored, server) != Ok(Null))
    ensures NoNullMisplaced(AssignedValue(AssignItem(columns, plan, item).value, row.stored, server),
                            columns[item.column].node)
  {
    hide RowOf, Conforms, AsInClickHouse, AssignItem, AssignedValue, NullsFit, NullOutOfPlace;
    var given := AssignedValue(AssignItem(columns, plan, item).value, row.stored, server);
    if given.Ok? {
      NullSafe(columns, plan, item, row, server, given.value);
    }
  }

  // ---------------------------------------------------------------- the table after it

  /** The SET item of a column, if it has one. */
  function ItemOf(items: seq<SetItem>, column: nat): (r: Option<nat>)
    ensures r.Some? ==> r.value < |items| && items[r.value].column == column
    ensures r.None? ==> forall i :: 0 <= i < |items| ==> items[i].column != column
  {
    if items == [] then None
    else if items[0].column == column then Some(0)
    else
      var i :- ItemOf(items[1..], column);
      Some(i + 1)
  }

  /** What a column is to hold after DuckDB's assignment: a column set to itself keeps its value; a type the server
      parses from text gets the value; any other the value cast to the column's type, and floored where that is
      coarser. */
  function NewValue(columns: seq<ColumnInfo>, plan: Plan, item: SetItem, tuple: seq<Value>, server: Server): Res
    requires item.column < |columns|
  {
    var node := columns[item.column].node;
    if SourceColumn(plan, item.value) == Some(item.column) || ConvertedOnServer(node)
    then DuckEval(item.value, tuple, server)
    else Floored(SetValue(columns, item, tuple, server), if IsCoarse(node) then DateTimePrecision(node) else None)
  }

  /** One row after DuckDB's UPDATE. */
  function RowUpdated(columns: seq<ColumnInfo>, plan: Plan, items: seq<SetItem>, row: Row, server: Server):
    (r: seq<Res>)
    ensures |r| == |columns|
  {
    var outcome := RowOutcome(plan, row, server);
    seq(|columns|, c requires 0 <= c < |columns| =>
      if outcome.Emitted? && ItemOf(items, c).Some?
      then NewValue(columns, plan, items[ItemOf(items, c).value], outcome.tuple, server)
      else Ok(At(row.read, c)))
  }

  /** One row after the mutation. */
  function RowMutated(columns: seq<ColumnInfo>, items: seq<SetItem>, conditions: seq<Sql>, assignments: seq<Assignment>,
                      row: Row, server: Server): (r: seq<Res>)
    requires |assignments| == |items|
    ensures |r| == |columns|
  {
    var matches := PredicateValue(conditions, row, server) == Ok(TRUE);
    seq(|columns|, c requires 0 <= c < |columns| =>
      var i := ItemOf(items, c);
      if matches && i.Some? && !assignments[i.value].Skipped?
      then AssignedValue(assignments[i.value], row.stored, server)
      else Ok(At(row.read, c)))
  }

  lemma AssignmentExact(columns: seq<ColumnInfo>, plan: Plan, item: SetItem, row: Row, server: Server, total: bool)
    requires item.column < |columns| && RowOf(row, columns) && Exact(plan, row, server, total)
    requires RowOutcome(plan, row, server).Emitted? && AssignItem(columns, plan, item).Some?
    requires ComparesAlike(item.value, RowOutcome(plan, row, server).tuple, server)
    requires total ==> NeverFailsOnServer(item.value)
    ensures var a := AssignItem(columns, plan, item).value;
      Keeps(NewValue(columns, plan, item, RowOutcome(plan, row, server).tuple, server),
            if a.Skipped? then Ok(At(row.read, item.column)) else AssignedValue(a, row.stored, server), total)
  {
    hide RowOutcome, Exact, ComparesAlike, NeverFailsOnServer, Eval, DuckEval, SetValueSql, SetValue, IsCoarse,
      DateTimePrecision, HoldsCoarseDateTime, ConvertedOnServer, ElementsAccepted, SourceColumn, CanHoldNull,
      ResolveConstant, Floored, ParsedFromTextExactly, Translate;
    AssignExact(columns, plan, item, row, server, total);
  }

  /** The table after the mutation is the table after DuckDB's UPDATE: on every row, every column holds the same value,
      assigned or kept, wherever both compute one; and the server computes one wherever DuckDB does if `total`. */
  lemma UpdateExact(columns: seq<ColumnInfo>, plan: Plan, items: seq<SetItem>, conditions: seq<Sql>,
                    assignments: seq<Assignment>, rows: seq<Row>, server: Server, total: bool)
    requires PlanUpdate(columns, plan, items, false) == Some(Update(conditions, assignments))
    requires Updates(columns, plan, items, conditions, rows, server, total)
    ensures |assignments| == |items|
    ensures forall k :: 0 <= k < |rows| ==>
      AllKeep(RowUpdated(columns, plan, items, rows[k], server),
              RowMutated(columns, items, conditions, assignments, rows[k], server), total)
  {
    hide PlanUpdate, RowUpdated, RowMutated, UpdateAgrees, PredicateValue, RowOf;
    StatementParts(columns, plan, items, conditions, assignments);
    forall k | 0 <= k < |rows|
      ensures AllKeep(RowUpdated(columns, plan, items, rows[k], server),
                      RowMutated(columns, items, conditions, assignments, rows[k], server), total)
    {
      RowExact(columns, plan, items, conditions, assignments, rows[k], server, total);
    }
  }

  lemma RowExact(columns: seq<ColumnInfo>, plan: Plan, items: seq<SetItem>, conditions: seq<Sql>,
                 assignments: seq<Assignment>, row: Row, server: Server, total: bool)
    requires Analyze(columns, plan) == Some(Where(conditions)) && |assignments| == |items|
    requires forall i :: 0 <= i < |items| ==>
      items[i].column < |columns| && AssignItem(columns, plan, items[i]) == Some(assignments[i])
    requires RowOf(row, columns) && UpdateAgrees(plan, items, row, server, total)
    requires PredicateValue(conditions, row, server).Ok?
    ensures AllKeep(RowUpdated(columns, plan, items, row, server),
                    RowMutated(columns, items, conditions, assignments, row, server), total)
  {
    hide RowOutcome, Exact, PredicateValue, RowOf, ComparesAlike, NeverFailsOnServer, AssignItem, Analyze,
      AssignedValue, NewValue, Keeps;
    PredicateExact(columns, plan, row, server, total);
    var duck, mutated := RowUpdated(columns, plan, items, row, server),
      RowMutated(columns, items, conditions, assignments, row, server);
    forall c | 0 <= c < |columns| ensures Keeps(duck[c], mutated[c], total) {
      if RowOutcome(plan, row, server).Emitted? && ItemOf(items, c).Some? {
        AssignmentExact(columns, plan, items[ItemOf(items, c).value], row, server, total);
      } else {
        SameKept(Ok(At(row.read, c)), total);
      }
    }
  }

  lemma SameKept(r: Res, total: bool)
    ensures Keeps(r, r, total)
  {
  }
}
