/** The LIMIT / TOP_N rewrite (src/storage/clickhouse_optimizer.cpp): limit, offset and order move into the scan. */
module LimitPushdown {
  import opened Options
  import opened Values
  import opened TypeMapping
  import opened Sql
  import opened FilterPushdown

  type Row = seq<Value>

  // ---------------------------------------------------------------- plans

  /** What the scan knows of a table column: whether filters on its type, and orders by it, may be pushed, and the
      entries the server declares for an ENUM (none for other types). */
  datatype Column = Column(filterable: bool, sortable: bool, entries: seq<EnumEntry>)

  datatype Direction = Ascending | Descending | UnresolvedDirection

  datatype NullOrder = NullsFirst | NullsLast | UnresolvedNulls

  /** A reference to column `column` of the operator whose output is `table`, of an outer query if `depth` > 0; or any
      other expression over a row. */
  datatype Expr = Ref(table: nat, column: nat, depth: nat) | Computed(f: Row -> Value)

  datatype Order = Order(expression: Expr, direction: Direction, nulls: NullOrder)

  datatype SortKey = SortKey(column: nat, descending: bool, nullsFirst: bool)

  datatype Window = Window(limit: nat, offset: nat)

  /** A pushed filter, on the scan's column at `position`. */
  datatype ScanFilter = ScanFilter(position: nat, filter: Filter)

  /** A scan of `table`, putting out the columns `columnIds` (None: a virtual column) as table `index`. */
  datatype Scan = Scan(index: nat, table: nat, clickhouse: bool, pushdownEnabled: bool, columnIds: seq<Option<nat>>,
                       filters: seq<ScanFilter>, orderBy: seq<SortKey>, limit: Option<Window>)

  datatype LimitValue = Unset | Constant(n: nat) | NotConstant

  datatype Plan =
    | Get(scan: Scan)
    | Project(index: nat, expressions: seq<Expr>, child: Plan)
    | Limit(limit: LimitValue, offset: LimitValue, child: Plan)
    | TopN(window: Window, orders: seq<Order>, child: Plan)
    | Operator(id: nat, children: seq<Plan>)

  /** The tables' columns and contents, and what the other operators may make of their inputs. */
  datatype Env = Env(
    columns: nat -> seq<Column>,
    contents: nat -> seq<Row>,
    limits: (LimitValue, LimitValue, seq<Row>, seq<Row>) -> bool,
    operators: (nat, seq<seq<Row>>, seq<Row>) -> bool,
    server: Server)

  // ---------------------------------------------------------------- results

  function Cut(rows: seq<Row>, w: Window): (r: seq<Row>) {
    var rest := if w.offset <= |rows| then rows[w.offset..] else [];
    if w.limit <= |rest| then rest[..w.limit] else rest
  }

  function CutIf(rows: seq<Row>, w: Option<Window>): seq<Row> {
    if w.Some? then Cut(rows, w.value) else rows
  }

  function At(row: Row, column: nat): Value {
    if column < |row| then row[column] else Null
  }

  predicate SortsBefore(x: Value, y: Value, descending: bool, nullsFirst: bool, onServer: bool) {
    if x.Null? || y.Null? then x != y && (x.Null? == nullsFirst)
    else if descending then (if onServer then ServerBefore(y, x) else Before(y, x))
    else if onServer then ServerBefore(x, y) else Before(x, y)
  }

  /** Lexicographic order of rows by their keys. */
  predicate KeysBefore(a: seq<Value>, b: seq<Value>, descending: seq<bool>, nullsFirst: seq<bool>, onServer: bool)
    requires |a| == |b| == |descending| == |nullsFirst|
  {
    a != [] &&
    (SortsBefore(a[0], b[0], descending[0], nullsFirst[0], onServer) ||
     (!SortsBefore(b[0], a[0], descending[0], nullsFirst[0], onServer) &&
      KeysBefore(a[1..], b[1..], descending[1..], nullsFirst[1..], onServer)))
  }

  function ColumnKeys(row: Row, keys: seq<SortKey>): (r: seq<Value>)
    ensures |r| == |keys|
  {
    if keys == [] then [] else [At(row, keys[0].column)] + ColumnKeys(row, keys[1..])
  }

  /** What the server sorts a value by: an ENUM label by the number it stores for it. */
  function ServerKey(v: Value, column: Column): Value {
    if v.EnumLabel? then Int(ValueOf(column.entries, v.text)) else v
  }

  function ServerKeys(row: Row, keys: seq<SortKey>, columns: seq<Column>): (r: seq<Value>)
    requires forall k :: 0 <= k < |keys| ==> keys[k].column < |columns|
    ensures |r| == |keys|
  {
    if keys == [] then []
    else [ServerKey(At(row, keys[0].column), columns[keys[0].column])] + ServerKeys(row, keys[1..], columns)
  }

  function KeyDirections(keys: seq<SortKey>): (r: seq<bool>)
    ensures |r| == |keys|
  {
    if keys == [] then [] else [keys[0].descending] + KeyDirections(keys[1..])
  }

  function KeyNulls(keys: seq<SortKey>): (r: seq<bool>)
    ensures |r| == |keys|
  {
    if keys == [] then [] else [keys[0].nullsFirst] + KeyNulls(keys[1..])
  }

  /** ClickHouse's ORDER BY: no row sorts before one ahead of it. Ties are in any order. */
  ghost predicate ServerSorted(rows: seq<Row>, keys: seq<SortKey>, columns: seq<Column>) {
    OnKnownColumns(keys, columns) &&
    forall i, j :: 0 <= i < j < |rows| ==>
      !KeysBefore(ServerKeys(rows[j], keys, columns), ServerKeys(rows[i], keys, columns), KeyDirections(keys),
                  KeyNulls(keys), true)
  }

  predicate OnKnownColumns(keys: seq<SortKey>, columns: seq<Column>) {
    forall k :: 0 <= k < |keys| ==> keys[k].column < |columns|
  }

  /** The table whose columns an operator puts out; other operators put out none that a reference is traced to. */
  function OutputTable(plan: Plan): Option<nat> {
    match plan
    case Get(scan) => Some(scan.index)
    case Project(index, _, _) => Some(index)
    case Limit(_, _, child) => OutputTable(child)
    case TopN(_, _, child) => OutputTable(child)
    case Operator(_, _) => None
  }

  function Evaluate(e: Expr, table: Option<nat>, row: Row): Value {
    match e
    case Ref(t, column, depth) => if depth == 0 && table == Some(t) then At(row, column) else Null
    case Computed(f) => f(row)
  }

  function EvaluateAll(es: seq<Expr>, table: Option<nat>, row: Row): (r: Row)
    ensures |r| == |es|
    ensures forall k :: 0 <= k < |r| ==> r[k] == Evaluate(es[k], table, row)
  {
    seq(|es|, k requires 0 <= k < |es| => Evaluate(es[k], table, row))
  }

  function Projected(es: seq<Expr>, table: Option<nat>, rows: seq<Row>): (r: seq<Row>)
    ensures |r| == |rows|
    ensures forall k :: 0 <= k < |r| ==> r[k] == EvaluateAll(es, table, rows[k])
  {
    seq(|rows|, k requires 0 <= k < |rows| => EvaluateAll(es, table, rows[k]))
  }

  function OrderKeys(orders: seq<Order>, table: Option<nat>, row: Row): (r: seq<Value>)
    ensures |r| == |orders|
  {
    if orders == [] then [] else [Evaluate(orders[0].expression, table, row)] + OrderKeys(orders[1..], table, row)
  }

  function OrderDirections(orders: seq<Order>): (r: seq<bool>)
    ensures |r| == |orders|
  {
    if orders == [] then [] else [orders[0].direction.Descending?] + OrderDirections(orders[1..])
  }

  function OrderNulls(orders: seq<Order>): (r: seq<bool>)
    ensures |r| == |orders|
  {
    if orders == [] then [] else [orders[0].nulls.NullsFirst?] + OrderNulls(orders[1..])
  }

  ghost predicate DuckSorted(rows: seq<Row>, orders: seq<Order>, table: Option<nat>) {
    forall i, j :: 0 <= i < j < |rows| ==>
      !KeysBefore(OrderKeys(orders, table, rows[j]), OrderKeys(orders, table, rows[i]), OrderDirections(orders),
                  OrderNulls(orders), false)
  }

  function OnColumns(filters: seq<ScanFilter>, columnIds: seq<Option<nat>>): (r: seq<ColumnFilter>)
    requires forall f :: f in filters ==> f.position < |columnIds| && columnIds[f.position].Some?
    ensures |r| == |filters|
  {
    if filters == [] then []
    else
      [ColumnFilter(columnIds[filters[0].position].value, filters[0].filter)] + OnColumns(filters[1..], columnIds)
  }

  predicate FiltersOnColumns(s: Scan) {
    forall f :: f in s.filters ==> f.position < |s.columnIds| && s.columnIds[f.position].Some?
  }

  /** Rows of the table, in any order, that the scan's filters pass. */
  ghost predicate Passing(s: Scan, env: Env, row: Row)
    requires FiltersOnColumns(s)
  {
    Passes(OnColumns(s.filters, s.columnIds), row)
  }

  /** Rows that the WHERE clause ClickHouse gets selects. */
  ghost predicate ServerPassing(s: Scan, env: Env, row: Row)
    requires FiltersOnColumns(s)
  {
    var conditions := TransformAll(OnColumns(s.filters, s.columnIds));
    conditions.Some? && Selected(conditions.value, row, env.server)
  }

  ghost function Where(rows: seq<Row>, keep: Row -> bool): seq<Row> {
    if rows == [] then [] else (if keep(rows[0]) then [rows[0]] else []) + Where(rows[1..], keep)
  }

  /** The rows the scan reads before any limit: a limit in the query sees what ClickHouse itself has filtered. */
  ghost function Read(s: Scan, env: Env): seq<Row>
    requires FiltersOnColumns(s)
  {
    Where(env.contents(s.table), row => if s.limit.Some? then ServerPassing(s, env, row) else Passing(s, env, row))
  }

  function ScanOutput(s: Scan, row: Row): (r: Row)
    ensures |r| == |s.columnIds|
    ensures forall k :: 0 <= k < |r| ==>
      r[k] == if s.columnIds[k].Some? then At(row, s.columnIds[k].value) else Null
  {
    seq(|s.columnIds|, k requires 0 <= k < |s.columnIds| =>
      if s.columnIds[k].Some? then At(row, s.columnIds[k].value) else Null)
  }

  function ScanOutputs(s: Scan, rows: seq<Row>): (r: seq<Row>)
    ensures |r| == |rows|
    ensures forall k :: 0 <= k < |r| ==> r[k] == ScanOutput(s, rows[k])
  {
    seq(|rows|, k requires 0 <= k < |rows| => ScanOutput(s, rows[k]))
  }

  /** `all` is everything the query reads, in an order it may come in. */
  ghost predicate ScanOrder(s: Scan, env: Env, all: seq<Row>)
    requires FiltersOnColumns(s)
  {
    multiset(all) == multiset(Read(s, env)) && ServerSorted(all, s.orderBy, env.columns(s.table))
  }

  /** A limit's result: a window of its input where both values are constants, whatever `env` says otherwise. */
  ghost predicate LimitYields(limit: LimitValue, offset: LimitValue, env: Env, input: seq<Row>, rows: seq<Row>) {
    if limit.Constant? && !offset.NotConstant?
    then rows == Cut(input, Window(limit.n, if offset.Constant? then offset.n else 0))
    else env.limits(limit, offset, input, rows)
  }

  /** A TOP_N's result: a window of its input, sorted somehow. */
  ghost predicate TopNYields(window: Window, orders: seq<Order>, table: Option<nat>, input: seq<Row>, sorted: seq<Row>,
                             rows: seq<Row>) {
    multiset(sorted) == multiset(input) && DuckSorted(sorted, orders, table) && rows == Cut(sorted, window)
  }

  /** `rows` is a result the plan may give. */
  ghost predicate Yields(plan: Plan, env: Env, rows: seq<Row>)
    decreases plan, 1
  {
    match plan
    case Get(s) =>
      FiltersOnColumns(s) && exists all :: ScanOrder(s, env, all) && rows == ScanOutputs(s, CutIf(all, s.limit))
    case Project(_, expressions, child) =>
      exists input :: Yields(child, env, input) && rows == Projected(expressions, OutputTable(child), input)
    case Limit(limit, offset, child) =>
      exists input :: Yields(child, env, input) && LimitYields(limit, offset, env, input, rows)
    case TopN(window, orders, child) =>
      exists input, sorted ::
        Yields(child, env, input) && TopNYields(window, orders, OutputTable(child), input, sorted, rows)
    case Operator(id, children) =>
      exists inputs :: AllYield(children, env, inputs) && env.operators(id, inputs, rows)
  }

  ghost predicate AllYield(plans: seq<Plan>, env: Env, inputs: seq<seq<Row>>)
    decreases plans, 0
  {
    |inputs| == |plans| && (plans == [] || (Yields(plans[0], env, inputs[0]) && AllYield(plans[1..], env, inputs[1..])))
  }

  // ---------------------------------------------------------------- the rewrite

  /** The ClickHouse scan below any projections. */
  function FindScan(plan: Plan): Option<Scan> {
    match plan
    case Project(_, _, child) => FindScan(child)
    case Get(scan) => if scan.clickhouse then Some(scan) else None
    case _ => None
  }

  method FindClickhouseScan(plan: Plan) returns (scan: Option<Scan>)
    ensures scan == FindScan(plan)
  {
    var current := plan;
    while current.Project?
      invariant FindScan(current) == FindScan(plan)
      decreases current
    {
      current := current.child;
    }
    if !current.Get? || !current.scan.clickhouse {
      return None;
    }
    return Some(current.scan);
  }

  predicate AllFiltersPushed(s: Scan, columns: seq<Column>) {
    forall f :: f in s.filters ==>
      f.position < |s.columnIds| && s.columnIds[f.position].Some? && s.columnIds[f.position].value < |columns| &&
      s.pushdownEnabled && columns[s.columnIds[f.position].value].filterable && Transform(f.filter).Some?
  }

  /** The table column an expression over `child`'s output is, through plain references. */
  function Trace(e: Expr, child: Plan, columns: seq<Column>): Option<nat>
    decreases child
  {
    if !e.Ref? || e.depth > 0 then None
    else
      match child
      case Project(index, expressions, below) =>
        if e.table != index || e.column >= |expressions| then None else Trace(expressions[e.column], below, columns)
      case Get(s) =>
        if e.table != s.index || e.column >= |s.columnIds| || s.columnIds[e.column].None? then None
        else if s.columnIds[e.column].value >= |columns| || !columns[s.columnIds[e.column].value].sortable then None
        else Some(s.columnIds[e.column].value)
      case _ => None
  }

  /** The loop that moves `current` and the binding down. */
  method TraceColumn(e: Expr, child: Plan, columns: seq<Column>) returns (column: Option<nat>)
    ensures column == Trace(e, child, columns)
  {
    var current, reference := child, e;
    if !reference.Ref? || reference.depth > 0 {
      return None;
    }
    while current.Project?
      invariant reference.Ref? && reference.depth == 0
      invariant Trace(reference, current, columns) == Trace(e, child, columns)
      decreases current
    {
      if reference.table != current.index || reference.column >= |current.expressions| {
        return None;
      }
      var projected := current.expressions[reference.column];
      if !projected.Ref? || projected.depth > 0 {
        return None;
      }
      reference := projected;
      current := current.child;
    }
    if !current.Get? || reference.table != current.scan.index || reference.column >= |current.scan.columnIds| ||
       current.scan.columnIds[reference.column].None? {
      return None;
    }
    var id := current.scan.columnIds[reference.column].value;
    if id >= |columns| || !columns[id].sortable {
      return None;
    }
    return Some(id);
  }

  function OrderBy(orders: seq<Order>, child: Plan, columns: seq<Column>): Option<seq<SortKey>> {
    if orders == [] then Some([])
    else
      var column :- Trace(orders[0].expression, child, columns);
      if orders[0].direction.UnresolvedDirection? || orders[0].nulls.UnresolvedNulls? then None
      else
        var rest :- OrderBy(orders[1..], child, columns);
        Some([SortKey(column, orders[0].direction.Descending?, orders[0].nulls.NullsFirst?)] + rest)
  }

  /** The loop over the ORDER BY keys. */
  method BuildOrderByClause(orders: seq<Order>, child: Plan, columns: seq<Column>) returns (keys: Option<seq<SortKey>>)
    ensures keys == OrderBy(orders, child, columns)
  {
    hide Trace;
    ghost var whole := OrderBy(orders, child, columns);
    var pushed: seq<SortKey> := [];
    assert orders[0..] == orders;
    for i := 0 to |orders|
      invariant whole.None? <==> OrderBy(orders[i..], child, columns).None?
      invariant whole.Some? ==> whole.value == pushed + OrderBy(orders[i..], child, columns).value
    {
      assert orders[i..][1..] == orders[i + 1..];
      var column := TraceColumn(orders[i].expression, child, columns);
      if column.None? || orders[i].direction.UnresolvedDirection? || orders[i].nulls.UnresolvedNulls? {
        return None;
      }
      pushed := pushed + [SortKey(column.value, orders[i].direction.Descending?, orders[i].nulls.NullsFirst?)];
    }
    assert pushed + [] == pushed;
    return Some(pushed);
  }

  /** The plan with its scan, below the projections, replaced. */
  function WithScan(plan: Plan, scan: Scan): Plan {
    match plan
    case Project(index, expressions, child) => Project(index, expressions, WithScan(child, scan))
    case Get(_) => Get(scan)
    case _ => plan
  }

  function Pushable(s: Option<Scan>, env: Env): bool {
    s.Some? && s.value.limit.None? && AllFiltersPushed(s.value, env.columns(s.value.table))
  }

  function Optimize(plan: Plan, env: Env): Plan
    decreases plan, 1
  {
    match plan
    case TopN(window, orders, child) =>
      var s := FindScan(child);
      if Pushable(s, env) && OrderBy(orders, child, env.columns(s.value.table)).Some?
      then WithScan(child, s.value.(orderBy := OrderBy(orders, child, env.columns(s.value.table)).value,
                                    limit := Some(window)))
      else TopN(window, orders, Optimize(child, env))
    case Limit(limit, offset, child) =>
      var s := FindScan(child);
      if Pushable(s, env) && limit.Constant? && !offset.NotConstant?
      then WithScan(child, s.value.(limit := Some(Window(limit.n, if offset.Constant? then offset.n else 0))))
      else Limit(limit, offset, Optimize(child, env))
    case Get(_) => plan
    case Project(index, expressions, child) => Project(index, expressions, Optimize(child, env))
    case Operator(id, children) => Operator(id, OptimizeAll(children, env))
  }

  function OptimizeAll(plans: seq<Plan>, env: Env): (r: seq<Plan>)
    ensures |r| == |plans|
    decreases plans, 0
  {
    if plans == [] then [] else [Optimize(plans[0], env)] + OptimizeAll(plans[1..], env)
  }

  // ---------------------------------------------------------------- refinement

  /** A value of a column orders may be pushed on: no UUID; an ENUM's values are its labels, each with the position it
      has among the entries sorted by value, and other types hold none. */
  predicate Sorts(v: Value, column: Column) {
    var sorted := SortByValue(column.entries);
    !v.Uuid? && (column.entries != [] ==> v.Null? || v.EnumLabel?) &&
    (v.EnumLabel? ==> v.position < |sorted| && sorted[v.position].text == v.text)
  }

  /** The table holds values that the scan's filters suit. */
  ghost predicate FiltersSuit(s: Scan, env: Env) {
    FiltersOnColumns(s) &&
    forall row: Row :: row in env.contents(s.table) ==>
      forall f :: f in OnColumns(s.filters, s.columnIds) ==>
        f.column < |row| && Storable(row[f.column]) && Suits(f.filter, row[f.column])
  }

  /** A scan without a limit has no order yet, and the tables hold values of their columns' types: as many as there are
      columns, and values that sort where an order may be pushed. */
  ghost predicate Typed(s: Scan, env: Env) {
    FiltersSuit(s, env) && (s.limit.None? ==> s.orderBy == []) &&
    (forall k :: 0 <= k < |env.columns(s.table)| ==> Distinct(env.columns(s.table)[k].entries)) &&
    forall row: Row :: row in env.contents(s.table) ==>
      |row| == |env.columns(s.table)| &&
      forall k :: 0 <= k < |row| && env.columns(s.table)[k].sortable ==> Sorts(row[k], env.columns(s.table)[k])
  }

  /** The table has a row that the scan's filters keep once they are pushed, though DuckDB's do not. */
  ghost predicate SomeKeptMore(s: Scan, env: Env)
    requires FiltersSuit(s, env)
  {
    exists row: Row :: row in env.contents(s.table) && RowKeptMore(OnColumns(s.filters, s.columnIds), row, env.server)
  }

  ghost predicate WellTyped(s: Scan, env: Env) {
    Typed(s, env) && !SomeKeptMore(s, env)
  }

  /** Every scan is typed, and one that a limit is moved into has no row that its pushed filters keep on top. */
  ghost predicate AllWellTyped(plan: Plan, env: Env)
    decreases plan, 1
  {
    match plan
    case Get(s) => Typed(s, env)
    case Project(_, _, child) => AllWellTyped(child, env)
    case Limit(limit, offset, child) =>
      var s := FindScan(child);
      AllWellTyped(child, env) &&
      (Pushable(s, env) && limit.Constant? && !offset.NotConstant? ==> WellTyped(s.value, env))
    case TopN(_, orders, child) =>
      var s := FindScan(child);
      AllWellTyped(child, env) &&
      (Pushable(s, env) && OrderBy(orders, child, env.columns(s.value.table)).Some? ==> WellTyped(s.value, env))
    case Operator(_, children) => EachWellTyped(children, env)
  }

  ghost predicate EachWellTyped(plans: seq<Plan>, env: Env)
    decreases plans, 0
  {
    plans == [] || (AllWellTyped(plans[0], env) && EachWellTyped(plans[1..], env))
  }

  lemma {:induction false} OnColumnsFilter(filters: seq<ScanFilter>, columnIds: seq<Option<nat>>, f: ColumnFilter)
    requires forall g :: g in filters ==> g.position < |columnIds| && columnIds[g.position].Some?
    requires f in OnColumns(filters, columnIds)
    ensures exists g :: g in filters && g.filter == f.filter
  {
    if f != OnColumns(filters, columnIds)[0] {
      OnColumnsFilter(filters[1..], columnIds, f);
      var g :| g in filters[1..] && g.filter == f.filter;
      assert g in filters;
    } else {
      assert filters[0] in filters;
    }
  }

  lemma {:induction false} AllTransform(filters: seq<ColumnFilter>)
    requires forall f :: f in filters ==> Transform(f.filter).Some?
    ensures TransformAll(filters).Some?
  {
    hide Transform;
    if filters != [] {
      assert filters[0] in filters;
      AllTransform(filters[1..]);
    }
  }

  lemma {:induction false} WhereSame(rows: seq<Row>, keep: Row -> bool, other: Row -> bool)
    requires forall row :: row in rows ==> keep(row) == other(row)
    ensures Where(rows, keep) == Where(rows, other)
  {
    if rows != [] {
      assert rows[0] in rows;
      WhereSame(rows[1..], keep, other);
    }
  }

  lemma {:induction false} WhereWithin(rows: seq<Row>, keep: Row -> bool)
    ensures forall row :: row in Where(rows, keep) ==> row in rows
  {
    if rows != [] {
      WhereWithin(rows[1..], keep);
    }
  }

  /** A filter that keeps some rows more loses the same rows only if it keeps none more. */
  lemma {:induction false} WhereMore(rows: seq<Row>, keep: Row -> bool, more: Row -> bool)
    requires forall row :: row in rows && keep(row) ==> more(row)
    ensures |Where(rows, keep)| <= |Where(rows, more)|
    ensures |Where(rows, keep)| == |Where(rows, more)| <==> forall row :: row in rows ==> keep(row) == more(row)
  {
    if rows != [] {
      WhereMore(rows[1..], keep, more);
      assert forall row :: row in rows <==> row == rows[0] || row in rows[1..];
    }
  }

  lemma ReadIs(s: Scan, env: Env)
    requires FiltersOnColumns(s)
    ensures Read(s, env) == if s.limit.Some? then Where(env.contents(s.table), row => ServerPassing(s, env, row))
                            else Where(env.contents(s.table), row => Passing(s, env, row))
  {
    hide Passing, ServerPassing;
    var rows, read := env.contents(s.table),
      row => if s.limit.Some? then ServerPassing(s, env, row) else Passing(s, env, row);
    var served, passed := row => ServerPassing(s, env, row), row => Passing(s, env, row);
    if s.limit.Some? {
      WhereSame(rows, read, served);
    } else {
      WhereSame(rows, read, passed);
    }
  }

  /** Where every filter is pushed, ClickHouse reads, under a limit, the rows DuckDB would keep if and only if the table
      has none that the pushed filters keep on top. */
  lemma ReadExactly(s: Scan, limited: Scan, env: Env)
    requires FiltersSuit(s, env) && AllFiltersPushed(s, env.columns(s.table)) && s.limit.None?
    requires limited == s.(limit := limited.limit, orderBy := limited.orderBy) && limited.limit.Some?
    ensures FiltersOnColumns(limited) && (Read(limited, env) == Read(s, env) <==> !SomeKeptMore(s, env))
  {
    hide Transform, TransformAll, Passes, Selected, Storable, Suits, KeepsMore, RowKeptMore;
    var filters, rows := OnColumns(s.filters, s.columnIds), env.contents(s.table);
    forall f | f in filters ensures Transform(f.filter).Some? {
      OnColumnsFilter(s.filters, s.columnIds, f);
    }
    AllTransform(filters);
    forall row: Row | row in rows
      ensures Passing(s, env, row) ==> ServerPassing(limited, env, row)
      ensures Passing(s, env, row) == ServerPassing(limited, env, row) <==> !RowKeptMore(filters, row, env.server)
    {
      FiltersExact(filters, row, env.server);
    }
    hide Passing, ServerPassing;
    ReadIs(s, env);
    ReadIs(limited, env);
    WhereMore(rows, row => Passing(s, env, row), row => ServerPassing(limited, env, row));
    if forall row :: row in rows ==> Passing(s, env, row) == ServerPassing(limited, env, row) {
      WhereSame(rows, row => Passing(s, env, row), row => ServerPassing(limited, env, row));
    }
  }

  lemma ReadSame(s: Scan, limited: Scan, env: Env)
    requires WellTyped(s, env) && AllFiltersPushed(s, env.columns(s.table)) && s.limit.None?
    requires limited == s.(limit := limited.limit, orderBy := limited.orderBy)
    ensures FiltersOnColumns(limited) && Read(limited, env) == Read(s, env)
  {
    hide SomeKeptMore, Passing, ServerPassing;
    if limited.limit.Some? {
      ReadExactly(s, limited, env);
    } else {
      ReadIs(s, env);
      ReadIs(limited, env);
      SamePassing(s, limited, env);
    }
  }

  lemma SamePassing(s: Scan, limited: Scan, env: Env)
    requires FiltersOnColumns(s) && limited == s.(limit := limited.limit, orderBy := limited.orderBy)
    ensures FiltersOnColumns(limited)
    ensures Where(env.contents(s.table), row => Passing(limited, env, row)) ==
            Where(env.contents(s.table), row => Passing(s, env, row))
  {
    WhereSame(env.contents(s.table), row => Passing(limited, env, row), row => Passing(s, env, row));
  }

  /** Where the filter is an IN or NOT IN list, that is exactly if no NULL meets a NOT IN that keeps NULLs: one whose
      constants were all left out, or a server with transform_null_in. */
  lemma LimitedListExactly(s: Scan, limited: Scan, env: Env, values: seq<Value>, negated: bool, column: nat)
    requires s.filters == [ScanFilter(0, Listed(values, negated))] && s.columnIds == [Some(column)]
    requires AllFiltersPushed(s, env.columns(s.table)) && s.limit.None?
    requires limited == s.(limit := limited.limit, orderBy := limited.orderBy) && limited.limit.Some?
    requires forall row: Row :: row in env.contents(s.table) ==>
      column < |row| && Storable(row[column]) && Suits(Listed(values, negated), row[column])
    ensures FiltersOnColumns(s) && FiltersOnColumns(limited)
    ensures Read(limited, env) == Read(s, env) <==>
      !(negated && KeepsNulls(values, env.server.transformNullIn) &&
        exists row: Row :: row in env.contents(s.table) && row[column].Null?)
  {
    hide Applied, KeepsNulls, Suits, Storable;
    var on := ColumnFilter(column, Listed(values, negated));
    assert s.filters[1..] == [] && OnColumns(s.filters, s.columnIds) == [on];
    assert FiltersSuit(s, env);
    ReadExactly(s, limited, env);
    forall row: Row | row in env.contents(s.table)
      ensures RowKeptMore([on], row, env.server) <==> KeepsMore(on.filter, row[column], env.server)
    {
      assert on in [on];
    }
  }

  // ---------------------------------------------------------------- projections over a scan

  /** What the projections over a scan make of one of its rows. */
  function Lifted(plan: Plan, row: Row): Row {
    match plan
    case Project(_, expressions, child) => EvaluateAll(expressions, OutputTable(child), Lifted(child, row))
    case Get(s) => ScanOutput(s, row)
    case _ => row
  }

  function LiftedAll(plan: Plan, rows: seq<Row>): (r: seq<Row>)
    ensures |r| == |rows|
    ensures forall k :: 0 <= k < |r| ==> r[k] == Lifted(plan, rows[k])
  {
    seq(|rows|, k requires 0 <= k < |rows| => Lifted(plan, rows[k]))
  }

  lemma LiftedCut(plan: Plan, rows: seq<Row>, w: Window)
    ensures LiftedAll(plan, Cut(rows, w)) == Cut(LiftedAll(plan, rows), w)
  {
    hide Lifted;
  }

  /** Everything a plan of projections over a scan yields is made of the rows the scan reads, in their order. */
  lemma {:induction false} ChainYields(plan: Plan, env: Env, rows: seq<Row>)
    requires FindScan(plan).Some? && FiltersOnColumns(FindScan(plan).value)
    ensures Yields(plan, env, rows) <==>
      exists all :: ScanOrder(FindScan(plan).value, env, all) &&
                    rows == LiftedAll(plan, CutIf(all, FindScan(plan).value.limit))
    decreases plan
  {
    hide ScanOrder, CutIf, FiltersOnColumns;
    var s := FindScan(plan).value;
    match plan
    case Get(_) =>
      forall all ensures ScanOutputs(s, CutIf(all, s.limit)) == LiftedAll(plan, CutIf(all, s.limit)) {
        assert forall row :: Lifted(plan, row) == ScanOutput(s, row);
      }
    case Project(_, expressions, child) =>
      forall input | Yields(child, env, input) && rows == Projected(expressions, OutputTable(child), input)
        ensures exists all :: ScanOrder(s, env, all) && rows == LiftedAll(plan, CutIf(all, s.limit))
      {
        ChainYields(child, env, input);
        var all :| ScanOrder(s, env, all) && input == LiftedAll(child, CutIf(all, s.limit));
        LiftedProject(plan, CutIf(all, s.limit));
        assert rows == LiftedAll(plan, CutIf(all, s.limit));
      }
      forall all | ScanOrder(s, env, all) && rows == LiftedAll(plan, CutIf(all, s.limit))
        ensures Yields(plan, env, rows)
      {
        var input := LiftedAll(child, CutIf(all, s.limit));
        ChainYields(child, env, input);
        LiftedProject(plan, CutIf(all, s.limit));
        assert Yields(child, env, input) && rows == Projected(expressions, OutputTable(child), input);
      }
  }

  lemma LiftedProject(plan: Plan, rows: seq<Row>)
    requires plan.Project?
    ensures LiftedAll(plan, rows) == Projected(plan.expressions, OutputTable(plan.child), LiftedAll(plan.child, rows))
  {
    hide EvaluateAll, OutputTable;
  }

  lemma {:induction false} WithScanChain(plan: Plan, scan: Scan)
    requires FindScan(plan).Some? && scan.clickhouse
    requires scan.index == FindScan(plan).value.index && scan.columnIds == FindScan(plan).value.columnIds
    ensures FindScan(WithScan(plan, scan)) == Some(scan) && OutputTable(WithScan(plan, scan)) == OutputTable(plan)
    ensures forall row :: Lifted(WithScan(plan, scan), row) == Lifted(plan, row)
    decreases plan
  {
    if plan.Project? {
      WithScanChain(plan.child, scan);
    } else {
      forall row ensures ScanOutput(scan, row) == ScanOutput(plan.scan, row) {
      }
    }
  }

  // ---------------------------------------------------------------- order

  /** A traced expression has the traced column's value. */
  lemma {:induction false} TraceExact(e: Expr, child: Plan, columns: seq<Column>, row: Row)
    requires Trace(e, child, columns).Some?
    ensures Evaluate(e, OutputTable(child), Lifted(child, row)) == At(row, Trace(e, child, columns).value)
    ensures Trace(e, child, columns).value < |columns| && columns[Trace(e, child, columns).value].sortable
    decreases child
  {
    if child.Project? {
      TraceExact(child.expressions[e.column], child.child, columns, row);
    }
  }

  lemma {:induction false} KeysExact(orders: seq<Order>, child: Plan, columns: seq<Column>, row: Row)
    requires OrderBy(orders, child, columns).Some?
    ensures OrderKeys(orders, OutputTable(child), Lifted(child, row)) ==
            ColumnKeys(row, OrderBy(orders, child, columns).value)
    ensures OrderDirections(orders) == KeyDirections(OrderBy(orders, child, columns).value)
    ensures OrderNulls(orders) == KeyNulls(OrderBy(orders, child, columns).value)
  {
    hide Lifted, OutputTable;
    if orders != [] {
      TraceExact(orders[0].expression, child, columns, row);
      KeysExact(orders[1..], child, columns, row);
      var rest := OrderBy(orders[1..], child, columns).value;
      var keys := OrderBy(orders, child, columns).value;
      assert keys[1..] == rest;
    }
  }

  lemma {:induction false} KeysSortable(orders: seq<Order>, child: Plan, columns: seq<Column>)
    requires OrderBy(orders, child, columns).Some?
    ensures var keys := OrderBy(orders, child, columns).value;
      forall k :: 0 <= k < |keys| ==> keys[k].column < |columns| && columns[keys[k].column].sortable
  {
    hide Lifted, OutputTable, Trace, Evaluate;
    if orders != [] {
      TraceExact(orders[0].expression, child, columns, []);
      KeysSortable(orders[1..], child, columns);
      var keys := OrderBy(orders, child, columns).value;
      assert keys[1..] == OrderBy(orders[1..], child, columns).value;
    }
  }

  /** Both systems sort two values of a column alike, ENUM labels by position and by number. */
  lemma SortsAlike(x: Value, y: Value, column: Column, descending: bool, nullsFirst: bool)
    requires Distinct(column.entries) && Sorts(x, column) && Sorts(y, column)
    ensures SortsBefore(ServerKey(x, column), ServerKey(y, column), descending, nullsFirst, true) ==
            SortsBefore(x, y, descending, nullsFirst, false)
  {
    hide SortByValue, ValueOf, Distinct;
    if x.EnumLabel? && y.EnumLabel? {
      PositionsFollowValues(column.entries, x.position, y.position);
      PositionsFollowValues(column.entries, y.position, x.position);
    } else if x.EnumLabel? || y.EnumLabel? {
      EntriesOfLabel(column.entries);
    }
  }

  lemma EntriesOfLabel(entries: seq<EnumEntry>)
    ensures entries == [] <==> |SortByValue(entries)| == 0
  {
  }

  lemma {:induction false} KeysAlike(a: Row, b: Row, keys: seq<SortKey>, columns: seq<Column>)
    requires OnKnownColumns(keys, columns) && forall k :: 0 <= k < |columns| ==> Distinct(columns[k].entries)
    requires forall k :: 0 <= k < |keys| ==>
      Sorts(At(a, keys[k].column), columns[keys[k].column]) && Sorts(At(b, keys[k].column), columns[keys[k].column])
    ensures KeysBefore(ServerKeys(a, keys, columns), ServerKeys(b, keys, columns), KeyDirections(keys), KeyNulls(keys),
                       true) ==
            KeysBefore(ColumnKeys(a, keys), ColumnKeys(b, keys), KeyDirections(keys), KeyNulls(keys), false)
  {
    hide Sorts, SortsBefore, ServerKey, Distinct;
    if keys != [] {
      var key := keys[0];
      SortsAlike(At(a, key.column), At(b, key.column), columns[key.column], key.descending, key.nullsFirst);
      SortsAlike(At(b, key.column), At(a, key.column), columns[key.column], key.descending, key.nullsFirst);
      KeysAlike(a, b, keys[1..], columns);
    }
  }

  ghost predicate Sortable(rows: seq<Row>, columns: seq<Column>) {
    (forall k :: 0 <= k < |columns| ==> Distinct(columns[k].entries)) &&
    forall i, k :: 0 <= i < |rows| && 0 <= k < |rows[i]| && k < |columns| && columns[k].sortable ==>
      Sorts(rows[i][k], columns[k])
  }

  /** The scan's order is the plan's order of what the projections make of it. */
  lemma SortedAlike(rows: seq<Row>, orders: seq<Order>, child: Plan, columns: seq<Column>)
    requires OrderBy(orders, child, columns).Some? && Sortable(rows, columns)
    ensures ServerSorted(rows, OrderBy(orders, child, columns).value, columns) <==>
            DuckSorted(LiftedAll(child, rows), orders, OutputTable(child))
  {
    hide KeysBefore, OrderBy, Lifted, OutputTable, ColumnKeys, ServerKeys, OrderKeys, Distinct;
    var keys := OrderBy(orders, child, columns).value;
    var lifted := LiftedAll(child, rows);
    KeysSortable(orders, child, columns);
    forall i, j | 0 <= i < j < |rows|
      ensures KeysBefore(ServerKeys(rows[j], keys, columns), ServerKeys(rows[i], keys, columns),
                         KeyDirections(keys), KeyNulls(keys), true)
           == KeysBefore(OrderKeys(orders, OutputTable(child), lifted[j]),
                         OrderKeys(orders, OutputTable(child), lifted[i]),
                         OrderDirections(orders), OrderNulls(orders), false)
    {
      KeysExact(orders, child, columns, rows[i]);
      KeysExact(orders, child, columns, rows[j]);
      KeysAlike(rows[j], rows[i], keys, columns);
    }
  }

  lemma Unsorted(rows: seq<Row>, columns: seq<Column>)
    ensures ServerSorted(rows, [], columns)
  {
  }

  // ---------------------------------------------------------------- reordering

  lemma MultisetMember(s: seq<Row>, t: seq<Row>)
    requires multiset(s) == multiset(t)
    ensures |s| == |t| && forall r :: r in s <==> r in t
  {
    assert |multiset(s)| == |multiset(t)|;
    forall r ensures r in s <==> r in t {
      assert r in s <==> r in multiset(s);
    }
  }

  function Without(s: seq<Row>, k: nat): seq<Row>
    requires k < |s|
  {
    s[..k] + s[k + 1..]
  }

  lemma WithoutOne(s: seq<Row>, k: nat)
    requires k < |s|
    ensures multiset(Without(s, k)) == multiset(s) - multiset{s[k]}
  {
    assert s == s[..k] + ([s[k]] + s[k + 1..]);
    assert multiset(s) == multiset(s[..k]) + (multiset{s[k]} + multiset(s[k + 1..]));
  }

  lemma WithoutSame(s: seq<Row>, k: nat, t: seq<Row>, j: nat)
    requires multiset(s) == multiset(t) && k < |s| && j < |t| && s[k] == t[j]
    ensures multiset(Without(s, k)) == multiset(Without(t, j))
  {
    hide Without;
    WithoutOne(s, k);
    WithoutOne(t, j);
  }

  lemma LiftedWithout(plan: Plan, rows: seq<Row>, k: nat)
    requires k < |rows|
    ensures LiftedAll(plan, Without(rows, k)) == Without(LiftedAll(plan, rows), k)
  {
    hide Lifted;
  }

  lemma WithFirst(s: seq<Row>, k: nat, rest: seq<Row>)
    requires k < |s| && multiset(rest) == multiset(Without(s, k))
    ensures multiset([s[k]] + rest) == multiset(s)
  {
    hide Without;
    WithoutOne(s, k);
    assert s[k] in multiset(s) by { assert s[k] in s; }
  }

  lemma LiftedCons(plan: Plan, row: Row, rest: seq<Row>)
    ensures LiftedAll(plan, [row] + rest) == [Lifted(plan, row)] + LiftedAll(plan, rest)
  {
    hide Lifted;
  }

  /** Any order of the lifted rows is the lifting of some order of the rows. */
  lemma {:induction false} LiftedOrder(plan: Plan, rows: seq<Row>, target: seq<Row>) returns (ordered: seq<Row>)
    requires multiset(target) == multiset(LiftedAll(plan, rows))
    ensures multiset(ordered) == multiset(rows) && LiftedAll(plan, ordered) == target
    decreases |target|
  {
    hide Lifted, LiftedAll, Without;
    var lifted := LiftedAll(plan, rows);
    MultisetMember(target, lifted);
    if target == [] {
      ordered := [];
      assert rows == [];
    } else {
      var first := target[0];
      assert first in target;
      var k :| 0 <= k < |lifted| && lifted[k] == first;
      LiftedWithout(plan, rows, k);
      WithoutSame(target, 0, lifted, k);
      WithoutFirst(target);
      var rest := LiftedOrder(plan, Without(rows, k), target[1..]);
      ordered := [rows[k]] + rest;
      WithFirst(rows, k, rest);
      LiftedCons(plan, rows[k], rest);
      assert [first] + target[1..] == target;
    }
  }

  lemma WithoutFirst(s: seq<Row>)
    requires s != []
    ensures Without(s, 0) == s[1..]
  {
  }

  lemma {:induction false} LiftedReordered(plan: Plan, a: seq<Row>, b: seq<Row>)
    requires multiset(a) == multiset(b)
    ensures multiset(LiftedAll(plan, a)) == multiset(LiftedAll(plan, b))
    decreases |a|
  {
    hide Lifted, LiftedAll, Without;
    MultisetMember(a, b);
    if a != [] {
      assert a[0] in a;
      var k :| 0 <= k < |b| && b[k] == a[0];
      WithoutFirst(a);
      WithoutSame(a, 0, b, k);
      LiftedReordered(plan, Without(a, 0), Without(b, k));
      LiftedWithout(plan, a, 0);
      LiftedWithout(plan, b, k);
      WithFirst(LiftedAll(plan, b), k, LiftedAll(plan, Without(a, 0)));
      LiftedCons(plan, a[0], a[1..]);
      assert [a[0]] + a[1..] == a;
    }
  }

  // ---------------------------------------------------------------- the result

  lemma {:induction false} FoundWellTyped(plan: Plan, env: Env)
    requires AllWellTyped(plan, env) && FindScan(plan).Some?
    ensures Typed(FindScan(plan).value, env) && FindScan(plan).value.clickhouse
  {
    hide Typed;
    if plan.Project? {
      FoundWellTyped(plan.child, env);
    }
  }

  /** The rows a scan may read, with any limit and order moved into it. */
  lemma MovedIn(s: Scan, limited: Scan, env: Env, all: seq<Row>)
    requires WellTyped(s, env) && AllFiltersPushed(s, env.columns(s.table)) && s.limit.None?
    requires limited == s.(limit := limited.limit, orderBy := limited.orderBy)
    ensures FiltersOnColumns(limited) && FiltersOnColumns(s)
    ensures ScanOrder(limited, env, all) <==>
      ScanOrder(s, env, all) && ServerSorted(all, limited.orderBy, env.columns(s.table))
    ensures ScanOrder(s, env, all) ==> Sortable(all, env.columns(s.table))
  {
    hide ServerSorted, AllFiltersPushed;
    ReadSame(s, limited, env);
    Unsorted(all, env.columns(s.table));
    if ScanOrder(s, env, all) {
      MultisetMember(all, Read(s, env));
      WhereWithin(env.contents(s.table),
                  row => if s.limit.Some? then ServerPassing(s, env, row) else Passing(s, env, row));
      forall i, k | 0 <= i < |all| && 0 <= k < |all[i]| && k < |env.columns(s.table)| &&
        env.columns(s.table)[k].sortable
        ensures Sorts(all[i][k], env.columns(s.table)[k])
      {
        assert all[i] in all && all[i] in env.contents(s.table);
      }
    }
  }

  /** LIMIT and OFFSET in the scan, below the projections, give what they give above them. */
  lemma LimitSame(plan: Plan, env: Env, rows: seq<Row>)
    requires plan.Limit? && AllWellTyped(plan, env)
    requires Pushable(FindScan(plan.child), env) && plan.limit.Constant? && !plan.offset.NotConstant?
    ensures Yields(Optimize(plan, env), env, rows) <==> Yields(plan, env, rows)
  {
    hide ScanOrder, WellTyped, FiltersOnColumns, AllFiltersPushed, Cut, LiftedAll, Lifted;
    var child, s := plan.child, FindScan(plan.child).value;
    FoundWellTyped(child, env);
    var w := Window(plan.limit.n, if plan.offset.Constant? then plan.offset.n else 0);
    var limited := s.(limit := Some(w));
    var pushed := WithScan(child, limited);
    assert Optimize(plan, env) == pushed;
    WithScanChain(child, limited);
    MovedIn(s, limited, env, []);
    ChainYields(pushed, env, rows);
    forall all ensures ScanOrder(limited, env, all) <==> ScanOrder(s, env, all) {
      MovedIn(s, limited, env, all);
      WellTypedUnordered(s, env);
      Unsorted(all, env.columns(s.table));
    }
    forall all ensures LiftedAll(pushed, Cut(all, w)) == Cut(LiftedAll(child, all), w) {
      LiftedSame(child, pushed, Cut(all, w));
      LiftedCut(child, all, w);
    }
    if Yields(pushed, env, rows) {
      var all :| ScanOrder(limited, env, all) && rows == LiftedAll(pushed, Cut(all, w));
      ChainYields(child, env, LiftedAll(child, all));
      assert Yields(child, env, LiftedAll(child, all));
    }
    if Yields(plan, env, rows) {
      var input :| Yields(child, env, input) && LimitYields(plan.limit, plan.offset, env, input, rows);
      ChainYields(child, env, input);
      var all :| ScanOrder(s, env, all) && input == LiftedAll(child, all);
      assert ScanOrder(limited, env, all) && rows == LiftedAll(pushed, Cut(all, w));
    }
  }

  lemma WellTypedUnordered(s: Scan, env: Env)
    requires WellTyped(s, env) && s.limit.None?
    ensures s.orderBy == []
  {
  }

  lemma LiftedSame(a: Plan, b: Plan, rows: seq<Row>)
    requires forall row :: Lifted(a, row) == Lifted(b, row)
    ensures LiftedAll(a, rows) == LiftedAll(b, rows)
  {
    hide Lifted;
  }

  /** The order moved into the scan as well: whatever ties it breaks how, it is an order the TOP_N may give, and every
      one it may give is an order of the scan. */
  lemma TopNSame(plan: Plan, env: Env, rows: seq<Row>)
    requires plan.TopN? && AllWellTyped(plan, env) && Pushable(FindScan(plan.child), env)
    requires OrderBy(plan.orders, plan.child, env.columns(FindScan(plan.child).value.table)).Some?
    ensures Yields(Optimize(plan, env), env, rows) <==> Yields(plan, env, rows)
  {
    hide ScanOrder, WellTyped, FiltersOnColumns, AllFiltersPushed, Cut, LiftedAll, Lifted, ServerSorted, DuckSorted,
      OrderBy, Sortable;
    var child, s, w := plan.child, FindScan(plan.child).value, plan.window;
    var columns := env.columns(s.table);
    FoundWellTyped(child, env);
    var keys := OrderBy(plan.orders, child, columns).value;
    var limited := s.(orderBy := keys, limit := Some(w));
    var pushed := WithScan(child, limited);
    assert Optimize(plan, env) == pushed;
    WithScanChain(child, limited);
    MovedIn(s, limited, env, []);
    ChainYields(pushed, env, rows);
    if Yields(pushed, env, rows) {
      var all :| ScanOrder(limited, env, all) && rows == LiftedAll(pushed, Cut(all, w));
      TopNFromScan(plan, env, all, rows, pushed, limited);
    }
    if Yields(plan, env, rows) {
      var input, sorted :|
        Yields(child, env, input) && TopNYields(w, plan.orders, OutputTable(child), input, sorted, rows);
      ChainYields(child, env, input);
      var read :| ScanOrder(s, env, read) && input == LiftedAll(child, read);
      var all := LiftedOrder(child, read, sorted);
      ReorderedScan(s, env, read, all);
      MovedIn(s, limited, env, all);
      SortedAlike(all, plan.orders, child, columns);
      LiftedSame(child, pushed, Cut(all, w));
      LiftedCut(child, all, w);
      assert ScanOrder(limited, env, all) && rows == LiftedAll(pushed, Cut(all, w));
    }
  }

  lemma ReorderedScan(s: Scan, env: Env, read: seq<Row>, all: seq<Row>)
    requires WellTyped(s, env) && s.limit.None? && ScanOrder(s, env, read) && multiset(all) == multiset(read)
    ensures ScanOrder(s, env, all)
  {
    Unsorted(all, env.columns(s.table));
  }

  lemma TopNFromScan(plan: Plan, env: Env, all: seq<Row>, rows: seq<Row>, pushed: Plan, limited: Scan)
    requires plan.TopN? && FindScan(plan.child).Some?
    requires var s := FindScan(plan.child).value;
      WellTyped(s, env) && s.limit.None? && AllFiltersPushed(s, env.columns(s.table)) &&
      OrderBy(plan.orders, plan.child, env.columns(s.table)).Some? && FiltersOnColumns(limited) &&
      limited == s.(orderBy := OrderBy(plan.orders, plan.child, env.columns(s.table)).value, limit := Some(plan.window))
    requires forall row :: Lifted(pushed, row) == Lifted(plan.child, row)
    requires ScanOrder(limited, env, all) && rows == LiftedAll(pushed, Cut(all, plan.window))
    ensures Yields(plan, env, rows)
  {
    hide ScanOrder, WellTyped, FiltersOnColumns, AllFiltersPushed, Cut, LiftedAll, Lifted, ServerSorted, DuckSorted,
      OrderBy, Sortable, Pushable;
    var child, s := plan.child, FindScan(plan.child).value;
    MovedIn(s, limited, env, all);
    var input := LiftedAll(child, all);
    ChainYields(child, env, input);
    assert CutIf(all, s.limit) == all;
    SortedAlike(all, plan.orders, child, env.columns(s.table));
    LiftedSame(child, pushed, Cut(all, plan.window));
    LiftedCut(child, all, plan.window);
    assert TopNYields(plan.window, plan.orders, OutputTable(child), input, input, rows);
  }

  lemma {:induction false} OptimizeTable(plan: Plan, env: Env)
    ensures OutputTable(Optimize(plan, env)) == OutputTable(plan)
    decreases plan
  {
    hide OrderBy, AllFiltersPushed;
    match plan
    case TopN(window, orders, child) =>
      OptimizeTable(child, env);
      if FindScan(child).Some? {
        var s := FindScan(child).value;
        WithScanTable(child, s.(orderBy := OrderBy(orders, child, env.columns(s.table)).GetOr([]),
                                limit := Some(window)));
      }
    case Limit(limit, offset, child) =>
      OptimizeTable(child, env);
      if FindScan(child).Some? && limit.Constant? {
        WithScanTable(child, FindScan(child).value.(
          limit := Some(Window(limit.n, if offset.Constant? then offset.n else 0))));
      }
    case _ =>
  }

  lemma {:induction false} WithScanTable(plan: Plan, scan: Scan)
    requires FindScan(plan).Some? && scan.index == FindScan(plan).value.index
    ensures OutputTable(WithScan(plan, scan)) == OutputTable(plan)
  {
  }

  /** The rewrite keeps every plan's results, at any depth and under any other operators: what the optimized plan may
      yield is exactly what the original may. */
  lemma {:induction false} OptimizeSame(plan: Plan, env: Env, rows: seq<Row>)
    requires AllWellTyped(plan, env)
    ensures Yields(Optimize(plan, env), env, rows) <==> Yields(plan, env, rows)
    decreases plan, 1
  {
    hide OrderBy, WellTyped, AllFiltersPushed;
    match plan
    case Get(_) =>
    case TopN(window, orders, child) =>
      if Pushable(FindScan(child), env) &&
         OrderBy(orders, child, env.columns(FindScan(child).value.table)).Some? {
        TopNSame(plan, env, rows);
      } else {
        OptimizeTable(child, env);
        forall input ensures Yields(Optimize(child, env), env, input) <==> Yields(child, env, input) {
          OptimizeSame(child, env, input);
        }
        TopNOver(plan, Optimize(child, env), env, rows);
      }
    case Limit(limit, offset, child) =>
      if Pushable(FindScan(child), env) && limit.Constant? && !offset.NotConstant? {
        LimitSame(plan, env, rows);
      } else {
        forall input ensures Yields(Optimize(child, env), env, input) <==> Yields(child, env, input) {
          OptimizeSame(child, env, input);
        }
        LimitOver(plan, Optimize(child, env), env, rows);
      }
    case Project(_, _, child) =>
      OptimizeTable(child, env);
      forall input ensures Yields(Optimize(child, env), env, input) <==> Yields(child, env, input) {
        OptimizeSame(child, env, input);
      }
      ProjectOver(plan, Optimize(child, env), env, rows);
    case Operator(id, children) =>
      forall inputs ensures AllYield(OptimizeAll(children, env), env, inputs) <==> AllYield(children, env, inputs) {
        OptimizeAllSame(children, env, inputs);
      }
      OperatorOver(plan, OptimizeAll(children, env), env, rows);
  }

  lemma ProjectOver(plan: Plan, child: Plan, env: Env, rows: seq<Row>)
    requires plan.Project? && OutputTable(child) == OutputTable(plan.child)
    requires forall input :: Yields(child, env, input) <==> Yields(plan.child, env, input)
    ensures Yields(Project(plan.index, plan.expressions, child), env, rows) <==> Yields(plan, env, rows)
  {
    hide EvaluateAll, OutputTable;
  }

  lemma TopNOver(plan: Plan, child: Plan, env: Env, rows: seq<Row>)
    requires plan.TopN? && OutputTable(child) == OutputTable(plan.child)
    requires forall input :: Yields(child, env, input) <==> Yields(plan.child, env, input)
    ensures Yields(TopN(plan.window, plan.orders, child), env, rows) <==> Yields(plan, env, rows)
  {
    hide TopNYields, OutputTable;
  }

  lemma LimitOver(plan: Plan, child: Plan, env: Env, rows: seq<Row>)
    requires plan.Limit? && forall input :: Yields(child, env, input) <==> Yields(plan.child, env, input)
    ensures Yields(Limit(plan.limit, plan.offset, child), env, rows) <==> Yields(plan, env, rows)
  {
    hide LimitYields;
  }

  lemma OperatorOver(plan: Plan, children: seq<Plan>, env: Env, rows: seq<Row>)
    requires plan.Operator? &&
      forall inputs :: AllYield(children, env, inputs) <==> AllYield(plan.children, env, inputs)
    ensures Yields(Operator(plan.id, children), env, rows) <==> Yields(plan, env, rows)
  {
    hide AllYield;
  }

  lemma {:induction false} OptimizeAllSame(plans: seq<Plan>, env: Env, inputs: seq<seq<Row>>)
    requires EachWellTyped(plans, env)
    ensures AllYield(OptimizeAll(plans, env), env, inputs) <==> AllYield(plans, env, inputs)
    decreases plans, 0
  {
    hide Yields, Optimize, AllWellTyped;
    if plans != [] && |inputs| == |plans| {
      OptimizeSame(plans[0], env, inputs[0]);
      OptimizeAllSame(plans[1..], env, inputs[1..]);
    }
  }
}
