/** UPDATE: the SET list, its NULL checks and the values it stores (src/storage/clickhouse_dml.cpp). */
module DmlUpdate {
  import opened Options
  import opened LogicalTypes
  import opened Values
  import opened Casts
  import opened DdlTypes
  import opened TypeParser
  import opened TypeMapping
  import opened Sql
  import opened Expressions
  import opened Dml
  import opened DmlExact

  // ---------------------------------------------------------------- types and NULL

  /** The type inside one LowCardinality and one Nullable. */
  function WrappedBase(node: TypeNode): (r: TypeNode)
    ensures r == node || r < node
  {
    var inner := if node.name == "LowCardinality" && |node.children| == 1 then node.children[0] else node;
    if inner.name == "Nullable" && |inner.children| == 1 then inner.children[0] else inner
  }

  predicate CanHoldNull(node: TypeNode) {
    var name := WrappedBase(node).name;
    IsNullable(node) || name == "Variant" || name == "Dynamic"
  }

  predicate HasElements(name: string) {
    name == "Array" || name == "Tuple" || name == "Map"
  }

  function ElementTypes(base: TypeNode): (r: seq<TypeNode>)
    ensures forall k :: 0 <= k < |r| ==> r[k] < base
  {
    if HasElements(base.name) then base.children else []
  }

  /** Whether a value of type `source` (None: a computed value) may hold a NULL element where `target` cannot. */
  predicate MayGetNullElement(target: TypeNode, source: Option<TypeNode>) {
    var targets := ElementTypes(WrappedBase(target));
    var sources := if source.None? || WrappedBase(source.value).name != WrappedBase(target).name ||
                      |ElementTypes(WrappedBase(source.value))| != |targets|
                   then None else Some(ElementTypes(WrappedBase(source.value)));
    exists i :: 0 <= i < |targets| &&
      var element := if sources.Some? then Some(sources.value[i]) else None;
      ((!CanHoldNull(targets[i]) && (element.None? || CanHoldNull(element.value))) ||
       MayGetNullElement(targets[i], element))
  }

  /** A component of a nested value, and the position of its type among the element types. */
  datatype Part = Part(value: Value, position: nat)

  function EntryParts(entries: seq<Value>): (r: seq<Part>)
    ensures forall k :: 0 <= k < |r| ==> r[k].position < 2
  {
    if entries == [] then []
    else
      (if entries[0].StructOf? && |entries[0].fields| == 2
       then [Part(entries[0].fields[0], 0), Part(entries[0].fields[1], 1)] else []) + EntryParts(entries[1..])
  }

  /** The components of a value of a type with `count` element types. */
  function Parts(v: Value, count: nat): (r: seq<Part>)
    ensures forall k :: 0 <= k < |r| ==> r[k].position < count
  {
    match v
    case ListOf(elements) =>
      if count == 1 then seq(|elements|, k requires 0 <= k < |elements| => Part(elements[k], 0)) else []
    case StructOf(fields) =>
      if |fields| == count then seq(|fields|, k requires 0 <= k < |fields| => Part(fields[k], k)) else []
    case MapOf(entries) => if count == 2 then EntryParts(entries) else []
    case _ => []
  }

  /** Whether a constant holds a NULL element where `target` cannot. */
  predicate HoldsNullElement(v: Value, target: TypeNode)
    decreases target
  {
    var types := ElementTypes(WrappedBase(target));
    var parts := Parts(v, |types|);
    exists k :: 0 <= k < |parts| &&
      var element := types[parts[k].position];
      ((parts[k].value.Null? && !CanHoldNull(element)) || HoldsNullElement(parts[k].value, element))
  }

  /** A source whose values hold no NULL its own type cannot gives none the target cannot hold either. */
  lemma {:induction false} NoNullElement(target: TypeNode, source: Option<TypeNode>, v: Value)
    requires !MayGetNullElement(target, source)
    requires source.Some? ==> !HoldsNullElement(v, source.value)
    ensures !HoldsNullElement(v, target)
    decreases target
  {
    hide CanHoldNull;
    var targets := ElementTypes(WrappedBase(target));
    var parts := Parts(v, |targets|);
    var same := source.Some? && WrappedBase(source.value).name == WrappedBase(target).name &&
                |ElementTypes(WrappedBase(source.value))| == |targets|;
    forall k | 0 <= k < |parts|
      ensures !(parts[k].value.Null? && !CanHoldNull(targets[parts[k].position])) &&
              !HoldsNullElement(parts[k].value, targets[parts[k].position])
    {
      var i := parts[k].position;
      var element := if same then Some(ElementTypes(WrappedBase(source.value))[i]) else None;
      NoNullElement(targets[i], element, parts[k].value);
    }
  }

  // ---------------------------------------------------------------- what the check misses

  /** A NULL element where the type, with every wrapper that does not change how values are decoded taken off, cannot
      hold one. */
  ghost predicate NullOutOfPlace(v: Value, node: TypeNode)
    decreases node
  {
    var types := ElementTypes(Unwrap(node));
    var parts := Parts(v, |types|);
    exists k :: 0 <= k < |parts| &&
      var element := types[parts[k].position];
      ((parts[k].value.Null? && !CanHoldNull(element)) || NullOutOfPlace(parts[k].value, element))
  }

  /** Some element, at some depth, cannot be NULL. */
  predicate HasStrictElement(node: TypeNode)
    decreases node
  {
    var types := ElementTypes(Unwrap(node));
    exists i :: 0 <= i < |types| && (!CanHoldNull(types[i]) || HasStrictElement(types[i]))
  }

  /** A SimpleAggregateFunction, at some depth, hides a strict element from the check. */
  predicate HidesStrictElement(node: TypeNode)
    decreases node
  {
    if WrappedBase(node) != Unwrap(node) then HasStrictElement(node)
    else
      var types := ElementTypes(Unwrap(node));
      exists i :: 0 <= i < |types| && HidesStrictElement(types[i])
  }

  lemma BaseOrWrapper(node: TypeNode)
    ensures WrappedBase(node) != Unwrap(node) ==> ElementTypes(WrappedBase(node)) == []
  {
    var base := WrappedBase(node);
    if !IsTransparent(base) {
      assert Unwrap(base) == base;
      assert Unwrap(node) == base;
    }
  }

  /** A value of a type named `name` with `inner` at element position `at`, and TRUE elsewhere. */
  function Enclose(name: string, inner: Value, at: nat, count: nat): Value
    requires at < count
  {
    var fields := seq(count, j requires 0 <= j < count => if j == at then inner else TRUE);
    if name == "Array" && count == 1 then ListOf([inner])
    else if name == "Map" && count == 2 then MapOf([StructOf(fields)])
    else StructOf(fields)
  }

  lemma EncloseParts(name: string, inner: Value, at: nat, count: nat)
    requires at < count
    ensures var parts := Parts(Enclose(name, inner, at, count), count);
      (exists k :: 0 <= k < |parts| && parts[k] == Part(inner, at)) &&
      forall k :: 0 <= k < |parts| ==> parts[k] == Part(inner, at) || (parts[k].value == TRUE)
  {
    var v := Enclose(name, inner, at, count);
    var parts := Parts(v, count);
    if v.MapOf? {
      assert v.entries[1..] == [];
      assert EntryParts([]) == [];
      assert parts == [Part(v.entries[0].fields[0], 0), Part(v.entries[0].fields[1], 1)] + [];
    }
    assert parts[at] == Part(inner, at);
  }

  /** A type with a strict element has a value that puts NULL there. */
  lemma {:induction false} Offender(node: TypeNode) returns (v: Value)
    requires HasStrictElement(node)
    ensures NullOutOfPlace(v, node)
    decreases node
  {
    hide CanHoldNull, Unwrap, Parts, Enclose;
    var types := ElementTypes(Unwrap(node));
    var i :| 0 <= i < |types| && (!CanHoldNull(types[i]) || HasStrictElement(types[i]));
    var inner := Null;
    if CanHoldNull(types[i]) {
      inner := Offender(types[i]);
    }
    v := Enclose(Unwrap(node).name, inner, i, |types|);
    EncloseParts(Unwrap(node).name, inner, i, |types|);
  }

  lemma {:induction false} StrictNeeded(v: Value, node: TypeNode)
    requires NullOutOfPlace(v, node)
    ensures HasStrictElement(node)
    decreases node
  {
    hide CanHoldNull, Unwrap, Parts;
    var types := ElementTypes(Unwrap(node));
    var parts := Parts(v, |types|);
    var k :| 0 <= k < |parts| &&
      ((parts[k].value.Null? && !CanHoldNull(types[parts[k].position])) ||
       NullOutOfPlace(parts[k].value, types[parts[k].position]));
    if NullOutOfPlace(parts[k].value, types[parts[k].position]) {
      StrictNeeded(parts[k].value, types[parts[k].position]);
    }
  }

  lemma {:induction false} CheckComplete(v: Value, node: TypeNode)
    requires !HidesStrictElement(node)
    ensures HoldsNullElement(v, node) <==> NullOutOfPlace(v, node)
    decreases node
  {
    hide CanHoldNull, Unwrap, Parts, WrappedBase;
    if WrappedBase(node) != Unwrap(node) {
      BaseOrWrapper(node);
      if NullOutOfPlace(v, node) {
        StrictNeeded(v, node);
      }
    } else {
      var types := ElementTypes(Unwrap(node));
      var parts := Parts(v, |types|);
      forall k | 0 <= k < |parts|
        ensures HoldsNullElement(parts[k].value, types[parts[k].position]) <==>
                NullOutOfPlace(parts[k].value, types[parts[k].position])
      {
        CheckComplete(parts[k].value, types[parts[k].position]);
      }
    }
  }

  lemma {:induction false} Missed(node: TypeNode) returns (v: Value)
    requires HidesStrictElement(node)
    ensures NullOutOfPlace(v, node) && !HoldsNullElement(v, node)
    decreases node
  {
    hide CanHoldNull, Unwrap, Parts, WrappedBase, Enclose;
    if WrappedBase(node) != Unwrap(node) {
      BaseOrWrapper(node);
      v := Offender(node);
    } else {
      var types := ElementTypes(Unwrap(node));
      var i :| 0 <= i < |types| && HidesStrictElement(types[i]);
      var inner := Missed(types[i]);
      v := Enclose(Unwrap(node).name, inner, i, |types|);
      EncloseParts(Unwrap(node).name, inner, i, |types|);
      MissedParts(v, inner, i, node);
    }
  }

  lemma MissedParts(v: Value, inner: Value, at: nat, node: TypeNode)
    requires WrappedBase(node) == Unwrap(node) && at < |ElementTypes(Unwrap(node))|
    requires NullOutOfPlace(inner, ElementTypes(Unwrap(node))[at])
    requires !HoldsNullElement(inner, ElementTypes(Unwrap(node))[at])
    requires var parts := Parts(v, |ElementTypes(Unwrap(node))|);
      (exists k :: 0 <= k < |parts| && parts[k] == Part(inner, at)) &&
      forall k :: 0 <= k < |parts| ==> parts[k] == Part(inner, at) || (parts[k].value == TRUE)
    ensures NullOutOfPlace(v, node) && !HoldsNullElement(v, node)
  {
    hide *;
    OffendingPart(v, inner, at, node);
    HarmlessParts(v, inner, at, node);
  }

  lemma OffendingPart(v: Value, inner: Value, at: nat, node: TypeNode)
    requires at < |ElementTypes(Unwrap(node))| && NullOutOfPlace(inner, ElementTypes(Unwrap(node))[at])
    requires var parts := Parts(v, |ElementTypes(Unwrap(node))|);
      exists k :: 0 <= k < |parts| && parts[k] == Part(inner, at)
    ensures NullOutOfPlace(v, node)
  {
    hide CanHoldNull, Unwrap, Parts, ElementTypes;
  }

  lemma HarmlessParts(v: Value, inner: Value, at: nat, node: TypeNode)
    requires WrappedBase(node) == Unwrap(node) && at < |ElementTypes(Unwrap(node))|
    requires NullOutOfPlace(inner, ElementTypes(Unwrap(node))[at])
    requires !HoldsNullElement(inner, ElementTypes(Unwrap(node))[at])
    requires var parts := Parts(v, |ElementTypes(Unwrap(node))|);
      forall k :: 0 <= k < |parts| ==> parts[k] == Part(inner, at) || (parts[k].value == TRUE)
    ensures !HoldsNullElement(v, node)
  {
    hide CanHoldNull, Unwrap, WrappedBase, Parts, ElementTypes, NullOutOfPlace;
    var types := ElementTypes(Unwrap(node));
    NullNotOutOfPlace(types[at]);
    TrueHoldsNothing(types);
  }

  lemma NullNotOutOfPlace(node: TypeNode)
    ensures !NullOutOfPlace(Null, node)
  {
  }

  lemma TrueHoldsNothing(types: seq<TypeNode>)
    ensures forall k :: 0 <= k < |types| ==> !HoldsNullElement(TRUE, types[k])
  {
  }

  /** The check of constants, by itself, finds every NULL out of place exactly for the types in which no
      SimpleAggregateFunction hides a strict element. Columns of the others are refused later (HiddenIsConverted). */
  lemma NullCheckExactly(node: TypeNode)
    ensures (forall v :: HoldsNullElement(v, node) <==> NullOutOfPlace(v, node)) <==> !HidesStrictElement(node)
  {
    hide HoldsNullElement, NullOutOfPlace, HidesStrictElement;
    if HidesStrictElement(node) {
      var v := Missed(node);
      assert NullOutOfPlace(v, node) && !HoldsNullElement(v, node);
    } else {
      forall v ensures HoldsNullElement(v, node) <==> NullOutOfPlace(v, node) {
        CheckComplete(v, node);
      }
    }
  }

  // ---------------------------------------------------------------- types of columns

  function DateTimePrecision(node: TypeNode): Option<nat> {
    var t := Unwrap(node);
    if t.name == "DateTime" then Some(0)
    else if t.name == "DateTime64" then
      var precision :- IntegerLiteral(t, 0, 3);
      if precision < 0 then None else Some(precision)
    else None
  }

  predicate IsCoarse(node: TypeNode) {
    DateTimePrecision(node).Some? && DateTimePrecision(node).value < 6
  }

  /** A DateTime or DateTime64(p < 6) nested in `node`. */
  predicate HoldsCoarseDateTime(node: TypeNode) {
    exists k :: 0 <= k < |node.children| && (IsCoarse(node.children[k]) || HoldsCoarseDateTime(node.children[k]))
  }

  /** Types the server converts from text, and BFloat16. */
  predicate ConvertedOnServer(node: TypeNode)
    decreases node
  {
    var base := WrappedBase(node);
    if base.name == "String" then false
    else if base.name == "BFloat16" || ToDuckDB(base).None? || ToDuckDB(base).value.kind.VarcharType? ||
            ToDuckDB(base).value.kind.JsonType? then true
    else exists k :: 0 <= k < |base.children| && ConvertedOnServer(base.children[k])
  }

  predicate ParsedFromTextExactly(base: TypeNode) {
    base.name == "IPv4" || base.name == "IPv6" || base.name == "FixedString"
  }

  /** An argument that names an aggregate function, and no type: it maps to VARCHAR like any unknown name. */
  predicate NamesFunction(node: TypeNode) {
    var base := WrappedBase(node);
    base.name != "String" && ToDuckDB(base).Some? && ToDuckDB(base).value.kind.VarcharType?
  }

  /** ClickHouse's types: a wrapper left below one LowCardinality and one Nullable is a SimpleAggregateFunction, whose
      first argument names a function. */
  predicate AsInClickHouse(node: TypeNode)
    decreases node
  {
    var base := WrappedBase(node);
    if IsTransparent(base) then
      base.name == "SimpleAggregateFunction" && |base.children| >= 2 && NamesFunction(base.children[0])
    else
      var types := ElementTypes(base);
      forall k :: 0 <= k < |types| ==> AsInClickHouse(types[k])
  }

  /** A column whose type hides a strict element from the check counts as converted on the server, and not exactly:
      nothing but NULL itself is assigned to it. */
  lemma {:induction false} HiddenIsConverted(node: TypeNode)
    requires AsInClickHouse(node) && HidesStrictElement(node)
    ensures ConvertedOnServer(node) && !ParsedFromTextExactly(WrappedBase(node))
    decreases node
  {
    hide ToDuckDB, HasStrictElement, CanHoldNull;
    var base := WrappedBase(node);
    if IsTransparent(base) {
      assert ConvertedOnServer(base.children[0]);
    } else {
      UnwrapBase(node);
      var types := ElementTypes(base);
      var i :| 0 <= i < |types| && HidesStrictElement(types[i]);
      HiddenIsConverted(types[i]);
      assert ConvertedOnServer(base.children[i]);
    }
  }

  lemma UnwrapBase(node: TypeNode)
    requires !IsTransparent(WrappedBase(node))
    ensures Unwrap(node) == WrappedBase(node)
  {
    var base := WrappedBase(node);
    assert Unwrap(base) == base;
  }

  /** SimpleAggregateFunction(groupArrayArray, Array(Int32)): its check passes a list with a NULL in it, and the column
      is refused all the same. */
  lemma SimpleAggregateRefused()
    ensures var int32 := TypeNode("Int32", [], [], [], "Int32");
      var list := TypeNode("Array", [int32], [], [], "Array(Int32)");
      var f := TypeNode("groupArrayArray", [], [], [], "groupArrayArray");
      var column := TypeNode("SimpleAggregateFunction", [f, list], [], [], "SimpleAggregateFunction(f, Array(Int32))");
      AsInClickHouse(column) && HidesStrictElement(column) && ConvertedOnServer(column) &&
      NullOutOfPlace(ListOf([Null]), column) && !HoldsNullElement(ListOf([Null]), column)
  {
    var int32 := TypeNode("Int32", [], [], [], "Int32");
    var list := TypeNode("Array", [int32], [], [], "Array(Int32)");
    var f := TypeNode("groupArrayArray", [], [], [], "groupArrayArray");
    var column := TypeNode("SimpleAggregateFunction", [f, list], [], [], "SimpleAggregateFunction(f, Array(Int32))");
    assert Unwrap(list) == list && Unwrap(column) == list && WrappedBase(column) == column;
    assert !CanHoldNull(int32) && ElementTypes(list) == [int32] && ElementTypes(column) == [];
    assert !CanHoldNull(ElementTypes(list)[0]);
    assert Unwrap(f) == f && WrappedBase(f) == f && GetDecimalInfo(f) == NotDecimal;
    assert Parts(ListOf([Null]), 1)[0] == Part(Null, 0);
    HiddenIsConverted(column);
  }

  // ---------------------------------------------------------------- the SET list

  /** SET column = value, an expression over the output of the plan below; `isDefault` is IsRewrittenDefault's
      verdict. */
  datatype SetItem = SetItem(column: nat, value: Expr, valueType: LogicalType, isDefault: bool)

  /** What a SET item becomes. `floorTo` is the precision FloorTimestamp floors to, `counted` says whether the NULL
      check counts it. */
  datatype Assignment =
    | Skipped
    | AssignNull
    | AssignParsed(literal: Sql)
    | Assign(value: Sql, floorTo: Option<nat>, counted: bool)

  function UnchangedScanColumn(plan: Plan, index: nat): Option<nat> {
    var traced :- Trace(plan, index);
    if traced.ScanColumn? && traced.column.Whole? then Some(traced.column.id) else None
  }

  function SourceColumn(plan: Plan, e: Expr): Option<nat> {
    if e.Ref? then UnchangedScanColumn(plan, e.index) else None
  }

  function ResolveConstant(plan: Plan, e: Expr): Option<Value> {
    if e.Const? then Some(e.value)
    else if !e.Ref? then None
    else
      var traced :- Trace(plan, e.index);
      if traced.ProjectionExpression? && traced.operator.Projection? && traced.index < |traced.operator.expressions| &&
         traced.operator.expressions[traced.index].Const?
      then Some(traced.operator.expressions[traced.index].value)
      else None
  }

  /** The value, cast to the column's type should its own differ. */
  function SetValueSql(columns: seq<ColumnInfo>, plan: Plan, item: SetItem): Option<Sql>
    requires item.column < |columns|
  {
    var value :- Translate(item.value, ResolverOf(columns, plan));
    var kind := columns[item.column].kind;
    if item.valueType == kind then Some(value)
    else
      var rounding :- ClassifyCast(item.valueType, kind);
      var text :- ToClickhouse(kind, true);
      Some(CastSql(rounding, value, kind))
  }

  /** The NULL elements of the new value, decided while planning. */
  predicate ElementsAccepted(columns: seq<ColumnInfo>, node: TypeNode, constant: Option<Value>, source: Option<nat>) {
    if constant.Some? then !HoldsNullElement(constant.value, node)
    else if source.Some? then
      source.value < |columns| && !MayGetNullElement(node, Some(columns[source.value].node))
    else !MayGetNullElement(node, None)
  }

  function AssignItem(columns: seq<ColumnInfo>, plan: Plan, item: SetItem): Option<Assignment>
    requires item.column < |columns|
  {
    var node := columns[item.column].node;
    var source := SourceColumn(plan, item.value);
    var constant := ResolveConstant(plan, item.value);
    if source == Some(item.column) then Some(Skipped)
    else if constant.Some? && constant.value.Null? && !CanHoldNull(node) then None
    else if !ElementsAccepted(columns, node, constant, source) then None
    else if ConvertedOnServer(node) then
      if constant == Some(Null) then Some(AssignNull)
      else if !ParsedFromTextExactly(WrappedBase(node)) || constant.None? then None
      else
        var literal :- Translate(item.value, ResolverOf(columns, plan));
        Some(AssignParsed(literal))
    else
      var value :- SetValueSql(columns, plan, item);
      if !IsCoarse(node) && HoldsCoarseDateTime(node) then None
      else
        var strictSource := source.Some? && !CanHoldNull(columns[source.value].node);
        Some(Assign(value, if IsCoarse(node) then DateTimePrecision(node) else None,
                    !CanHoldNull(node) && constant.None? && !strictSource))
  }

  function AssignItems(columns: seq<ColumnInfo>, plan: Plan, items: seq<SetItem>): (r: Option<seq<Assignment>>)
    requires forall item :: item in items ==> item.column < |columns|
    ensures r.Some? ==> |r.value| == |items|
  {
    if items == [] then Some([])
    else
      var first :- AssignItem(columns, plan, items[0]);
      var rest :- AssignItems(columns, plan, items[1..]);
      Some([first] + rest)
  }

  datatype UpdateStatement =
    | UnboundUpdate
    | UpdateNothing
    | Update(conditions: seq<Sql>, assignments: seq<Assignment>)

  function PlanUpdate(columns: seq<ColumnInfo>, plan: Plan, items: seq<SetItem>, returning: bool):
    Option<UpdateStatement>
  {
    if returning then None
    else
      var target :- Analyze(columns, plan);
      if exists item :: item in items && (item.column >= |columns| || item.isDefault) then None
      else
        match target
        case UnboundParameters => Some(UnboundUpdate)
        case MatchesNothing => Some(UpdateNothing)
        case Where(conditions) =>
          var assignments :- AssignItems(columns, plan, items);
          Some(Update(conditions, assignments))
  }

  /** The loop that fills the assignments, and rejects the statement at the first item it cannot assign. */
  method BuildAssignments(columns: seq<ColumnInfo>, plan: Plan, items: seq<SetItem>)
      returns (assignments: Option<seq<Assignment>>)
    requires forall item :: item in items ==> item.column < |columns|
    ensures assignments == AssignItems(columns, plan, items)
  {
    hide AssignItem;
    ghost var whole := AssignItems(columns, plan, items);
    var filled: seq<Assignment> := [];
    assert items[0..] == items;
    for i := 0 to |items|
      invariant whole.None? <==> AssignItems(columns, plan, items[i..]).None?
      invariant whole.Some? ==> whole.value == filled + AssignItems(columns, plan, items[i..]).value
    {
      assert items[i..][1..] == items[i + 1..];
      var assignment := AssignItem(columns, plan, items[i]);
      if assignment.None? {
        return None;
      }
      filled := filled + [assignment.value];
    }
    assert filled + [] == filled;
    return Some(filled);
  }

  // ---------------------------------------------------------------- the values assigned

  /** ClickHouse's positiveModulo. */
  function PositiveModulo(n: int, d: nat): nat
    requires d > 0
  {
    n % d
  }

  /** FloorTimestamp's SQL: micros - positiveModulo(micros, 10^(6 - precision)). */
  function FloorTimestamp(r: Res, precision: nat): Res {
    if r.Err? || precision > 6 then Err
    else
      match r.value
      case Null => r
      case TimestampTz(Finite(m)) =>
        Ok(TimestampTz(Finite(m - PositiveModulo(m, Pow10(6 - precision)))))
      case _ => Err
  }

  /** The instant an INSERT stores: the last tick of the column not after the value. */
  ghost predicate IsFloor(stored: int, micros: int, precision: nat)
    requires precision <= 6
  {
    var tick := Pow10(6 - precision);
    stored % tick == 0 && stored <= micros < stored + tick
  }

  lemma FloorExact(micros: int, precision: nat)
    requires precision <= 6
    ensures var r := FloorTimestamp(Ok(TimestampTz(Finite(micros))), precision);
      r.Ok? && r.value.TimestampTz? && r.value.micros.Finite? && IsFloor(r.value.micros.n, micros, precision)
  {
    var tick := Pow10(6 - precision);
    WholeTicks(micros, tick);
  }

  lemma WholeTicks(n: int, d: nat)
    requires d > 0
    ensures (n - n % d) % d == 0
  {
    var q := n / d;
    assert n - n % d == q * d;
    MultipleMod(q, d);
  }

  lemma MultipleMod(q: int, d: nat)
    requires d > 0
    ensures q * d % d == 0
  {
    var m, r := q * d / d, q * d % d;
    assert q * d == m * d + r;
    MultipleUnique(q, m, r, d);
  }

  /** DuckDB's value of a SET item on a row of the plan's output. */
  function SetValue(columns: seq<ColumnInfo>, item: SetItem, tuple: seq<Value>, server: Server): Res
    requires item.column < |columns|
  {
    var v, kind := DuckEval(item.value, tuple, server), columns[item.column].kind;
    if item.valueType == kind then v
    else if v.Ok? && HasType(v.value, item.valueType)
    then DuckCast(v.value, item.valueType, kind, server.dateText) else Err
  }

  function Floored(r: Res, floorTo: Option<nat>): Res {
    if floorTo.Some? then FloorTimestamp(r, floorTo.value) else r
  }

  /** What the statement hands to the final CAST to the column's ClickHouse type. */
  function AssignedValue(a: Assignment, row: seq<Value>, server: Server): Res
    requires !a.Skipped?
  {
    match a
    case AssignNull => Ok(Null)
    case AssignParsed(literal) => Eval(literal, row, server)
    case Assign(value, floorTo, _) => Floored(Eval(value, row, server), floorTo)
  }

  /** Where the output of a plain reference to a scanned column comes from. */
  lemma {:induction false} TraceColumn(plan: Plan, index: nat, row: Row, server: Server)
    requires RowOutcome(plan, row, server).Emitted? && UnchangedScanColumn(plan, index).Some?
    ensures index < |RowOutcome(plan, row, server).tuple|
    ensures RowOutcome(plan, row, server).tuple[index] == At(row.read, UnchangedScanColumn(plan, index).value)
    decreases plan
  {
    hide DuckIn, Junction, TableFilterResults;
    EmittedArity(plan, row, server);
    match plan
    case Get(_, columnIds, projectionIds, _, _) =>
      var position := if projectionIds == [] then index else projectionIds[index];
      assert ScanValues(columnIds, row)[position] == ScanValue(columnIds[position], row);
    case Filter(child, _, projectionMap) =>
      TraceColumn(child, if projectionMap == [] then index else projectionMap[index], row, server);
    case Projection(child, expressions) =>
      if expressions[index].Ref? {
        TraceColumn(child, expressions[index].index, row, server);
        TracedReference(expressions, index, RowOutcome(child, row, server).tuple, server);
      }
    case MarkJoin(child, leftMap, _, _, _) =>
      EmittedArity(child, row, server);
      TraceColumn(child, if leftMap == [] then index else leftMap[index], row, server);
    case _ =>
  }

  /** A resolved constant is the output's value on every row. */
  lemma {:induction false} TraceConstant(plan: Plan, index: nat, row: Row, server: Server)
    requires RowOutcome(plan, row, server).Emitted? && ResolveConstant(plan, Ref(index)).Some?
    ensures index < |RowOutcome(plan, row, server).tuple|
    ensures RowOutcome(plan, row, server).tuple[index] == ResolveConstant(plan, Ref(index)).value
    decreases plan
  {
    hide DuckIn, Junction, TableFilterResults;
    EmittedArity(plan, row, server);
    match plan
    case Filter(child, _, projectionMap) =>
      TraceConstant(child, if projectionMap == [] then index else projectionMap[index], row, server);
    case Projection(child, expressions) =>
      if expressions[index].Ref? {
        TraceConstant(child, expressions[index].index, row, server);
        TracedReference(expressions, index, RowOutcome(child, row, server).tuple, server);
      } else {
        var tuple := RowOutcome(child, row, server).tuple;
        DuckEvalAllAt(expressions, tuple, server, index);
        assert DuckEvalAll(expressions, tuple, server)[index] ==
               Ok(Collect(DuckEvalAll(expressions, tuple, server)).values[index]);
      }
    case MarkJoin(child, leftMap, _, _, _) =>
      EmittedArity(child, row, server);
      TraceConstant(child, if leftMap == [] then index else leftMap[index], row, server);
    case _ =>
  }

  lemma SetValueExact(columns: seq<ColumnInfo>, plan: Plan, item: SetItem, row: Row, server: Server, total: bool)
    requires item.column < |columns| && RowOf(row, columns) && Exact(plan, row, server, total)
    requires RowOutcome(plan, row, server).Emitted? && SetValueSql(columns, plan, item).Some?
    requires ComparesAlike(item.value, RowOutcome(plan, row, server).tuple, server)
    requires total ==> NeverFailsOnServer(item.value)
    ensures Keeps(SetValue(columns, item, RowOutcome(plan, row, server).tuple, server),
                  Eval(SetValueSql(columns, plan, item).value, row.stored, server), total)
  {
    hide RowOutcome, Exact, ComparesAlike, NeverFailsOnServer, Translate, DuckEval, DuckCast, ClassifyCast,
      CastSqlMeaning, ToClickhouse, HasType;
    ResolverExact(columns, plan, row, server, total);
    var tuple := RowOutcome(plan, row, server).tuple;
    TranslateExact(item.value, ResolverOf(columns, plan), tuple, row.stored, server, total);
    if item.valueType != columns[item.column].kind {
      CastKeeps(DuckEval(item.value, tuple, server),
                Eval(Translate(item.value, ResolverOf(columns, plan)).value, row.stored, server),
                item.valueType, columns[item.column].kind, server.dateText, total);
    }
  }

  /** Every value an UPDATE assigns to a row its plan outputs is DuckDB's, floored where the column is coarser; a
      column it leaves out keeps the value it is set to. */
  lemma AssignExact(columns: seq<ColumnInfo>, plan: Plan, item: SetItem, row: Row, server: Server, total: bool)
    requires item.column < |columns| && RowOf(row, columns) && Exact(plan, row, server, total)
    requires RowOutcome(plan, row, server).Emitted? && AssignItem(columns, plan, item).Some?
    requires ComparesAlike(item.value, RowOutcome(plan, row, server).tuple, server)
    requires total ==> NeverFailsOnServer(item.value)
    ensures var a := AssignItem(columns, plan, item).value;
      var tuple := RowOutcome(plan, row, server).tuple;
      match a
      case Skipped => DuckEval(item.value, tuple, server) == Ok(row.read[item.column])
      case AssignNull => DuckEval(item.value, tuple, server) == Ok(Null) && CanHoldNull(columns[item.column].node)
      case AssignParsed(literal) =>
        Keeps(DuckEval(item.value, tuple, server), AssignedValue(a, row.stored, server), total)
      case Assign(_, floorTo, _) =>
        Keeps(Floored(SetValue(columns, item, tuple, server), floorTo), AssignedValue(a, row.stored, server), total)
  {
    hide RowOutcome, Exact, ComparesAlike, NeverFailsOnServer, Translate, ElementsAccepted, ConvertedOnServer,
      CanHoldNull, IsCoarse, HoldsCoarseDateTime, Trace, WrappedBase, SetValueSql, Eval, SetValue, DuckEval;
    var a := AssignItem(columns, plan, item).value;
    var tuple := RowOutcome(plan, row, server).tuple;
    match a
    case Skipped =>
      TraceColumn(plan, item.value.index, row, server);
      ReferenceValue(item.value, tuple, server);
    case AssignNull => ConstantValue(plan, item.value, row, server);
    case AssignParsed(literal) =>
      ResolverExact(columns, plan, row, server, total);
      TranslateExact(item.value, ResolverOf(columns, plan), tuple, row.stored, server, total);
    case Assign(_, floorTo, _) => SetValueExact(columns, plan, item, row, server, total);
  }

  lemma ReferenceValue(e: Expr, tuple: seq<Value>, server: Server)
    ensures e.Ref? && e.index < |tuple| ==> DuckEval(e, tuple, server) == Ok(tuple[e.index])
    ensures e.Const? ==> DuckEval(e, tuple, server) == Ok(e.value)
  {
  }

  lemma ConstantValue(plan: Plan, e: Expr, row: Row, server: Server)
    requires RowOutcome(plan, row, server).Emitted? && ResolveConstant(plan, e).Some?
    ensures DuckEval(e, RowOutcome(plan, row, server).tuple, server) == Ok(ResolveConstant(plan, e).value)
  {
    hide RowOutcome, DuckEval, Trace;
    ReferenceValue(e, RowOutcome(plan, row, server).tuple, server);
    if e.Ref? {
      assert e == Ref(e.index);
      TraceConstant(plan, e.index, row, server);
    }
  }

  // ---------------------------------------------------------------- NULLs

  /** A value a column of this type can store. */
  predicate NullsFit(v: Value, node: TypeNode) {
    !(v.Null? && !CanHoldNull(node)) && !HoldsNullElement(v, node)
  }

  /** The table holds no NULL its column types cannot. */
  ghost predicate Conforms(row: Row, columns: seq<ColumnInfo>) {
    |row.read| == |columns| && forall id :: 0 <= id < |columns| ==> NullsFit(row.read[id], columns[id].node)
  }

  lemma FloorReads(r: Res, floorTo: Option<nat>)
    ensures Floored(r, floorTo).Ok? ==> r.Ok?
  {
  }

  /** A cast keeps NULLs where they are: `w` is NULL, at any depth, only where `v` is. */
  ghost predicate NullsWithin(w: Value, v: Value)
    decreases w
  {
    (w.Null? ==> v.Null?) &&
    match w
    case ListOf(elements) =>
      v.ListOf? && |v.elements| == |elements| &&
      forall k :: 0 <= k < |elements| ==> NullsWithin(elements[k], v.elements[k])
    case StructOf(fields) =>
      v.StructOf? && |v.fields| == |fields| && forall k :: 0 <= k < |fields| ==> NullsWithin(fields[k], v.fields[k])
    case MapOf(entries) =>
      v.MapOf? && |v.entries| == |entries| &&
      forall k :: 0 <= k < |entries| ==> NullsWithin(entries[k], v.entries[k])
    case _ => !v.StructOf?
  }

  lemma {:induction false} NullsWithinSelf(v: Value)
    ensures NullsWithin(v, v)
    decreases v
  {
    match v
    case ListOf(elements) =>
      forall k | 0 <= k < |elements| ensures NullsWithin(elements[k], elements[k]) {
        NullsWithinSelf(elements[k]);
      }
    case StructOf(fields) =>
      forall k | 0 <= k < |fields| ensures NullsWithin(fields[k], fields[k]) {
        NullsWithinSelf(fields[k]);
      }
    case MapOf(entries) =>
      forall k | 0 <= k < |entries| ensures NullsWithin(entries[k], entries[k]) {
        NullsWithinSelf(entries[k]);
      }
    case _ =>
  }

  lemma {:induction false} CastKeepsNulls(v: Value, target: LogicalType, dateText: DateText)
    requires ServerCast(v, target, dateText).Ok?
    ensures NullsWithin(ServerCast(v, target, dateText).value, v)
    decreases target, 1
  {
    hide IntResult, DecimalResult, TimestampResult, HasType;
    if !v.Null? {
      match target
      case ListType(element) => CastAllKeepsNulls(v.elements, element, dateText);
      case StructType(_, fields) => CastEachKeepsNulls(v.fields, fields, dateText);
      case MapType(key, entry) => CastEntriesKeepNulls(v.entries, key, entry, dateText);
      case _ => ScalarCastNotNull(v, target, dateText);
    }
  }

  lemma ScalarCastNotNull(v: Value, target: LogicalType, dateText: DateText)
    requires !v.Null? && !target.ListType? && !target.StructType? && !target.MapType?
    requires ServerCast(v, target, dateText).Ok?
    ensures NullsWithin(ServerCast(v, target, dateText).value, v)
  {
    NullsWithinSelf(v);
  }

  lemma {:induction false} CastAllKeepsNulls(vs: seq<Value>, target: LogicalType, dateText: DateText)
    requires ServerCastAll(vs, target, dateText).Results?
    ensures var ws := ServerCastAll(vs, target, dateText).values;
      |ws| == |vs| && forall k :: 0 <= k < |vs| ==> NullsWithin(ws[k], vs[k])
    decreases target, 2, vs
  {
    hide ServerCast, NullsWithin;
    if vs != [] {
      CastKeepsNulls(vs[0], target, dateText);
      CastAllKeepsNulls(vs[1..], target, dateText);
    }
  }

  lemma {:induction false} CastEachKeepsNulls(vs: seq<Value>, targets: seq<LogicalType>, dateText: DateText)
    requires ServerCastEach(vs, targets, dateText).Results?
    ensures var ws := ServerCastEach(vs, targets, dateText).values;
      |ws| == |vs| && forall k :: 0 <= k < |vs| ==> NullsWithin(ws[k], vs[k])
    decreases targets, 0
  {
    hide ServerCast, NullsWithin;
    if vs != [] && targets != [] {
      CastKeepsNulls(vs[0], targets[0], dateText);
      CastEachKeepsNulls(vs[1..], targets[1..], dateText);
    }
  }

  lemma {:induction false} CastEntriesKeepNulls(es: seq<Value>, key: LogicalType, entry: LogicalType,
                                                dateText: DateText)
    requires ServerCastEntries(es, key, entry, dateText).Results?
    ensures var ws := ServerCastEntries(es, key, entry, dateText).values;
      |ws| == |es| && forall k :: 0 <= k < |es| ==> NullsWithin(ws[k], es[k])
    decreases MapType(key, entry), 0, es
  {
    hide ServerCast;
    if es != [] {
      CastKeepsNulls(es[0].fields[0], key, dateText);
      CastKeepsNulls(es[0].fields[1], entry, dateText);
      var k, v := ServerCast(es[0].fields[0], key, dateText).value, ServerCast(es[0].fields[1], entry, dateText).value;
      var pair := StructOf([k] + ([v] + []));
      assert pair.fields[0] == k && pair.fields[1] == v;
      assert NullsWithin(pair, es[0]);
      hide NullsWithin;
      CastEntriesKeepNulls(es[1..], key, entry, dateText);
    }
  }

  /** So whoever holds no NULL a type refuses still holds none after a cast. */
  lemma {:induction false} NullsWithinFit(w: Value, v: Value, node: TypeNode)
    requires NullsWithin(w, v) && HoldsNullElement(w, node)
    ensures HoldsNullElement(v, node)
    decreases node
  {
    hide CanHoldNull, WrappedBase;
    var types := ElementTypes(WrappedBase(node));
    var parts := Parts(w, |types|);
    var k :| 0 <= k < |parts| &&
      ((parts[k].value.Null? && !CanHoldNull(types[parts[k].position])) ||
       HoldsNullElement(parts[k].value, types[parts[k].position]));
    PartsWithin(w, v, |types|);
    var others := Parts(v, |types|);
    assert others[k].position == parts[k].position && NullsWithin(parts[k].value, others[k].value);
    hide Parts;
    if HoldsNullElement(parts[k].value, types[parts[k].position]) {
      NullsWithinFit(parts[k].value, others[k].value, types[parts[k].position]);
    } else {
      assert parts[k].value.Null? && others[k].value.Null?;
    }
  }

  lemma PartsWithin(w: Value, v: Value, count: nat)
    requires NullsWithin(w, v)
    ensures var parts, others := Parts(w, count), Parts(v, count);
      |parts| <= |others| &&
      forall k :: 0 <= k < |parts| ==>
        parts[k].position == others[k].position && NullsWithin(parts[k].value, others[k].value)
  {
    if w.MapOf? {
      EntriesWithin(w.entries, v.entries);
    }
  }

  lemma {:induction false} EntriesWithin(ws: seq<Value>, vs: seq<Value>)
    requires |ws| == |vs| && forall k :: 0 <= k < |ws| ==> NullsWithin(ws[k], vs[k])
    ensures var parts, others := EntryParts(ws), EntryParts(vs);
      |parts| <= |others| &&
      forall k :: 0 <= k < |parts| ==>
        parts[k].position == others[k].position && NullsWithin(parts[k].value, others[k].value)
  {
    if ws != [] {
      EntriesWithin(ws[1..], vs[1..]);
    }
  }

  // ---------------------------------------------------------------- what the server assigns

  /** The SQL of a reference to a scanned column gives what DuckDB reads of it, whatever the plan makes of the row. */
  lemma {:induction false} ResolvedColumn(columns: seq<ColumnInfo>, plan: Plan, index: nat, row: Row, server: Server)
    requires RowOf(row, columns)
    requires UnchangedScanColumn(plan, index).Some? && ResolveOutput(columns, plan, index).Some?
    ensures UnchangedScanColumn(plan, index).value < |columns|
    ensures Eval(ResolveOutput(columns, plan, index).value, row.stored, server) ==
            Ok(row.read[UnchangedScanColumn(plan, index).value])
    decreases plan
  {
    hide IsComparedExactly;
    match plan
    case Filter(child, _, projectionMap) =>
      ResolvedColumn(columns, child, if projectionMap == [] then index else projectionMap[index], row, server);
    case Projection(child, expressions) => ResolvedColumn(columns, child, expressions[index].index, row, server);
    case MarkJoin(child, leftMap, _, _, _) =>
      ResolvedColumn(columns, child, if leftMap == [] then index else leftMap[index], row, server);
    case _ =>
  }

  /** The SQL of a resolved constant gives it. */
  lemma {:induction false} ResolvedValue(columns: seq<ColumnInfo>, plan: Plan, index: nat, row: Row, server: Server)
    requires ResolveConstant(plan, Ref(index)).Some? && ResolveOutput(columns, plan, index).Some?
    ensures Eval(ResolveOutput(columns, plan, index).value, row.stored, server) ==
            Ok(ResolveConstant(plan, Ref(index)).value)
    decreases plan
  {
    hide LiteralSql, Eval;
    match plan
    case Filter(child, _, projectionMap) =>
      ResolvedValue(columns, child, if projectionMap == [] then index else projectionMap[index], row, server);
    case Projection(child, expressions) =>
      if expressions[index].Ref? {
        ResolvedValue(columns, child, expressions[index].index, row, server);
      } else {
        LiteralExact(expressions[index].value, row.stored, server);
      }
    case MarkJoin(child, leftMap, _, _, _) =>
      ResolvedValue(columns, child, if leftMap == [] then index else leftMap[index], row, server);
    case _ =>
  }

  /** The value an item's expression has on the server, before any cast. */
  function ServerValue(columns: seq<ColumnInfo>, plan: Plan, e: Expr, row: Row, server: Server): Res {
    var sql := Translate(e, ResolverOf(columns, plan));
    if sql.Some? then Eval(sql.value, row.stored, server) else Err
  }

  lemma KnownValue(columns: seq<ColumnInfo>, plan: Plan, e: Expr, row: Row, server: Server)
    requires RowOf(row, columns) && Translate(e, ResolverOf(columns, plan)).Some?
    ensures ResolveConstant(plan, e).Some? ==>
      ServerValue(columns, plan, e, row, server) == Ok(ResolveConstant(plan, e).value)
    ensures SourceColumn(plan, e).Some? ==>
      SourceColumn(plan, e).value < |columns| &&
      ServerValue(columns, plan, e, row, server) == Ok(row.read[SourceColumn(plan, e).value])
  {
    hide Trace, LiteralSql, ResolveOutput, RowOf, Eval, UnchangedScanColumn;
    if e.Const? {
      LiteralExact(e.value, row.stored, server);
    } else if e.Ref? {
      assert e == Ref(e.index);
      assert ResolverOf(columns, plan)(e.index) == ResolveOutput(columns, plan, e.index);
      if ResolveConstant(plan, e).Some? {
        ResolvedValue(columns, plan, e.index, row, server);
      }
      if UnchangedScanColumn(plan, e.index).Some? {
        ResolvedColumn(columns, plan, e.index, row, server);
      }
    }
  }

  /** A SET item's SQL holds NULLs only where the value before its cast does. */
  lemma SetValueNulls(columns: seq<ColumnInfo>, plan: Plan, item: SetItem, row: Row, server: Server)
    requires item.column < |columns| && SetValueSql(columns, plan, item).Some?
    requires Eval(SetValueSql(columns, plan, item).value, row.stored, server).Ok?
    ensures ServerValue(columns, plan, item.value, row, server).Ok?
    ensures NullsWithin(Eval(SetValueSql(columns, plan, item).value, row.stored, server).value,
                        ServerValue(columns, plan, item.value, row, server).value)
  {
    hide Translate, ClassifyCast, ToClickhouse, ServerCast, NullsWithin;
    var kind, sql := columns[item.column].kind, Translate(item.value, ResolverOf(columns, plan)).value;
    var given := Eval(sql, row.stored, server);
    if item.valueType != kind {
      var rounding := ClassifyCast(item.valueType, kind).value;
      assert Eval(CastSql(rounding, sql, kind), row.stored, server) ==
             if given.Ok? then CastSqlMeaning(rounding, given.value, kind, server.dateText) else Err;
      CastMeaningNulls(rounding, given.value, kind, server.dateText);
    } else {
      NullsWithinSelf(given.value);
    }
  }

  lemma CastMeaningNulls(rounding: CastRounding, v: Value, target: LogicalType, dateText: DateText)
    requires CastSqlMeaning(rounding, v, target, dateText).Ok?
    ensures NullsWithin(CastSqlMeaning(rounding, v, target, dateText).value, v)
  {
    hide ServerCast, NullsWithin;
    match rounding
    case NoRounding => CastKeepsNulls(v, target, dateText);
    case HalfToEven =>
      CastKeepsNulls(ServerRoundBankers(v).value, target, dateText);
      RoundedNulls(CastSqlMeaning(rounding, v, target, dateText).value, ServerRoundBankers(v).value, v);
    case HalfAwayFromZero =>
      var rounded := ServerRound(v, if target.DecimalType? then target.scale else 0);
      CastKeepsNulls(rounded.value, target, dateText);
      RoundedNulls(CastSqlMeaning(rounding, v, target, dateText).value, rounded.value, v);
  }

  /** A number that was rounded, or NULL. */
  lemma RoundedNulls(w: Value, rounded: Value, v: Value)
    requires NullsWithin(w, rounded) && (rounded.Null? <==> v.Null?)
    requires !rounded.ListOf? && !rounded.StructOf? && !rounded.MapOf?
    requires !v.ListOf? && !v.StructOf? && !v.MapOf?
    ensures NullsWithin(w, v)
  {
  }

  /** An UPDATE item whose NULL count is zero assigns no NULL its column cannot hold, at the top or inside any Array,
      Tuple or Map, to any row at all. `v` is the value the server assigns. */
  lemma NullSafe(columns: seq<ColumnInfo>, plan: Plan, item: SetItem, row: Row, server: Server, v: Value)
    requires item.column < |columns| && AsInClickHouse(columns[item.column].node)
    requires RowOf(row, columns) && Conforms(row, columns)
    requires AssignItem(columns, plan, item).Some? && !AssignItem(columns, plan, item).value.Skipped?
    requires AssignedValue(AssignItem(columns, plan, item).value, row.stored, server) == Ok(v)
    requires var a := AssignItem(columns, plan, item).value;
      a.Assign? && a.counted ==> !v.Null?  // countIf(isNull(...)) is zero over the rows the predicate matches
    ensures NullsFit(v, columns[item.column].node) && !NullOutOfPlace(v, columns[item.column].node)
  {
    hide Translate, ConvertedOnServer, CanHoldNull, IsCoarse, HoldsCoarseDateTime, Trace, WrappedBase, Eval,
      HoldsNullElement, MayGetNullElement, NullOutOfPlace, HidesStrictElement, Floored, ResolveConstant,
      UnchangedScanColumn, AsInClickHouse, SetValueSql, ParsedFromTextExactly, RowOf;
    var node := columns[item.column].node;
    if ResolveConstant(plan, item.value).Some? {
      AssignedConstant(columns, plan, item, row, server, v);
    } else if SourceColumn(plan, item.value).Some? {
      AssignedSource(columns, plan, item, row, server, v);
    } else {
      NoNullElement(node, None, v);
    }
    if HidesStrictElement(node) {
      HiddenRefused(columns, plan, item);
      NullHoldsNothing(node);
    } else {
      CheckComplete(v, node);
    }
  }

  /** Nothing but NULL, or the column itself, is ever assigned to a column whose type hides a strict element. */
  lemma HiddenRefused(columns: seq<ColumnInfo>, plan: Plan, item: SetItem)
    requires item.column < |columns| && AsInClickHouse(columns[item.column].node)
    requires HidesStrictElement(columns[item.column].node) && AssignItem(columns, plan, item).Some?
    ensures AssignItem(columns, plan, item).value.Skipped? || AssignItem(columns, plan, item).value.AssignNull?
  {
    hide ConvertedOnServer, ParsedFromTextExactly, WrappedBase, HidesStrictElement, AsInClickHouse, Trace, Translate,
      ElementsAccepted, CanHoldNull;
    HiddenIsConverted(columns[item.column].node);
  }

  /** What is assigned of a value with no NULL out of place has none either. */
  lemma AssignedNulls(columns: seq<ColumnInfo>, plan: Plan, item: SetItem, row: Row, server: Server, u: Value, v: Value)
    requires item.column < |columns| && AssignItem(columns, plan, item).Some?
    requires AssignItem(columns, plan, item).value.Assign?
    requires AssignedValue(AssignItem(columns, plan, item).value, row.stored, server) == Ok(v)
    requires ServerValue(columns, plan, item.value, row, server) == Ok(u)
    requires !HoldsNullElement(u, columns[item.column].node)
    ensures !HoldsNullElement(v, columns[item.column].node) && (v.Null? ==> u.Null?)
  {
    hide Translate, ConvertedOnServer, CanHoldNull, IsCoarse, HoldsCoarseDateTime, Trace, WrappedBase, Eval,
      MayGetNullElement, HoldsNullElement, ResolveConstant, UnchangedScanColumn, ToDuckDB, Floored, SetValueSql,
      ElementsAccepted, ServerValue;
    var node, a := columns[item.column].node, AssignItem(columns, plan, item).value;
    var before := Eval(a.value, row.stored, server);
    FloorReads(before, a.floorTo);
    SetValueNulls(columns, plan, item, row, server);
    if HoldsNullElement(before.value, node) {
      NullsWithinFit(before.value, u, node);
    }
    FloorOf(before, a.floorTo, v, node);
  }

  lemma AssignedConstant(columns: seq<ColumnInfo>, plan: Plan, item: SetItem, row: Row, server: Server, v: Value)
    requires item.column < |columns| && RowOf(row, columns) && AssignItem(columns, plan, item).Some?
    requires !AssignItem(columns, plan, item).value.Skipped? && ResolveConstant(plan, item.value).Some?
    requires AssignedValue(AssignItem(columns, plan, item).value, row.stored, server) == Ok(v)
    ensures NullsFit(v, columns[item.column].node)
  {
    hide Translate, ConvertedOnServer, CanHoldNull, IsCoarse, HoldsCoarseDateTime, Trace, WrappedBase, Eval,
      MayGetNullElement, HoldsNullElement, ResolveConstant, UnchangedScanColumn, ToDuckDB, Floored,
      ParsedFromTextExactly, RowOf;
    var node, constant := columns[item.column].node, ResolveConstant(plan, item.value).value;
    assert !HoldsNullElement(constant, node) && (constant.Null? ==> CanHoldNull(node));
    var a := AssignItem(columns, plan, item).value;
    if a.AssignNull? {
      NullHoldsNothing(node);
    } else {
      KnownValue(columns, plan, item.value, row, server);
      if a.Assign? {
        hide ServerValue, SetValueSql;
        AssignedNulls(columns, plan, item, row, server, constant, v);
      }
    }
  }

  lemma NullHoldsNothing(node: TypeNode)
    ensures !HoldsNullElement(Null, node) && !NullOutOfPlace(Null, node)
  {
  }

  /** NULL and nested NULLs come only from the value before the flooring. */
  lemma FloorOf(before: Res, floorTo: Option<nat>, v: Value, node: TypeNode)
    requires before.Ok? && Floored(before, floorTo) == Ok(v)
    requires !HoldsNullElement(before.value, node)
    ensures !HoldsNullElement(v, node) && (v.Null? ==> before.value.Null?)
  {
  }

  lemma AssignedSource(columns: seq<ColumnInfo>, plan: Plan, item: SetItem, row: Row, server: Server, v: Value)
    requires item.column < |columns| && RowOf(row, columns) && Conforms(row, columns)
    requires AssignItem(columns, plan, item).Some? && !AssignItem(columns, plan, item).value.Skipped?
    requires AssignedValue(AssignItem(columns, plan, item).value, row.stored, server) == Ok(v)
    requires ResolveConstant(plan, item.value).None? && SourceColumn(plan, item.value).Some?
    requires var a := AssignItem(columns, plan, item).value; a.Assign? && a.counted ==> !v.Null?
    ensures NullsFit(v, columns[item.column].node)
  {
    hide Translate, ConvertedOnServer, CanHoldNull, IsCoarse, HoldsCoarseDateTime, Trace, WrappedBase, Eval,
      MayGetNullElement, HoldsNullElement, ResolveConstant, UnchangedScanColumn, ToDuckDB, Floored, RowOf;
    var node, id := columns[item.column].node, SourceColumn(plan, item.value).value;
    KnownValue(columns, plan, item.value, row, server);
    hide ServerValue, SetValueSql;
    NoNullElement(node, Some(columns[id].node), row.read[id]);
    AssignedNulls(columns, plan, item, row, server, row.read[id], v);
  }
}
