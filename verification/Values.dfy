/** Values, and how DuckDB and ClickHouse compare them. */
module Values {

  /** A date or a timestamp; DuckDB's can be infinite. */
  datatype Instant = NegInfinity | Finite(n: int) | PosInfinity

  datatype Value =
    | Null
    | Bool(b: bool)
    | Int(n: int)
    | Decimal(unscaled: int, scale: nat)
    | Float(x: real)                              // finite FLOAT and DOUBLE values
    | Str(s: string)
    | EnumLabel(text: string, position: nat)      // a label and its place in its type
    | Date(day: Instant)
    | TimeOfDay(ticks: int, digits: nat)
    | Timestamp(nanos: Instant)                   // naive, UTC, whatever digits its type holds
    | TimestampTz(micros: Instant)
    | Uuid(high: nat, low: nat)                   // its two 64-bit halves
    | ListOf(elements: seq<Value>)
    | StructOf(fields: seq<Value>)
    | MapOf(entries: seq<Value>)                  // (key, value) STRUCTs

  /** The outcome of evaluating an expression. On DuckDB's side Err is a statement that fails; on ClickHouse's side it
      stands for the cases excluded from the translation's promise: a zero divisor or an overflow. Both sides give
      Err for operands no binder would produce. */
  datatype Res = Ok(value: Value) | Err

  const TRUE := Bool(true)
  const FALSE := Bool(false)

  /** The promise: where both sides give a value, it is the same one; and, if `total`, the server gives one wherever
      DuckDB does. */
  predicate Keeps(duck: Res, server: Res, total: bool) {
    (duck.Ok? && server.Ok? ==> duck == server) && (total && duck.Ok? ==> server.Ok?)
  }

  // ---------------------------------------------------------------- order

  predicate InstantBefore(a: Instant, b: Instant) {
    if a.Finite? && b.Finite? then a.n < b.n
    else (a.NegInfinity? && !b.NegInfinity?) || (b.PosInfinity? && !a.PosInfinity?)
  }

  predicate TextBefore(a: string, b: string) {
    b != "" && (a == "" || a[0] < b[0] || (a[0] == b[0] && TextBefore(a[1..], b[1..])))
  }

  /** Values a binder leaves as the two sides of one comparison: of one type, neither of them NULL. */
  predicate Comparable(a: Value, b: Value) {
    (a.Bool? && b.Bool?) ||
    (a.Int? && b.Int?) ||
    (a.Decimal? && b.Decimal? && a.scale == b.scale) ||
    (a.Float? && b.Float?) ||
    (a.Str? && b.Str?) ||
    (a.Date? && b.Date?) ||
    (a.TimeOfDay? && b.TimeOfDay? && a.digits == b.digits) ||
    (a.Timestamp? && b.Timestamp?) ||
    (a.TimestampTz? && b.TimestampTz?) ||
    (a.Uuid? && b.Uuid?) ||
    (a.EnumLabel? && b.EnumLabel?) ||
    (a.ListOf? && b.ListOf?) ||
    (a.MapOf? && b.MapOf?) ||
    (a.StructOf? && b.StructOf? && |a.fields| == |b.fields| &&
     forall k :: 0 <= k < |a.fields| ==>
       a.fields[k].Null? || b.fields[k].Null? || Comparable(a.fields[k], b.fields[k]))
  }

  /** DuckDB's order of values that are not nested. */
  predicate Before(a: Value, b: Value) {
    if a.Bool? && b.Bool? then !a.b && b.b
    else if a.Int? && b.Int? then a.n < b.n
    else if a.Decimal? && b.Decimal? then a.unscaled < b.unscaled
    else if a.Float? && b.Float? then a.x < b.x
    else if a.Str? && b.Str? then TextBefore(a.s, b.s)
    else if a.Date? && b.Date? then InstantBefore(a.day, b.day)
    else if a.TimeOfDay? && b.TimeOfDay? then a.ticks < b.ticks
    else if a.Timestamp? && b.Timestamp? then InstantBefore(a.nanos, b.nanos)
    else if a.TimestampTz? && b.TimestampTz? then InstantBefore(a.micros, b.micros)
    else if a.EnumLabel? && b.EnumLabel? then a.position < b.position
    else a.Uuid? && b.Uuid? && (a.high < b.high || (a.high == b.high && a.low < b.low))
  }

  /** ClickHouse's order: DuckDB's, except that UUIDs are ordered by their second half first. ENUM labels are ordered by
      their values, which the positions DuckDB gives them follow (TypeMapping.PositionsFollowValues). */
  predicate ServerBefore(a: Value, b: Value) {
    if a.Uuid? && b.Uuid? then a.low < b.low || (a.low == b.low && a.high < b.high) else Before(a, b)
  }

  /** The order of nested values, position by position, NULL last and equal to NULL. ClickHouse's differs in the UUIDs
      alone, and is its order of Arrays and Maps, and of Tuples in them. */
  predicate Precedes(a: Value, b: Value, onServer: bool)
    decreases a, 1
  {
    if a.ListOf? && b.ListOf? then ElementsPrecede(a.elements, b.elements, onServer)
    else if a.StructOf? && b.StructOf? then ElementsPrecede(a.fields, b.fields, onServer)
    else if a.MapOf? && b.MapOf? then ElementsPrecede(a.entries, b.entries, onServer)
    else if a.Null? || b.Null? then !a.Null?
    else if onServer then ServerBefore(a, b)
    else Before(a, b)
  }

  predicate ElementsPrecede(a: seq<Value>, b: seq<Value>, onServer: bool)
    decreases a, 0
  {
    b != [] &&
    (a == [] || if a[0] == b[0] then ElementsPrecede(a[1..], b[1..], onServer) else Precedes(a[0], b[0], onServer))
  }

  datatype Comparison = Equal | NotEqual | Less | Greater | LessOrEqual | GreaterOrEqual {
    predicate IsOrdered() {
      !Equal? && !NotEqual?
    }

    function Strictly(): Comparison {
      if LessOrEqual? then Less else if GreaterOrEqual? then Greater else this
    }
  }

  predicate Holds(op: Comparison, equal: bool, before: bool, after: bool) {
    match op
    case Equal => equal
    case NotEqual => !equal
    case Less => before
    case Greater => after
    case LessOrEqual => before || equal
    case GreaterOrEqual => after || equal
  }

  /** DuckDB's comparison: NULL for a NULL, and a verdict for anything else, NULLs inside it included. */
  function Compare(op: Comparison, a: Value, b: Value): Res {
    if a.Null? || b.Null? then Ok(Null)
    else if !Comparable(a, b) then Err
    else Ok(Bool(Holds(op, a == b, Precedes(a, b, false), Precedes(b, a, false))))
  }

  predicate IsTruth(r: Res) {
    r.Ok? && (r.value.Bool? || r.value.Null?)
  }

  /** One more operand of AND or OR. */
  function Combine(isAnd: bool, first: Res, rest: Res): Res {
    var deciding := Ok(Bool(!isAnd));
    if first == deciding || rest == deciding then deciding
    else if !IsTruth(first) || rest.Err? then Err
    else if first == Ok(Null) || rest == Ok(Null) then Ok(Null)
    else Ok(Bool(isAnd))
  }

  /** ClickHouse's: Tuples are compared field by field, in three-valued logic. */
  function ServerCompare(op: Comparison, a: Value, b: Value): Res
    decreases a, 1
  {
    if a.Null? || b.Null? then Ok(Null)
    else if !Comparable(a, b) then Err
    else if a.StructOf? then TupleCompare(op, a.fields, b.fields)
    else Ok(Bool(Holds(op, a == b, Precedes(a, b, true), Precedes(b, a, true))))
  }

  /** All fields equal; or some that differ; or a field in order below equal ones. */
  function TupleCompare(op: Comparison, a: seq<Value>, b: seq<Value>): Res
    requires |a| == |b|
    decreases a, 0
  {
    if a == [] then Ok(Bool(Holds(op, true, false, false)))
    else
      var rest := TupleCompare(op, a[1..], b[1..]);
      match op
      case Equal => Combine(true, ServerCompare(Equal, a[0], b[0]), rest)
      case NotEqual => Combine(false, ServerCompare(NotEqual, a[0], b[0]), rest)
      case _ =>
        Combine(false, ServerCompare(op.Strictly(), a[0], b[0]), Combine(true, ServerCompare(Equal, a[0], b[0]), rest))
  }
}
