/** Which casts the translation accepts, and that the SQL it emits for them computes DuckDB's result
    (src/clickhouse_expression.cpp, ClassifyCast and CastSql). */
module Casts {
  import opened Options
  import opened LogicalTypes
  import opened Values
  import opened Text

  // ---------------------------------------------------------------- arithmetic

  function Pow10(n: nat): (r: nat)
    ensures r > 0
  {
    if n == 0 then 1 else 10 * Pow10(n - 1)
  }

  function Abs(n: int): nat {
    if n < 0 then -n else n
  }

  /** Division truncating toward zero. */
  function TruncDiv(a: int, d: int): int
    requires d != 0
  {
    if (a < 0) == (d < 0) then Abs(a) / Abs(d) else -(Abs(a) / Abs(d))
  }

  /** Division rounding to nearest, halves away from zero. */
  function RoundAwayDiv(a: int, d: nat): int
    requires d > 0
  {
    var q := (2 * Abs(a) + d) / (2 * d);
    if a < 0 then -q else q
  }

  function FloorDiv(a: int, d: nat): int
    requires d > 0
  {
    a / d
  }

  /** std::nearbyint and roundBankers: to nearest, halves to even. */
  function RoundHalfEven(x: real): int {
    var below := x.Floor;
    var rest := x - below as real;
    if rest < 0.5 then below
    else if rest > 0.5 then below + 1
    else if below % 2 == 0 then below
    else below + 1
  }

  function TruncReal(x: real): int {
    if x >= 0.0 then x.Floor else -((-x).Floor)
  }

  // ---------------------------------------------------------------- ranges

  function Pow2(n: nat): (r: nat)
    ensures r > 0
  {
    if n == 0 then 1 else 2 * Pow2(n - 1)
  }

  function MinOf(bits: nat, signed: bool): int {
    if signed && bits > 0 then -(Pow2(bits - 1) as int) else 0
  }

  function MaxOf(bits: nat, signed: bool): int {
    if signed && bits > 0 then Pow2(bits - 1) - 1 else Pow2(bits) - 1
  }

  predicate FitsInteger(n: int, bits: nat, signed: bool) {
    MinOf(bits, signed) <= n <= MaxOf(bits, signed)
  }

  function IntResult(n: int, bits: nat, signed: bool): Res {
    if FitsInteger(n, bits, signed) then Ok(Int(n)) else Err
  }

  function DecimalResult(unscaled: int, width: nat, scale: nat): Res {
    if Abs(unscaled) < Pow10(width) then Ok(Decimal(unscaled, scale)) else Err
  }

  /** Nanoseconds that a timestamp type with `digits` digits of a second holds in its 64 bits. */
  predicate FitsTimestamp(nanos: int, digits: nat) {
    digits <= 9 && nanos % Pow10(9 - digits) == 0 && FitsInteger(nanos / Pow10(9 - digits), 64, true)
  }

  function TimestampResult(nanos: int, digits: nat): Res {
    if FitsTimestamp(nanos, digits) then Ok(Timestamp(Finite(nanos))) else Err
  }

  const NANOS_PER_DAY := 86_400_000_000_000

  // ---------------------------------------------------------------- ENUM labels

  function LabelPosition(labels: seq<string>, text: string): (r: nat)
    requires text in labels
    ensures r < |labels| && labels[r] == text
  {
    if labels[0] == text then 0 else 1 + LabelPosition(labels[1..], text)
  }

  /** Both systems cast between ENUM types by label. */
  function ToLabel(v: Value, labels: seq<string>): Res {
    if v.EnumLabel? && v.text in labels then Ok(EnumLabel(v.text, LabelPosition(labels, v.text))) else Err
  }

  // ---------------------------------------------------------------- typed values

  /** A value of a type, NULL included, at every level. */
  predicate HasType(v: Value, t: LogicalType)
    decreases t, 1
  {
    v.Null? ||
    match t
    case BooleanType => v.Bool?
    case IntegerType(bits, signed) => v.Int? && FitsInteger(v.n, bits, signed)
    case FloatType => v.Float?
    case DoubleType => v.Float?
    case DecimalType(width, scale) => v.Decimal? && v.scale == scale && Abs(v.unscaled) < Pow10(width)
    case VarcharType => v.Str?
    case JsonType => v.Str?
    case BlobType => v.Str?
    case DateType => v.Date?
    case TimeType => v.TimeOfDay? && v.digits == 6
    case TimeNsType => v.TimeOfDay? && v.digits == 9
    case TimestampType(digits) =>
      v.Timestamp? && (v.nanos.Finite? ==> FitsTimestamp(v.nanos.n, digits))
    case TimestampTzType => v.TimestampTz?
    case UuidType => v.Uuid?
    case EnumType(labels) => v.EnumLabel? && v.text in labels && v.position == LabelPosition(labels, v.text)
    case ListType(element) => v.ListOf? && AllHaveType(v.elements, element)
    case StructType(_, fields) => v.StructOf? && EachHasType(v.fields, fields)
    case MapType(key, entry) => v.MapOf? && AllEntries(v.entries, key, entry)
    case _ => false
  }

  predicate AllHaveType(vs: seq<Value>, t: LogicalType)
    decreases t, 2, vs
  {
    vs == [] || (HasType(vs[0], t) && AllHaveType(vs[1..], t))
  }

  predicate EachHasType(vs: seq<Value>, ts: seq<LogicalType>)
    decreases ts, 0
  {
    |vs| == |ts| && (vs == [] || (HasType(vs[0], ts[0]) && EachHasType(vs[1..], ts[1..])))
  }

  predicate AllEntries(es: seq<Value>, key: LogicalType, entry: LogicalType)
    decreases MapType(key, entry), 0, es
  {
    es == [] ||
    (es[0].StructOf? && |es[0].fields| == 2 && HasType(es[0].fields[0], key) && HasType(es[0].fields[1], entry) &&
     AllEntries(es[1..], key, entry))
  }

  // ---------------------------------------------------------------- DuckDB's cast

  /** The text both systems print a date as; left abstract. */
  type DateText = int -> string

  function IntText(n: int): string {
    if n < 0 then "-" + NatText(-n) else NatText(n)
  }

  /** The VARCHAR form of the types HasSameTextForm lists. */
  function TextForm(v: Value, dateText: DateText): Res {
    match v
    case Int(n) => Ok(Str(IntText(n)))
    case Str(s) => Ok(Str(s))
    case EnumLabel(text, _) => Ok(Str(text))
    case Date(Finite(day)) => Ok(Str(dateText(day)))
    case _ => Err
  }

  /** DuckDB's CAST of a value that is not NULL to an integer type: DOUBLE half to even, DECIMAL half away from zero. */
  function DuckToInteger(v: Value, bits: nat, signed: bool): Res {
    match v
    case Bool(b) => IntResult(if b then 1 else 0, bits, signed)
    case Int(n) => IntResult(n, bits, signed)
    case Float(x) => IntResult(RoundHalfEven(x), bits, signed)
    case Decimal(unscaled, scale) => IntResult(RoundAwayDiv(unscaled, Pow10(scale)), bits, signed)
    case _ => Err
  }

  function DuckToDecimal(v: Value, width: nat, scale: nat): Res {
    match v
    case Int(n) => DecimalResult(n * Pow10(scale), width, scale)
    case Decimal(u, s) =>
      DecimalResult(if s <= scale then u * Pow10(scale - s) else RoundAwayDiv(u, Pow10(s - scale)), width, scale)
    case _ => Err
  }

  function ToFloat(v: Value): Res {
    match v
    case Int(n) => Ok(Float(n as real))
    case Float(x) => Ok(Float(x))
    case Decimal(u, s) => Ok(Float(u as real / Pow10(s) as real))
    case _ => Err
  }

  /** To a timestamp with at least as many digits; dates are midnight. */
  function WidenToTimestamp(v: Value, digits: nat): Res {
    match v
    case Date(Finite(day)) => TimestampResult(day * NANOS_PER_DAY, digits)
    case Date(infinite) => Ok(Timestamp(infinite))
    case Timestamp(Finite(n)) => TimestampResult(n, digits)
    case Timestamp(infinite) => Ok(v)
    case _ => Err
  }

  function FloorToDate(v: Value): Res {
    match v
    case Timestamp(Finite(n)) => Ok(Date(Finite(FloorDiv(n, NANOS_PER_DAY))))
    case Timestamp(infinite) => Ok(Date(infinite))
    case _ => Err
  }

  /** DuckDB's CAST, for the pairs the translation may accept. */
  function DuckCast(v: Value, source: LogicalType, target: LogicalType, dateText: DateText): Res
    decreases target, 1
  {
    if v.Null? then Ok(Null)
    else if source == target then Ok(v)
    else
      match target
      case VarcharType => TextForm(v, dateText)
      case IntegerType(bits, signed) => DuckToInteger(v, bits, signed)
      case FloatType => ToFloat(v)
      case DoubleType => ToFloat(v)
      case DecimalType(width, scale) => DuckToDecimal(v, width, scale)
      case BooleanType => if v.Int? then Ok(Bool(v.n != 0)) else Err
      case DateType => FloorToDate(v)
      case TimestampType(digits) => WidenToTimestamp(v, digits)
      case TimeNsType => if v.TimeOfDay? && v.digits == 6 then Ok(TimeOfDay(v.ticks * 1000, 9)) else Err
      case EnumType(labels) => ToLabel(v, labels)
      case ListType(element) =>
        if v.ListOf? && source.ListType?
        then AsList(DuckCastAll(v.elements, source.element, element, dateText)) else Err
      case StructType(_, fields) =>
        if v.StructOf? && source.StructType?
        then AsStruct(DuckCastEach(v.fields, source.fields, fields, dateText)) else Err
      case MapType(key, entry) =>
        if v.MapOf? && source.MapType?
        then AsMap(DuckCastEntries(v.entries, source.key, source.entry, key, entry, dateText)) else Err
      case _ => Err
  }

  /** The elements' results, or the failure of one of them. */
  datatype Results = Results(values: seq<Value>) | Failed

  function Cons(head: Res, tail: Results): Results {
    if head.Ok? && tail.Results? then Results([head.value] + tail.values) else Failed
  }

  function AsList(r: Results): Res {
    if r.Results? then Ok(ListOf(r.values)) else Err
  }

  function AsStruct(r: Results): Res {
    if r.Results? then Ok(StructOf(r.values)) else Err
  }

  function AsMap(r: Results): Res {
    if r.Results? then Ok(MapOf(r.values)) else Err
  }

  function DuckCastAll(vs: seq<Value>, source: LogicalType, target: LogicalType, dateText: DateText): Results
    decreases target, 2, vs
  {
    if vs == [] then Results([])
    else Cons(DuckCast(vs[0], source, target, dateText), DuckCastAll(vs[1..], source, target, dateText))
  }

  function DuckCastEach(vs: seq<Value>, sources: seq<LogicalType>, targets: seq<LogicalType>,
                        dateText: DateText): Results
    decreases targets, 0
  {
    if vs == [] && sources == [] && targets == [] then Results([])
    else if vs == [] || sources == [] || targets == [] then Failed
    else Cons(DuckCast(vs[0], sources[0], targets[0], dateText),
              DuckCastEach(vs[1..], sources[1..], targets[1..], dateText))
  }

  function DuckCastEntries(es: seq<Value>, sourceKey: LogicalType, sourceEntry: LogicalType, key: LogicalType,
                           entry: LogicalType, dateText: DateText): Results
    decreases MapType(key, entry), 0, es
  {
    if es == [] then Results([])
    else if !es[0].StructOf? || |es[0].fields| != 2 then Failed
    else
      var k := DuckCast(es[0].fields[0], sourceKey, key, dateText);
      var v := DuckCast(es[0].fields[1], sourceEntry, entry, dateText);
      Cons(AsStruct(Cons(k, Cons(v, Results([])))),
           DuckCastEntries(es[1..], sourceKey, sourceEntry, key, entry, dateText))
  }

  // ---------------------------------------------------------------- ClickHouse's functions

  /** ClickHouse's CAST: it truncates toward zero wherever digits are lost; out-of-range results are not promised. */
  function ServerCast(v: Value, target: LogicalType, dateText: DateText): Res
    decreases target, 1
  {
    if v.Null? then Ok(Null)
    else
      match target
      case VarcharType => TextForm(v, dateText)
      case IntegerType(bits, signed) =>
        (match v
         case Bool(b) => IntResult(if b then 1 else 0, bits, signed)
         case Int(n) => IntResult(n, bits, signed)
         case Float(x) => IntResult(TruncReal(x), bits, signed)
         case Decimal(u, s) => IntResult(TruncDiv(u, Pow10(s)), bits, signed)
         case _ => Err)
      case FloatType => ToFloat(v)
      case DoubleType => ToFloat(v)
      case DecimalType(width, scale) =>
        (match v
         case Int(n) => DecimalResult(n * Pow10(scale), width, scale)
         case Decimal(u, s) =>
           DecimalResult(if s <= scale then u * Pow10(scale - s) else TruncDiv(u, Pow10(s - scale)), width, scale)
         case _ => Err)
      case BooleanType =>
        (match v
         case Int(n) => Ok(Bool(n != 0))
         case Bool(b) => Ok(v)
         case _ => Err)
      case DateType => if v.Date? then Ok(v) else FloorToDate(v)
      case TimestampType(digits) =>
        if v.Timestamp? && v.nanos.Finite? && digits <= 9
        then TimestampResult(TruncDiv(v.nanos.n, Pow10(9 - digits)) * Pow10(9 - digits), digits)
        else WidenToTimestamp(v, digits)
      case TimeNsType =>
        if v.TimeOfDay? && v.digits == 6 then Ok(TimeOfDay(v.ticks * 1000, 9))
        else if v.TimeOfDay? && v.digits == 9 then Ok(v)
        else Err
      case EnumType(labels) => ToLabel(v, labels)
      case ListType(element) => if v.ListOf? then AsList(ServerCastAll(v.elements, element, dateText)) else Err
      case StructType(_, fields) => if v.StructOf? then AsStruct(ServerCastEach(v.fields, fields, dateText)) else Err
      case MapType(key, entry) => if v.MapOf? then AsMap(ServerCastEntries(v.entries, key, entry, dateText)) else Err
      case _ => if HasType(v, target) then Ok(v) else Err
  }

  function ServerCastAll(vs: seq<Value>, target: LogicalType, dateText: DateText): Results
    decreases target, 2, vs
  {
    if vs == [] then Results([])
    else Cons(ServerCast(vs[0], target, dateText), ServerCastAll(vs[1..], target, dateText))
  }

  function ServerCastEach(vs: seq<Value>, targets: seq<LogicalType>, dateText: DateText): Results
    decreases targets, 0
  {
    if vs == [] && targets == [] then Results([])
    else if vs == [] || targets == [] then Failed
    else Cons(ServerCast(vs[0], targets[0], dateText), ServerCastEach(vs[1..], targets[1..], dateText))
  }

  function ServerCastEntries(es: seq<Value>, key: LogicalType, entry: LogicalType, dateText: DateText): Results
    decreases MapType(key, entry), 0, es
  {
    if es == [] then Results([])
    else if !es[0].StructOf? || |es[0].fields| != 2 then Failed
    else
      var k := ServerCast(es[0].fields[0], key, dateText);
      var v := ServerCast(es[0].fields[1], entry, dateText);
      Cons(AsStruct(Cons(k, Cons(v, Results([])))), ServerCastEntries(es[1..], key, entry, dateText))
  }

  /** roundBankers(x) */
  function ServerRoundBankers(v: Value): Res {
    match v
    case Null => Ok(Null)
    case Float(x) => Ok(Float(RoundHalfEven(x) as real))
    case _ => Err
  }

  /** round(x, digits) on a Decimal: half away from zero, the scale kept. */
  function ServerRound(v: Value, digits: nat): Res {
    match v
    case Null => Ok(Null)
    case Decimal(u, s) =>
      Ok(Decimal(if digits < s then RoundAwayDiv(u, Pow10(s - digits)) * Pow10(s - digits) else u, s))
    case _ => Err
  }

  // ---------------------------------------------------------------- ClassifyCast

  datatype CastRounding = NoRounding | HalfToEven | HalfAwayFromZero

  predicate IsTimeZoneDependent(t: LogicalType) {
    t.TimestampTzType? || t.TimeTzType?
  }

  predicate HasSameTextForm(t: LogicalType) {
    t.VarcharType? || t.JsonType? || t.EnumType? || t.IntegerType? || t.DateType?
  }

  /** How a cast is translated; None where the C++ code throws. Its BOOLEAN branch has no rule for a BOOLEAN source:
      that pair is equal types, already accepted. */
  function ClassifyCast(source: LogicalType, target: LogicalType): Option<CastRounding>
    decreases target, 1
  {
    if source == target || source.SqlNullType? then Some(NoRounding)
    else if IsTimeZoneDependent(source) || IsTimeZoneDependent(target) then None
    else if target.JsonType? then None
    else if target.VarcharType? then if HasSameTextForm(source) then Some(NoRounding) else None
    else if source.VarcharType? || source.JsonType? then None
    else
      match target
      case IntegerType(_, _) =>
        if source.IsIntegral() || source.BooleanType? then Some(NoRounding)
        else if source.IsFloating() then Some(HalfToEven)
        else if source.DecimalType? then Some(HalfAwayFromZero)
        else None
      case FloatType => if FloatSource(source, 7) then Some(NoRounding) else None
      case DoubleType => if FloatSource(source, 15) then Some(NoRounding) else None
      case DecimalType(_, scale) =>
        if source.IsIntegral() then Some(NoRounding)
        else if source.DecimalType? then Some(if source.scale > scale then HalfAwayFromZero else NoRounding)
        else None
      case BooleanType => if source.IsIntegral() then Some(NoRounding) else None
      case DateType => if source.TimestampType? then Some(NoRounding) else None
      case TimestampType(digits) =>
        if source.DateType? || (source.TimestampType? && source.digits <= digits) then Some(NoRounding) else None
      case TimeNsType => if source.TimeType? then Some(NoRounding) else None
      case EnumType(_) => if source.EnumType? then Some(NoRounding) else None
      case ListType(element) =>
        if source.ListType? && ClassifyCast(source.element, element) == Some(NoRounding)
        then Some(NoRounding) else None
      case MapType(key, entry) =>
        if source.MapType? && ClassifyCast(source.key, key) == Some(NoRounding) &&
           ClassifyCast(source.entry, entry) == Some(NoRounding)
        then Some(NoRounding) else None
      case StructType(names, fields) =>
        if source.StructType? && source.names == names && |source.fields| == |fields| &&
           AllUnrounded(source.fields, fields)
        then Some(NoRounding) else None
      case _ => None
  }

  predicate FloatSource(source: LogicalType, digits: nat) {
    source.IsFloating() || (source.IntegerType? && source.bits < 128) ||
    (source.DecimalType? && source.width <= digits)
  }

  predicate AllUnrounded(sources: seq<LogicalType>, targets: seq<LogicalType>)
    requires |sources| == |targets|
    decreases targets, 0
  {
    sources == [] ||
    (ClassifyCast(sources[0], targets[0]) == Some(NoRounding) && AllUnrounded(sources[1..], targets[1..]))
  }

  /** What the emitted SQL computes: a CAST, of the rounded input where DuckDB rounds. */
  function CastSqlMeaning(rounding: CastRounding, v: Value, target: LogicalType, dateText: DateText): Res {
    var input := match rounding
      case NoRounding => Ok(v)
      case HalfToEven => ServerRoundBankers(v)
      case HalfAwayFromZero => ServerRound(v, if target.DecimalType? then target.scale else 0);
    if input.Ok? then ServerCast(input.value, target, dateText) else Err
  }

  // ---------------------------------------------------------------- exactness

  lemma {:induction false} TruncOfMultiple(k: int, d: nat)
    requires d > 0
    ensures TruncDiv(k * d, d) == k
  {
    if k >= 0 {
      MultipleDiv(k, d);
    } else {
      MultipleDiv(-k, d);
      assert k * d < 0 by { NegativeProduct(-k, d); }
      assert Abs(k * d) == (-k) * d;
    }
  }

  lemma NegativeProduct(k: int, d: nat)
    requires k > 0 && d > 0
    ensures k * d > 0
    ensures (-k) * d == -(k * d)
  {
  }

  lemma MultipleDiv(k: nat, d: nat)
    requires d > 0
    ensures k * d / d == k && k * d >= 0
  {
    var q, r := k * d / d, k * d % d;
    assert k * d == q * d + r;
    MultipleUnique(k, q, r, d);
  }

  lemma MultipleUnique(k: int, q: int, r: nat, d: nat)
    requires k * d == q * d + r && r < d
    ensures k == q
  {
    if k > q {
      MultipleMonotone(q + 1, k, d);
    } else if k < q {
      MultipleMonotone(k + 1, q, d);
    }
  }

  lemma MultipleMonotone(a: int, b: int, d: nat)
    requires a <= b
    ensures a * d <= b * d
  {
  }

  lemma TruncOfWhole(n: int)
    ensures TruncReal(n as real) == n
  {
    if n < 0 {
      assert -(n as real) == (-n) as real;
    }
  }

  /** Every cast the translation accepts gives, in the emitted SQL, the value DuckDB's cast gives, wherever DuckDB's
      cast succeeds: numbers, booleans, texts, dates, timestamps, and LIST, MAP and STRUCT at any depth. */
  lemma {:induction false} CastExact(v: Value, source: LogicalType, target: LogicalType, dateText: DateText)
    requires HasType(v, source) && ClassifyCast(source, target).Some?
    requires DuckCast(v, source, target, dateText).Ok?
    ensures CastSqlMeaning(ClassifyCast(source, target).value, v, target, dateText) ==
            DuckCast(v, source, target, dateText)
    decreases target, 1
  {
    hide *;
    if v.Null? {
      NullCastExact(source, target, dateText);
    } else if source == target {
      OwnTypeExact(v, target, dateText);
    } else {
      match target
      case ListType(_) => ListCastExact(v, source, target, dateText);
      case MapType(_, _) => MapCastExact(v, source, target, dateText);
      case StructType(_, _) => StructCastExact(v, source, target, dateText);
      case _ => ScalarCastExact(v, source, target, dateText);
    }
  }

  lemma {:induction false} ListCastExact(v: Value, source: LogicalType, target: LogicalType, dateText: DateText)
    requires !v.Null? && source != target && HasType(v, source) && ClassifyCast(source, target).Some?
    requires target.ListType? && DuckCast(v, source, target, dateText).Ok?
    ensures CastSqlMeaning(ClassifyCast(source, target).value, v, target, dateText) ==
            DuckCast(v, source, target, dateText)
    decreases target, 0
  {
    hide IntResult, DecimalResult, TimestampResult, FloatSource, HasSameTextForm, FitsInteger, FitsTimestamp;
    CastAllExact(v.elements, source.element, target.element, dateText);
  }

  lemma {:induction false} MapCastExact(v: Value, source: LogicalType, target: LogicalType, dateText: DateText)
    requires !v.Null? && source != target && HasType(v, source) && ClassifyCast(source, target).Some?
    requires target.MapType? && DuckCast(v, source, target, dateText).Ok?
    ensures CastSqlMeaning(ClassifyCast(source, target).value, v, target, dateText) ==
            DuckCast(v, source, target, dateText)
    decreases target, 0
  {
    hide IntResult, DecimalResult, TimestampResult, FloatSource, HasSameTextForm, FitsInteger, FitsTimestamp;
    CastEntriesExact(v.entries, source.key, source.entry, target.key, target.entry, dateText);
  }

  lemma {:induction false} StructCastExact(v: Value, source: LogicalType, target: LogicalType, dateText: DateText)
    requires !v.Null? && source != target && HasType(v, source) && ClassifyCast(source, target).Some?
    requires target.StructType? && DuckCast(v, source, target, dateText).Ok?
    ensures CastSqlMeaning(ClassifyCast(source, target).value, v, target, dateText) ==
            DuckCast(v, source, target, dateText)
    decreases target, 0
  {
    hide IntResult, DecimalResult, TimestampResult, FloatSource, HasSameTextForm, FitsInteger, FitsTimestamp;
    CastEachExact(v.fields, source.fields, target.fields, dateText);
  }

  lemma OwnTypeExact(v: Value, t: LogicalType, dateText: DateText)
    requires HasType(v, t) && !v.Null?
    ensures ClassifyCast(t, t).Some?
    ensures CastSqlMeaning(ClassifyCast(t, t).value, v, t, dateText) == DuckCast(v, t, t, dateText)
  {
    hide ServerCast, HasType;
    CastToOwnType(v, t, dateText);
  }

  lemma NullCastExact(source: LogicalType, target: LogicalType, dateText: DateText)
    requires ClassifyCast(source, target).Some?
    ensures CastSqlMeaning(ClassifyCast(source, target).value, Null, target, dateText) == Ok(Null)
    ensures DuckCast(Null, source, target, dateText) == Ok(Null)
  {
    hide ClassifyCast;
  }

  lemma ScalarCastExact(v: Value, source: LogicalType, target: LogicalType, dateText: DateText)
    requires !target.ListType? && !target.MapType? && !target.StructType?
    requires !v.Null? && HasType(v, source) && source != target && ClassifyCast(source, target).Some?
    requires DuckCast(v, source, target, dateText).Ok?
    ensures CastSqlMeaning(ClassifyCast(source, target).value, v, target, dateText) ==
            DuckCast(v, source, target, dateText)
  {
    hide IntResult, DecimalResult, TimestampResult, HasType, ClassifyCast, DuckCast, CastSqlMeaning;
    match target
    case IntegerType(bits, signed) => ToIntegerExact(v, source, bits, signed, dateText);
    case DecimalType(width, scale) => ToDecimalExact(v, source, width, scale, dateText);
    case TimestampType(digits) => ToTimestampExact(v, source, digits, dateText);
    case VarcharType => ToTextExact(v, source, dateText);
    case FloatType => ToFloatExact(v, source, target, dateText);
    case DoubleType => ToFloatExact(v, source, target, dateText);
    case _ => ToOtherExact(v, source, target, dateText);
  }

  lemma ToTextExact(v: Value, source: LogicalType, dateText: DateText)
    requires !v.Null? && source != VarcharType && ClassifyCast(source, VarcharType).Some?
    ensures CastSqlMeaning(ClassifyCast(source, VarcharType).value, v, VarcharType, dateText) ==
            DuckCast(v, source, VarcharType, dateText)
  {
    hide TextForm, HasSameTextForm;
  }

  lemma ToFloatExact(v: Value, source: LogicalType, target: LogicalType, dateText: DateText)
    requires target.FloatType? || target.DoubleType?
    requires !v.Null? && source != target && ClassifyCast(source, target).Some?
    ensures CastSqlMeaning(ClassifyCast(source, target).value, v, target, dateText) ==
            DuckCast(v, source, target, dateText)
  {
    hide ToFloat, FloatSource;
  }

  lemma ToOtherExact(v: Value, source: LogicalType, target: LogicalType, dateText: DateText)
    requires !target.ListType? && !target.MapType? && !target.StructType? && !target.FloatType? && !target.DoubleType?
    requires !target.IntegerType? && !target.DecimalType? && !target.TimestampType? && !target.VarcharType?
    requires !v.Null? && HasType(v, source) && source != target && ClassifyCast(source, target).Some?
    requires DuckCast(v, source, target, dateText).Ok?
    ensures CastSqlMeaning(ClassifyCast(source, target).value, v, target, dateText) ==
            DuckCast(v, source, target, dateText)
  {
    hide FitsInteger, ToFloat, FloatSource, ToLabel, FitsTimestamp, LabelPosition;
  }

  lemma ToTimestampExact(v: Value, source: LogicalType, digits: nat, dateText: DateText)
    requires !v.Null? && source != TimestampType(digits) && ClassifyCast(source, TimestampType(digits)).Some?
    requires DuckCast(v, source, TimestampType(digits), dateText).Ok?
    ensures CastSqlMeaning(ClassifyCast(source, TimestampType(digits)).value, v, TimestampType(digits), dateText) ==
            DuckCast(v, source, TimestampType(digits), dateText)
  {
    hide WidenToTimestamp;
    WidenExact(v, digits, dateText);
  }

  lemma WidenExact(v: Value, digits: nat, dateText: DateText)
    requires WidenToTimestamp(v, digits).Ok? && !v.Null?
    ensures ServerCast(v, TimestampType(digits), dateText) == WidenToTimestamp(v, digits)
  {
    if v.Timestamp? && v.nanos.Finite? {
      TruncOfWholeTicks(v.nanos.n, Pow10(9 - digits));
    }
  }

  lemma ToIntegerExact(v: Value, source: LogicalType, bits: nat, signed: bool, dateText: DateText)
    requires !v.Null? && HasType(v, source) && source != IntegerType(bits, signed)
    requires ClassifyCast(source, IntegerType(bits, signed)).Some?
    ensures var target := IntegerType(bits, signed);
      CastSqlMeaning(ClassifyCast(source, target).value, v, target, dateText) == DuckCast(v, source, target, dateText)
  {
    hide IntResult, FitsInteger, RoundHalfEven, RoundAwayDiv, TruncReal, TruncDiv;
    match v
    case Float(x) => TruncOfWhole(RoundHalfEven(x));
    case Decimal(u, s) =>
      if s == 0 {
        assert Pow10(0) == 1;
        RoundByOne(u);
      }
      TruncOfMultiple(RoundAwayDiv(u, Pow10(s)), Pow10(s));
    case _ =>
  }

  lemma RoundByOne(u: int)
    ensures RoundAwayDiv(u, 1) == u
  {
  }

  lemma ToDecimalExact(v: Value, source: LogicalType, width: nat, scale: nat, dateText: DateText)
    requires !v.Null? && HasType(v, source) && source != DecimalType(width, scale)
    requires ClassifyCast(source, DecimalType(width, scale)).Some?
    ensures var target := DecimalType(width, scale);
      CastSqlMeaning(ClassifyCast(source, target).value, v, target, dateText) == DuckCast(v, source, target, dateText)
  {
    if v.Decimal? && v.scale > scale {
      var d := Pow10(v.scale - scale);
      TruncOfMultiple(RoundAwayDiv(v.unscaled, d), d);
    }
  }

  lemma TruncOfWholeTicks(n: int, p: nat)
    requires p > 0 && n % p == 0
    ensures TruncDiv(n, p) * p == n
  {
    var k := n / p;
    assert n == k * p;
    TruncOfMultiple(k, p);
  }

  /** A CAST to the value's own type changes nothing. */
  lemma {:induction false} CastToOwnType(v: Value, t: LogicalType, dateText: DateText)
    requires HasType(v, t)
    ensures ServerCast(v, t, dateText) == Ok(v)
    decreases t, 1
  {
    if !v.Null? {
      match t
      case ListType(element) => CastAllToOwnType(v.elements, element, dateText);
      case StructType(_, fields) => CastEachToOwnType(v.fields, fields, dateText);
      case MapType(key, entry) => CastEntriesToOwnType(v.entries, key, entry, dateText);
      case TimestampType(digits) =>
        if v.nanos.Finite? {
          TruncOfWholeTicks(v.nanos.n, Pow10(9 - digits));
        }
      case _ =>
    }
  }

  lemma {:induction false} CastAllToOwnType(vs: seq<Value>, t: LogicalType, dateText: DateText)
    requires AllHaveType(vs, t)
    ensures ServerCastAll(vs, t, dateText) == Results(vs)
    decreases t, 2, vs
  {
    if vs != [] {
      CastToOwnType(vs[0], t, dateText);
      CastAllToOwnType(vs[1..], t, dateText);
    }
  }

  lemma {:induction false} CastEachToOwnType(vs: seq<Value>, ts: seq<LogicalType>, dateText: DateText)
    requires EachHasType(vs, ts)
    ensures ServerCastEach(vs, ts, dateText) == Results(vs)
    decreases ts, 0
  {
    if vs != [] {
      CastToOwnType(vs[0], ts[0], dateText);
      CastEachToOwnType(vs[1..], ts[1..], dateText);
    }
  }

  lemma {:induction false} CastEntriesToOwnType(es: seq<Value>, key: LogicalType, entry: LogicalType,
                                                dateText: DateText)
    requires AllEntries(es, key, entry)
    ensures ServerCastEntries(es, key, entry, dateText) == Results(es)
    decreases MapType(key, entry), 0, es
  {
    hide HasType, ServerCast;
    if es != [] {
      CastToOwnType(es[0].fields[0], key, dateText);
      CastToOwnType(es[0].fields[1], entry, dateText);
      PairOf(es[0]);
      hide Cons, AsStruct;
      CastEntriesToOwnType(es[1..], key, entry, dateText);
      ConsOwn(es);
    }
  }

  lemma PairOf(e: Value)
    requires e.StructOf? && |e.fields| == 2
    ensures AsStruct(Cons(Ok(e.fields[0]), Cons(Ok(e.fields[1]), Results([])))) == Ok(e)
  {
    assert e.fields == [e.fields[0]] + ([e.fields[1]] + []);
  }

  lemma ConsOwn(es: seq<Value>)
    requires es != []
    ensures Cons(Ok(es[0]), Results(es[1..])) == Results(es)
  {
    assert [es[0]] + es[1..] == es;
  }

  lemma {:induction false} CastAllExact(vs: seq<Value>, source: LogicalType, target: LogicalType, dateText: DateText)
    requires AllHaveType(vs, source) && ClassifyCast(source, target) == Some(NoRounding)
    requires DuckCastAll(vs, source, target, dateText).Results?
    ensures ServerCastAll(vs, target, dateText) == DuckCastAll(vs, source, target, dateText)
    decreases target, 2, vs
  {
    if vs != [] {
      CastExact(vs[0], source, target, dateText);
      CastAllExact(vs[1..], source, target, dateText);
    }
  }

  lemma {:induction false} CastEachExact(vs: seq<Value>, sources: seq<LogicalType>, targets: seq<LogicalType>,
                                         dateText: DateText)
    requires |sources| == |targets| && EachHasType(vs, sources) && AllUnrounded(sources, targets)
    requires DuckCastEach(vs, sources, targets, dateText).Results?
    ensures ServerCastEach(vs, targets, dateText) == DuckCastEach(vs, sources, targets, dateText)
    decreases targets, 0
  {
    if vs != [] {
      CastExact(vs[0], sources[0], targets[0], dateText);
      CastEachExact(vs[1..], sources[1..], targets[1..], dateText);
    }
  }

  lemma {:induction false} CastEntriesExact(es: seq<Value>, sourceKey: LogicalType, sourceEntry: LogicalType,
                                            key: LogicalType, entry: LogicalType, dateText: DateText)
    requires AllEntries(es, sourceKey, sourceEntry)
    requires ClassifyCast(sourceKey, key) == Some(NoRounding) && ClassifyCast(sourceEntry, entry) == Some(NoRounding)
    requires DuckCastEntries(es, sourceKey, sourceEntry, key, entry, dateText).Results?
    ensures ServerCastEntries(es, key, entry, dateText) ==
            DuckCastEntries(es, sourceKey, sourceEntry, key, entry, dateText)
    decreases MapType(key, entry), 0, es
  {
    if es != [] {
      CastExact(es[0].fields[0], sourceKey, key, dateText);
      CastExact(es[0].fields[1], sourceEntry, entry, dateText);
      CastEntriesExact(es[1..], sourceKey, sourceEntry, key, entry, dateText);
    }
  }
}
