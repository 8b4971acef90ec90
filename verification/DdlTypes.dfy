/** The ClickHouse type text of a DuckDB type (src/clickhouse_ddl_types.cpp). */
module DdlTypes {
  import opened Options
  import opened LogicalTypes
  import opened Text

  const MAX_ENUM_LABELS := 32767

  predicate LabelAccepted(text: string) {
    '\'' !in text && '\\' !in text
  }

  /** `label` = its position, as one ENUM entry. */
  function EnumEntryText(text: string, number: nat): string {
    QuoteLiteral(text) + " = " + NatText(number)
  }

  function EnumEntryTexts(labels: seq<string>, first: nat): (r: seq<string>)
    ensures |r| == |labels|
  {
    if labels == [] then [] else [EnumEntryText(labels[0], first)] + EnumEntryTexts(labels[1..], first + 1)
  }

  function EnumTypeSql(labels: seq<string>): Option<string> {
    if |labels| > MAX_ENUM_LABELS || exists text :: text in labels && !LabelAccepted(text) then None
    else Some((if |labels| <= 127 then "Enum8(" else "Enum16(") + Join(EnumEntryTexts(labels, 1), ", ") + ")")
  }

  function IntegerName(bits: nat, signed: bool): string {
    (if signed then "Int" else "UInt") + NatText(bits)
  }

  /** The text of a type that is neither nested nor JSON, before any Nullable(). */
  function ScalarText(t: LogicalType): Option<string> {
    match t
    case BooleanType => Some("Bool")
    case IntegerType(bits, signed) => Some(IntegerName(bits, signed))
    case FloatType => Some("Float32")
    case DoubleType => Some("Float64")
    case DecimalType(width, scale) => Some("Decimal(" + NatText(width) + ", " + NatText(scale) + ")")
    case VarcharType => Some("String")
    case BlobType => Some("String")
    case DateType => Some("Date32")
    case TimestampType(digits) =>
      Some(if digits == 0 then "DateTime('UTC')" else "DateTime64(" + NatText(digits) + ", 'UTC')")
    case TimestampTzType => Some("DateTime64(6, 'UTC')")
    case TimeType => Some("Time64(6)")
    case TimeNsType => Some("Time64(9)")
    case UuidType => Some("UUID")
    case EnumType(labels) => EnumTypeSql(labels)
    case _ => None
  }

  /** ToClickhouse: None where the C++ code throws NotImplementedException. */
  function ToClickhouse(t: LogicalType, nullable: bool): Option<string>
    decreases t, 1
  {
    match t
    case JsonType => Some("JSON")
    case ListType(element) =>
      var inner :- ToClickhouse(element, true);
      Some("Array(" + inner + ")")
    case StructType(names, fields) =>
      var parts :- FieldTexts(names, fields);
      Some("Tuple(" + Join(parts, ", ") + ")")
    case MapType(key, entry) =>
      var k :- ToClickhouse(key, false);
      var v :- ToClickhouse(entry, true);
      Some("Map(" + k + ", " + v + ")")
    case _ =>
      var text :- ScalarText(t);
      Some(if nullable then "Nullable(" + text + ")" else text)
  }

  /** The fields of a Tuple; every one must be named. */
  function FieldTexts(names: seq<string>, fields: seq<LogicalType>): (r: Option<seq<string>>)
    ensures r.Some? ==> |r.value| == |fields| == |names|
    decreases fields, 0
  {
    if fields == [] then if names == [] then Some([]) else None
    else if names == [] || names[0] == "" then None
    else
      var text :- ToClickhouse(fields[0], true);
      var rest :- FieldTexts(names[1..], fields[1..]);
      Some([QuoteIdentifier(names[0]) + " " + text] + rest)
  }
}
