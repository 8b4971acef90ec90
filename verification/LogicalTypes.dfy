/** DuckDB's logical types, as far as the extension tells them apart. */
module LogicalTypes {

  datatype LogicalType =
    | BooleanType
    | IntegerType(bits: nat, signed: bool)
    | FloatType
    | DoubleType
    | DecimalType(width: nat, scale: nat)
    | VarcharType
    | JsonType
    | BlobType
    | DateType
    | TimeType
    | TimeNsType
    | TimeTzType
    | TimestampType(digits: nat) // SEC, MS, (microseconds) and NS hold 0, 3, 6 and 9 digits of a second
    | TimestampTzType
    | UuidType
    | EnumType(labels: seq<string>)
    | ListType(element: LogicalType)
    | StructType(names: seq<string>, fields: seq<LogicalType>) // a TUPLE, or an unnamed STRUCT, has empty names
    | MapType(key: LogicalType, entry: LogicalType)
    | SqlNullType
    | OtherType // INTERVAL, BIT, UNION, ARRAY, ...
  {
    predicate IsIntegral() {
      IntegerType?
    }

    predicate IsFloating() {
      FloatType? || DoubleType?
    }

    predicate IsNumeric() {
      IntegerType? || FloatType? || DoubleType? || DecimalType?
    }
  }

  /** The widths DuckDB's integer types have. */
  predicate IntegerWidth(bits: nat) {
    bits == 8 || bits == 16 || bits == 32 || bits == 64 || bits == 128
  }

  /** What DuckDB itself guarantees of a type it hands over: integer, decimal and timestamp parameters
      within its own limits, STRUCTs with at least one field, ENUMs with at least one label. */
  predicate WellFormed(t: LogicalType) {
    match t
    case IntegerType(bits, _) => IntegerWidth(bits)
    case DecimalType(width, scale) => 1 <= width <= 38 && scale <= width
    case TimestampType(digits) => digits == 0 || digits == 3 || digits == 6 || digits == 9
    case EnumType(labels) => labels != []
    case ListType(element) => WellFormed(element)
    case StructType(names, fields) => fields != [] && |names| == |fields| && AllWellFormed(fields)
    case MapType(key, entry) => WellFormed(key) && WellFormed(entry)
    case _ => true
  }

  predicate AllWellFormed(ts: seq<LogicalType>) {
    ts == [] || (WellFormed(ts[0]) && AllWellFormed(ts[1..]))
  }
}
