/** Printing a DuckDB type as ClickHouse text (src/clickhouse_ddl_types.cpp) and parsing that text back
    (src/clickhouse_types.cpp): what is read of a printed type, the tree it is parsed into, and how that tree is mapped,
    for scalar types first, then for lists, maps and structs in terms of their parts, and at last for all types. */
module TypeRoundTrip {
  import opened Options
  import opened LogicalTypes
  import opened Text
  import opened DdlTypes
  import opened TypeParser
  import opened TypeMapping
  import opened PrintedText

  // ---------------------------------------------------------------- what the round trip gives

  /** The DuckDB type a column printed as `t` is read as: BLOB as VARCHAR, the naive timestamps as TIMESTAMPTZ,
      everything else as itself. */
  function ReadBack(t: LogicalType): LogicalType
    decreases t, 1
  {
    match t
    case BlobType => VarcharType
    case TimestampType(_) => TimestampTzType
    case ListType(element) => ListType(ReadBack(element))
    case StructType(names, fields) => StructType(names, AllReadBack(fields))
    case MapType(key, entry) => MapType(ReadBack(key), ReadBack(entry))
    case _ => t
  }

  function AllReadBack(ts: seq<LogicalType>): (r: seq<LogicalType>)
    ensures |r| == |ts|
    decreases ts, 0
  {
    if ts == [] then [] else [ReadBack(ts[0])] + AllReadBack(ts[1..])
  }

  /** Levels of nesting in the printed text. */
  function Nesting(t: LogicalType, nullable: bool): nat
    decreases t, 1
  {
    match t
    case JsonType => 0
    case ListType(element) => 1 + Nesting(element, true)
    case StructType(_, fields) => 1 + MaxNesting(fields)
    case MapType(key, entry) => 1 + Max(Nesting(key, false), Nesting(entry, true))
    case _ => if nullable then 1 else 0
  }

  function MaxNesting(ts: seq<LogicalType>): nat
    decreases ts, 0
  {
    if ts == [] then 0 else Max(Nesting(ts[0], true), MaxNesting(ts[1..]))
  }

  function Max(a: nat, b: nat): nat {
    if a < b then b else a
  }

  predicate IsNestedOrJson(t: LogicalType) {
    t.JsonType? || t.ListType? || t.StructType? || t.MapType?
  }

  // ---------------------------------------------------------------- the tree the text stands for

  /** The literal arguments of a scalar's text. */
  function ScalarLiterals(t: LogicalType): seq<string> {
    match t
    case DecimalType(width, scale) => [NatText(width), NatText(scale)]
    case TimestampType(digits) => if digits == 0 then ["'UTC'"] else [NatText(digits), "'UTC'"]
    case TimestampTzType => ["6", "'UTC'"]
    case TimeType => ["6"]
    case TimeNsType => ["9"]
    case EnumType(labels) => EnumEntryTexts(labels, 1)
    case _ => []
  }

  function ScalarName(t: LogicalType): string {
    match t
    case BooleanType => "Bool"
    case IntegerType(bits, signed) => IntegerName(bits, signed)
    case FloatType => "Float32"
    case DoubleType => "Float64"
    case DecimalType(_, _) => "Decimal"
    case DateType => "Date32"
    case TimestampType(digits) => if digits == 0 then "DateTime" else "DateTime64"
    case TimestampTzType => "DateTime64"
    case TimeType => "Time64"
    case TimeNsType => "Time64"
    case UuidType => "UUID"
    case EnumType(labels) => if |labels| <= 127 then "Enum8" else "Enum16"
    case _ => "String"
  }

  function ScalarNode(t: LogicalType): TypeNode {
    TypeNode(ScalarName(t), [], [], ScalarLiterals(t), ScalarText(t).GetOr(""))
  }

  function NodeOf(t: LogicalType, nullable: bool): TypeNode
    requires ToClickhouse(t, nullable).Some?
    decreases t, 1
  {
    var text := ToClickhouse(t, nullable).value;
    match t
    case JsonType => TypeNode("JSON", [], [], [], text)
    case ListType(element) => TypeNode("Array", [NodeOf(element, true)], [""], [], text)
    case StructType(names, fields) => TypeNode("Tuple", FieldNodes(names, fields), names, [], text)
    case MapType(key, entry) => TypeNode("Map", [NodeOf(key, false), NodeOf(entry, true)], ["", ""], [], text)
    case _ =>
      if nullable then TypeNode("Nullable", [ScalarNode(t)], [""], [], text) else ScalarNode(t)
  }

  function FieldNodes(names: seq<string>, fields: seq<LogicalType>): (r: seq<TypeNode>)
    requires FieldTexts(names, fields).Some?
    ensures |r| == |fields|
    decreases fields, 0
  {
    if fields == [] then [] else [NodeOf(fields[0], true)] + FieldNodes(names[1..], fields[1..])
  }

  // ---------------------------------------------------------------- the printed scalar types

  lemma ScalarLiteralsNeutral(t: LogicalType)
    requires WellFormed(t)
    ensures AllNeutral(ScalarLiterals(t)) && AllLiterals(ScalarLiterals(t))
  {
    hide Neutral, Trimmed, NatText, EnumEntryTexts;
    UtcNeutral();
    match t
    case DecimalType(width, scale) =>
      NumberNeutral(width);
      NumberNeutral(scale);
      LiteralPair(NatText(width), NatText(scale));
    case TimestampType(digits) =>
      NumberNeutral(digits);
      LiteralPair(NatText(digits), "'UTC'");
      LiteralPair("'UTC'", "'UTC'");
    case TimestampTzType =>
      SixNeutral();
      LiteralPair("6", "'UTC'");
    case TimeType =>
      SixNeutral();
      LiteralPair("6", "6");
    case TimeNsType =>
      SixNeutral();
      LiteralPair("9", "9");
    case EnumType(labels) => EntriesNeutral(labels, 1);
    case _ =>
  }

  lemma SixNeutral()
    ensures Neutral("6") && Trimmed("6") && Neutral("9") && Trimmed("9")
  {
    PlainNeutral("6");
    PlainNeutral("9");
  }

  lemma {:induction false} ParseLiterals(parts: seq<string>, depth: nat)
    requires AllLiterals(parts) && depth <= MAX_TYPE_NESTING_DEPTH
    ensures ParseArguments(parts, depth) == Some(Arguments([], [], parts))
  {
    if parts != [] {
      ParseLiterals(parts[1..], depth);
      assert [parts[0]] + parts[1..] == parts;
    }
  }

  lemma ScalarNameIsWord(t: LogicalType)
    requires WellFormed(t)
    ensures Word(ScalarName(t))
  {
  }

  /** A scalar's text is its name, with its literals in parentheses when there are any. */
  lemma ScalarTextParts(t: LogicalType)
    requires WellFormed(t) && ScalarText(t).Some?
    ensures ScalarText(t).value ==
      if ScalarLiterals(t) == [] then ScalarName(t)
      else ScalarName(t) + "(" + Join(ScalarLiterals(t), ", ") + ")"
  {
    hide NatText, EnumEntryTexts, Join;
    match t
    case DecimalType(width, scale) =>
      var w, d := NatText(width), NatText(scale);
      JoinTwo(w, d);
      assert "Decimal" + "(" == "Decimal(";
      assert "Decimal(" + (w + ", " + d) + ")" == "Decimal(" + w + ", " + d + ")";
    case TimestampType(digits) => TimestampText(digits);
    case TimestampTzType => FixedTexts();
    case TimeType => FixedTexts();
    case TimeNsType => FixedTexts();
    case EnumType(labels) =>
      assert "Enum8" + "(" == "Enum8(";
      assert "Enum16" + "(" == "Enum16(";
    case _ =>
  }

  lemma FixedTexts()
    ensures "DateTime64" + "(" + Join(["6", "'UTC'"], ", ") + ")" == "DateTime64(6, 'UTC')"
    ensures "DateTime" + "(" + Join(["'UTC'"], ", ") + ")" == "DateTime('UTC')"
    ensures "Time64" + "(" + Join(["6"], ", ") + ")" == "Time64(6)"
    ensures "Time64" + "(" + Join(["9"], ", ") + ")" == "Time64(9)"
  {
    JoinTwo("6", "'UTC'");
  }

  lemma TimestampText(digits: nat)
    ensures "DateTime64" + "(" + Join([NatText(digits), "'UTC'"], ", ") + ")" ==
            "DateTime64(" + NatText(digits) + ", 'UTC')"
    ensures "DateTime" + "(" + Join(["'UTC'"], ", ") + ")" == "DateTime('UTC')"
  {
    hide NatText;
    FixedTexts();
    JoinTwo(NatText(digits), "'UTC'");
    assert "DateTime64" + "(" == "DateTime64(";
    assert ", " + "'UTC'" + ")" == ", 'UTC')";
    var n := NatText(digits);
    assert "DateTime64" + "(" + (n + ", " + "'UTC'") + ")" == "DateTime64(" + n + (", " + "'UTC'" + ")");
    assert "DateTime64(" + n + (", " + "'UTC'" + ")") == "DateTime64(" + n + ", 'UTC')";
  }

  lemma JoinTwo(a: string, b: string)
    ensures Join([a, b], ", ") == a + ", " + b
  {
    assert [a, b][1..] == [b];
  }

  lemma ParseScalar(t: LogicalType, depth: nat)
    requires WellFormed(t) && ScalarText(t).Some? && depth <= MAX_TYPE_NESTING_DEPTH
    ensures TypeLike(ScalarText(t).value)
    ensures ParseAt(ScalarText(t).value, depth) == Some(ScalarNode(t))
  {
    ScalarNameIsWord(t);
    ScalarTextParts(t);
    ScalarLiteralsNeutral(t);
    if ScalarLiterals(t) == [] {
      ParseWord(ScalarName(t), depth);
    } else {
      ParseLiterals(ScalarLiterals(t), depth);
      ParseCall(ScalarName(t), ScalarLiterals(t), depth);
    }
  }

  // ---------------------------------------------------------------- the round trip

  /** One argument that is an unnamed type. */
  lemma ParseOne(name: string, text: string, depth: nat)
    requires Word(name) && TypeLike(text) && depth <= MAX_TYPE_NESTING_DEPTH
    ensures var whole := name + "(" + text + ")";
      TypeLike(whole) &&
      ParseAt(whole, depth) ==
        match ParseAt(text, depth + 1)
        case None => None
        case Some(node) => Some(TypeNode(name, [node], [""], [], whole))
  {
    ParseCall(name, [text], depth);
    assert [text][1..] == [];
    assert ParseArguments([], depth) == Some(Arguments([], [], []));
    var parsed := ParseAt(text, depth + 1);
    if parsed.Some? {
      assert [parsed.value] + [] == [parsed.value];
      assert [""] + [] == [""];
    }
  }

  /** Two arguments that are unnamed types. */
  lemma ParseTwo(name: string, k: string, v: string, depth: nat)
    requires Word(name) && TypeLike(k) && TypeLike(v) && depth <= MAX_TYPE_NESTING_DEPTH
    ensures var whole := name + "(" + k + ", " + v + ")";
      var a, b := ParseAt(k, depth + 1), ParseAt(v, depth + 1);
      TypeLike(whole) &&
      ParseAt(whole, depth) ==
        if a.Some? && b.Some? then Some(TypeNode(name, [a.value, b.value], ["", ""], [], whole)) else None
  {
    hide Run, Split, TrimLeft, TrimRight;
    JoinTwo(k, v);
    assert name + "(" + (k + ", " + v) + ")" == name + "(" + k + ", " + v + ")";
    ParseCall(name, [k, v], depth);
    assert [k, v][1..] == [v];
    assert [v][1..] == [];
    assert ParseArguments([], depth) == Some(Arguments([], [], []));
    var a, b := ParseAt(k, depth + 1), ParseAt(v, depth + 1);
    if b.Some? {
      assert [b.value] + [] == [b.value];
      assert [""] + [] == [""];
      assert ParseArguments([v], depth) == Some(Arguments([b.value], [""], []));
      if a.Some? {
        assert [a.value] + [b.value] == [a.value, b.value];
        assert [""] + [""] == ["", ""];
      }
    }
  }

  lemma PrintedNullable(t: LogicalType)
    requires ScalarText(t).Some?
    ensures ToClickhouse(t, true) == Some("Nullable" + "(" + ScalarText(t).value + ")")
    ensures ToClickhouse(t, false) == ScalarText(t)
  {
    assert "Nullable" + "(" == "Nullable(";
  }

  lemma PrintedList(element: LogicalType, nullable: bool)
    requires ToClickhouse(element, true).Some?
    ensures ToClickhouse(ListType(element), nullable) == Some("Array" + "(" + ToClickhouse(element, true).value + ")")
  {
    assert "Array" + "(" == "Array(";
  }

  lemma PrintedMap(key: LogicalType, entry: LogicalType, nullable: bool)
    requires ToClickhouse(key, false).Some? && ToClickhouse(entry, true).Some?
    ensures ToClickhouse(MapType(key, entry), nullable) ==
      Some("Map" + "(" + ToClickhouse(key, false).value + ", " + ToClickhouse(entry, true).value + ")")
  {
    assert "Map" + "(" == "Map(";
  }

  lemma PrintedStruct(names: seq<string>, fields: seq<LogicalType>, nullable: bool)
    requires FieldTexts(names, fields).Some?
    ensures ToClickhouse(StructType(names, fields), nullable) ==
      Some("Tuple" + "(" + Join(FieldTexts(names, fields).value, ", ") + ")")
  {
    assert "Tuple" + "(" == "Tuple(";
  }

  lemma TooDeep(text: string)
    ensures ParseAt(text, MAX_TYPE_NESTING_DEPTH + 1) == None
  {
  }

  lemma TypeWords()
    ensures Word("Map") && Word("Array") && Word("Tuple")
  {
  }

  ghost predicate ParsesTo(text: string, depth: nat, nesting: nat, node: TypeNode) {
    TypeLike(text) &&
    ParseAt(text, depth) == if depth + nesting <= MAX_TYPE_NESTING_DEPTH then Some(node) else None
  }

  lemma ParsePrintedScalar(t: LogicalType, nullable: bool, depth: nat)
    requires WellFormed(t) && ScalarText(t).Some? && depth <= MAX_TYPE_NESTING_DEPTH
    ensures ParsesTo(ToClickhouse(t, nullable).value, depth, if nullable then 1 else 0, NodeOf(t, nullable))
  {
    hide ParseAt, TypeLike, ScalarNode, WellFormed;
    ParseScalar(t, depth);
    PrintedNullable(t);
    if nullable {
      ScalarWrapped(t, depth);
    }
  }

  lemma ScalarWrapped(t: LogicalType, depth: nat)
    requires WellFormed(t) && ScalarText(t).Some? && depth <= MAX_TYPE_NESTING_DEPTH
    ensures var whole := "Nullable" + "(" + ScalarText(t).value + ")";
      ParsesTo(whole, depth, 1, TypeNode("Nullable", [ScalarNode(t)], [""], [], whole))
  {
    hide ParseAt, TypeLike, ScalarNode, WellFormed, ScalarText;
    var inner := ScalarText(t).value;
    ParseScalar(t, depth);
    ParseOne("Nullable", inner, depth);
    TooDeep(inner);
    if depth < MAX_TYPE_NESTING_DEPTH {
      ParseScalar(t, depth + 1);
    }
  }

  /** Parsing a printed type gives the tree it stands for, and fails exactly beyond the nesting limit. */
  lemma {:induction false} ParsePrinted(t: LogicalType, nullable: bool, depth: nat)
    requires WellFormed(t) && ToClickhouse(t, nullable).Some? && depth <= MAX_TYPE_NESTING_DEPTH
    ensures ParsesTo(ToClickhouse(t, nullable).value, depth, Nesting(t, nullable), NodeOf(t, nullable))
    decreases t, 1
  {
    hide ParseAt, TypeLike;
    match t {
      case JsonType => ParseWord("JSON", depth);
      case ListType(element) => ParsePrintedList(element, nullable, depth);
      case StructType(names, fields) => ParsePrintedStruct(names, fields, nullable, depth);
      case MapType(key, entry) => ParsePrintedMap(key, entry, nullable, depth);
      case _ => ParsePrintedScalar(t, nullable, depth);
    }
  }

  lemma {:induction false} ParsePrintedList(element: LogicalType, nullable: bool, depth: nat)
    requires WellFormed(element) && ToClickhouse(element, true).Some? && depth <= MAX_TYPE_NESTING_DEPTH
    ensures var t := ListType(element);
      ParsesTo(ToClickhouse(t, nullable).value, depth, Nesting(t, nullable), NodeOf(t, nullable))
    decreases element, 2
  {
    hide ParseAt, TypeLike, ToClickhouse, Run, Split, Word, WellFormed;
    ParsePrinted(element, true, if depth < MAX_TYPE_NESTING_DEPTH then depth + 1 else depth);
    var inner := ToClickhouse(element, true).value;
    TypeWords();
    ParseOne("Array", inner, depth);
    PrintedList(element, nullable);
    TooDeep(inner);
  }

  lemma {:induction false} ParsePrintedMap(key: LogicalType, entry: LogicalType, nullable: bool, depth: nat)
    requires WellFormed(key) && WellFormed(entry) && depth <= MAX_TYPE_NESTING_DEPTH
    requires ToClickhouse(key, false).Some? && ToClickhouse(entry, true).Some?
    ensures var t := MapType(key, entry);
      ParsesTo(ToClickhouse(t, nullable).value, depth, Nesting(t, nullable), NodeOf(t, nullable))
    decreases MapType(key, entry), 0
  {
    hide ParseAt, TypeLike, ToClickhouse, WellFormed, ParsesTo, Nesting, NodeOf;
    var below := if depth < MAX_TYPE_NESTING_DEPTH then depth + 1 else depth;
    ParsePrinted(key, false, below);
    ParsePrinted(entry, true, below);
    PrintedMap(key, entry, nullable);
    MapParts(key, entry, nullable);
    ParsePair(ToClickhouse(key, false).value, ToClickhouse(entry, true).value, depth, Nesting(key, false),
              Nesting(entry, true), NodeOf(key, false), NodeOf(entry, true));
  }

  lemma MapParts(key: LogicalType, entry: LogicalType, nullable: bool)
    requires ToClickhouse(key, false).Some? && ToClickhouse(entry, true).Some?
    requires ToClickhouse(MapType(key, entry), nullable).Some?
    ensures Nesting(MapType(key, entry), nullable) == 1 + Max(Nesting(key, false), Nesting(entry, true))
    ensures NodeOf(MapType(key, entry), nullable) ==
            TypeNode("Map", [NodeOf(key, false), NodeOf(entry, true)], ["", ""], [],
                     ToClickhouse(MapType(key, entry), nullable).value)
  {
    hide ToClickhouse;
  }

  lemma ParsePair(k: string, v: string, depth: nat, first: nat, second: nat, key: TypeNode, entry: TypeNode)
    requires depth <= MAX_TYPE_NESTING_DEPTH
    requires var below := if depth < MAX_TYPE_NESTING_DEPTH then depth + 1 else depth;
      ParsesTo(k, below, first, key) && ParsesTo(v, below, second, entry)
    ensures var whole := "Map" + "(" + k + ", " + v + ")";
      ParsesTo(whole, depth, 1 + Max(first, second), TypeNode("Map", [key, entry], ["", ""], [], whole))
  {
    hide ParseAt, TypeLike, Word;
    TypeWords();
    ParseTwo("Map", k, v, depth);
    TooDeep(k);
    TooDeep(v);
  }

  lemma {:induction false} ParsePrintedStruct(names: seq<string>, fields: seq<LogicalType>, nullable: bool, depth: nat)
    requires fields != [] && AllWellFormed(fields) && FieldTexts(names, fields).Some? && depth <= MAX_TYPE_NESTING_DEPTH
    ensures var t := StructType(names, fields);
      ParsesTo(ToClickhouse(t, nullable).value, depth, Nesting(t, nullable), NodeOf(t, nullable))
    decreases fields, 1
  {
    hide ParseAt, TypeLike, ToClickhouse, Run, Split, Word, WellFormed;
    ParsePrintedFields(names, fields, depth);
    var parts := FieldTexts(names, fields).value;
    TypeWords();
    ParseCall("Tuple", parts, depth);
    PrintedStruct(names, fields, nullable);
  }

  lemma {:induction false} ParsePrintedFields(names: seq<string>, fields: seq<LogicalType>, depth: nat)
    requires AllWellFormed(fields) && FieldTexts(names, fields).Some? && depth <= MAX_TYPE_NESTING_DEPTH
    ensures AllNeutral(FieldTexts(names, fields).value)
    ensures ParseArguments(FieldTexts(names, fields).value, depth) ==
      if fields == [] || depth + 1 + MaxNesting(fields) <= MAX_TYPE_NESTING_DEPTH
      then Some(Arguments(FieldNodes(names, fields), names, []))
      else None
    decreases fields, 0
  {
    hide ParseAt, TypeLike, ToClickhouse, Run, Neutral, SplitFieldName, QuoteIdentifier;
    if fields != [] {
      var texts := FieldTexts(names, fields).value;
      ParsePrinted(fields[0], true, if depth < MAX_TYPE_NESTING_DEPTH then depth + 1 else depth);
      FieldText(names[0], ToClickhouse(fields[0], true).value);
      TooDeep(ToClickhouse(fields[0], true).value);
      ParsePrintedFields(names[1..], fields[1..], depth);
      assert texts[1..] == FieldTexts(names[1..], fields[1..]).value;
      assert [names[0]] + names[1..] == names;
    }
  }

  // ---------------------------------------------------------------- reading the tree

  lemma {:induction false} QuoteAccepted(text: string)
    requires LabelAccepted(text)
    ensures QuoteBody(text, '\'') == text
  {
    if text != "" {
      QuoteAccepted(text[1..]);
      assert [text[0]] + text[1..] == text;
    }
  }

  lemma {:induction false} ReadAcceptedLabel(text: string, rest: string)
    requires LabelAccepted(text)
    ensures ReadLabel(text + "'" + rest) == Some((text, rest))
  {
    var whole := text + "'" + rest;
    if text == "" {
      assert whole[1..] == rest;
    } else {
      assert whole[1..] == text[1..] + "'" + rest;
      ReadAcceptedLabel(text[1..], rest);
      assert [text[0]] + text[1..] == text;
    }
  }

  /** An accepted label is read back from its entry, whatever commas, parentheses or blanks it holds. */
  lemma ParsePrintedEntry(text: string, number: nat, position: nat)
    requires LabelAccepted(text) && number <= MAX_ENUM_LABELS
    ensures ParseEnumEntry(EnumEntryText(text, number), position) == Some(EnumEntry(text, number))
  {
    hide TrimLeft, ReadLabel, QuoteBody, ReadDigits;
    var digits := NatText(number);
    var rest := " = " + digits;
    var entry := EnumEntryText(text, number);
    QuoteAccepted(text);
    assert entry[1..] == text + "'" + rest;
    ReadAcceptedLabel(text, rest);
    TrimDropsLeadingSpace("= " + digits);
    assert rest == " " + ("= " + digits);
    assert ("= " + digits)[1..] == " " + digits;
    TrimDropsLeadingSpace(digits);
    ParseNatText(number);
  }

  function Numbered(labels: seq<string>, first: nat): seq<EnumEntry> {
    if labels == [] then [] else [EnumEntry(labels[0], first)] + Numbered(labels[1..], first + 1)
  }

  lemma {:induction false} ParsePrintedEntries(labels: seq<string>, first: nat, position: nat)
    requires forall text :: text in labels ==> LabelAccepted(text)
    requires first + |labels| <= MAX_ENUM_LABELS + 1
    ensures ParseEnumEntriesFrom(EnumEntryTexts(labels, first), position) == Some(Numbered(labels, first))
  {
    if labels != [] {
      ParsePrintedEntry(labels[0], first, position);
      ParsePrintedEntries(labels[1..], first + 1, position + 1);
    }
  }

  lemma {:induction false} NumberedSorted(labels: seq<string>, first: nat)
    ensures SortByValue(Numbered(labels, first)) == Numbered(labels, first)
    ensures Labels(Numbered(labels, first)) == labels
  {
    if labels != [] {
      NumberedSorted(labels[1..], first + 1);
    }
  }

  lemma IntegerReadBack(t: LogicalType)
    requires WellFormed(t) && t.IntegerType?
    ensures ToDuckDB(ScalarNode(t)) == Some(ColumnType(t, true))
  {
    IntegerNames(t.bits, t.signed);
    assert Unwrap(ScalarNode(t)) == ScalarNode(t);
  }

  lemma DecimalReadBack(t: LogicalType)
    requires WellFormed(t) && t.DecimalType?
    ensures ToDuckDB(ScalarNode(t)) == Some(ColumnType(t, true))
  {
    ParseNatText(t.width);
    ParseNatText(t.scale);
    assert Unwrap(ScalarNode(t)) == ScalarNode(t);
    assert GetDecimalInfo(ScalarNode(t)) == Digits(t.width, t.scale);
  }

  lemma EnumNodeReadBack(name: string, literals: seq<string>, text: string)
    requires (name == "Enum8" || name == "Enum16") && literals != []
    requires ParseEnumEntriesFrom(literals, 1).Some?
    ensures ToDuckDB(TypeNode(name, [], [], literals, text)) ==
      Some(ColumnType(EnumType(Labels(SortByValue(ParseEnumEntriesFrom(literals, 1).value))), true))
  {
    hide ParseEnumEntriesFrom;
    var node := TypeNode(name, [], [], literals, text);
    assert Unwrap(node) == node;
    assert ScalarByName(name) == None;
    assert GetDecimalInfo(node) == NotDecimal;
  }

  lemma EnumReadBack(t: LogicalType)
    requires WellFormed(t) && t.EnumType? && ScalarText(t).Some?
    ensures ToDuckDB(ScalarNode(t)) == Some(ColumnType(t, true))
  {
    hide ToDuckDB;
    ParsePrintedEntries(t.labels, 1, 1);
    NumberedSorted(t.labels, 1);
    EnumNodeReadBack(ScalarName(t), ScalarLiterals(t), ScalarText(t).value);
  }

  lemma PlainScalarReadBack(name: string, t: LogicalType, text: string)
    requires match t
      case BooleanType => name == "Bool"
      case FloatType => name == "Float32"
      case DoubleType => name == "Float64"
      case DateType => name == "Date32"
      case UuidType => name == "UUID"
      case VarcharType => name == "String"
      case _ => false
    ensures ToDuckDB(TypeNode(name, [], [], [], text)) == Some(ColumnType(t, true))
  {
    var node := TypeNode(name, [], [], [], text);
    assert Unwrap(node) == node;
    if ScalarByName(name).None? {
      assert GetDecimalInfo(node) == NotDecimal;
    }
  }

  lemma InstantReadBack(name: string, literals: seq<string>, text: string)
    requires name == "DateTime" || name == "DateTime64"
    ensures ToDuckDB(TypeNode(name, [], [], literals, text)) == Some(ColumnType(TimestampTzType, true))
  {
    var node := TypeNode(name, [], [], literals, text);
    assert Unwrap(node) == node;
    assert ScalarByName(name) == None;
    assert GetDecimalInfo(node) == NotDecimal;
  }

  lemma TimeReadBack(digits: nat, text: string)
    requires digits == 6 || digits == 9
    ensures ToDuckDB(TypeNode("Time64", [], [], [NatText(digits)], text)) ==
      Some(ColumnType(if digits == 9 then TimeNsType else TimeType, true))
  {
    var node := TypeNode("Time64", [], [], [NatText(digits)], text);
    ParseNatText(digits);
    assert Unwrap(node) == node;
    assert ScalarByName("Time64") == None;
    assert GetDecimalInfo(node) == NotDecimal;
    assert IntegerLiteral(node, 0, 3) == Some(digits);
  }

  lemma ScalarNodeReadBack(t: LogicalType)
    requires WellFormed(t) && ScalarText(t).Some?
    ensures ToDuckDB(ScalarNode(t)) == Some(ColumnType(ReadBack(t), true))
    ensures !IsTransparent(ScalarNode(t)) && !IsNullable(ScalarNode(t))
  {
    hide ToDuckDB, ParseEnumEntriesFrom, EnumEntryTexts, NatText;
    var text := ScalarText(t).value;
    match t
    case IntegerType(bits, signed) =>
      IntegerReadBack(t);
      IntegerNames(bits, signed);
    case DecimalType(width, scale) => DecimalReadBack(t);
    case EnumType(labels) => EnumReadBack(t);
    case TimeType => TimeReadBack(6, text);  assert NatText(6) == "6" by { SmallNumbers(); }
    case TimeNsType => TimeReadBack(9, text);  assert NatText(9) == "9" by { SmallNumbers(); }
    case TimestampType(digits) => InstantReadBack(ScalarName(t), ScalarLiterals(t), text);
    case TimestampTzType => InstantReadBack(ScalarName(t), ScalarLiterals(t), text);
    case _ => PlainScalarReadBack(ScalarName(t), ReadBack(t), text);
  }

  lemma SmallNumbers()
    ensures NatText(6) == "6" && NatText(9) == "9"
  {
  }

  lemma IntegerNames(bits: nat, signed: bool)
    requires IntegerWidth(bits)
    ensures ScalarByName(IntegerName(bits, signed)) == Some(IntegerType(bits, signed))
    ensures IntegerName(bits, signed)[0] == 'I' || IntegerName(bits, signed)[0] == 'U'
  {
    assert NatText(12) == "12";
    var digits := NatText(bits);
    assert digits == if bits == 8 then "8" else if bits == 16 then "16" else if bits == 32 then "32"
                     else if bits == 64 then "64" else "128";
    var name := IntegerName(bits, signed);
    var prefix := if signed then "Int" else "UInt";
    assert |name| == |prefix| + |digits|;
    assert name == if bits == 8 then (if signed then "Int8" else "UInt8")
                   else if bits == 16 then (if signed then "Int16" else "UInt16")
                   else if bits == 32 then (if signed then "Int32" else "UInt32")
                   else if bits == 64 then (if signed then "Int64" else "UInt64")
                   else (if signed then "Int128" else "UInt128");
  }

  lemma WrappedReadBack(node: TypeNode, text: string)
    requires !IsTransparent(node)
    ensures ToDuckDB(TypeNode("Nullable", [node], [""], [], text)) == ToDuckDB(node)
  {
    hide ScalarByName;
    var wrapped := TypeNode("Nullable", [node], [""], [], text);
    assert Unwrap(wrapped) == Unwrap(node) == node;
  }

  lemma ArrayReadBack(node: TypeNode, text: string)
    requires ToDuckDB(node).Some?
    ensures var element := ToDuckDB(node).value;
      ToDuckDB(TypeNode("Array", [node], [""], [], text)) == Some(ColumnType(ListType(element.kind), element.readable))
  {
  }

  lemma MapReadBack(k: TypeNode, v: TypeNode, text: string)
    requires ToDuckDB(k).Some? && ToDuckDB(v).Some?
    ensures var key, entry := ToDuckDB(k).value, ToDuckDB(v).value;
      ToDuckDB(TypeNode("Map", [k, v], ["", ""], [], text)) ==
        Some(ColumnType(MapType(key.kind, entry.kind), key.readable && entry.readable))
  {
  }

  lemma TupleReadBack(nodes: seq<TypeNode>, names: seq<string>, text: string)
    requires nodes != [] && AllToDuckDB(nodes).Some?
    ensures var fields := AllToDuckDB(nodes).value;
      ToDuckDB(TypeNode("Tuple", nodes, names, [], text)) ==
        Some(ColumnType(StructType(FieldNames(names, |nodes|, 1), Kinds(fields)), AllReadable(fields)))
  {
  }

  lemma TextOfScalar(t: LogicalType, nullable: bool)
    requires ToClickhouse(t, nullable).Some? && !IsNestedOrJson(t)
    ensures ScalarText(t).Some?
  {
    hide ScalarText;
  }

  lemma NodeNullable(t: LogicalType, nullable: bool)
    requires WellFormed(t) && ToClickhouse(t, nullable).Some?
    ensures IsNullable(NodeOf(t, nullable)) == (nullable && !IsNestedOrJson(t))
  {
    hide ScalarText, ScalarNode, WellFormed, ToClickhouse, ToDuckDB;
    if !IsNestedOrJson(t) {
      TextOfScalar(t, nullable);
      ScalarNodeReadBack(t);
    }
  }

  lemma {:induction false} NodeReadBack(t: LogicalType, nullable: bool)
    requires WellFormed(t) && ToClickhouse(t, nullable).Some?
    ensures ToDuckDB(NodeOf(t, nullable)) == Some(ColumnType(ReadBack(t), true))
    ensures IsNullable(NodeOf(t, nullable)) == (nullable && !IsNestedOrJson(t))
    decreases t, 1
  {
    hide ToDuckDB, AllToDuckDB, ScalarText, ScalarNode, Unwrap, IsNullable;
    NodeNullable(t, nullable);
    var text := ToClickhouse(t, nullable).value;
    match t
    case JsonType => JsonReadBack(text);
    case ListType(element) =>
      NodeReadBack(element, true);
      ArrayReadBack(NodeOf(element, true), text);
    case StructType(names, fields) =>
      FieldNodesReadBack(names, fields);
      TupleReadBack(FieldNodes(names, fields), names, text);
    case MapType(key, entry) =>
      NodeReadBack(key, false);
      NodeReadBack(entry, true);
      MapReadBack(NodeOf(key, false), NodeOf(entry, true), text);
    case _ =>
      ScalarNodeReadBack(t);
      WrappedReadBack(ScalarNode(t), text);
  }

  lemma JsonReadBack(text: string)
    ensures ToDuckDB(TypeNode("JSON", [], [], [], text)) == Some(ColumnType(JsonType, true))
  {
  }

  lemma {:induction false} FieldNodesReadBack(names: seq<string>, fields: seq<LogicalType>)
    requires AllWellFormed(fields) && FieldTexts(names, fields).Some?
    ensures AllToDuckDB(FieldNodes(names, fields)).Some?
    ensures Kinds(AllToDuckDB(FieldNodes(names, fields)).value) == AllReadBack(fields)
    ensures AllReadable(AllToDuckDB(FieldNodes(names, fields)).value)
    ensures forall position :: FieldNames(names, |fields|, position) == names
    decreases fields, 0
  {
    hide ToDuckDB, ToClickhouse, NatText, QuoteIdentifier;
    if fields != [] {
      NodeReadBack(fields[0], true);
      FieldNodesReadBack(names[1..], fields[1..]);
    }
  }

  /** The extension reads a column back as the type it was created from: for every type DuckDB can hand over,
      every nullability, every field name and every accepted ENUM label, parsing the printed text succeeds exactly
      within the nesting limit, and then maps to the same type (BLOB as VARCHAR, naive timestamps as TIMESTAMPTZ),
      readable, and nullable exactly when a scalar was asked to be. */
  lemma PrintParseRoundTrip(t: LogicalType, nullable: bool)
    requires WellFormed(t) && ToClickhouse(t, nullable).Some?
    ensures var parsed := Parse(ToClickhouse(t, nullable).value);
      (parsed.Some? <==> Nesting(t, nullable) <= MAX_TYPE_NESTING_DEPTH) &&
      (parsed.Some? ==> ToDuckDB(parsed.value) == Some(ColumnType(ReadBack(t), true)) &&
                        IsNullable(parsed.value) == (nullable && !IsNestedOrJson(t)))
  {
    hide WellFormed, ToClickhouse, NodeOf, ToDuckDB, IsNullable, ReadBack, ParseAt, Nesting;
    ParsePrinted(t, nullable, 0);
    NodeReadBack(t, nullable);
  }

  /** Two types that print as the same text within the nesting limit are read as the same type: no field name or
      label can forge another type's text. */
  lemma PrintedTextDetermines(t: LogicalType, u: LogicalType, nullable: bool)
    requires WellFormed(t) && WellFormed(u)
    requires ToClickhouse(t, nullable).Some? && ToClickhouse(t, nullable) == ToClickhouse(u, nullable)
    requires Nesting(t, nullable) <= MAX_TYPE_NESTING_DEPTH
    ensures ReadBack(t) == ReadBack(u)
  {
    PrintParseRoundTrip(t, nullable);
    PrintParseRoundTrip(u, nullable);
  }
}
