/** What a parsed ClickHouse type is read as (src/clickhouse_types.cpp, "Helpers" and "ToDuckDB"). */
module TypeMapping {
  import opened Options
  import opened LogicalTypes
  import opened Text
  import opened TypeParser

  // ---------------------------------------------------------------- wrappers

  predicate IsTransparent(node: TypeNode) {
    ((node.name == "Nullable" || node.name == "LowCardinality") && |node.children| == 1) ||
    (node.name == "SimpleAggregateFunction" && node.children != [])
  }

  /** The type below every Nullable, LowCardinality and SimpleAggregateFunction. */
  function Unwrap(node: TypeNode): (r: TypeNode)
    ensures !IsTransparent(r)
    ensures r == node || r < node
  {
    if (node.name == "Nullable" || node.name == "LowCardinality") && |node.children| == 1 then
      Unwrap(node.children[0])
    else if node.name == "SimpleAggregateFunction" && node.children != [] then
      Unwrap(node.children[|node.children| - 1])
    else node
  }

  /** The loop on the `current` pointer. */
  method UnwrapLoop(node: TypeNode) returns (current: TypeNode)
    ensures current == Unwrap(node)
  {
    current := node;
    while true
      invariant Unwrap(current) == Unwrap(node)
      decreases current
    {
      if (current.name == "Nullable" || current.name == "LowCardinality") && |current.children| == 1 {
        current := current.children[0];
        continue;
      }
      if current.name == "SimpleAggregateFunction" && current.children != [] {
        current := current.children[|current.children| - 1];
        continue;
      }
      return;
    }
  }

  predicate IsNullable(node: TypeNode) {
    node.name == "Nullable" ||
    ((node.name == "LowCardinality" || node.name == "SimpleAggregateFunction") && node.children != [] &&
     IsNullable(node.children[|node.children| - 1]))
  }

  // ---------------------------------------------------------------- literals

  function IntegerLiteral(node: TypeNode, index: nat, otherwise: int): Option<int> {
    if index >= |node.literals| then Some(otherwise) else ParseInteger(node.literals[index])
  }

  datatype DecimalInfo = NotDecimal | MalformedDecimal | Digits(width: nat, scale: nat)

  function GetDecimalInfo(node: TypeNode): DecimalInfo {
    if node.name == "Decimal" then DecimalDigits(IntegerLiteral(node, 0, 10), IntegerLiteral(node, 1, 0))
    else if node.name == "Decimal32" then DecimalDigits(Some(9), IntegerLiteral(node, 0, 0))
    else if node.name == "Decimal64" then DecimalDigits(Some(18), IntegerLiteral(node, 0, 0))
    else if node.name == "Decimal128" then DecimalDigits(Some(38), IntegerLiteral(node, 0, 0))
    else if node.name == "Decimal256" then DecimalDigits(Some(76), IntegerLiteral(node, 0, 0))
    else NotDecimal
  }

  function DecimalDigits(width: Option<int>, scale: Option<int>): DecimalInfo {
    if width.None? || scale.None? || width.value < 1 || width.value > 76 || scale.value < 0 ||
       scale.value > width.value
    then MalformedDecimal
    else Digits(width.value, scale.value)
  }

  // ---------------------------------------------------------------- ENUM entries

  datatype EnumEntry = EnumEntry(text: string, value: int)

  function Unescape(c: char): char {
    if c == 'n' then '\n' else if c == 't' then '\t' else if c == 'r' then '\r' else if c == '0' then '\0' else c
  }

  /** The label after its opening quote, and what follows the closing one; None when there is none. */
  function ReadLabel(s: string): Option<(string, string)> {
    if s == [] then None
    else if s[0] == '\\' && |s| > 1 then
      var rest :- ReadLabel(s[2..]);
      Some(([Unescape(s[1])] + rest.0, rest.1))
    else if s[0] == '\'' then Some(("", s[1..]))
    else
      var rest :- ReadLabel(s[1..]);
      Some(([s[0]] + rest.0, rest.1))
  }

  /** One entry: 'label' = 5, or 'label' alone, whose value is its position. */
  function ParseEnumEntry(literal: string, position: nat): Option<EnumEntry> {
    if literal == "" || literal[0] != '\'' then None
    else
      var read :- ReadLabel(literal[1..]);
      var rest := Trim(read.1);
      if rest == "" then Some(EnumEntry(read.0, position))
      else if rest[0] != '=' then None
      else
        var value :- ParseInteger(Trim(rest[1..]));
        Some(EnumEntry(read.0, value))
  }

  function ParseEnumEntriesFrom(literals: seq<string>, position: nat): Option<seq<EnumEntry>> {
    if literals == [] then Some([])
    else
      var entry :- ParseEnumEntry(literals[0], position);
      var rest :- ParseEnumEntriesFrom(literals[1..], position + 1);
      Some([entry] + rest)
  }

  /** Insertion into a list ordered by value, before any entry with a larger value and before equal ones: inserting
      from the back keeps the order of equal values, like std::stable_sort. */
  function InsertByValue(entry: EnumEntry, sorted: seq<EnumEntry>): seq<EnumEntry> {
    if sorted == [] || entry.value <= sorted[0].value then [entry] + sorted
    else [sorted[0]] + InsertByValue(entry, sorted[1..])
  }

  function SortByValue(entries: seq<EnumEntry>): seq<EnumEntry> {
    if entries == [] then [] else InsertByValue(entries[0], SortByValue(entries[1..]))
  }

  lemma {:induction false} InsertSame(entry: EnumEntry, sorted: seq<EnumEntry>)
    ensures multiset(InsertByValue(entry, sorted)) == multiset{entry} + multiset(sorted)
  {
    if sorted != [] && entry.value > sorted[0].value {
      InsertSame(entry, sorted[1..]);
      assert sorted == [sorted[0]] + sorted[1..];
    }
  }

  predicate Ascending(entries: seq<EnumEntry>) {
    forall i, j :: 0 <= i < j < |entries| ==> entries[i].value <= entries[j].value
  }

  lemma {:induction false} InsertSorted(entry: EnumEntry, sorted: seq<EnumEntry>)
    requires Ascending(sorted)
    ensures Ascending(InsertByValue(entry, sorted))
  {
    if sorted != [] && entry.value > sorted[0].value {
      var inserted := InsertByValue(entry, sorted[1..]);
      InsertSorted(entry, sorted[1..]);
      InsertSame(entry, sorted[1..]);
      forall j | 0 <= j < |inserted| ensures sorted[0].value <= inserted[j].value {
        assert inserted[j] in multiset(inserted);
        if inserted[j] != entry {
          assert inserted[j] in sorted[1..];
        }
      }
    }
  }

  lemma OfValueCons(first: EnumEntry, rest: seq<EnumEntry>, value: int)
    ensures OfValue([first] + rest, value) == (if first.value == value then [first] else []) + OfValue(rest, value)
  {
    assert ([first] + rest)[1..] == rest;
  }

  lemma {:induction false} InsertStable(entry: EnumEntry, sorted: seq<EnumEntry>, value: int)
    requires Ascending(sorted)
    ensures OfValue(InsertByValue(entry, sorted), value) ==
            (if entry.value == value then [entry] else []) + OfValue(sorted, value)
  {
    if sorted == [] || entry.value <= sorted[0].value {
      OfValueCons(entry, sorted, value);
    } else {
      var inserted := InsertByValue(entry, sorted[1..]);
      InsertStable(entry, sorted[1..], value);
      OfValueCons(sorted[0], inserted, value);
    }
  }

  /** The entries of one value, in order. */
  function OfValue(entries: seq<EnumEntry>, value: int): seq<EnumEntry> {
    if entries == [] then []
    else (if entries[0].value == value then [entries[0]] else []) + OfValue(entries[1..], value)
  }

  /** SortByValue is a stable sort: the same entries, by value, equal ones in the order they came in. */
  lemma {:induction false} SortExact(entries: seq<EnumEntry>, value: int)
    ensures multiset(SortByValue(entries)) == multiset(entries) && Ascending(SortByValue(entries))
    ensures OfValue(SortByValue(entries), value) == OfValue(entries, value)
  {
    if entries != [] {
      var rest := SortByValue(entries[1..]);
      SortExact(entries[1..], value);
      InsertSame(entries[0], rest);
      InsertSorted(entries[0], rest);
      InsertStable(entries[0], rest, value);
      assert [entries[0]] + entries[1..] == entries;
    }
  }

  /** ClickHouse takes no ENUM with a label or a value twice. */
  predicate Distinct(entries: seq<EnumEntry>) {
    forall i, j :: 0 <= i < j < |entries| ==>
      entries[i].text != entries[j].text && entries[i].value != entries[j].value
  }

  /** The value the server stores for a label. */
  function ValueOf(entries: seq<EnumEntry>, text: string): int {
    if entries == [] then 0 else if entries[0].text == text then entries[0].value else ValueOf(entries[1..], text)
  }

  /** Labels are ordered by their positions, as DuckDB orders them, exactly as the server orders their values. */
  lemma PositionsFollowValues(entries: seq<EnumEntry>, i: nat, j: nat)
    requires Distinct(entries) && i < |SortByValue(entries)| && j < |SortByValue(entries)|
    ensures var sorted := SortByValue(entries);
      i < j <==> ValueOf(entries, sorted[i].text) < ValueOf(entries, sorted[j].text)
  {
    var sorted := SortByValue(entries);
    SortExact(entries, 0);
    assert sorted[i] in multiset(sorted) && sorted[j] in multiset(sorted);
    var m :| 0 <= m < |entries| && entries[m] == sorted[i];
    var n :| 0 <= n < |entries| && entries[n] == sorted[j];
    ValueAt(entries, m);
    ValueAt(entries, n);
    if i != j && m == n {
      OnceEach(entries);
      assert sorted[if i < j then i else j] == sorted[if i < j then j else i];
      TwiceIn(sorted, if i < j then i else j, if i < j then j else i);
    }
  }

  lemma {:induction false} ValueAt(entries: seq<EnumEntry>, k: nat)
    requires Distinct(entries) && k < |entries|
    ensures ValueOf(entries, entries[k].text) == entries[k].value
  {
    if k > 0 {
      ValueAt(entries[1..], k - 1);
    }
  }

  lemma {:induction false} OnceEach(entries: seq<EnumEntry>)
    requires Distinct(entries)
    ensures forall e :: e in multiset(entries) ==> multiset(entries)[e] == 1
  {
    if entries != [] {
      OnceEach(entries[1..]);
      assert entries == [entries[0]] + entries[1..];
      assert entries[0] !in entries[1..];
    }
  }

  lemma TwiceIn(s: seq<EnumEntry>, i: nat, j: nat)
    requires i < j < |s| && s[i] == s[j]
    ensures multiset(s)[s[i]] >= 2
  {
    assert s == s[..j] + ([s[j]] + s[j + 1..]);
    assert multiset(s) == multiset(s[..j]) + (multiset{s[j]} + multiset(s[j + 1..]));
    assert s[..j][i] == s[i] && s[i] in multiset(s[..j]);
  }

  function Labels(entries: seq<EnumEntry>): seq<string> {
    if entries == [] then [] else [entries[0].text] + Labels(entries[1..])
  }

  // ---------------------------------------------------------------- ToDuckDB

  datatype ColumnType = ColumnType(kind: LogicalType, readable: bool)

  predicate IsSemiStructured(name: string) {
    name == "JSON" || name == "Object" || name == "Variant" || name == "Dynamic"
  }

  function ScalarByName(name: string): Option<LogicalType> {
    if name == "Bool" then Some(BooleanType)
    else if name == "Int8" then Some(IntegerType(8, true))
    else if name == "Int16" then Some(IntegerType(16, true))
    else if name == "Int32" then Some(IntegerType(32, true))
    else if name == "Int64" then Some(IntegerType(64, true))
    else if name == "UInt8" then Some(IntegerType(8, false))
    else if name == "UInt16" then Some(IntegerType(16, false))
    else if name == "UInt32" then Some(IntegerType(32, false))
    else if name == "UInt64" then Some(IntegerType(64, false))
    else if name == "Int128" then Some(IntegerType(128, true))
    else if name == "UInt128" then Some(IntegerType(128, false))
    else if name == "Float32" || name == "BFloat16" then Some(FloatType)
    else if name == "Float64" then Some(DoubleType)
    else None
  }

  /** None where the C++ code throws: malformed parameters or ENUM entries. */
  function ToDuckDB(node: TypeNode): Option<ColumnType>
    decreases node, 1
  {
    var t := Unwrap(node);
    var name := t.name;
    if ScalarByName(name).Some? then Some(ColumnType(ScalarByName(name).value, true))
    else if GetDecimalInfo(t) != NotDecimal then
      match GetDecimalInfo(t) {
        case Digits(width, scale) =>
          Some(ColumnType(if width <= 38 then DecimalType(width, scale) else VarcharType, true))
        case _ => None
      }
    else if name == "String" || name == "FixedString" then Some(ColumnType(VarcharType, true))
    else if name == "Date" || name == "Date32" then Some(ColumnType(DateType, true))
    else if name == "DateTime" || name == "DateTime64" then Some(ColumnType(TimestampTzType, true))
    else if name == "Time" then Some(ColumnType(TimeType, true))
    else if name == "Time64" then
      var precision :- IntegerLiteral(t, 0, 3);
      Some(ColumnType(if precision > 6 then TimeNsType else TimeType, true))
    else if name == "UUID" then Some(ColumnType(UuidType, true))
    else if (name == "Enum8" || name == "Enum16") && t.literals != [] then
      var entries :- ParseEnumEntriesFrom(t.literals, 1);
      Some(ColumnType(EnumType(Labels(SortByValue(entries))), true))
    else if name == "Array" && |t.children| == 1 then
      var child :- ToDuckDB(t.children[0]);
      Some(ColumnType(ListType(child.kind), child.readable))
    else if name == "Tuple" && t.children != [] then
      var fields :- AllToDuckDB(t.children);
      Some(ColumnType(StructType(FieldNames(t.fieldNames, |t.children|, 1), Kinds(fields)), AllReadable(fields)))
    else if name == "Map" && |t.children| == 2 then
      var key :- ToDuckDB(t.children[0]);
      var entry :- ToDuckDB(t.children[1]);
      Some(ColumnType(MapType(key.kind, entry.kind), key.readable && entry.readable))
    else if IsSemiStructured(name) then Some(ColumnType(JsonType, true))
    else if name == "AggregateFunction" then Some(ColumnType(VarcharType, false))
    else Some(ColumnType(VarcharType, true))
  }

  function AllToDuckDB(nodes: seq<TypeNode>): Option<seq<ColumnType>>
    decreases nodes, 0
  {
    if nodes == [] then Some([])
    else
      var first :- ToDuckDB(nodes[0]);
      var rest :- AllToDuckDB(nodes[1..]);
      Some([first] + rest)
  }

  function Kinds(columns: seq<ColumnType>): seq<LogicalType> {
    if columns == [] then [] else [columns[0].kind] + Kinds(columns[1..])
  }

  predicate AllReadable(columns: seq<ColumnType>) {
    columns == [] || (columns[0].readable && AllReadable(columns[1..]))
  }

  /** The element names of a Tuple; an unnamed element is called by its position. */
  function FieldNames(names: seq<string>, count: nat, position: nat): seq<string>
    decreases count
  {
    if count == 0 then []
    else
      var name := if names == [] || names[0] == "" then NatText(position) else names[0];
      [name] + FieldNames(if names == [] then [] else names[1..], count - 1, position + 1)
  }

  // ---------------------------------------------------------------- the loop over ENUM entries

  /** ParseEnumEntries before the sort: one entry pushed per literal. */
  method ParseEnumEntries(literals: seq<string>) returns (entries: Option<seq<EnumEntry>>)
    ensures entries == ParseEnumEntriesFrom(literals, 1)
  {
    ghost var whole := ParseEnumEntriesFrom(literals, 1);
    assert literals[0..] == literals;
    var parsed: seq<EnumEntry> := [];
    for i := 0 to |literals|
      invariant whole.None? <==> ParseEnumEntriesFrom(literals[i..], i + 1).None?
      invariant whole.Some? ==> whole.value == parsed + ParseEnumEntriesFrom(literals[i..], i + 1).value
    {
      assert literals[i..][1..] == literals[i + 1..];
      var entry := ReadEnumEntry(literals[i], i + 1);
      if entry.None? {
        return None;
      }
      parsed := parsed + [entry.value];
    }
    assert ParseEnumEntriesFrom(literals[|literals|..], |literals| + 1) == Some([]);
    assert parsed + [] == parsed;
    return Some(parsed);
  }

  /** One entry, its label read with an index and a growing buffer. */
  method ReadEnumEntry(literal: string, position: nat) returns (entry: Option<EnumEntry>)
    ensures entry == ParseEnumEntry(literal, position)
  {
    if literal == "" || literal[0] != '\'' {
      return None;
    }
    var name, next := ReadEnumLabel(literal);
    if name.None? {
      return None;
    }
    var rest := Trim(literal[next..]);
    var value: int := position;
    if rest != "" {
      if rest[0] != '=' {
        return None;
      }
      var number := ParseInteger(Trim(rest[1..]));
      if number.None? {
        return None;
      }
      value := number.value;
    }
    return Some(EnumEntry(name.value, value));
  }

  lemma LabelStep(buffer: string, c: char, rest: string)
    ensures ReadLabel(rest).Some? ==>
      buffer + ([c] + ReadLabel(rest).value.0) == (buffer + [c]) + ReadLabel(rest).value.0
  {
    hide ReadLabel;
  }

  method ReadEnumLabel(literal: string) returns (name: Option<string>, next: nat)
    requires literal != ""
    ensures next <= |literal|
    ensures name.None? <==> ReadLabel(literal[1..]).None?
    ensures name.Some? ==> ReadLabel(literal[1..]).value.0 == name.value
    ensures name.Some? ==> ReadLabel(literal[1..]).value.1 == literal[next..]
  {
    hide Unescape;
    ghost var whole := ReadLabel(literal[1..]);
    var buffer := "";
    var pos := 1;
    while pos < |literal|
      invariant 1 <= pos <= |literal|
      invariant whole.None? <==> ReadLabel(literal[pos..]).None?
      invariant whole.Some? ==> whole.value.0 == buffer + ReadLabel(literal[pos..]).value.0
      invariant whole.Some? ==> whole.value.1 == ReadLabel(literal[pos..]).value.1
    {
      ghost var rest := literal[pos..];
      assert rest[1..] == literal[pos + 1..];
      var c := literal[pos];
      if c == '\\' && pos + 1 < |literal| {
        assert rest[2..] == literal[pos + 2..];
        LabelStep(buffer, Unescape(literal[pos + 1]), literal[pos + 2..]);
        pos := pos + 1;
        buffer := buffer + [Unescape(literal[pos])];
      } else if c == '\'' {
        return Some(buffer), pos + 1;
      } else {
        LabelStep(buffer, c, literal[pos + 1..]);
        buffer := buffer + [c];
      }
      pos := pos + 1;
    }
    return None, pos;
  }
}
