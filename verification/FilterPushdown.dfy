/** Filters pushed into a scan, as ClickHouse predicates on one column (src/clickhouse_filter_pushdown.cpp). */
module FilterPushdown {
  import opened Options
  import opened Values
  import opened Comparisons
  import opened Casts
  import opened Sql
  import opened Expressions

  // ---------------------------------------------------------------- filters

  /** A pushed filter on one column. `Optional` need not be applied; `RuntimeHint` is a dynamic, bloom or prefix-range
      filter; `LabelEquals` is CAST(column AS VARCHAR) compared with a label of the column's ENUM. */
  datatype Filter =
    | Optional
    | RuntimeHintFilter
    | Joined(isAnd: bool, children: seq<Filter>)
    | IsNullFilter(negated: bool)
    | Listed(values: seq<Value>, negated: bool)
    | Compared(op: Comparison, value: Value)
    | LabelEquals(text: string, negated: bool)
    | Other

  /** What a label is compared as on both sides: its text. */
  function CompareLabel(v: Value, text: string, negated: bool): Res {
    if v.Null? then Ok(Null) else if v.EnumLabel? then Ok(Bool((v.text == text) != negated)) else Err
  }

  /** DuckDB's filter on the column's value, the leaves it need not apply read as TRUE. */
  function Applied(f: Filter, v: Value): Res
    decreases f, 1
  {
    match f
    case Optional => Ok(TRUE)
    case RuntimeHintFilter => Ok(TRUE)
    case Joined(isAnd, children) => Junction(isAnd, AllApplied(children, v))
    case IsNullFilter(negated) => Ok(Bool(v.Null? != negated))
    case Listed(values, negated) => if negated then Negation(DuckIn(v, values)) else DuckIn(v, values)
    case Compared(op, value) => Compare(op, v, value)
    case LabelEquals(text, negated) => CompareLabel(v, text, negated)
    case Other => Err
  }

  function AllApplied(fs: seq<Filter>, v: Value): (r: seq<Res>)
    ensures |r| == |fs|
    decreases fs, 0
  {
    if fs == [] then [] else [Applied(fs[0], v)] + AllApplied(fs[1..], v)
  }

  // ---------------------------------------------------------------- predicates

  datatype Predicate =
    | JoinedBy(isAnd: bool, parts: seq<Predicate>)
    | ColumnIsNull(negated: bool)
    | NeverTrue                                                   // 1 = 0
    | AlwaysTrue                                                  // 1 = 1
    | ColumnCompares(op: Comparison, constant: Sql)
    | TextCompares(op: Comparison, text: string)                  // toString(column) op 'text'
    | LabelCompares(text: string, negated: bool)                  // column = 'text' or column != 'text' on an ENUM
    | ColumnIn(constants: seq<Sql>, negated: bool)

  function LowerHex(digit: nat): char
    requires digit < 16
  {
    "0123456789abcdef"[digit]
  }

  function Hex(n: nat, width: nat): (r: string)
    ensures |r| == width
    decreases width
  {
    if width == 0 then [] else Hex(n / 16, width - 1) + [LowerHex(n % 16)]
  }

  function Pow16(n: nat): (r: nat)
    ensures r > 0
  {
    if n == 0 then 1 else 16 * Pow16(n - 1)
  }

  /** Section 4 of RFC 9562: lowercase hexadecimal digits in groups of 8, 4, 4, 4 and 12, joined by dashes. */
  function UuidText(high: nat, low: nat): string {
    Hex(high / 0x1_0000_0000, 8) + (['-'] + (Hex(high / 0x1_0000 % 0x1_0000, 4) + (['-'] + (Hex(high % 0x1_0000, 4) +
      (['-'] + (Hex(low / 0x1_0000_0000_0000, 4) + (['-'] + Hex(low % 0x1_0000_0000_0000, 12))))))))
  }

  function ServerText(v: Value): Res {
    match v
    case Null => Ok(Null)
    case Uuid(high, low) => Ok(Str(UuidText(high, low)))
    case _ => Err
  }

  function Holds(p: Predicate, v: Value, server: Server): Res
    decreases p, 1
  {
    match p
    case JoinedBy(isAnd, parts) => Junction(isAnd, AllHold(parts, v, server))
    case ColumnIsNull(negated) => Ok(Bool(v.Null? != negated))
    case NeverTrue => Ok(FALSE)
    case AlwaysTrue => Ok(TRUE)
    case ColumnCompares(op, constant) =>
      var c := Eval(constant, [v], server);
      if c.Ok? then ServerCompare(op, v, c.value) else Err
    case TextCompares(op, text) =>
      var t := ServerText(v);
      if t.Ok? then ServerCompare(op, t.value, Str(text)) else Err
    case LabelCompares(text, negated) => CompareLabel(v, text, negated)
    case ColumnIn(constants, negated) =>
      var cs := Collect(EvalAll(constants, [v], server));
      if cs.Results? then ServerIn(v, cs.values, negated, server.transformNullIn) else Err
  }

  function AllHold(ps: seq<Predicate>, v: Value, server: Server): (r: seq<Res>)
    ensures |r| == |ps|
    decreases ps, 0
  {
    if ps == [] then [] else [Holds(ps[0], v, server)] + AllHold(ps[1..], v, server)
  }

  // ---------------------------------------------------------------- the transformation

  /** None where the C++ code throws. */
  function TransformConstant(v: Value): Option<Sql> {
    match v
    case Bool(_) => Some(Literal(v))
    case Int(_) => Some(Literal(v))
    case Decimal(_, _) => Some(Literal(v))
    case Str(_) => Some(Literal(v))
    case EnumLabel(_, _) => Some(Literal(v))
    case Uuid(_, _) => Some(Literal(v))
    case Date(day) => if day.Finite? && InDate32(day.n) then Some(ToDate32(day.n)) else None
    case TimestampTz(micros) => if micros.Finite? then Some(Literal(v)) else None
    case _ => None
  }

  function FoldOutOfBounds(op: Comparison, below: bool): Predicate {
    var always := match op
      case Equal => false
      case NotEqual => true
      case Less => !below
      case LessOrEqual => !below
      case Greater => below
      case GreaterOrEqual => below;
    if always then ColumnIsNull(true) else NeverTrue
  }

  function TryFold(op: Comparison, value: Value): Option<Predicate> {
    match value
    case Date(Finite(day)) => if InDate32(day) then None else Some(FoldOutOfBounds(op, day < MIN_DATE32))
    case Date(day) => Some(FoldOutOfBounds(op, day.NegInfinity?))
    case TimestampTz(micros) => if micros.Finite? then None else Some(FoldOutOfBounds(op, micros.NegInfinity?))
    case _ => None
  }

  function CompareFilter(op: Comparison, value: Value): Option<Predicate> {
    if TryFold(op, value).Some? then TryFold(op, value)
    else if value.Uuid? && op.IsOrdered() then Some(TextCompares(op, UuidText(value.high, value.low)))
    else
      var constant :- TransformConstant(value);
      Some(ColumnCompares(op, constant))
  }

  /** The list's constants; dates and timestamps no column can hold are left out. */
  function ListConstants(values: seq<Value>): Option<seq<Sql>> {
    if values == [] then Some([])
    else
      var constant := TransformConstant(values[0]);
      if constant.None? && !values[0].Date? && !values[0].TimestampTz? then None
      else
        var rest :- ListConstants(values[1..]);
        Some(if constant.Some? then [constant.value] + rest else rest)
  }

  function ListFilter(values: seq<Value>, negated: bool): Option<Predicate> {
    var constants :- ListConstants(values);
    Some(if constants != [] then ColumnIn(constants, negated) else if negated then AlwaysTrue else NeverTrue)
  }

  /** TransformExpressionFilter: Some(None) restricts no rows. */
  function Transform(f: Filter): Option<Option<Predicate>>
    decreases f, 1
  {
    match f
    case Optional => Some(None)
    case RuntimeHintFilter => Some(None)
    case Joined(isAnd, children) =>
      var parts :- TransformParts(children, isAnd);
      Some(if parts.None? || parts.value == [] then None else Some(JoinedBy(isAnd, parts.value)))
    case IsNullFilter(negated) => Some(Some(ColumnIsNull(negated)))
    case Listed(values, negated) =>
      var p :- ListFilter(values, negated);
      Some(Some(p))
    case Compared(op, value) =>
      var p :- CompareFilter(op, value);
      Some(Some(p))
    case LabelEquals(text, negated) => Some(Some(LabelCompares(text, negated)))
    case Other => None
  }

  /** The parts of an AND that restrict rows; Some(None) for an OR with a branch that does not. */
  function TransformParts(fs: seq<Filter>, isAnd: bool): Option<Option<seq<Predicate>>>
    decreases fs, 0
  {
    if fs == [] then Some(Some([]))
    else
      var part :- Transform(fs[0]);
      if part.None? && !isAnd then Some(None)
      else
        var rest :- TransformParts(fs[1..], isAnd);
        Some(if rest.None? then None else Some((if part.Some? then [part.value] else []) + rest.value))
  }

  /** The loop over a conjunction's children, with its early return out of an OR. */
  method TransformChildren(fs: seq<Filter>, isAnd: bool) returns (parts: Option<Option<seq<Predicate>>>)
    ensures parts == TransformParts(fs, isAnd)
  {
    hide Transform;
    ghost var whole := TransformParts(fs, isAnd);
    var pushed: seq<Predicate> := [];
    assert fs[0..] == fs;
    assert whole.Some? && whole.value.Some? ==> pushed + whole.value.value == whole.value.value;
    for i := 0 to |fs|
      invariant var rest := TransformParts(fs[i..], isAnd);
        whole == if rest.None? then None else if rest.value.None? then Some(None)
                 else Some(Some(pushed + rest.value.value))
    {
      assert fs[i..][1..] == fs[i + 1..];
      var part := Transform(fs[i]);
      if part.None? {
        return None;
      }
      if part.value.Some? {
        var rest := TransformParts(fs[i + 1..], isAnd);
        assert rest.Some? && rest.value.Some? ==>
          pushed + ([part.value.value] + rest.value.value) == (pushed + [part.value.value]) + rest.value.value;
        pushed := pushed + [part.value.value];
      } else if !isAnd {
        return Some(None);
      } else {
        var rest := TransformParts(fs[i + 1..], isAnd);
        assert rest.Some? && rest.value.Some? ==> pushed + ([] + rest.value.value) == pushed + rest.value.value;
      }
    }
    assert pushed + [] == pushed;
    return Some(Some(pushed));
  }

  // ---------------------------------------------------------------- UUID text

  lemma HexDigits(a: nat, b: nat)
    requires a < 16 && b < 16
    ensures LowerHex(a) < LowerHex(b) <==> a < b
    ensures LowerHex(a) == LowerHex(b) <==> a == b
  {
  }

  lemma DigitOrder(m: nat, n: nat, p: nat)
    requires p > 0
    ensures m < n <==> m / p < n / p || (m / p == n / p && m % p < n % p)
    ensures m == n <==> m / p == n / p && m % p == n % p
  {
    var a, b, r, s := m / p, n / p, m % p, n % p;
    assert m == a * p + r && n == b * p + s;
    if a < b {
      MultipleMonotone(a + 1, b, p);
      assert (a + 1) * p == a * p + p;
    } else if b < a {
      MultipleMonotone(b + 1, a, p);
      assert (b + 1) * p == b * p + p;
    }
  }

  lemma HeadOrder(x: char, y: char, s: string, t: string)
    ensures TextBefore([x] + s, [y] + t) <==> x < y || (x == y && TextBefore(s, t))
  {
    assert ([x] + s)[1..] == s && ([y] + t)[1..] == t;
  }

  /** Hexadecimal text of one width is ordered like the numbers, then by what follows. */
  lemma {:induction false} HexOrder(m: nat, n: nat, width: nat, s: string, t: string)
    requires m < Pow16(width) && n < Pow16(width)
    ensures TextBefore(Hex(m, width) + s, Hex(n, width) + t) <==> m < n || (m == n && TextBefore(s, t))
    decreases width
  {
    hide TextBefore, LowerHex;
    if width == 0 {
      assert Hex(m, 0) + s == s && Hex(n, 0) + t == t;
    } else {
      var x, y := LowerHex(m % 16), LowerHex(n % 16);
      HexDigits(m % 16, n % 16);
      assert Hex(m, width) + s == Hex(m / 16, width - 1) + ([x] + s);
      assert Hex(n, width) + t == Hex(n / 16, width - 1) + ([y] + t);
      HexOrder(m / 16, n / 16, width - 1, [x] + s, [y] + t);
      HeadOrder(x, y, s, t);
    }
  }

  lemma DashOrder(s: string, t: string)
    ensures TextBefore(['-'] + s, ['-'] + t) <==> TextBefore(s, t)
  {
    assert (['-'] + s)[1..] == s && (['-'] + t)[1..] == t;
  }

  predicate IsUuid(v: Value) {
    v.Uuid? && v.high < 0x1_0000_0000_0000_0000 && v.low < 0x1_0000_0000_0000_0000
  }

  lemma Widths()
    ensures Pow16(4) == 0x1_0000 && Pow16(8) == 0x1_0000_0000 && Pow16(12) == 0x1_0000_0000_0000
  {
    assert Pow16(1) == 16 && Pow16(2) == 256 && Pow16(3) == 4096;
    assert Pow16(4) == 0x1_0000 && Pow16(5) == 0x10_0000 && Pow16(6) == 0x100_0000 && Pow16(7) == 0x1000_0000;
    assert Pow16(8) == 0x1_0000_0000 && Pow16(9) == 0x10_0000_0000 && Pow16(10) == 0x100_0000_0000;
    assert Pow16(11) == 0x1000_0000_0000;
  }

  /** Two groups of digits joined by a dash. */
  lemma GroupOrder(m: nat, n: nat, width: nat, s: string, t: string)
    requires m < Pow16(width) && n < Pow16(width)
    ensures TextBefore(Hex(m, width) + (['-'] + s), Hex(n, width) + (['-'] + t)) <==>
            m < n || (m == n && TextBefore(s, t))
  {
    HexOrder(m, n, width, ['-'] + s, ['-'] + t);
    DashOrder(s, t);
  }

  function LowText(low: nat): string {
    Hex(low / 0x1_0000_0000_0000, 4) + (['-'] + Hex(low % 0x1_0000_0000_0000, 12))
  }

  lemma LowOrder(l: nat, m: nat)
    requires l < 0x1_0000_0000_0000_0000 && m < 0x1_0000_0000_0000_0000
    ensures TextBefore(LowText(l), LowText(m)) <==> l < m
  {
    hide Hex, Pow16, TextBefore;
    Widths();
    var p := 0x1_0000_0000_0000;
    GroupOrder(l / p, m / p, 4, Hex(l % p, 12), Hex(m % p, 12));
    HexOrder(l % p, m % p, 12, "", "");
    NothingBefore();
    assert Hex(l % p, 12) + "" == Hex(l % p, 12) && Hex(m % p, 12) + "" == Hex(m % p, 12);
    DigitOrder(l, m, p);
  }

  lemma NothingBefore()
    ensures !TextBefore("", "")
  {
  }

  /** The text of UUIDs is ordered as DuckDB orders UUIDs: by the whole 128 bits. */
  lemma UuidTextOrder(a: Value, b: Value)
    requires IsUuid(a) && IsUuid(b)
    ensures TextBefore(UuidText(a.high, a.low), UuidText(b.high, b.low)) <==> Before(a, b)
  {
    hide Hex, Pow16, TextBefore;
    Widths();
    var h, k := a.high, b.high;
    var s, t := LowText(a.low), LowText(b.low);
    LowOrder(a.low, b.low);
    GroupOrder(h % 0x1_0000, k % 0x1_0000, 4, s, t);
    var s2 := Hex(h % 0x1_0000, 4) + (['-'] + s);
    var t2 := Hex(k % 0x1_0000, 4) + (['-'] + t);
    GroupOrder(h / 0x1_0000 % 0x1_0000, k / 0x1_0000 % 0x1_0000, 4, s2, t2);
    var s3 := Hex(h / 0x1_0000 % 0x1_0000, 4) + (['-'] + s2);
    var t3 := Hex(k / 0x1_0000 % 0x1_0000, 4) + (['-'] + t2);
    GroupOrder(h / 0x1_0000_0000, k / 0x1_0000_0000, 8, s3, t3);
    DigitOrder(h, k, 0x1_0000);
    DigitOrder(h / 0x1_0000, k / 0x1_0000, 0x1_0000);
    TwoDivisions(h);
    TwoDivisions(k);
  }

  lemma TwoDivisions(h: nat)
    ensures h / 0x1_0000 / 0x1_0000 == h / 0x1_0000_0000
  {
  }

  lemma BeforeTotal(a: Value, b: Value)
    requires a.Uuid? && b.Uuid?
    ensures a == b <==> !Before(a, b) && !Before(b, a)
  {
  }

  lemma UuidTextInjective(a: Value, b: Value)
    requires IsUuid(a) && IsUuid(b)
    ensures UuidText(a.high, a.low) == UuidText(b.high, b.low) <==> a == b
  {
    hide UuidText, TextBefore;
    UuidTextOrder(a, b);
    UuidTextOrder(b, a);
    BeforeTotal(a, b);
    TextNotBefore(UuidText(a.high, a.low));
  }

  // ---------------------------------------------------------------- exactness

  /** What a column whose filters are pushed can hold: no infinity, no date outside Date32's range. */
  predicate Storable(v: Value) {
    match v
    case Date(day) => day.Finite? && InDate32(day.n)
    case TimestampTz(micros) => micros.Finite?
    case Uuid(_, _) => IsUuid(v)
    case _ => true
  }

  /** A constant a binder leaves beside the column: not NULL, and of its type. */
  predicate SuitsConstant(c: Value, v: Value) {
    !c.Null? && (v.Null? || Comparable(v, c)) && (c.Uuid? ==> IsUuid(c))
  }

  predicate Suits(f: Filter, v: Value)
    decreases f, 1
  {
    match f
    case Joined(_, children) => children != [] && AllSuit(children, v)
    case Listed(values, _) => forall c :: c in values ==> SuitsConstant(c, v)
    case Compared(_, value) => SuitsConstant(value, v)
    case LabelEquals(_, _) => v.Null? || v.EnumLabel?
    case _ => true
  }

  predicate AllSuit(fs: seq<Filter>, v: Value)
    decreases fs, 0
  {
    fs == [] || (Suits(fs[0], v) && AllSuit(fs[1..], v))
  }

  lemma FoldExact(op: Comparison, value: Value, v: Value, server: Server)
    requires Storable(v) && SuitsConstant(value, v) && TryFold(op, value).Some?
    ensures Holds(TryFold(op, value).value, v, server) == Ok(TRUE) <==> Compare(op, v, value) == Ok(TRUE)
  {
  }

  lemma UuidCompareExact(op: Comparison, value: Value, v: Value, server: Server)
    requires IsUuid(value) && (v.Null? || IsUuid(v)) && op.IsOrdered()
    ensures Holds(TextCompares(op, UuidText(value.high, value.low)), v, server) == Compare(op, v, value)
  {
    hide UuidText, TextBefore;
    if !v.Null? {
      UuidTextOrder(v, value);
      UuidTextOrder(value, v);
      UuidTextInjective(v, value);
    }
  }

  lemma ConstantExact(c: Value, v: Value, server: Server)
    requires TransformConstant(c).Some?
    ensures Eval(TransformConstant(c).value, [v], server) == Ok(c) && !c.ListOf? && !c.StructOf? && !c.MapOf?
  {
  }

  /** A comparison keeps the rows DuckDB's keeps, out-of-range and infinite constants and UUID ranges included. */
  lemma CompareExact(op: Comparison, value: Value, v: Value, server: Server)
    requires Storable(v) && SuitsConstant(value, v) && CompareFilter(op, value).Some?
    ensures Holds(CompareFilter(op, value).value, v, server) == Ok(TRUE) <==> Compare(op, v, value) == Ok(TRUE)
  {
    hide TryFold, UuidText, Eval, Before, TransformConstant;
    if TryFold(op, value).Some? {
      FoldExact(op, value, v, server);
    } else if value.Uuid? && op.IsOrdered() {
      UuidCompareExact(op, value, v, server);
    } else {
      ConstantExact(value, v, server);
      PlainComparison(op, v, value);
    }
  }

  /** The listed constants that are not left out. */
  function Kept(values: seq<Value>): seq<Value> {
    if values == [] then []
    else (if TransformConstant(values[0]).Some? then [values[0]] else []) + Kept(values[1..])
  }

  lemma {:induction false} KeptExact(values: seq<Value>, v: Value, server: Server)
    requires ListConstants(values).Some?
    ensures Collect(EvalAll(ListConstants(values).value, [v], server)) == Results(Kept(values))
    ensures |Kept(values)| == |ListConstants(values).value|
  {
    hide TransformConstant, Eval;
    if values != [] {
      KeptExact(values[1..], v, server);
      var rest := ListConstants(values[1..]).value;
      if TransformConstant(values[0]).Some? {
        ConstantExact(values[0], v, server);
        var first := TransformConstant(values[0]).value;
        assert ([first] + rest)[1..] == rest;
        assert EvalAll([first] + rest, [v], server) == [Ok(values[0])] + EvalAll(rest, [v], server);
        assert ([Ok(values[0])] + EvalAll(rest, [v], server))[1..] == EvalAll(rest, [v], server);
      }
    }
  }

  /** A constant that is left out equals nothing the column can hold. */
  lemma {:induction false} KeptMembers(values: seq<Value>, v: Value)
    requires Storable(v) && !v.Null? && ListConstants(values).Some?
    requires forall c :: c in values ==> SuitsConstant(c, v)
    ensures v in Kept(values) <==> v in values
  {
    if values != [] {
      assert values[0] in values;
      KeptMembers(values[1..], v);
      assert v in values <==> v == values[0] || v in values[1..];
    }
  }

  /** A NOT IN list that would keep NULL rows: every constant left out, so that it becomes 1 = 1, or a server with
      transform_null_in. */
  predicate KeepsNulls(values: seq<Value>, transformNullIn: bool) {
    values != [] && (ListConstants(values) == Some([]) || transformNullIn)
  }

  /** An IN or NOT IN list keeps the rows DuckDB's keeps on every row but one kind: it is exact if and only if the row's
      value is not NULL, or the list is not a NOT IN that keeps NULLs. */
  lemma ListExactly(values: seq<Value>, negated: bool, v: Value, server: Server)
    requires Storable(v) && (forall c :: c in values ==> SuitsConstant(c, v)) && ListFilter(values, negated).Some?
    ensures var pushed := Holds(ListFilter(values, negated).value, v, server) == Ok(TRUE);
      var applied := Applied(Listed(values, negated), v) == Ok(TRUE);
      (applied ==> pushed) &&
      ((pushed <==> applied) <==> !(v.Null? && negated && KeepsNulls(values, server.transformNullIn)))
  {
    hide EvalAll, Collect, TransformConstant;
    KeptExact(values, v, server);
    assert Null !in values;
    if v.Null? {
      KeptSubset(values);
    } else {
      KeptMembers(values, v);
    }
  }

  lemma {:induction false} KeptSubset(values: seq<Value>)
    ensures forall c :: c in Kept(values) ==> c in values
  {
    if values != [] {
      KeptSubset(values[1..]);
    }
  }

  /** The smallest case: d NOT IN (DATE '1850-01-01') on a NULL. */
  lemma EmptiedNotIn(server: Server)
    ensures var f := Listed([Date(Finite(-43829))], true);
      Transform(f) == Some(Some(AlwaysTrue)) && Holds(AlwaysTrue, Null, server) == Ok(TRUE) &&
      Applied(f, Null) == Ok(Null)
  {
    var values := [Date(Finite(-43829))];
    assert values[1..] == [];
    assert ListConstants(values[1..]) == Some([]);
  }

  /** A row that what is pushed keeps, though the filter does not: a NULL under a NOT IN that keeps it, unless another
      part of the filter decides. */
  predicate KeepsMore(f: Filter, v: Value, server: Server)
    decreases f, 1
  {
    match f
    case Joined(isAnd, children) =>
      SomeKeepsMore(children, v, server) &&
      if isAnd then AllKeep(children, v, server) else Junction(false, AllApplied(children, v)) != Ok(TRUE)
    case Listed(values, negated) => v.Null? && negated && KeepsNulls(values, server.transformNullIn)
    case _ => false
  }

  predicate SomeKeepsMore(fs: seq<Filter>, v: Value, server: Server)
    decreases fs, 0
  {
    fs != [] && (KeepsMore(fs[0], v, server) || SomeKeepsMore(fs[1..], v, server))
  }

  predicate AllKeep(fs: seq<Filter>, v: Value, server: Server)
    decreases fs, 0
  {
    fs == [] || ((Applied(fs[0], v) == Ok(TRUE) || KeepsMore(fs[0], v, server)) && AllKeep(fs[1..], v, server))
  }

  lemma DisjunctionTrue(results: seq<Res>)
    ensures Junction(false, results) == Ok(TRUE) <==> exists k :: 0 <= k < |results| && results[k] == Ok(TRUE)
  {
  }

  /** The emitted predicate is TRUE on every row where the filter, with the leaves that need not be applied read as
      TRUE, is TRUE; and on exactly one kind of others. */
  lemma {:induction false} PushedExact(f: Filter, v: Value, server: Server)
    requires Storable(v) && Suits(f, v) && Transform(f).Some?
    ensures Transform(f).value.None? ==> Applied(f, v) == Ok(TRUE)
    ensures Transform(f).value.Some? ==>
      (Holds(Transform(f).value.value, v, server) == Ok(TRUE) <==> Applied(f, v) == Ok(TRUE) || KeepsMore(f, v, server))
    ensures KeepsMore(f, v, server) ==> Applied(f, v) != Ok(TRUE)
    decreases f, 1
  {
    hide Junction, CompareFilter, ListFilter, DuckIn, Compare, Storable, SuitsConstant, KeepsNulls;
    match f
    case Joined(isAnd, children) =>
      PartsExact(children, isAnd, v, server);
      JoinedExact(f, v, server);
    case Listed(values, negated) => ListExactly(values, negated, v, server);
    case Compared(op, value) => CompareExact(op, value, v, server);
    case _ =>
  }

  lemma JoinedExact(f: Filter, v: Value, server: Server)
    requires f.Joined? && f.children != [] && Transform(f).Some?
    requires PartsMatch(f.children, f.isAnd, v, server)
    ensures Transform(f).value.None? ==> Applied(f, v) == Ok(TRUE)
    ensures Transform(f).value.Some? ==>
      (Holds(Transform(f).value.value, v, server) == Ok(TRUE) <==> Applied(f, v) == Ok(TRUE) || KeepsMore(f, v, server))
    ensures KeepsMore(f, v, server) ==> Applied(f, v) != Ok(TRUE)
  {
    hide Junction;
    ConjunctionTrue(AllApplied(f.children, v));
    DisjunctionTrue(AllApplied(f.children, v));
    var parts := TransformParts(f.children, f.isAnd).value;
    if parts.Some? {
      ConjunctionTrue(AllHold(parts.value, v, server));
      DisjunctionTrue(AllHold(parts.value, v, server));
    }
  }

  ghost predicate EveryTrue(results: seq<Res>) {
    forall k :: 0 <= k < |results| ==> results[k] == Ok(TRUE)
  }

  ghost predicate SomeTrue(results: seq<Res>) {
    exists k :: 0 <= k < |results| && results[k] == Ok(TRUE)
  }

  /** Skipped parts of an AND are TRUE; an OR that gives up has a TRUE branch; the parts that are pushed match. */
  ghost predicate PartsMatch(fs: seq<Filter>, isAnd: bool, v: Value, server: Server)
    requires TransformParts(fs, isAnd).Some?
  {
    var parts := TransformParts(fs, isAnd).value;
    var applied := AllApplied(fs, v);
    (isAnd ==> (EveryTrue(applied) <==> AllKeep(fs, v, server) && !SomeKeepsMore(fs, v, server))) &&
    if parts.None? then !isAnd && SomeTrue(applied)
    else
      var pushed := AllHold(parts.value, v, server);
      if isAnd then (EveryTrue(pushed) <==> AllKeep(fs, v, server)) && (parts.value == [] ==> EveryTrue(applied))
      else (SomeTrue(pushed) <==> SomeTrue(applied) || SomeKeepsMore(fs, v, server)) &&
           (parts.value == [] ==> fs == [])
  }

  lemma TrueCons(first: Res, rest: seq<Res>)
    ensures EveryTrue([first] + rest) <==> first == Ok(TRUE) && EveryTrue(rest)
    ensures SomeTrue([first] + rest) <==> first == Ok(TRUE) || SomeTrue(rest)
  {
    var all := [first] + rest;
    assert all[0] == first && forall k :: 0 <= k < |rest| ==> all[k + 1] == rest[k];
  }

  lemma TrueNone()
    ensures EveryTrue([]) && !SomeTrue([])
  {
  }

  lemma {:induction false} PartsExact(fs: seq<Filter>, isAnd: bool, v: Value, server: Server)
    requires Storable(v) && AllSuit(fs, v) && TransformParts(fs, isAnd).Some?
    ensures PartsMatch(fs, isAnd, v, server)
    decreases fs, 0
  {
    hide Transform, Applied, Holds, Suits, KeepsMore, Storable;
    if fs != [] {
      hide EveryTrue, SomeTrue;
      PushedExact(fs[0], v, server);
      var part := Transform(fs[0]).value;
      TrueCons(Applied(fs[0], v), AllApplied(fs[1..], v));
      if part.Some? || isAnd {
        PartsExact(fs[1..], isAnd, v, server);
        var rest := TransformParts(fs[1..], isAnd).value;
        if part.Some? && rest.Some? {
          assert ([part.value] + rest.value)[1..] == rest.value;
          TrueCons(Holds(part.value, v, server), AllHold(rest.value, v, server));
        } else if rest.Some? {
          assert [] + rest.value == rest.value;
        }
      }
    } else {
      TrueNone();
    }
  }

  // ---------------------------------------------------------------- all the filters of a scan

  datatype ColumnFilter = ColumnFilter(column: nat, filter: Filter)

  datatype Condition = Condition(column: nat, sql: Predicate)

  function TransformAll(filters: seq<ColumnFilter>): Option<seq<Condition>> {
    if filters == [] then Some([])
    else
      var first :- Transform(filters[0].filter);
      var rest :- TransformAll(filters[1..]);
      Some((if first.Some? then [Condition(filters[0].column, first.value)] else []) + rest)
  }

  method TransformFilters(filters: seq<ColumnFilter>) returns (conditions: Option<seq<Condition>>)
    ensures conditions == TransformAll(filters)
  {
    hide Transform;
    ghost var whole := TransformAll(filters);
    var pushed: seq<Condition> := [];
    assert filters[0..] == filters;
    for i := 0 to |filters|
      invariant whole.None? <==> TransformAll(filters[i..]).None?
      invariant whole.Some? ==> whole.value == pushed + TransformAll(filters[i..]).value
    {
      assert filters[i..][1..] == filters[i + 1..];
      var condition := Transform(filters[i].filter);
      if condition.None? {
        return None;
      }
      if condition.value.Some? {
        pushed := pushed + [Condition(filters[i].column, condition.value.value)];
      }
    }
    assert pushed + [] == pushed;
    return Some(pushed);
  }

  /** The WHERE clause, all conditions joined by AND, keeps the row. */
  ghost predicate Selected(conditions: seq<Condition>, row: seq<Value>, server: Server) {
    forall c :: c in conditions ==> c.column < |row| && Holds(c.sql, row[c.column], server) == Ok(TRUE)
  }

  ghost predicate Passes(filters: seq<ColumnFilter>, row: seq<Value>) {
    forall f :: f in filters ==> f.column < |row| && Applied(f.filter, row[f.column]) == Ok(TRUE)
  }

  /** A row that the pushed filters keep, though DuckDB's do not. */
  ghost predicate RowKeptMore(filters: seq<ColumnFilter>, row: seq<Value>, server: Server)
    requires forall f :: f in filters ==> f.column < |row|
  {
    (exists f :: f in filters && KeepsMore(f.filter, row[f.column], server)) &&
    forall f :: f in filters ==>
      Applied(f.filter, row[f.column]) == Ok(TRUE) || KeepsMore(f.filter, row[f.column], server)
  }

  /** A scan's pushed filters select every row DuckDB's filters pass, and exactly those if and only if the row is none
      that they keep on top. */
  lemma FiltersExact(filters: seq<ColumnFilter>, row: seq<Value>, server: Server)
    requires TransformAll(filters).Some?
    requires forall f :: f in filters ==>
      f.column < |row| && Storable(row[f.column]) && Suits(f.filter, row[f.column])
    ensures Passes(filters, row) ==> Selected(TransformAll(filters).value, row, server)
    ensures (Selected(TransformAll(filters).value, row, server) <==> Passes(filters, row)) <==>
            !RowKeptMore(filters, row, server)
  {
    hide Transform, Applied, Holds, Suits, KeepsMore, Storable, TransformAll, Selected;
    SelectedExactly(filters, row, server);
    forall f | f in filters && KeepsMore(f.filter, row[f.column], server)
      ensures Applied(f.filter, row[f.column]) != Ok(TRUE)
    {
      AllTransformed(filters, f);
      PushedExact(f.filter, row[f.column], server);
    }
  }

  lemma {:induction false} AllTransformed(filters: seq<ColumnFilter>, f: ColumnFilter)
    requires TransformAll(filters).Some? && f in filters
    ensures Transform(f.filter).Some?
  {
    hide Transform;
    if f != filters[0] {
      AllTransformed(filters[1..], f);
    }
  }

  lemma {:induction false} SelectedExactly(filters: seq<ColumnFilter>, row: seq<Value>, server: Server)
    requires TransformAll(filters).Some?
    requires forall f :: f in filters ==>
      f.column < |row| && Storable(row[f.column]) && Suits(f.filter, row[f.column])
    ensures Selected(TransformAll(filters).value, row, server) <==>
      forall f :: f in filters ==>
        Applied(f.filter, row[f.column]) == Ok(TRUE) || KeepsMore(f.filter, row[f.column], server)
  {
    hide Transform, Applied, Holds, Suits, KeepsMore, Storable;
    if filters != [] {
      var f, rest := filters[0], TransformAll(filters[1..]).value;
      assert f in filters;
      PushedExact(f.filter, row[f.column], server);
      SelectedExactly(filters[1..], row, server);
      assert forall g :: g in filters <==> g == f || g in filters[1..];
      var part := Transform(f.filter).value;
      if part.Some? {
        SelectedCons(Condition(f.column, part.value), rest, row, server);
      } else {
        assert [] + rest == rest;
      }
    }
  }

  lemma SelectedCons(first: Condition, rest: seq<Condition>, row: seq<Value>, server: Server)
    requires first.column < |row|
    ensures Selected([first] + rest, row, server) <==>
            Holds(first.sql, row[first.column], server) == Ok(TRUE) && Selected(rest, row, server)
  {
    hide Holds;
    assert forall c :: c in [first] + rest <==> c == first || c in rest;
  }
}
