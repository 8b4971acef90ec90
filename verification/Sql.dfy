/** The ClickHouse SQL the translation emits, as syntax trees, and what the server computes for it. */
module Sql {
  import opened LogicalTypes
  import opened Values
  import opened Casts

  // ---------------------------------------------------------------- three-valued logic

  /** AND and OR over any number of operands. An operand that fails does not matter once another one decides the
      result: the most any order of evaluation, with or without short circuits, can succeed. */
  function Junction(isAnd: bool, results: seq<Res>): Res {
    var deciding := Ok(Bool(!isAnd));
    if deciding in results then deciding
    else if exists k :: 0 <= k < |results| && !IsTruth(results[k]) then Err
    else if Ok(Null) in results then Ok(Null)
    else Ok(Bool(isAnd))
  }

  function Negation(r: Res): Res {
    if !IsTruth(r) then Err else if r.value.Null? then r else Ok(Bool(!r.value.b))
  }

  function NullTest(r: Res): Res {
    if r.Ok? then Ok(Bool(r.value.Null?)) else Err
  }

  ghost predicate AllKeep(duck: seq<Res>, server: seq<Res>, total: bool) {
    |duck| == |server| && forall k :: 0 <= k < |duck| ==> Keeps(duck[k], server[k], total)
  }

  /** AND and OR keep the promise their operands keep. */
  lemma JunctionKeeps(isAnd: bool, duck: seq<Res>, server: seq<Res>, total: bool)
    requires AllKeep(duck, server, total)
    ensures Keeps(Junction(isAnd, duck), Junction(isAnd, server), total)
  {
    var d, s := Junction(isAnd, duck), Junction(isAnd, server);
    var deciding := Ok(Bool(!isAnd));
    if d.Ok? && (s.Ok? || total) {
      if deciding in duck {
        var k :| 0 <= k < |duck| && duck[k] == deciding;
        assert IsTruth(server[k]) ==> server[k] == deciding;
      } else {
        assert forall k :: 0 <= k < |duck| ==> IsTruth(duck[k]);
        assert deciding !in server;
        assert forall k :: 0 <= k < |duck| ==> IsTruth(server[k]) && duck[k] == server[k];
        assert duck == server;
      }
    }
  }

  /** A conjunction is TRUE exactly when every operand is. */
  lemma ConjunctionTrue(results: seq<Res>)
    ensures Junction(true, results) == Ok(TRUE) <==> forall k :: 0 <= k < |results| ==> results[k] == Ok(TRUE)
  {
    if forall k :: 0 <= k < |results| ==> results[k] == Ok(TRUE) {
      assert Ok(FALSE) !in results && Ok(Null) !in results;
    } else {
      var k :| 0 <= k < |results| && results[k] != Ok(TRUE);
      if IsTruth(results[k]) {
        assert results[k] == Ok(FALSE) || results[k] == Ok(Null);
      }
    }
  }

  // ---------------------------------------------------------------- arithmetic

  datatype ArithOp = Add | Subtract | Multiply

  function IntArith(op: ArithOp, m: int, n: int): int {
    match op
    case Add => m + n
    case Subtract => m - n
    case Multiply => m * n
  }

  function RealArith(op: ArithOp, x: real, y: real): real {
    match op
    case Add => x + y
    case Subtract => x - y
    case Multiply => x * y
  }

  /** The exact result of + - * on operands of one kind; Err where no binder would put the operands together. */
  function ExactArith(op: ArithOp, a: Value, b: Value): Res {
    if a.Int? && b.Int? then Ok(Int(IntArith(op, a.n, b.n)))
    else if a.Float? && b.Float? then Ok(Float(RealArith(op, a.x, b.x)))
    else if a.Decimal? && b.Decimal? then
      if op.Multiply? then Ok(Decimal(a.unscaled * b.unscaled, a.scale + b.scale))
      else if a.scale == b.scale then Ok(Decimal(IntArith(op, a.unscaled, b.unscaled), a.scale))
      else Err
    else if a.Date? && a.day.Finite? && b.Int? && !op.Multiply? then Ok(Date(Finite(IntArith(op, a.day.n, b.n))))
    else if a.Int? && b.Date? && b.day.Finite? && op.Add? then Ok(Date(Finite(a.n + b.day.n)))
    else Err
  }

  /** 1900-01-01 and 2299-12-31, the range of Date32, as days since 1970-01-01. */
  const MIN_DATE32 := -25567
  const MAX_DATE32 := 120529

  predicate InDate32(day: int) {
    MIN_DATE32 <= day <= MAX_DATE32
  }

  /** A result a value of type `t` can hold; DuckDB fails the statement for any other. */
  predicate DuckHolds(v: Value, t: LogicalType) {
    HasType(v, t)
  }

  /** A result the server computes without overflowing either. */
  predicate ServerHolds(v: Value, t: LogicalType) {
    HasType(v, t) && (v.Date? && v.day.Finite? ==> InDate32(v.day.n))
  }

  function Bounded(r: Res, holds: bool): Res {
    if holds then r else Err
  }

  function DuckArith(op: ArithOp, a: Value, b: Value, t: LogicalType): Res {
    if a.Null? || b.Null? then Ok(Null)
    else var r := ExactArith(op, a, b); Bounded(r, r.Ok? && DuckHolds(r.value, t))
  }

  function ServerArith(op: ArithOp, a: Value, b: Value, t: LogicalType): Res {
    if a.Null? || b.Null? then Ok(Null)
    else var r := ExactArith(op, a, b); Bounded(r, r.Ok? && ServerHolds(r.value, t))
  }

  function ExactNegate(a: Value): Res {
    match a
    case Int(n) => Ok(Int(-n))
    case Float(x) => Ok(Float(-x))
    case Decimal(u, s) => Ok(Decimal(-u, s))
    case _ => Err
  }

  function NegateIn(a: Value, t: LogicalType): Res {
    if a.Null? then Ok(Null) else var r := ExactNegate(a); Bounded(r, r.Ok? && HasType(r.value, t))
  }

  datatype DivisionOp = IntegerDivision | Remainder | RealDivision

  function ExactDivision(op: DivisionOp, a: Value, b: Value): Res {
    if op.RealDivision? then
      if a.Float? && b.Float? && b.x != 0.0 then Ok(Float(a.x / b.x)) else Err
    else if a.Int? && b.Int? && b.n != 0 then
      var q := TruncDiv(a.n, b.n);
      Ok(Int(if op.IntegerDivision? then q else a.n - b.n * q))
    else Err
  }

  /** DuckDB: an integer division by zero is NULL. */
  function DuckDivision(op: DivisionOp, a: Value, b: Value, t: LogicalType): Res {
    if a.Null? || b.Null? then Ok(Null)
    else if !op.RealDivision? && a.Int? && b == Int(0) then Ok(Null)
    else var r := ExactDivision(op, a, b); Bounded(r, r.Ok? && HasType(r.value, t))
  }

  /** ClickHouse: a division by zero is an error. */
  function ServerDivision(op: DivisionOp, a: Value, b: Value, t: LogicalType): Res {
    if a.Null? || b.Null? then Ok(Null)
    else var r := ExactDivision(op, a, b); Bounded(r, r.Ok? && HasType(r.value, t))
  }

  // ---------------------------------------------------------------- syntax

  datatype Sql =
    | Column(id: nat)                          // the read expression of a table column
    | Literal(value: Value)
    | ToDate32(day: int)                       // toDate32('...'), which clamps to its range
    | Logical(isAnd: bool, parts: seq<Sql>)
    | Not(operand: Sql)
    | IsNull(operand: Sql)
    | IsNotNull(operand: Sql)
    | CompareSql(op: Comparison, left: Sql, right: Sql)
    | If(condition: Sql, yes: Sql, no: Sql)
    | In(left: Sql, values: seq<Sql>, negated: bool)
    | Coalesce(parts: seq<Sql>)
    | CaseWhen(whens: seq<Sql>, thens: seq<Sql>, otherwise: Sql)
    | Arith(arith: ArithOp, left: Sql, right: Sql, result: LogicalType)
    | Negate(operand: Sql, result: LogicalType)
    | Divide(division: DivisionOp, left: Sql, right: Sql, result: LogicalType)
    | CastSql(rounding: CastRounding, operand: Sql, target: LogicalType)
    | CallSql(name: string, args: seq<Sql>)

  /** What a server brings along: its transform_null_in, and functions left abstract. */
  datatype Server = Server(
    transformNullIn: bool,
    dateText: DateText,
    call: (string, seq<Value>) -> Res)

  function ClampDate32(day: int): int {
    if day < MIN_DATE32 then MIN_DATE32 else if day > MAX_DATE32 then MAX_DATE32 else day
  }

  /** `left` [NOT] IN (values). With transform_null_in a NULL is a value like any other; without it a NULL on the left
      gives NULL and one in the list matches nothing. */
  function ServerIn(left: Value, values: seq<Value>, negated: bool, transformNullIn: bool): Res {
    if left.Null? && !transformNullIn then Ok(Null)
    else Ok(Bool((left in values) != negated))
  }

  function Collect(results: seq<Res>): (r: Results)
    ensures r.Results? ==> |r.values| == |results| && forall k :: 0 <= k < |results| ==> results[k] == Ok(r.values[k])
    ensures r.Failed? <==> exists k :: 0 <= k < |results| && results[k] == Err
  {
    if results == [] then Results([])
    else
      var r := Cons(results[0], Collect(results[1..]));
      assert results == [results[0]] + results[1..];
      r
  }

  /** The first operand that is not NULL; later ones are not needed. */
  function FirstNonNull(results: seq<Res>): Res {
    if results == [] then Ok(Null)
    else if results[0] == Ok(Null) then FirstNonNull(results[1..])
    else results[0]
  }

  /** The first branch whose condition is TRUE; only the conditions up to it are needed. */
  function FirstBranch(whens: seq<Res>, thens: seq<Res>, otherwise: Res): Res
    requires |whens| == |thens|
  {
    if whens == [] then otherwise
    else if !IsTruth(whens[0]) then Err
    else if whens[0] == Ok(TRUE) then thens[0]
    else FirstBranch(whens[1..], thens[1..], otherwise)
  }

  lemma {:induction false} CollectKeeps(duck: seq<Res>, server: seq<Res>, total: bool)
    requires AllKeep(duck, server, total) && Collect(duck).Results?
    ensures Collect(server).Results? ==> Collect(server) == Collect(duck)
    ensures total ==> Collect(server).Results?
  {
    if Collect(server).Results? {
      assert Collect(server).values == Collect(duck).values;
    }
  }

  lemma {:induction false} FirstNonNullKeeps(duck: seq<Res>, server: seq<Res>, total: bool)
    requires AllKeep(duck, server, total)
    ensures Keeps(FirstNonNull(duck), FirstNonNull(server), total)
  {
    if duck != [] {
      assert Keeps(duck[0], server[0], total);
      FirstNonNullKeeps(duck[1..], server[1..], total);
    }
  }

  lemma {:induction false} FirstBranchKeeps(duckWhens: seq<Res>, duckThens: seq<Res>, duckElse: Res,
                                            whens: seq<Res>, thens: seq<Res>, otherwise: Res, total: bool)
    requires |duckWhens| == |duckThens| && |whens| == |thens|
    requires AllKeep(duckWhens, whens, total) && AllKeep(duckThens, thens, total) && Keeps(duckElse, otherwise, total)
    ensures Keeps(FirstBranch(duckWhens, duckThens, duckElse), FirstBranch(whens, thens, otherwise), total)
  {
    if duckWhens != [] {
      assert Keeps(duckWhens[0], whens[0], total) && Keeps(duckThens[0], thens[0], total);
      FirstBranchKeeps(duckWhens[1..], duckThens[1..], duckElse, whens[1..], thens[1..], otherwise, total);
    }
  }

  function Eval(e: Sql, row: seq<Value>, server: Server): Res
    decreases e, 1
  {
    match e
    case Column(id) => if id < |row| then Ok(row[id]) else Err
    case Literal(value) => Ok(value)
    case ToDate32(day) => Ok(Date(Finite(ClampDate32(day))))
    case Logical(isAnd, parts) => Junction(isAnd, EvalAll(parts, row, server))
    case Not(operand) => Negation(Eval(operand, row, server))
    case IsNull(operand) => NullTest(Eval(operand, row, server))
    case IsNotNull(operand) => Negation(NullTest(Eval(operand, row, server)))
    case CompareSql(op, left, right) =>
      var l, r := Eval(left, row, server), Eval(right, row, server);
      if l.Ok? && r.Ok? then ServerCompare(op, l.value, r.value) else Err
    case If(condition, yes, no) =>
      var c := Eval(condition, row, server);
      if !IsTruth(c) then Err
      else if c == Ok(TRUE) then Eval(yes, row, server)
      else Eval(no, row, server)
    case In(left, values, negated) =>
      var l, vs := Eval(left, row, server), Collect(EvalAll(values, row, server));
      if l.Ok? && vs.Results? then ServerIn(l.value, vs.values, negated, server.transformNullIn) else Err
    case Coalesce(parts) => FirstNonNull(EvalAll(parts, row, server))
    case CaseWhen(whens, thens, otherwise) =>
      var w, t := EvalAll(whens, row, server), EvalAll(thens, row, server);
      if |w| == |t| then FirstBranch(w, t, Eval(otherwise, row, server)) else Err
    case Arith(op, left, right, result) =>
      var l, r := Eval(left, row, server), Eval(right, row, server);
      if l.Ok? && r.Ok? then ServerArith(op, l.value, r.value, result) else Err
    case Negate(operand, result) =>
      var v := Eval(operand, row, server);
      if v.Ok? then NegateIn(v.value, result) else Err
    case Divide(op, left, right, result) =>
      var l, r := Eval(left, row, server), Eval(right, row, server);
      if l.Ok? && r.Ok? then ServerDivision(op, l.value, r.value, result) else Err
    case CastSql(rounding, operand, target) =>
      var v := Eval(operand, row, server);
      if v.Ok? then CastSqlMeaning(rounding, v.value, target, server.dateText) else Err
    case CallSql(name, args) =>
      var vs := Collect(EvalAll(args, row, server));
      if vs.Results? then server.call(name, vs.values) else Err
  }

  function EvalAll(es: seq<Sql>, row: seq<Value>, server: Server): (r: seq<Res>)
    ensures |r| == |es|
    decreases es, 0
  {
    if es == [] then [] else [Eval(es[0], row, server)] + EvalAll(es[1..], row, server)
  }

  lemma {:induction false} EvalAllAt(es: seq<Sql>, row: seq<Value>, server: Server, k: nat)
    requires k < |es|
    ensures EvalAll(es, row, server)[k] == Eval(es[k], row, server)
  {
    if k > 0 {
      EvalAllAt(es[1..], row, server, k - 1);
    }
  }

  lemma {:induction false} EvalAllConcat(a: seq<Sql>, b: seq<Sql>, row: seq<Value>, server: Server)
    ensures EvalAll(a + b, row, server) == EvalAll(a, row, server) + EvalAll(b, row, server)
  {
    if a == [] {
      assert a + b == b;
    } else {
      assert (a + b)[1..] == a[1..] + b;
      EvalAllConcat(a[1..], b, row, server);
    }
  }

  // ---------------------------------------------------------------- the guarded IN list

  /** `left` [NOT] IN (values), with the guard that keeps transform_null_in from mattering. */
  function InList(left: Sql, values: seq<Sql>, negated: bool): Sql {
    If(IsNull(left), Literal(Null), In(left, values, negated))
  }

  /** The guarded list gives the same value whatever transform_null_in is: NULL for a NULL, plain membership for
      anything else. */
  lemma InListMeaning(left: Sql, values: seq<Sql>, negated: bool, row: seq<Value>, server: Server)
    ensures var l, vs := Eval(left, row, server), Collect(EvalAll(values, row, server));
      Eval(InList(left, values, negated), row, server) ==
        if !l.Ok? then Err
        else if l.value.Null? then Ok(Null)
        else if vs.Failed? then Err
        else Ok(Bool((l.value in vs.values) != negated))
  {
  }

  /** Without the guard, the setting shows exactly on a NULL operand. */
  lemma UnguardedIn(left: Value, values: seq<Value>, negated: bool)
    ensures ServerIn(left, values, negated, true) == ServerIn(left, values, negated, false) <==> !left.Null?
  {
  }
}
