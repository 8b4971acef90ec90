/** Bound DuckDB expressions and their translation into ClickHouse SQL (src/clickhouse_expression.cpp): exact, or
    rejected. */
module Expressions {
  import opened Options
  import opened LogicalTypes
  import opened Values
  import opened Comparisons
  import opened Casts
  import opened DdlTypes
  import opened Sql

  // ---------------------------------------------------------------- DuckDB's expressions

  datatype JunctionKind = And | Or | OtherJunction

  datatype OperatorKind = OpNot | OpIsNull | OpIsNotNull | OpIn | OpNotIn | OpCoalesce | OtherOperator

  datatype ComparisonKind = Plain(op: Comparison) | DistinctFrom(negated: bool)

  datatype DuckArithOp = Plus | Minus | Times | Slash | DoubleSlash | Percent

  datatype Expr =
    | Ref(index: nat)                                        // output `index` of the operator below
    | Parameter                                              // a prepared-statement parameter without a value
    | Const(value: Value)
    | Conjunction(kind: JunctionKind, children: seq<Expr>)
    | Operator(op: OperatorKind, children: seq<Expr>)
    | CompareExpr(comparison: ComparisonKind, left: Expr, right: Expr, operands: LogicalType)
    | Between(input: Expr, lower: Expr, upper: Expr, lowerInclusive: bool, upperInclusive: bool, operands: LogicalType)
    | Arithmetic(arith: DuckArithOp, args: seq<Expr>, argTypes: seq<LogicalType>, result: LogicalType)
    | Case(whens: seq<Expr>, thens: seq<Expr>, otherwise: Expr)
    | CastExpr(child: Expr, source: LogicalType, target: LogicalType, isTry: bool)
    | Call(name: string, args: seq<Expr>, argTypes: seq<LogicalType>)
    | OptionalHint(child: Expr)                              // a filter that is not required for correctness
    | RuntimeHint                                            // a dynamic, bloom or prefix-range filter

  // ---------------------------------------------------------------- DuckDB's semantics

  /** x IN (values): NULL for a NULL, and for a value that is not found next to a NULL. */
  function DuckIn(left: Value, values: seq<Value>): Res {
    if values == [] then Ok(FALSE)
    else if left.Null? then Ok(Null)
    else if left in values then Ok(TRUE)
    else if Null in values then Ok(Null)
    else Ok(FALSE)
  }

  function DuckCompare(kind: ComparisonKind, l: Res, r: Res, operands: LogicalType): Res {
    if !l.Ok? || !r.Ok? || !HasType(l.value, operands) || !HasType(r.value, operands) then Err
    else
      match kind
      case Plain(op) => Compare(op, l.value, r.value)
      case DistinctFrom(negated) => Ok(Bool((l.value != r.value) != negated))
  }

  function LowerOp(inclusive: bool): Comparison {
    if inclusive then GreaterOrEqual else Greater
  }

  function UpperOp(inclusive: bool): Comparison {
    if inclusive then LessOrEqual else Less
  }

  function DuckArithmetic(op: DuckArithOp, args: seq<Res>, t: LogicalType): Res {
    if !Collect(args).Results? then Err
    else
      var vs := Collect(args).values;
      if |vs| == 1 then if op.Minus? then NegateIn(vs[0], t) else Err
      else if |vs| == 2 then DuckBinary(op, vs[0], vs[1], t)
      else Err
  }

  function DuckBinary(op: DuckArithOp, a: Value, b: Value, t: LogicalType): Res {
    match op
    case Plus => DuckArith(Add, a, b, t)
    case Minus => DuckArith(Subtract, a, b, t)
    case Times => DuckArith(Multiply, a, b, t)
    case Slash => DuckDivision(if t.IsIntegral() then IntegerDivision else RealDivision, a, b, t)
    case DoubleSlash => DuckDivision(IntegerDivision, a, b, t)
    case Percent => DuckDivision(Remainder, a, b, t)
  }

  /** String functions are left abstract: a DuckDB function means what the ClickHouse function it is mapped to does. */
  function DuckCall(name: string, argTypes: seq<LogicalType>, args: seq<Res>, server: Server): Res {
    var mapped := ServerFunction(name, argTypes);
    if mapped.None? || !Collect(args).Results? then Err else server.call(mapped.value, Collect(args).values)
  }

  /** What DuckDB computes over one row of the operator below. */
  function DuckEval(e: Expr, tuple: seq<Value>, server: Server): Res
    decreases e, 1
  {
    match e
    case Ref(index) => if index < |tuple| then Ok(tuple[index]) else Err
    case Parameter => Err
    case Const(value) => Ok(value)
    case Conjunction(kind, children) =>
      if kind.OtherJunction? then Err else Junction(kind.And?, DuckEvalAll(children, tuple, server))
    case Operator(op, children) => DuckOperator(op, DuckEvalAll(children, tuple, server))
    case CompareExpr(kind, left, right, operands) =>
      DuckCompare(kind, DuckEval(left, tuple, server), DuckEval(right, tuple, server), operands)
    case Between(input, lower, upper, lowerInclusive, upperInclusive, operands) =>
      var x := DuckEval(input, tuple, server);
      Junction(true, [DuckCompare(Plain(LowerOp(lowerInclusive)), x, DuckEval(lower, tuple, server), operands),
                      DuckCompare(Plain(UpperOp(upperInclusive)), x, DuckEval(upper, tuple, server), operands)])
    case Arithmetic(op, args, _, result) => DuckArithmetic(op, DuckEvalAll(args, tuple, server), result)
    case Case(whens, thens, otherwise) =>
      var w, t := DuckEvalAll(whens, tuple, server), DuckEvalAll(thens, tuple, server);
      if |w| == |t| then FirstBranch(w, t, DuckEval(otherwise, tuple, server)) else Err
    case CastExpr(child, source, target, isTry) =>
      var v := DuckEval(child, tuple, server);
      if v.Ok? && HasType(v.value, source) then DuckCast(v.value, source, target, server.dateText) else Err
    case Call(name, args, argTypes) => DuckCall(name, argTypes, DuckEvalAll(args, tuple, server), server)
    case OptionalHint(_) => Ok(TRUE)
    case RuntimeHint => Err
  }

  function DuckOperator(op: OperatorKind, args: seq<Res>): Res {
    match op
    case OpNot => if |args| == 1 then Negation(args[0]) else Err
    case OpIsNull => if |args| == 1 then NullTest(args[0]) else Err
    case OpIsNotNull => if |args| == 1 then Negation(NullTest(args[0])) else Err
    case OpIn => if args == [] then Err else DuckInResult(args[0], Collect(args[1..]))
    case OpNotIn => if args == [] then Err else Negation(DuckInResult(args[0], Collect(args[1..])))
    case OpCoalesce => FirstNonNull(args)
    case OtherOperator => Err
  }

  function DuckInResult(left: Res, values: Results): Res {
    if left.Ok? && values.Results? then DuckIn(left.value, values.values) else Err
  }

  function DuckEvalAll(es: seq<Expr>, tuple: seq<Value>, server: Server): (r: seq<Res>)
    ensures |r| == |es|
    decreases es, 0
  {
    if es == [] then [] else [DuckEval(es[0], tuple, server)] + DuckEvalAll(es[1..], tuple, server)
  }

  // ---------------------------------------------------------------- the translation

  /** A constant as a literal; None for values without one (infinite or out-of-range dates, infinite timestamps,
      times, nested values). */
  function LiteralSql(v: Value): Option<Sql> {
    match v
    case Date(Finite(day)) => if InDate32(day) then Some(ToDate32(day)) else None
    case Date(_) => None
    case Timestamp(nanos) => if nanos.Finite? then Some(Literal(v)) else None
    case TimestampTz(micros) => if micros.Finite? then Some(Literal(v)) else None
    case TimeOfDay(_, _) => None
    case ListOf(_) => None
    case StructOf(_) => None
    case MapOf(_) => None
    case _ => Some(Literal(v))
  }

  /** The ClickHouse function a DuckDB function translates to. */
  function ServerFunction(name: string, argTypes: seq<LogicalType>): Option<string> {
    var strings := |argTypes| == 2 && argTypes[0].VarcharType? && argTypes[1].VarcharType?;
    if name == "||" && strings then Some("concat")
    else if (name == "starts_with" || name == "prefix") && |argTypes| == 2 then Some("startsWith")
    else if (name == "ends_with" || name == "suffix") && |argTypes| == 2 then Some("endsWith")
    else if name == "contains" && strings then Some("position(,) > 0")
    else if (name == "lower" || name == "lcase") && |argTypes| == 1 then Some("lowerUTF8")
    else if (name == "upper" || name == "ucase") && |argTypes| == 1 then Some("upperUTF8")
    else if (name == "length" || name == "len") && |argTypes| == 1 && argTypes[0].VarcharType? then Some("lengthUTF8")
    else None
  }

  predicate AllNumeric(ts: seq<LogicalType>) {
    forall t :: t in ts ==> t.IsNumeric()
  }

  /** Numbers only, or a DATE plus or minus a number of days. */
  predicate IsTranslatableArithmetic(op: DuckArithOp, argTypes: seq<LogicalType>, result: LogicalType) {
    (result.IsNumeric() && AllNumeric(argTypes)) ||
    (result.DateType? && |argTypes| == 2 &&
     match op
     case Plus => (argTypes[0].DateType? && argTypes[1].IsIntegral()) ||
                  (argTypes[0].IsIntegral() && argTypes[1].DateType?)
     case Minus => argTypes[0].DateType? && argTypes[1].IsIntegral()
     case _ => false)
  }

  function ArithmeticSql(op: DuckArithOp, args: seq<Sql>, result: LogicalType): Option<Sql> {
    if |args| == 1 then if op.Minus? then Some(Negate(args[0], result)) else None
    else if |args| == 2 then BinarySql(op, args[0], args[1], result)
    else None
  }

  function BinarySql(op: DuckArithOp, x: Sql, y: Sql, result: LogicalType): Option<Sql> {
    match op
    case Plus => Some(Arith(Add, x, y, result))
    case Minus => Some(Arith(Subtract, x, y, result))
    case Times => Some(Arith(Multiply, x, y, result))
    case Slash =>
      if result.IsIntegral() then Some(Divide(IntegerDivision, x, y, result))
      else if result.IsFloating() then Some(Divide(RealDivision, x, y, result))
      else None
    case DoubleSlash => if result.IsIntegral() then Some(Divide(IntegerDivision, x, y, result)) else None
    case Percent => if result.IsIntegral() then Some(Divide(Remainder, x, y, result)) else None
  }

  predicate IsNullConstant(e: Expr) {
    e == Const(Null)
  }

  predicate AllNonNullConstants(es: seq<Expr>) {
    forall k :: 0 <= k < |es| ==> es[k].Const? && !es[k].value.Null?
  }

  function OperatorSql(op: OperatorKind, args: seq<Sql>): Option<Sql> {
    match op
    case OpNot => if |args| == 1 then Some(Not(args[0])) else None
    case OpIsNull => if |args| == 1 then Some(IsNull(args[0])) else None
    case OpIsNotNull => if |args| == 1 then Some(IsNotNull(args[0])) else None
    case OpIn => if |args| >= 2 then Some(InList(args[0], args[1..], false)) else None
    case OpNotIn => if |args| >= 2 then Some(InList(args[0], args[1..], true)) else None
    case OpCoalesce => Some(Coalesce(args))
    case OtherOperator => None
  }

  type Resolver = nat -> Option<Sql>

  /** Translate: None where the C++ code throws; no expression is ever partially translated. */
  function Translate(e: Expr, resolve: Resolver): Option<Sql>
    decreases e, 1
  {
    match e
    case Ref(index) => resolve(index)
    case Parameter => None
    case Const(value) => LiteralSql(value)
    case Conjunction(kind, children) =>
      if children == [] then None
      else
        var parts :- TranslateAll(children, resolve);
        if kind.OtherJunction? then None else Some(Logical(kind.And?, parts))
    case Operator(op, children) =>
      if (op.OpIn? || op.OpNotIn?) && (children == [] || !AllNonNullConstants(children[1..])) then None
      else
        var args :- TranslateAll(children, resolve);
        OperatorSql(op, args)
    case CompareExpr(kind, left, right, _) =>
      if IsNullConstant(left) || IsNullConstant(right) || !kind.Plain? then None
      else
        var l :- Translate(left, resolve);
        var r :- Translate(right, resolve);
        Some(CompareSql(kind.op, l, r))
    case Between(input, lower, upper, lowerInclusive, upperInclusive, _) =>
      var x :- Translate(input, resolve);
      var low :- Translate(lower, resolve);
      var high :- Translate(upper, resolve);
      Some(Logical(true, [CompareSql(LowerOp(lowerInclusive), x, low), CompareSql(UpperOp(upperInclusive), x, high)]))
    case Arithmetic(op, children, argTypes, result) =>
      if !IsTranslatableArithmetic(op, argTypes, result) then None
      else
        var args :- TranslateAll(children, resolve);
        ArithmeticSql(op, args, result)
    case Case(whens, thens, otherwise) =>
      var w :- TranslateAll(whens, resolve);
      var t :- TranslateAll(thens, resolve);
      var o :- Translate(otherwise, resolve);
      Some(CaseWhen(w, t, o))
    case CastExpr(child, source, target, isTry) =>
      if isTry then None
      else
        var rounding :- ClassifyCast(source, target);
        var text :- ToClickhouse(target, true);
        var operand :- Translate(child, resolve);
        Some(CastSql(rounding, operand, target))
    case Call(name, children, argTypes) =>
      if |children| != |argTypes| then None
      else
        var mapped :- ServerFunction(name, argTypes);
        var args :- TranslateAll(children, resolve);
        Some(CallSql(mapped, args))
    case OptionalHint(_) => None
    case RuntimeHint => None
  }

  function TranslateAll(es: seq<Expr>, resolve: Resolver): (r: Option<seq<Sql>>)
    ensures r.Some? ==> |r.value| == |es|
    decreases es, 0
  {
    if es == [] then Some([])
    else
      var first :- Translate(es[0], resolve);
      var rest :- TranslateAll(es[1..], resolve);
      Some([first] + rest)
  }

  /** The loop that pushes each translated child onto a vector, and gives up at the first one that has no
      translation. */
  method TranslateEach(children: seq<Expr>, resolve: Resolver) returns (parts: Option<seq<Sql>>)
    ensures parts == TranslateAll(children, resolve)
  {
    ghost var whole := TranslateAll(children, resolve);
    var pushed: seq<Sql> := [];
    assert children[0..] == children;
    for i := 0 to |children|
      invariant whole.None? <==> TranslateAll(children[i..], resolve).None?
      invariant whole.Some? ==> whole.value == pushed + TranslateAll(children[i..], resolve).value
    {
      assert children[i..][1..] == children[i + 1..];
      var part := Translate(children[i], resolve);
      if part.None? {
        return None;
      }
      pushed := pushed + [part.value];
    }
    assert pushed + [] == pushed;
    return Some(pushed);
  }

  // ---------------------------------------------------------------- exactness

  /** Every output the resolver has SQL for keeps the promise. */
  ghost predicate Resolves(resolve: Resolver, tuple: seq<Value>, row: seq<Value>, server: Server, total: bool) {
    forall i: nat {:trigger resolve(i)} :: resolve(i).Some? ==>
      i < |tuple| && Keeps(Ok(tuple[i]), Eval(resolve(i).value, row, server), total)
  }

  predicate ResultsAlike(op: Comparison, l: Res, r: Res) {
    l.Ok? && r.Ok? ==> ComparedAlike(op, l.value, r.value)
  }

  /** Two verdicts that make the same conjunction on the server, each as it is, left undecided or reversed there. If one
      is FALSE: it is so on the server too, or the other one is reversed. If none is: none is reversed, nor undecided if
      both are TRUE. */
  predicate ConjoinAlike(p: Res, undecided1: bool, reversed1: bool, q: Res, undecided2: bool, reversed2: bool) {
    if p == Ok(FALSE) || q == Ok(FALSE) then
      (if p == Ok(FALSE) then !undecided1 && !reversed1 else reversed1) ||
      (if q == Ok(FALSE) then !undecided2 && !reversed2 else reversed2)
    else !reversed1 && !reversed2 && (p == q == Ok(TRUE) ==> !undecided1 && !undecided2)
  }

  /** Both systems make the same of a range. */
  predicate RangeAgrees(x: Value, low: Value, high: Value, lowerInclusive: bool, upperInclusive: bool) {
    var ge, le := LowerOp(lowerInclusive), UpperOp(upperInclusive);
    ConjoinAlike(Compare(ge, x, low), Undecided(ge, x, low), Reversed(ge, x, low),
                 Compare(le, x, high), Undecided(le, x, high), Reversed(le, x, high))
  }

  predicate BetweenAgrees(x: Res, low: Res, high: Res, lowerInclusive: bool, upperInclusive: bool) {
    if x.Ok? && low.Ok? && high.Ok? then RangeAgrees(x.value, low.value, high.value, lowerInclusive, upperInclusive)
    else ResultsAlike(LowerOp(lowerInclusive), x, low) && ResultsAlike(UpperOp(upperInclusive), x, high)
  }

  /** On this row both systems make every comparison alike: the one accepted construct whose meaning the server changes
      (besides zero divisors and overflow). */
  predicate ComparesAlike(e: Expr, tuple: seq<Value>, server: Server)
    decreases e, 1
  {
    match e
    case Conjunction(_, children) => AllCompareAlike(children, tuple, server)
    case Operator(_, children) => AllCompareAlike(children, tuple, server)
    case CompareExpr(kind, left, right, _) =>
      ComparesAlike(left, tuple, server) && ComparesAlike(right, tuple, server) &&
      (kind.Plain? ==> ResultsAlike(kind.op, DuckEval(left, tuple, server), DuckEval(right, tuple, server)))
    case Between(input, lower, upper, lowerInclusive, upperInclusive, _) =>
      ComparesAlike(input, tuple, server) && ComparesAlike(lower, tuple, server) &&
      ComparesAlike(upper, tuple, server) &&
      BetweenAgrees(DuckEval(input, tuple, server), DuckEval(lower, tuple, server), DuckEval(upper, tuple, server),
                    lowerInclusive, upperInclusive)
    case Arithmetic(_, args, _, _) => AllCompareAlike(args, tuple, server)
    case Case(whens, thens, otherwise) =>
      AllCompareAlike(whens, tuple, server) && AllCompareAlike(thens, tuple, server) &&
      ComparesAlike(otherwise, tuple, server)
    case CastExpr(child, _, _, _) => ComparesAlike(child, tuple, server)
    case Call(_, args, _) => AllCompareAlike(args, tuple, server)
    case _ => true
  }

  predicate AllCompareAlike(es: seq<Expr>, tuple: seq<Value>, server: Server)
    decreases es, 0
  {
    es == [] || (ComparesAlike(es[0], tuple, server) && AllCompareAlike(es[1..], tuple, server))
  }

  /** No division, whose zero divisors ClickHouse refuses, and no DATE arithmetic, which may leave Date32's range. */
  predicate NeverFailsOnServer(e: Expr)
    decreases e, 1
  {
    match e
    case Conjunction(_, children) => NoneFails(children)
    case Operator(_, children) => NoneFails(children)
    case CompareExpr(_, left, right, _) => NeverFailsOnServer(left) && NeverFailsOnServer(right)
    case Between(input, lower, upper, _, _, _) =>
      NeverFailsOnServer(input) && NeverFailsOnServer(lower) && NeverFailsOnServer(upper)
    case Arithmetic(op, args, _, result) =>
      (op.Plus? || op.Minus? || op.Times?) && !result.DateType? && NoneFails(args)
    case Case(whens, thens, otherwise) => NoneFails(whens) && NoneFails(thens) && NeverFailsOnServer(otherwise)
    case CastExpr(child, _, _, _) => NeverFailsOnServer(child)
    case Call(_, args, _) => NoneFails(args)
    case _ => true
  }

  predicate NoneFails(es: seq<Expr>)
    decreases es, 0
  {
    es == [] || (NeverFailsOnServer(es[0]) && NoneFails(es[1..]))
  }

  lemma LiteralExact(v: Value, row: seq<Value>, server: Server)
    requires LiteralSql(v).Some?
    ensures Eval(LiteralSql(v).value, row, server) == Ok(v)
  {
  }

  lemma CompareKeeps(op: Comparison, dl: Res, dr: Res, sl: Res, sr: Res, operands: LogicalType, total: bool)
    requires Keeps(dl, sl, total) && Keeps(dr, sr, total)
    requires ResultsAlike(op, dl, dr)
    ensures Keeps(DuckCompare(Plain(op), dl, dr, operands),
                  if sl.Ok? && sr.Ok? then ServerCompare(op, sl.value, sr.value) else Err, total)
  {
    hide Compare, ServerCompare, ComparedAlike, HasType;
    if dl.Ok? && dr.Ok? {
      ComparisonExactly(op, dl.value, dr.value);
    }
  }

  /** BETWEEN gives DuckDB's result on the server exactly where the range agrees. */
  lemma BetweenExactly(x: Value, low: Value, high: Value, lowerInclusive: bool, upperInclusive: bool)
    ensures var ge, le := LowerOp(lowerInclusive), UpperOp(upperInclusive);
      Junction(true, [Compare(ge, x, low), Compare(le, x, high)]) ==
      Junction(true, [ServerCompare(ge, x, low), ServerCompare(le, x, high)]) <==>
      RangeAgrees(x, low, high, lowerInclusive, upperInclusive)
  {
    hide Compare, ServerCompare, Undecided, Reversed, Junction, LowerOp, UpperOp, Judged, ConjoinAlike;
    var ge, le := LowerOp(lowerInclusive), UpperOp(upperInclusive);
    Judgement(ge, x, low);
    Judgement(le, x, high);
    BothJudged(Compare(ge, x, low), Compare(le, x, high), ServerCompare(ge, x, low), ServerCompare(le, x, high),
               Undecided(ge, x, low), Reversed(ge, x, low), Undecided(le, x, high), Reversed(le, x, high));
  }

  /** DuckDB's verdict and the server's: no verdict or NULL on both sides; or TRUE or FALSE, which the server leaves,
      leaves undecided or reverses. */
  predicate Judged(duck: Res, server: Res, undecided: bool, reversed: bool) {
    if duck == Ok(TRUE) || duck == Ok(FALSE) then
      !(undecided && reversed) &&
      server == if undecided then Ok(Null) else if reversed then Negation(duck) else duck
    else (duck == Err || duck == Ok(Null)) && server == duck && !undecided && !reversed
  }

  lemma Judgement(op: Comparison, a: Value, b: Value)
    ensures Judged(Compare(op, a, b), ServerCompare(op, a, b), Undecided(op, a, b), Reversed(op, a, b))
  {
    hide ServerCompare, Decide, SurelyDiffer, OrderedAlike, Holds, Precedes;
    ComparisonExactly(op, a, b);
  }

  lemma BothJudged(p: Res, q: Res, r: Res, s: Res, undecided1: bool, reversed1: bool, undecided2: bool, reversed2: bool)
    requires Judged(p, r, undecided1, reversed1) && Judged(q, s, undecided2, reversed2)
    ensures Junction(true, [p, q]) == Junction(true, [r, s]) <==>
            ConjoinAlike(p, undecided1, reversed1, q, undecided2, reversed2)
  {
    hide Junction;
    ConjunctionOfTwo(p, q);
    ConjunctionOfTwo(r, s);
  }

  lemma ConjunctionOfTwo(p: Res, q: Res)
    ensures Junction(true, [p, q]) ==
      if p == Ok(FALSE) || q == Ok(FALSE) then Ok(FALSE)
      else if !IsTruth(p) || !IsTruth(q) then Err
      else if p == Ok(Null) || q == Ok(Null) then Ok(Null)
      else Ok(TRUE)
  {
    assert [p, q][0] == p && [p, q][1] == q;
    assert forall r :: r in [p, q] <==> r == p || r == q;
  }

  lemma InKeeps(dl: Res, ds: seq<Res>, sl: Res, ss: seq<Res>, negated: bool, transformNullIn: bool, total: bool)
    requires Keeps(dl, sl, total) && AllKeep(ds, ss, total) && ds != []
    requires forall k :: 0 <= k < |ds| ==> ds[k] != Ok(Null)
    ensures var d := DuckInResult(dl, Collect(ds));
      var s := if !sl.Ok? then Err
               else if sl.value.Null? then Ok(Null)
               else if Collect(ss).Failed? then Err
               else Ok(Bool((sl.value in Collect(ss).values) != negated));
      Keeps(if negated then Negation(d) else d, s, total)
  {
    if dl.Ok? && Collect(ds).Results? {
      CollectKeeps(ds, ss, total);
      assert |Collect(ds).values| == |ds|;
      assert Null !in Collect(ds).values;
    }
  }

  lemma OperatorKeeps(op: OperatorKind, children: seq<Expr>, args: seq<Sql>, duck: seq<Res>, row: seq<Value>,
                      server: Server, total: bool)
    requires |children| == |args| && OperatorSql(op, args).Some?
    requires AllKeep(duck, EvalAll(args, row, server), total)
    requires op.OpIn? || op.OpNotIn? ==> forall k :: 1 <= k < |duck| ==> duck[k] != Ok(Null)
    ensures Keeps(DuckOperator(op, duck), Eval(OperatorSql(op, args).value, row, server), total)
  {
    var results := EvalAll(args, row, server);
    match op
    case OpCoalesce => FirstNonNullKeeps(duck, results, total);
    case OpIn =>
      assert results[1..] == EvalAll(args[1..], row, server);
      InListMeaning(args[0], args[1..], false, row, server);
      InKeeps(duck[0], duck[1..], results[0], results[1..], false, server.transformNullIn, total);
    case OpNotIn =>
      assert results[1..] == EvalAll(args[1..], row, server);
      InListMeaning(args[0], args[1..], true, row, server);
      InKeeps(duck[0], duck[1..], results[0], results[1..], true, server.transformNullIn, total);
    case OpNot => assert Keeps(duck[0], results[0], total);
    case OpIsNull => assert Keeps(duck[0], results[0], total);
    case OpIsNotNull => assert Keeps(duck[0], results[0], total);
    case OtherOperator =>
  }

  lemma ArithKeeps(op: ArithOp, a: Value, b: Value, t: LogicalType, total: bool)
    requires total ==> !t.DateType?
    ensures Keeps(DuckArith(op, a, b, t), ServerArith(op, a, b, t), total)
  {
  }

  lemma DivisionKeeps(op: DivisionOp, a: Value, b: Value, t: LogicalType)
    ensures Keeps(DuckDivision(op, a, b, t), ServerDivision(op, a, b, t), false)
  {
  }

  /** What the emitted binary operator computes. */
  function ServerBinary(op: DuckArithOp, a: Value, b: Value, t: LogicalType): Res {
    match op
    case Plus => ServerArith(Add, a, b, t)
    case Minus => ServerArith(Subtract, a, b, t)
    case Times => ServerArith(Multiply, a, b, t)
    case Slash => ServerDivision(if t.IsIntegral() then IntegerDivision else RealDivision, a, b, t)
    case DoubleSlash => ServerDivision(IntegerDivision, a, b, t)
    case Percent => ServerDivision(Remainder, a, b, t)
  }

  lemma BinaryKeeps(op: DuckArithOp, a: Value, b: Value, t: LogicalType, total: bool)
    requires total ==> (op.Plus? || op.Minus? || op.Times?) && !t.DateType?
    ensures Keeps(DuckBinary(op, a, b, t), ServerBinary(op, a, b, t), total)
  {
    hide DuckArith, ServerArith, DuckDivision, ServerDivision;
    match op
    case Plus => ArithKeeps(Add, a, b, t, total);
    case Minus => ArithKeeps(Subtract, a, b, t, total);
    case Times => ArithKeeps(Multiply, a, b, t, total);
    case Slash => DivisionKeeps(if t.IsIntegral() then IntegerDivision else RealDivision, a, b, t);
    case DoubleSlash => DivisionKeeps(IntegerDivision, a, b, t);
    case Percent => DivisionKeeps(Remainder, a, b, t);
  }

  lemma BinaryEval(op: DuckArithOp, x: Sql, y: Sql, t: LogicalType, row: seq<Value>, server: Server)
    requires BinarySql(op, x, y, t).Some?
    ensures var l, r := Eval(x, row, server), Eval(y, row, server);
      Eval(BinarySql(op, x, y, t).value, row, server) ==
        if l.Ok? && r.Ok? then ServerBinary(op, l.value, r.value, t) else Err
  {
    hide Eval, ServerArith, ServerDivision;
    match op
    case Plus => ArithEval(Add, x, y, t, row, server);
    case Minus => ArithEval(Subtract, x, y, t, row, server);
    case Times => ArithEval(Multiply, x, y, t, row, server);
    case Slash => DivideEval(if t.IsIntegral() then IntegerDivision else RealDivision, x, y, t, row, server);
    case DoubleSlash => DivideEval(IntegerDivision, x, y, t, row, server);
    case Percent => DivideEval(Remainder, x, y, t, row, server);
  }

  lemma ArithEval(op: ArithOp, x: Sql, y: Sql, t: LogicalType, row: seq<Value>, server: Server)
    ensures var l, r := Eval(x, row, server), Eval(y, row, server);
      Eval(Arith(op, x, y, t), row, server) == if l.Ok? && r.Ok? then ServerArith(op, l.value, r.value, t) else Err
  {
    hide ServerArith;
  }

  lemma DivideEval(op: DivisionOp, x: Sql, y: Sql, t: LogicalType, row: seq<Value>, server: Server)
    ensures var l, r := Eval(x, row, server), Eval(y, row, server);
      Eval(Divide(op, x, y, t), row, server) ==
        if l.Ok? && r.Ok? then ServerDivision(op, l.value, r.value, t) else Err
  {
    hide ServerDivision;
  }

  lemma ArithmeticKeeps(op: DuckArithOp, args: seq<Sql>, duck: seq<Res>, result: LogicalType, row: seq<Value>,
                        server: Server, total: bool)
    requires ArithmeticSql(op, args, result).Some? && |duck| == |args|
    requires AllKeep(duck, EvalAll(args, row, server), total)
    requires total ==> (op.Plus? || op.Minus? || op.Times?) && !result.DateType?
    ensures Keeps(DuckArithmetic(op, duck, result), Eval(ArithmeticSql(op, args, result).value, row, server), total)
  {
    hide DuckBinary, ServerBinary, BinarySql, NegateIn;
    var results := EvalAll(args, row, server);
    EvalAllAt(args, row, server, 0);
    if Collect(duck).Results? {
      assert duck[0].Ok? && Keeps(duck[0], results[0], total);
      if |args| == 2 {
        EvalAllAt(args, row, server, 1);
        assert duck[1].Ok? && Keeps(duck[1], results[1], total);
        BinaryEval(op, args[0], args[1], result, row, server);
        BinaryKeeps(op, duck[0].value, duck[1].value, result, total);
      }
    }
  }

  lemma CastKeeps(duck: Res, server: Res, source: LogicalType, target: LogicalType, dateText: DateText, total: bool)
    requires Keeps(duck, server, total) && ClassifyCast(source, target).Some?
    ensures Keeps(
      if duck.Ok? && HasType(duck.value, source) then DuckCast(duck.value, source, target, dateText) else Err,
      if server.Ok? then CastSqlMeaning(ClassifyCast(source, target).value, server.value, target, dateText) else Err,
      total)
  {
    if duck.Ok? && HasType(duck.value, source) && DuckCast(duck.value, source, target, dateText).Ok? {
      CastExact(duck.value, source, target, dateText);
    }
  }

  /** The translation preserves meaning: over any row on which the two make its comparisons alike, for either
      transform_null_in, whenever both DuckDB and the server compute a value for an accepted expression it is the same
      one; and (`total`) without divisions and DATE arithmetic the server computes one whenever DuckDB does. */
  lemma {:induction false} TranslateExact(e: Expr, resolve: Resolver, tuple: seq<Value>, row: seq<Value>,
                                          server: Server, total: bool)
    requires Translate(e, resolve).Some? && Resolves(resolve, tuple, row, server, total)
    requires ComparesAlike(e, tuple, server) && (total ==> NeverFailsOnServer(e))
    ensures Keeps(DuckEval(e, tuple, server), Eval(Translate(e, resolve).value, row, server), total)
    decreases e, 1
  {
    hide DuckEval, Eval, OperatorSql, ArithmeticSql, IsTranslatableArithmetic, ClassifyCast, ToClickhouse,
      ServerFunction, LiteralSql, ResultsAlike, BetweenAgrees, Keeps;
    match e
    case Ref(_) => LeafExact(e, resolve, tuple, row, server, total);
    case Const(_) => LeafExact(e, resolve, tuple, row, server, total);
    case Conjunction(_, children) =>
      TranslateAllExact(children, resolve, tuple, row, server, total);
      ConjunctionExact(e, resolve, tuple, row, server, total);
    case Operator(op, children) =>
      TranslateAllExact(children, resolve, tuple, row, server, total);
      OperatorExact(op, children, resolve, tuple, row, server, total);
    case CompareExpr(_, left, right, _) =>
      TranslateExact(left, resolve, tuple, row, server, total);
      TranslateExact(right, resolve, tuple, row, server, total);
      CompareExact(e, resolve, tuple, row, server, total);
    case Between(input, lower, upper, _, _, _) =>
      TranslateExact(input, resolve, tuple, row, server, total);
      TranslateExact(lower, resolve, tuple, row, server, total);
      TranslateExact(upper, resolve, tuple, row, server, total);
      BetweenExact(e, resolve, tuple, row, server, total);
    case Arithmetic(_, args, _, _) =>
      TranslateAllExact(args, resolve, tuple, row, server, total);
      ArithmeticExact(e, resolve, tuple, row, server, total);
    case Case(whens, thens, otherwise) =>
      TranslateAllExact(whens, resolve, tuple, row, server, total);
      TranslateAllExact(thens, resolve, tuple, row, server, total);
      TranslateExact(otherwise, resolve, tuple, row, server, total);
      CaseExact(e, resolve, tuple, row, server, total);
    case CastExpr(child, _, _, _) =>
      TranslateExact(child, resolve, tuple, row, server, total);
      CastExprExact(e, resolve, tuple, row, server, total);
    case Call(_, args, _) =>
      TranslateAllExact(args, resolve, tuple, row, server, total);
      CallExact(e, resolve, tuple, row, server, total);
    case _ =>
  }

  /** An expression keeps the promise with its translation; below, for each kind, if its operands do. */
  ghost predicate KeptBy(e: Expr, resolve: Resolver, tuple: seq<Value>, row: seq<Value>, server: Server, total: bool) {
    Translate(e, resolve).Some? &&
    Keeps(DuckEval(e, tuple, server), Eval(Translate(e, resolve).value, row, server), total)
  }

  ghost predicate AllKeptBy(es: seq<Expr>, resolve: Resolver, tuple: seq<Value>, row: seq<Value>, server: Server,
                            total: bool) {
    TranslateAll(es, resolve).Some? &&
    AllKeep(DuckEvalAll(es, tuple, server), EvalAll(TranslateAll(es, resolve).value, row, server), total)
  }

  lemma LeafExact(e: Expr, resolve: Resolver, tuple: seq<Value>, row: seq<Value>, server: Server, total: bool)
    requires (e.Ref? || e.Const?) && Translate(e, resolve).Some? && Resolves(resolve, tuple, row, server, total)
    ensures KeptBy(e, resolve, tuple, row, server, total)
  {
    hide Eval, LiteralSql;
    if e.Const? {
      LiteralExact(e.value, row, server);
    }
  }

  lemma ConjunctionExact(e: Expr, resolve: Resolver, tuple: seq<Value>, row: seq<Value>, server: Server, total: bool)
    requires e.Conjunction? && Translate(e, resolve).Some?
    requires AllKeptBy(e.children, resolve, tuple, row, server, total)
    ensures KeptBy(e, resolve, tuple, row, server, total)
  {
    hide Junction, AllKeep, Keeps;
    JunctionKeeps(e.kind.And?, DuckEvalAll(e.children, tuple, server),
                  EvalAll(TranslateAll(e.children, resolve).value, row, server), total);
  }

  lemma CompareExact(e: Expr, resolve: Resolver, tuple: seq<Value>, row: seq<Value>, server: Server, total: bool)
    requires e.CompareExpr? && Translate(e, resolve).Some?
    requires KeptBy(e.left, resolve, tuple, row, server, total) && KeptBy(e.right, resolve, tuple, row, server, total)
    requires e.comparison.Plain? ==>
      ResultsAlike(e.comparison.op, DuckEval(e.left, tuple, server), DuckEval(e.right, tuple, server))
    ensures KeptBy(e, resolve, tuple, row, server, total)
  {
    hide DuckCompare, ServerCompare, Keeps, ResultsAlike;
    CompareKeeps(e.comparison.op, DuckEval(e.left, tuple, server), DuckEval(e.right, tuple, server),
                 Eval(Translate(e.left, resolve).value, row, server),
                 Eval(Translate(e.right, resolve).value, row, server), e.operands, total);
  }

  lemma BetweenExact(e: Expr, resolve: Resolver, tuple: seq<Value>, row: seq<Value>, server: Server, total: bool)
    requires e.Between? && Translate(e, resolve).Some?
    requires KeptBy(e.input, resolve, tuple, row, server, total)
    requires KeptBy(e.lower, resolve, tuple, row, server, total) && KeptBy(e.upper, resolve, tuple, row, server, total)
    requires BetweenAgrees(DuckEval(e.input, tuple, server), DuckEval(e.lower, tuple, server),
                           DuckEval(e.upper, tuple, server), e.lowerInclusive, e.upperInclusive)
    ensures KeptBy(e, resolve, tuple, row, server, total)
  {
    hide DuckEval, Eval, Keeps, BetweenAgrees;
    BetweenKeeps(e, Translate(e.input, resolve).value, Translate(e.lower, resolve).value,
                 Translate(e.upper, resolve).value, tuple, row, server, total);
  }

  lemma ArithmeticExact(e: Expr, resolve: Resolver, tuple: seq<Value>, row: seq<Value>, server: Server, total: bool)
    requires e.Arithmetic? && Translate(e, resolve).Some?
    requires AllKeptBy(e.args, resolve, tuple, row, server, total)
    requires total ==> NeverFailsOnServer(e)
    ensures KeptBy(e, resolve, tuple, row, server, total)
  {
    hide DuckArithmetic, ArithmeticSql, IsTranslatableArithmetic, Eval, AllKeep, Keeps, NoneFails;
    ArithmeticKeeps(e.arith, TranslateAll(e.args, resolve).value, DuckEvalAll(e.args, tuple, server), e.result, row,
                    server, total);
  }

  lemma CaseExact(e: Expr, resolve: Resolver, tuple: seq<Value>, row: seq<Value>, server: Server, total: bool)
    requires e.Case? && Translate(e, resolve).Some?
    requires AllKeptBy(e.whens, resolve, tuple, row, server, total)
    requires AllKeptBy(e.thens, resolve, tuple, row, server, total)
    requires KeptBy(e.otherwise, resolve, tuple, row, server, total)
    ensures KeptBy(e, resolve, tuple, row, server, total)
  {
    hide DuckEval, Eval, AllKeep, Keeps;
    CaseKeeps(e, TranslateAll(e.whens, resolve).value, TranslateAll(e.thens, resolve).value,
              Translate(e.otherwise, resolve).value, tuple, row, server, total);
  }

  lemma CastExprExact(e: Expr, resolve: Resolver, tuple: seq<Value>, row: seq<Value>, server: Server, total: bool)
    requires e.CastExpr? && Translate(e, resolve).Some?
    requires KeptBy(e.child, resolve, tuple, row, server, total)
    ensures KeptBy(e, resolve, tuple, row, server, total)
  {
    hide ClassifyCast, HasType, DuckCast, CastSqlMeaning, ToClickhouse, Keeps;
    CastKeeps(DuckEval(e.child, tuple, server), Eval(Translate(e.child, resolve).value, row, server), e.source,
              e.target, server.dateText, total);
  }

  lemma CallExact(e: Expr, resolve: Resolver, tuple: seq<Value>, row: seq<Value>, server: Server, total: bool)
    requires e.Call? && Translate(e, resolve).Some?
    requires AllKeptBy(e.args, resolve, tuple, row, server, total)
    ensures KeptBy(e, resolve, tuple, row, server, total)
  {
    hide Collect, ServerFunction, AllKeep;
    if Collect(DuckEvalAll(e.args, tuple, server)).Results? {
      CollectKeeps(DuckEvalAll(e.args, tuple, server), EvalAll(TranslateAll(e.args, resolve).value, row, server),
                   total);
    }
  }

  lemma OperatorExact(op: OperatorKind, children: seq<Expr>, resolve: Resolver, tuple: seq<Value>, row: seq<Value>,
                      server: Server, total: bool)
    requires Translate(Operator(op, children), resolve).Some?
    requires AllKeep(DuckEvalAll(children, tuple, server),
                     EvalAll(TranslateAll(children, resolve).value, row, server), total)
    ensures Keeps(DuckEval(Operator(op, children), tuple, server),
                  Eval(Translate(Operator(op, children), resolve).value, row, server), total)
  {
    var duck := DuckEvalAll(children, tuple, server);
    if op.OpIn? || op.OpNotIn? {
      var listed := children[1..];
      ConstantsNotNull(listed, tuple, server);
      assert duck[1..] == DuckEvalAll(listed, tuple, server);
      forall k | 1 <= k < |duck| ensures duck[k] != Ok(Null) {
        assert duck[k] == duck[1..][k - 1];
      }
    }
    OperatorKeeps(op, children, TranslateAll(children, resolve).value, duck, row, server, total);
  }

  lemma CaseKeeps(e: Expr, whens: seq<Sql>, thens: seq<Sql>, otherwise: Sql, tuple: seq<Value>, row: seq<Value>,
                  server: Server, total: bool)
    requires e.Case?
    requires AllKeep(DuckEvalAll(e.whens, tuple, server), EvalAll(whens, row, server), total)
    requires AllKeep(DuckEvalAll(e.thens, tuple, server), EvalAll(thens, row, server), total)
    requires Keeps(DuckEval(e.otherwise, tuple, server), Eval(otherwise, row, server), total)
    ensures Keeps(DuckEval(e, tuple, server), Eval(CaseWhen(whens, thens, otherwise), row, server), total)
  {
    if |whens| == |thens| {
      FirstBranchKeeps(DuckEvalAll(e.whens, tuple, server), DuckEvalAll(e.thens, tuple, server),
                       DuckEval(e.otherwise, tuple, server), EvalAll(whens, row, server),
                       EvalAll(thens, row, server), Eval(otherwise, row, server), total);
    }
  }

  lemma BetweenKeeps(e: Expr, x: Sql, low: Sql, high: Sql, tuple: seq<Value>, row: seq<Value>, server: Server,
                     total: bool)
    requires e.Between?
    requires Keeps(DuckEval(e.input, tuple, server), Eval(x, row, server), total)
    requires Keeps(DuckEval(e.lower, tuple, server), Eval(low, row, server), total)
    requires Keeps(DuckEval(e.upper, tuple, server), Eval(high, row, server), total)
    requires BetweenAgrees(DuckEval(e.input, tuple, server), DuckEval(e.lower, tuple, server),
                           DuckEval(e.upper, tuple, server), e.lowerInclusive, e.upperInclusive)
    ensures Keeps(DuckEval(e, tuple, server),
                  Eval(Logical(true, [CompareSql(LowerOp(e.lowerInclusive), x, low),
                                      CompareSql(UpperOp(e.upperInclusive), x, high)]), row, server), total)
  {
    hide DuckCompare, ServerCompare, Junction, Keeps, BetweenAgrees, LowerOp, UpperOp;
    var ge, le := LowerOp(e.lowerInclusive), UpperOp(e.upperInclusive);
    var lower, upper := CompareSql(ge, x, low), CompareSql(le, x, high);
    assert [lower, upper][1..] == [upper] && [upper][1..] == [];
    assert EvalAll([upper], row, server) == [Eval(upper, row, server)];
    assert EvalAll([lower, upper], row, server) == [Eval(lower, row, server), Eval(upper, row, server)];
    RangeKeeps(DuckEval(e.input, tuple, server), DuckEval(e.lower, tuple, server), DuckEval(e.upper, tuple, server),
               Eval(x, row, server), Eval(low, row, server), Eval(high, row, server), e.operands, e.lowerInclusive,
               e.upperInclusive, total);
  }

  function ServerComparison(op: Comparison, l: Res, r: Res): Res {
    if l.Ok? && r.Ok? then ServerCompare(op, l.value, r.value) else Err
  }

  lemma RangeKeeps(dx: Res, dl: Res, dh: Res, sx: Res, sl: Res, sh: Res, operands: LogicalType, lowerInclusive: bool,
                   upperInclusive: bool, total: bool)
    requires Keeps(dx, sx, total) && Keeps(dl, sl, total) && Keeps(dh, sh, total)
    requires BetweenAgrees(dx, dl, dh, lowerInclusive, upperInclusive)
    ensures var ge, le := LowerOp(lowerInclusive), UpperOp(upperInclusive);
      Keeps(Junction(true, [DuckCompare(Plain(ge), dx, dl, operands), DuckCompare(Plain(le), dx, dh, operands)]),
            Junction(true, [ServerComparison(ge, sx, sl), ServerComparison(le, sx, sh)]), total)
  {
    hide Junction, Compare, ServerCompare, ComparedAlike, HasType, RangeAgrees;
    var ge, le := LowerOp(lowerInclusive), UpperOp(upperInclusive);
    var duck := [DuckCompare(Plain(ge), dx, dl, operands), DuckCompare(Plain(le), dx, dh, operands)];
    var server := [ServerComparison(ge, sx, sl), ServerComparison(le, sx, sh)];
    if dx.Ok? && dl.Ok? && dh.Ok? {
      RangeOfValues(dx.value, dl.value, dh.value, sx, sl, sh, operands, lowerInclusive, upperInclusive, total);
    } else {
      CompareKeeps(ge, dx, dl, sx, sl, operands, total);
      CompareKeeps(le, dx, dh, sx, sh, operands, total);
      JunctionKeeps(true, duck, server, total);
    }
  }

  /** Three values DuckDB gives: the server's are the same ones, or fail. A bound that fails, or is of another type,
      does not matter if x is outside the other one. */
  lemma RangeOfValues(x: Value, low: Value, high: Value, sx: Res, sl: Res, sh: Res, operands: LogicalType,
                      lowerInclusive: bool, upperInclusive: bool, total: bool)
    requires Keeps(Ok(x), sx, total) && Keeps(Ok(low), sl, total) && Keeps(Ok(high), sh, total)
    requires RangeAgrees(x, low, high, lowerInclusive, upperInclusive)
    ensures var ge, le := LowerOp(lowerInclusive), UpperOp(upperInclusive);
      Keeps(Junction(true, [DuckCompare(Plain(ge), Ok(x), Ok(low), operands),
                            DuckCompare(Plain(le), Ok(x), Ok(high), operands)]),
            Junction(true, [ServerComparison(ge, sx, sl), ServerComparison(le, sx, sh)]), total)
  {
    hide Junction, Compare, ServerCompare, HasType, RangeAgrees, LowerOp, UpperOp;
    var ge, le := LowerOp(lowerInclusive), UpperOp(upperInclusive);
    BetweenExactly(x, low, high, lowerInclusive, upperInclusive);
    ConjunctionOfTwo(Compare(ge, x, low), Compare(le, x, high));
    ConjunctionOfTwo(ServerCompare(ge, x, low), ServerCompare(le, x, high));
    ConjunctionOfTwo(DuckCompare(Plain(ge), Ok(x), Ok(low), operands),
                     DuckCompare(Plain(le), Ok(x), Ok(high), operands));
    ConjunctionOfTwo(ServerComparison(ge, sx, sl), ServerComparison(le, sx, sh));
  }

  lemma {:induction false} ConstantsNotNull(es: seq<Expr>, tuple: seq<Value>, server: Server)
    requires AllNonNullConstants(es)
    ensures forall k :: 0 <= k < |es| ==> DuckEvalAll(es, tuple, server)[k] != Ok(Null)
  {
    if es != [] {
      ConstantsNotNull(es[1..], tuple, server);
    }
  }

  lemma {:induction false} TranslateAllExact(es: seq<Expr>, resolve: Resolver, tuple: seq<Value>, row: seq<Value>,
                                             server: Server, total: bool)
    requires TranslateAll(es, resolve).Some? && Resolves(resolve, tuple, row, server, total)
    requires AllCompareAlike(es, tuple, server) && (total ==> NoneFails(es))
    ensures AllKeep(DuckEvalAll(es, tuple, server), EvalAll(TranslateAll(es, resolve).value, row, server), total)
    decreases es, 0
  {
    if es != [] {
      TranslateExact(es[0], resolve, tuple, row, server, total);
      TranslateAllExact(es[1..], resolve, tuple, row, server, total);
    }
  }
}
