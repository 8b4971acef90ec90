/** The ClickHouse expression a column is read through (src/clickhouse_types.cpp, "Read expressions"): a small code
    generator with lambda variables, checked against the structural conversion it stands for. */
module ReadExpressions {
  import opened Options
  import opened Text
  import opened TypeParser
  import opened TypeMapping

  // ---------------------------------------------------------------- generated expressions

  /** A quoted column and a lambda variable are both plain identifiers to ClickHouse: a column may be called x0. */
  datatype Expr =
    | Ident(name: string)
    | Convert(conversion: string, arg: Expr)          // toString(e), toFloat32(e), wkt(e), toJSONString(e)
    | ArrayMap(variable: string, body: Expr, source: Expr)
    | TupleElement(tuple: Expr, position: nat)        // from 1
    | TupleOf(elements: seq<Expr>)
    | MapKeys(dict: Expr)
    | MapValues(dict: Expr)
    | ArrayZip(left: Expr, right: Expr)

  predicate IsGeoType(name: string) {
    name == "Point" || name == "Ring" || name == "LineString" || name == "MultiLineString" ||
    name == "Polygon" || name == "MultiPolygon" || name == "Geometry"
  }

  /** Scalar types decoded straight from the native protocol. */
  predicate IsNativeScalar(name: string) {
    name in {"Bool", "Int8", "Int16", "Int32", "Int64", "UInt8", "UInt16", "UInt32", "UInt64", "Int128", "UInt128",
             "Float32", "Float64", "String", "FixedString", "Date", "Date32", "DateTime", "DateTime64", "Time",
             "Time64", "UUID", "Enum8", "Enum16", "Nothing", "AggregateFunction"}
  }

  /** What a type's values go through as a whole: nothing, one conversion, or their elements' conversions. */
  datatype Shape = Malformed | AsIs | Converted(conversion: string) | ArrayShape | TupleShape | MapShape

  /** The branches of ReadExpressionInternal, for an unwrapped type. */
  function ShapeOf(t: TypeNode): Shape {
    match GetDecimalInfo(t)
    case MalformedDecimal => Malformed
    case Digits(width, _) => if width <= 38 then AsIs else Converted("toString")
    case NotDecimal =>
      if IsNativeScalar(t.name) then AsIs
      else if t.name == "BFloat16" then Converted("toFloat32")
      else if IsGeoType(t.name) then Converted("wkt")
      else if IsSemiStructured(t.name) then Converted("toJSONString")
      else if t.name == "Array" && |t.children| == 1 then ArrayShape
      else if t.name == "Tuple" && t.children != [] then TupleShape
      else if t.name == "Map" && |t.children| == 2 then MapShape
      else Converted("toString")
  }

  lemma ShapeChildren(t: TypeNode)
    ensures ShapeOf(t).ArrayShape? ==> |t.children| == 1
    ensures ShapeOf(t).TupleShape? ==> t.children != []
    ensures ShapeOf(t).MapShape? ==> |t.children| == 2
  {
  }

  function LambdaVariable(depth: nat): string {
    "x" + NatText(depth)
  }

  /** arrayMap over the array's items, unless they are read as they are. */
  function ArrayRead(element: TypeNode, source: Expr, depth: nat): Option<Expr>
    decreases element, 3
  {
    var x := LambdaVariable(depth);
    var body :- ReadInternal(element, Ident(x), depth + 1);
    Some(if body == Ident(x) then source else ArrayMap(x, body, source))
  }

  /** ReadExpressionInternal; None where the C++ code throws (a malformed Decimal). */
  function ReadInternal(node: TypeNode, e: Expr, depth: nat): Option<Expr>
    decreases node, 2
  {
    var t := Unwrap(node);
    ShapeChildren(t);
    match ShapeOf(t)
    case Malformed => None
    case AsIs => Some(e)
    case Converted(conversion) => Some(Convert(conversion, e))
    case ArrayShape => ArrayRead(t.children[0], e, depth)
    case TupleShape =>
      var elements :- ReadElements(t.children, e, 1, depth);
      Some(if elements == Elements(e, 1, |t.children|) then e else TupleOf(elements))
    case MapShape =>
      var keys :- ArrayRead(t.children[0], MapKeys(e), depth);
      var values :- ArrayRead(t.children[1], MapValues(e), depth);
      Some(ArrayZip(keys, values))
  }

  function ReadElements(nodes: seq<TypeNode>, e: Expr, position: nat, depth: nat): (r: Option<seq<Expr>>)
    ensures r.Some? ==> |r.value| == |nodes|
    decreases nodes, 1
  {
    if nodes == [] then Some([])
    else
      var first :- ReadInternal(nodes[0], TupleElement(e, position), depth + 1);
      var rest :- ReadElements(nodes[1..], e, position + 1, depth);
      Some([first] + rest)
  }

  /** tupleElement(e, position), tupleElement(e, position + 1), ...: the elements as they are. */
  function Elements(e: Expr, position: nat, count: nat): (r: seq<Expr>)
    ensures |r| == count
    decreases count
  {
    if count == 0 then [] else [TupleElement(e, position)] + Elements(e, position + 1, count - 1)
  }

  /** The accumulating loop of the Tuple case: `changed` says whether any element needs a conversion. */
  method ReadTuple(nodes: seq<TypeNode>, e: Expr, depth: nat) returns (r: Option<Expr>)
    requires nodes != []
    ensures r == match ReadElements(nodes, e, 1, depth)
                 case None => None
                 case Some(elements) => Some(if elements == Elements(e, 1, |nodes|) then e else TupleOf(elements))
  {
    hide ReadInternal, Elements;
    ghost var whole := ReadElements(nodes, e, 1, depth);
    NoElements(e);
    var elements: seq<Expr> := [];
    var changed := false;
    assert nodes[0..] == nodes;
    for i := 0 to |nodes|
      invariant |elements| == i
      invariant changed <==> elements != Elements(e, 1, i)
      invariant var rest := ReadElements(nodes[i..], e, i + 1, depth);
        (whole.None? <==> rest.None?) && (whole.Some? ==> whole.value == elements + rest.value)
    {
      assert nodes[i..][1..] == nodes[i + 1..];
      var element := TupleElement(e, i + 1);
      var read := ReadInternal(nodes[i], element, depth + 1);
      if read.None? {
        return None;
      }
      ElementsSnoc(e, 1, i);
      SnocEqual(elements, Elements(e, 1, i), read.value, element);
      assert whole.Some? ==>
        whole.value == (elements + [read.value]) + ReadElements(nodes[i + 1..], e, i + 2, depth).value;
      changed := changed || read.value != element;
      elements := elements + [read.value];
    }
    assert ReadElements(nodes[|nodes|..], e, |nodes| + 1, depth) == Some([]);
    assert elements + [] == elements;
    return Some(if !changed then e else TupleOf(elements));
  }

  lemma NoElements(e: Expr)
    ensures Elements(e, 1, 0) == []
  {
  }

  lemma SnocEqual(a: seq<Expr>, b: seq<Expr>, x: Expr, y: Expr)
    requires |a| == |b|
    ensures a + [x] == b + [y] <==> a == b && x == y
  {
    if a + [x] == b + [y] {
      assert a == (a + [x])[..|a|] == (b + [y])[..|b|] == b;
      assert x == (a + [x])[|a|] == (b + [y])[|b|] == y;
    }
  }

  lemma {:induction false} ElementsSnoc(e: Expr, position: nat, count: nat)
    ensures Elements(e, position, count + 1) == Elements(e, position, count) + [TupleElement(e, position + count)]
    decreases count
  {
    if count > 0 {
      ElementsSnoc(e, position + 1, count - 1);
    }
  }

  // ---------------------------------------------------------------- meaning

  /** A value as the server holds it. */
  datatype Datum = Scalar(payload: int) | ArrayOf(items: seq<Datum>) | Tuple(fields: seq<Datum>)
                 | Dictionary(keys: seq<Datum>, values: seq<Datum>)

  /** A value of the shape its type demands. */
  predicate Fits(v: Datum, node: TypeNode)
    decreases node, 1
  {
    var t := Unwrap(node);
    ShapeChildren(t);
    match ShapeOf(t)
    case ArrayShape => v.ArrayOf? && AllFit(v.items, t.children[0])
    case TupleShape => v.Tuple? && EachFits(v.fields, t.children)
    case MapShape =>
      v.Dictionary? && |v.keys| == |v.values| && AllFit(v.keys, t.children[0]) && AllFit(v.values, t.children[1])
    case _ => true
  }

  predicate AllFit(vs: seq<Datum>, element: TypeNode)
    decreases element, 2, vs
  {
    vs == [] || (Fits(vs[0], element) && AllFit(vs[1..], element))
  }

  predicate EachFits(vs: seq<Datum>, nodes: seq<TypeNode>)
    decreases nodes, 0
  {
    |vs| == |nodes| && (vs == [] || (Fits(vs[0], nodes[0]) && EachFits(vs[1..], nodes[1..])))
  }

  type Conversions = (string, Datum) -> Datum
  type Environment = map<string, Datum>

  const NOTHING := Scalar(0)

  /** What the server computes; `convert` gives the meaning of its conversion functions. */
  function Eval(e: Expr, env: Environment, convert: Conversions): Datum
    decreases e, 1
  {
    match e
    case Ident(name) => if name in env then env[name] else NOTHING
    case Convert(conversion, arg) => convert(conversion, Eval(arg, env, convert))
    case ArrayMap(x, body, source) =>
      var v := Eval(source, env, convert);
      if v.ArrayOf? then ArrayOf(EvalEach(x, body, v.items, env, convert)) else NOTHING
    case TupleElement(tuple, position) =>
      var v := Eval(tuple, env, convert);
      if v.Tuple? && 1 <= position <= |v.fields| then v.fields[position - 1] else NOTHING
    case TupleOf(elements) => Tuple(EvalAll(elements, env, convert))
    case MapKeys(dict) =>
      var v := Eval(dict, env, convert);
      if v.Dictionary? then ArrayOf(v.keys) else NOTHING
    case MapValues(dict) =>
      var v := Eval(dict, env, convert);
      if v.Dictionary? then ArrayOf(v.values) else NOTHING
    case ArrayZip(left, right) =>
      var l, r := Eval(left, env, convert), Eval(right, env, convert);
      if l.ArrayOf? && r.ArrayOf? && |l.items| == |r.items| then ArrayOf(Zip(l.items, r.items)) else NOTHING
  }

  function EvalAll(es: seq<Expr>, env: Environment, convert: Conversions): seq<Datum>
    decreases es, 0
  {
    if es == [] then [] else [Eval(es[0], env, convert)] + EvalAll(es[1..], env, convert)
  }

  /** The lambda: the body once per item, with the variable bound to it (and hiding any outer identifier). */
  function EvalEach(x: string, body: Expr, items: seq<Datum>, env: Environment, convert: Conversions): seq<Datum>
    decreases body, 2, items
  {
    if items == [] then []
    else [Eval(body, env[x := items[0]], convert)] + EvalEach(x, body, items[1..], env, convert)
  }

  function Zip(ls: seq<Datum>, rs: seq<Datum>): seq<Datum>
    requires |ls| == |rs|
  {
    if ls == [] then [] else [Tuple([ls[0], rs[0]])] + Zip(ls[1..], rs[1..])
  }

  /** The value DuckDB is to see: the leaf conversions applied through every Array, Tuple and Map of the type. A Map
      is read as an array of (key, value) tuples. */
  function ReadValue(node: TypeNode, v: Datum, convert: Conversions): Datum
    requires Fits(v, node)
    decreases node, 1
  {
    var t := Unwrap(node);
    ShapeChildren(t);
    match ShapeOf(t)
    case Converted(conversion) => convert(conversion, v)
    case ArrayShape => ArrayOf(ReadItems(t.children[0], v.items, convert))
    case TupleShape => Tuple(ReadFields(t.children, v.fields, convert))
    case MapShape =>
      ArrayOf(Zip(ReadItems(t.children[0], v.keys, convert), ReadItems(t.children[1], v.values, convert)))
    case _ => v
  }

  function ReadItems(element: TypeNode, items: seq<Datum>, convert: Conversions): (r: seq<Datum>)
    requires AllFit(items, element)
    ensures |r| == |items|
    decreases element, 2, items
  {
    if items == [] then [] else [ReadValue(element, items[0], convert)] + ReadItems(element, items[1..], convert)
  }

  function ReadFields(nodes: seq<TypeNode>, fields: seq<Datum>, convert: Conversions): seq<Datum>
    requires EachFits(fields, nodes)
    decreases nodes, 0
  {
    if nodes == [] then []
    else [ReadValue(nodes[0], fields[0], convert)] + ReadFields(nodes[1..], fields[1..], convert)
  }

  // ---------------------------------------------------------------- correctness

  /** The generated expression computes the structural conversion of whatever `e` is, at any depth, for any column
      name, including where an unchanged subtree is returned as it is. */
  lemma {:induction false} ReadCorrect(node: TypeNode, e: Expr, depth: nat, env: Environment, convert: Conversions)
    requires Fits(Eval(e, env, convert), node)
    requires ReadInternal(node, e, depth).Some?
    ensures Eval(ReadInternal(node, e, depth).value, env, convert) == ReadValue(node, Eval(e, env, convert), convert)
    decreases node, 1
  {
    hide ShapeOf, Unwrap, ArrayRead, ReadElements, Elements;
    var t := Unwrap(node);
    ShapeChildren(t);
    match ShapeOf(t)
    case ArrayShape => ArrayReadCorrect(t.children[0], e, depth, env, convert);
    case TupleShape =>
      assert EachFits(Eval(e, env, convert).fields, t.children);
      TupleReadCorrect(t.children, e, depth, env, convert);
    case MapShape => MapReadCorrect(node, e, depth, env, convert);
    case _ =>
  }

  lemma {:induction false} MapReadCorrect(node: TypeNode, e: Expr, depth: nat, env: Environment, convert: Conversions)
    requires Fits(Eval(e, env, convert), node)
    requires ShapeOf(Unwrap(node)).MapShape? && ReadInternal(node, e, depth).Some?
    ensures Eval(ReadInternal(node, e, depth).value, env, convert) == ReadValue(node, Eval(e, env, convert), convert)
    decreases node, 0
  {
    hide ShapeOf, Unwrap, ArrayRead, ReadElements, Elements, AllFit;
    var t := Unwrap(node);
    ShapeChildren(t);
    ArrayReadCorrect(t.children[0], MapKeys(e), depth, env, convert);
    ArrayReadCorrect(t.children[1], MapValues(e), depth, env, convert);
  }

  lemma {:induction false} TupleReadCorrect(nodes: seq<TypeNode>, e: Expr, depth: nat, env: Environment,
                                            convert: Conversions)
    requires Eval(e, env, convert).Tuple? && EachFits(Eval(e, env, convert).fields, nodes)
    requires ReadElements(nodes, e, 1, depth).Some?
    ensures var elements := ReadElements(nodes, e, 1, depth).value;
      var fields := Eval(e, env, convert).fields;
      EvalAll(elements, env, convert) == ReadFields(nodes, fields, convert) &&
      (elements == Elements(e, 1, |nodes|) ==> fields == ReadFields(nodes, fields, convert))
    decreases nodes, 2
  {
    var fields := Eval(e, env, convert).fields;
    assert fields[0..] == fields;
    ElementsCorrect(nodes, e, 1, depth, env, convert);
    ElementsAsTheyAre(fields, e, 1, env, convert);
    assert |fields| == |nodes|;
  }

  lemma {:induction false} ArrayReadCorrect(element: TypeNode, source: Expr, depth: nat, env: Environment,
                                            convert: Conversions)
    requires Eval(source, env, convert).ArrayOf? && AllFit(Eval(source, env, convert).items, element)
    requires ArrayRead(element, source, depth).Some?
    ensures Eval(ArrayRead(element, source, depth).value, env, convert) ==
            ArrayOf(ReadItems(element, Eval(source, env, convert).items, convert))
    decreases element, 3
  {
    EachItemCorrect(element, depth, Eval(source, env, convert).items, env, convert);
  }

  lemma {:induction false} EachItemCorrect(element: TypeNode, depth: nat, items: seq<Datum>, env: Environment,
                                           convert: Conversions)
    requires AllFit(items, element)
    requires ReadInternal(element, Ident(LambdaVariable(depth)), depth + 1).Some?
    ensures var x := LambdaVariable(depth);
      var body := ReadInternal(element, Ident(x), depth + 1).value;
      EvalEach(x, body, items, env, convert) == ReadItems(element, items, convert) &&
      (body == Ident(x) ==> ReadItems(element, items, convert) == items)
    decreases element, 2, items
  {
    if items != [] {
      var x := LambdaVariable(depth);
      ReadCorrect(element, Ident(x), depth + 1, env[x := items[0]], convert);
      EachItemCorrect(element, depth, items[1..], env, convert);
    }
  }

  lemma {:induction false} ElementsCorrect(nodes: seq<TypeNode>, e: Expr, position: nat, depth: nat, env: Environment,
                                           convert: Conversions)
    requires ReadElements(nodes, e, position, depth).Some?
    requires var v := Eval(e, env, convert);
      v.Tuple? && position >= 1 && position - 1 + |nodes| == |v.fields| && EachFits(v.fields[position - 1..], nodes)
    ensures EvalAll(ReadElements(nodes, e, position, depth).value, env, convert) ==
            ReadFields(nodes, Eval(e, env, convert).fields[position - 1..], convert)
    decreases nodes, 0
  {
    if nodes != [] {
      var fields := Eval(e, env, convert).fields;
      assert fields[position - 1..][1..] == fields[position..];
      ReadCorrect(nodes[0], TupleElement(e, position), depth + 1, env, convert);
      ElementsCorrect(nodes[1..], e, position + 1, depth, env, convert);
    }
  }

  lemma {:induction false} ElementsAsTheyAre(rest: seq<Datum>, e: Expr, position: nat, env: Environment,
                                             convert: Conversions)
    requires var v := Eval(e, env, convert);
      v.Tuple? && 1 <= position <= |v.fields| + 1 && v.fields[position - 1..] == rest
    ensures EvalAll(Elements(e, position, |rest|), env, convert) == rest
    decreases rest
  {
    if rest != [] {
      var fields := Eval(e, env, convert).fields;
      assert fields[position - 1..][1..] == fields[position..];
      ElementsAsTheyAre(rest[1..], e, position + 1, env, convert);
    }
  }

  // ---------------------------------------------------------------- capture

  function Free(e: Expr): set<string>
    decreases e, 1
  {
    match e
    case Ident(name) => {name}
    case Convert(_, arg) => Free(arg)
    case ArrayMap(x, body, source) => (Free(body) - {x}) + Free(source)
    case TupleElement(tuple, _) => Free(tuple)
    case TupleOf(elements) => FreeAll(elements)
    case MapKeys(dict) => Free(dict)
    case MapValues(dict) => Free(dict)
    case ArrayZip(left, right) => Free(left) + Free(right)
  }

  function FreeAll(es: seq<Expr>): set<string>
    decreases es, 0
  {
    if es == [] then {} else Free(es[0]) + FreeAll(es[1..])
  }

  /** Nothing is captured: reading `e` mentions exactly the identifiers `e` does (a lambda body mentions only its own
      variable, so a column that happens to be called x0 never ends up inside one). */
  lemma {:induction false} ReadFree(node: TypeNode, e: Expr, depth: nat)
    requires ReadInternal(node, e, depth).Some?
    ensures Free(ReadInternal(node, e, depth).value) == Free(e)
    decreases node, 2
  {
    var t := Unwrap(node);
    ShapeChildren(t);
    hide ShapeOf, Unwrap;
    match ShapeOf(t)
    case ArrayShape => ArrayReadFree(t.children[0], e, depth);
    case TupleShape => ElementsFree(t.children, e, 1, depth);
    case MapShape =>
      ArrayReadFree(t.children[0], MapKeys(e), depth);
      ArrayReadFree(t.children[1], MapValues(e), depth);
    case _ =>
  }

  lemma {:induction false} ArrayReadFree(element: TypeNode, source: Expr, depth: nat)
    requires ArrayRead(element, source, depth).Some?
    ensures Free(ArrayRead(element, source, depth).value) == Free(source)
    decreases element, 3
  {
    ReadFree(element, Ident(LambdaVariable(depth)), depth + 1);
  }

  lemma {:induction false} ElementsFree(nodes: seq<TypeNode>, e: Expr, position: nat, depth: nat)
    requires ReadElements(nodes, e, position, depth).Some?
    ensures FreeAll(ReadElements(nodes, e, position, depth).value) == if nodes == [] then {} else Free(e)
    decreases nodes, 1
  {
    if nodes != [] {
      ReadFree(nodes[0], TupleElement(e, position), depth + 1);
      ElementsFree(nodes[1..], e, position + 1, depth);
    }
  }
}
