/** Columns of native blocks and DuckDB vectors, and what each says its rows are. */
module Columns {

  // ---------------------------------------------------------------- types and values

  /** Column types as the writer tells them apart; every scalar type is one. A Map(K, V) is an array of (K, V). */
  datatype Type =
    | ScalarType
    | NullableOf(inner: Type)
    | ArrayOf(element: Type, isMap: bool)
    | TupleOf(fields: seq<Type>)

  /** ClickHouse nests no Nullable, and allows none around an Array or Map; a Tuple has elements. */
  predicate ValidType(t: Type) {
    match t
    case ScalarType => true
    case NullableOf(inner) => (inner.ScalarType? || inner.TupleOf?) && ValidType(inner)
    case ArrayOf(element, isMap) => ValidType(element) && (isMap ==> element.TupleOf? && |element.fields| == 2)
    case TupleOf(fields) => fields != [] && forall k :: 0 <= k < |fields| ==> ValidType(fields[k])
  }

  /** A row's value; a MAP is a LIST of (key, value) STRUCTs. */
  datatype Value = Null | Num(n: int) | List(elements: seq<Value>) | Struct(fields: seq<Value>)

  // ---------------------------------------------------------------- columns

  /** `ends` are absolute end positions in `data`. A Map column is an array of (key, value) tuples. */
  datatype Column =
    | Scalars(numbers: seq<int>)
    | Nullable(flags: seq<bool>, nested: Column)
    | Arrays(ends: seq<nat>, data: Column)
    | Tuples(fields: seq<Column>)

  function Size(c: Column): nat {
    match c
    case Scalars(numbers) => |numbers|
    case Nullable(flags, _) => |flags|
    case Arrays(ends, _) => |ends|
    case Tuples(fields) => if fields == [] then 0 else Size(fields[0])
  }

  function StartOf(ends: seq<nat>, i: nat): nat
    requires i <= |ends|
  {
    if i == 0 then 0 else ends[i - 1]
  }

  predicate Ascending(ends: seq<nat>) {
    forall j, k :: 0 <= j <= k < |ends| ==> ends[j] <= ends[k]
  }

  predicate Fits(c: Column, t: Type)
    decreases t
  {
    match t
    case ScalarType => c.Scalars?
    case NullableOf(inner) => c.Nullable? && Fits(c.nested, inner) && Size(c.nested) == |c.flags|
    case ArrayOf(element, _) =>
      c.Arrays? && Ascending(c.ends) && StartOf(c.ends, |c.ends|) == Size(c.data) && Fits(c.data, element)
    case TupleOf(fields) =>
      c.Tuples? && |c.fields| == |fields| &&
      forall k :: 0 <= k < |fields| ==> Fits(c.fields[k], fields[k]) && Size(c.fields[k]) == Size(c)
  }

  /** A row as a column of the type holds it. */
  function RowAt(c: Column, t: Type, i: nat): Value
    requires Fits(c, t) && i < Size(c)
    decreases t
  {
    match t
    case ScalarType => Num(c.numbers[i])
    case NullableOf(inner) => if c.flags[i] then Null else RowAt(c.nested, inner, i)
    case ArrayOf(element, _) =>
      var start := StartOf(c.ends, i);
      EndsWithin(c.ends, i);
      List(seq(c.ends[i] - start, k requires 0 <= k < c.ends[i] - start => RowAt(c.data, element, start + k)))
    case TupleOf(fields) => Struct(seq(|fields|, k requires 0 <= k < |fields| => RowAt(c.fields[k], fields[k], i)))
  }

  lemma EndsWithin(ends: seq<nat>, i: nat)
    requires Ascending(ends) && i < |ends|
    ensures StartOf(ends, i) <= ends[i] <= StartOf(ends, |ends|)
  {
  }

  lemma ListRow(c: Column, element: Type, isMap: bool, i: nat)
    requires Fits(c, ArrayOf(element, isMap)) && i < Size(c)
    ensures Fits(c.data, element) && StartOf(c.ends, i) <= c.ends[i] <= Size(c.data)
    ensures var row := RowAt(c, ArrayOf(element, isMap), i);
      row.List? && |row.elements| == c.ends[i] - StartOf(c.ends, i) &&
      forall k :: 0 <= k < |row.elements| ==> row.elements[k] == RowAt(c.data, element, StartOf(c.ends, i) + k)
  {
    EndsWithin(c.ends, i);
  }

  lemma TupleRow(c: Column, fields: seq<Type>, i: nat)
    requires Fits(c, TupleOf(fields)) && i < Size(c)
    ensures forall k :: 0 <= k < |fields| ==> Fits(c.fields[k], fields[k]) && i < Size(c.fields[k])
    ensures var row := RowAt(c, TupleOf(fields), i);
      row.Struct? && |row.fields| == |fields| &&
      forall k :: 0 <= k < |fields| ==> row.fields[k] == RowAt(c.fields[k], fields[k], i)
  {
  }

  lemma NullableRow(c: Column, inner: Type, i: nat)
    requires Fits(c, NullableOf(inner)) && i < Size(c)
    ensures Fits(c.nested, inner) && i < Size(c.nested)
    ensures RowAt(c, NullableOf(inner), i) == if c.flags[i] then Null else RowAt(c.nested, inner, i)
  {
  }

  /** Every row. */
  function Rows(c: Column, t: Type): (r: seq<Value>)
    requires Fits(c, t)
    ensures |r| == Size(c)
    ensures forall i :: 0 <= i < |r| ==> r[i] == RowAt(c, t, i)
  {
    seq(Size(c), i requires 0 <= i < Size(c) => RowAt(c, t, i))
  }

  function Empty(t: Type): (c: Column)
    requires ValidType(t)
    ensures Fits(c, t) && Size(c) == 0
  {
    match t
    case ScalarType => Scalars([])
    case NullableOf(inner) => Nullable([], Empty(inner))
    case ArrayOf(element, _) => Arrays([], Empty(element))
    case TupleOf(fields) => Tuples(seq(|fields|, k requires 0 <= k < |fields| => Empty(fields[k])))
  }

  // ---------------------------------------------------------------- vectors

  /** The selection of every row. */
  function UpTo(count: nat): (r: seq<nat>)
    ensures |r| == count && forall k :: 0 <= k < count ==> r[k] == k
  {
    seq(count, k requires 0 <= k < count => k)
  }

  datatype Entry = Entry(offset: nat, length: nat)

  /** A DuckDB vector: `sel` maps rows to positions in what it stores. A STRUCT vector is flat; a MAP is a LIST of
      (key, value) STRUCTs. */
  datatype Vector =
    | ScalarVector(sel: seq<nat>, validity: seq<bool>, numbers: seq<int>)
    | ListVector(sel: seq<nat>, validity: seq<bool>, entries: seq<Entry>, child: Vector)
    | StructVector(validity: seq<bool>, children: seq<Vector>)

  function Length(v: Vector): nat {
    match v
    case ScalarVector(sel, _, _) => |sel|
    case ListVector(sel, _, _, _) => |sel|
    case StructVector(validity, _) => |validity|
  }

  predicate WellFormed(v: Vector) {
    match v
    case ScalarVector(sel, validity, numbers) =>
      |validity| == |numbers| && forall k :: 0 <= k < |sel| ==> sel[k] < |numbers|
    case ListVector(sel, validity, entries, child) =>
      |validity| == |entries| && WellFormed(child) && (forall k :: 0 <= k < |sel| ==> sel[k] < |entries|) &&
      forall k :: 0 <= k < |entries| && validity[k] ==> entries[k].offset + entries[k].length <= Length(child)
    case StructVector(validity, children) =>
      forall k :: 0 <= k < |children| ==> WellFormed(children[k]) && Length(children[k]) == |validity|
  }

  function ValueAt(v: Vector, i: nat): Value
    requires WellFormed(v) && i < Length(v)
    decreases v
  {
    match v
    case ScalarVector(sel, validity, numbers) => if validity[sel[i]] then Num(numbers[sel[i]]) else Null
    case ListVector(sel, validity, entries, child) =>
      if !validity[sel[i]] then Null
      else
        var e := entries[sel[i]];
        List(seq(e.length, k requires 0 <= k < e.length => ValueAt(child, e.offset + k)))
    case StructVector(validity, children) =>
      if !validity[i] then Null
      else Struct(seq(|children|, k requires 0 <= k < |children| => ValueAt(children[k], i)))
  }

  /** DuckDB's rule: the fields of a NULL STRUCT are NULL. */
  predicate NullsReachDown(v: Vector) {
    match v
    case ScalarVector(_, _, _) => true
    case ListVector(_, _, _, child) => NullsReachDown(child)
    case StructVector(validity, children) =>
      forall k :: 0 <= k < |children| ==>
        NullsReachDown(children[k]) &&
        forall i :: 0 <= i < |validity| && !validity[i] && WellFormed(children[k]) && i < Length(children[k]) ==>
          ValueAt(children[k], i) == Null
  }

  predicate Matches(v: Vector, t: Type)
    decreases t
  {
    match t
    case ScalarType => v.ScalarVector?
    case NullableOf(inner) => Matches(v, inner)
    case ArrayOf(element, _) => v.ListVector? && Matches(v.child, element)
    case TupleOf(fields) =>
      v.StructVector? && |v.children| == |fields| &&
      forall k :: 0 <= k < |fields| ==> Matches(v.children[k], fields[k])
  }

  // ---------------------------------------------------------------- what is stored

  /** The row is not refused. Under a Nullable a NULL becomes a default instead. */
  predicate Accepts(v: Value, t: Type, nullsAsDefault: bool)
    decreases t
  {
    match t
    case ScalarType => v.Num? || (v.Null? && nullsAsDefault)
    case NullableOf(inner) => Accepts(v, inner, true)
    case ArrayOf(element, _) =>
      (v.Null? && nullsAsDefault) ||
      (v.List? && forall k :: 0 <= k < |v.elements| ==> Accepts(v.elements[k], element, false))
    case TupleOf(fields) =>
      (v.Null? && nullsAsDefault) ||
      (v.Struct? && |v.fields| == |fields| &&
       forall k :: 0 <= k < |fields| ==> Accepts(v.fields[k], fields[k], nullsAsDefault))
  }

  /** What is read back of an accepted row: defaults where a NULL became one. */
  function Stored(v: Value, t: Type): Value
    decreases t
  {
    match t
    case ScalarType => if v.Num? then v else Num(0)
    case NullableOf(inner) => if v.Null? then Null else Stored(v, inner)
    case ArrayOf(element, _) =>
      if !v.List? then List([])
      else List(seq(|v.elements|, k requires 0 <= k < |v.elements| => Stored(v.elements[k], element)))
    case TupleOf(fields) =>
      Struct(seq(|fields|, k requires 0 <= k < |fields| =>
        Stored(if v.Struct? && |v.fields| == |fields| then v.fields[k] else Null, fields[k])))
  }

  /** No NULL can become a default unseen: under a Nullable Tuple every element is Nullable itself. */
  predicate Lossless(t: Type)
    decreases t
  {
    match t
    case ScalarType => true
    case NullableOf(inner) =>
      Lossless(inner) && (inner.TupleOf? ==> forall k :: 0 <= k < |inner.fields| ==> inner.fields[k].NullableOf?)
    case ArrayOf(element, _) => Lossless(element)
    case TupleOf(fields) => forall k :: 0 <= k < |fields| ==> Lossless(fields[k])
  }

  /** Accepted rows of such a type are stored as they are; under a Nullable, those that are not NULL. */
  lemma {:induction false} StoredAsIs(v: Value, t: Type, nullsAsDefault: bool)
    requires ValidType(t) && Lossless(t) && Accepts(v, t, nullsAsDefault)
    requires nullsAsDefault ==>
      !v.Null? && (t.TupleOf? ==> forall k :: 0 <= k < |t.fields| ==> t.fields[k].NullableOf?)
    ensures Stored(v, t) == v
    decreases t, 0
  {
    match t
    case ScalarType =>
    case NullableOf(inner) =>
      if !v.Null? {
        StoredAsIs(v, inner, true);
      }
    case ArrayOf(element, _) =>
      forall k | 0 <= k < |v.elements| ensures Stored(v.elements[k], element) == v.elements[k] {
        StoredAsIs(v.elements[k], element, false);
      }
      assert Stored(v, t).elements == v.elements;
    case TupleOf(fields) =>
      forall k | 0 <= k < |fields| ensures Stored(v.fields[k], fields[k]) == v.fields[k] {
        StoredField(v.fields[k], fields[k], nullsAsDefault);
      }
      assert Stored(v, t).fields == v.fields;
  }

  lemma {:induction false} StoredField(v: Value, t: Type, nullsAsDefault: bool)
    requires ValidType(t) && Lossless(t) && Accepts(v, t, nullsAsDefault)
    requires nullsAsDefault ==> t.NullableOf?
    ensures Stored(v, t) == v
    decreases t, 1
  {
    if t.NullableOf? {
      if !v.Null? {
        StoredAsIs(v, t.inner, true);
      }
    } else {
      StoredAsIs(v, t, false);
    }
  }

  // ---------------------------------------------------------------- when a NULL is lost

  function Sample(t: Type): (v: Value)
    requires ValidType(t)
    ensures !v.Null?
  {
    match t
    case ScalarType => Num(1)
    case NullableOf(inner) => Sample(inner)
    case ArrayOf(_, _) => List([])
    case TupleOf(fields) => Struct(seq(|fields|, k requires 0 <= k < |fields| => Sample(fields[k])))
  }

  lemma {:induction false} SampleAccepted(t: Type, nullsAsDefault: bool)
    requires ValidType(t)
    ensures Accepts(Sample(t), t, nullsAsDefault)
    decreases t
  {
    match t
    case NullableOf(inner) => SampleAccepted(inner, true);
    case TupleOf(fields) =>
      forall k | 0 <= k < |fields| ensures Accepts(Sample(t).fields[k], fields[k], nullsAsDefault) {
        SampleAccepted(fields[k], nullsAsDefault);
      }
    case _ =>
  }

  lemma {:induction false} NullAccepted(t: Type)
    requires ValidType(t)
    ensures Accepts(Null, t, true)
    decreases t
  {
    if t.NullableOf? {
      NullAccepted(t.inner);
    }
  }

  /** A STRUCT with sample fields but for one. */
  function WithField(fields: seq<Type>, at: nat, v: Value): Value
    requires at < |fields| && forall k :: 0 <= k < |fields| ==> ValidType(fields[k])
  {
    Struct(seq(|fields|, k requires 0 <= k < |fields| => if k == at then v else Sample(fields[k])))
  }

  lemma WithFieldAccepted(fields: seq<Type>, at: nat, v: Value, nullsAsDefault: bool)
    requires at < |fields| && forall k :: 0 <= k < |fields| ==> ValidType(fields[k])
    requires Accepts(v, fields[at], nullsAsDefault)
    ensures Accepts(WithField(fields, at, v), TupleOf(fields), nullsAsDefault)
  {
    var s := WithField(fields, at, v);
    forall k | 0 <= k < |fields| ensures Accepts(s.fields[k], fields[k], nullsAsDefault) {
      if k != at {
        SampleAccepted(fields[k], nullsAsDefault);
      }
    }
  }

  /** A row that a lossy type takes and does not give back. It is accepted under a Nullable as well. */
  lemma {:induction false} Lossy(t: Type) returns (v: Value)
    requires ValidType(t) && !Lossless(t)
    ensures !v.Null? && Accepts(v, t, false) && Accepts(v, t, true) && Stored(v, t) != v
    decreases t
  {
    match t
    case NullableOf(inner) =>
      if !Lossless(inner) {
        v := Lossy(inner);
      } else {
        var k :| 0 <= k < |inner.fields| && !inner.fields[k].NullableOf?;
        v := WithField(inner.fields, k, Null);
        NullAccepted(inner.fields[k]);
        WithFieldAccepted(inner.fields, k, Null, true);
        DefaultIsNotNull(inner.fields[k]);
        assert Stored(v, t) == Stored(v, inner);
        assert Stored(v, inner).fields[k] == Stored(Null, inner.fields[k]);
      }
    case ArrayOf(element, _) =>
      var e := Lossy(element);
      v := List([e]);
      assert Stored(v, t).elements[0] == Stored(e, element);
    case TupleOf(fields) =>
      var k :| 0 <= k < |fields| && !Lossless(fields[k]);
      var f := Lossy(fields[k]);
      v := WithField(fields, k, f);
      WithFieldAccepted(fields, k, f, false);
      WithFieldAccepted(fields, k, f, true);
      assert Stored(v, t).fields[k] == Stored(f, fields[k]);
  }

  lemma DefaultIsNotNull(t: Type)
    requires !t.NullableOf?
    ensures Stored(Null, t) != Null
  {
  }

  /** Every row a column accepts is read back as it is exactly if its type has no Nullable Tuple with an element that is
      not Nullable. */
  lemma LosslessExactly(t: Type)
    requires ValidType(t)
    ensures (forall v :: Accepts(v, t, false) ==> Stored(v, t) == v) <==> Lossless(t)
  {
    hide Accepts, Stored, Lossless;
    if Lossless(t) {
      forall v | Accepts(v, t, false) ensures Stored(v, t) == v {
        StoredAsIs(v, t, false);
      }
    } else {
      var v := Lossy(t);
      assert Accepts(v, t, false) && Stored(v, t) != v;
    }
  }

  /** Nullable(Tuple(Int32)): the STRUCT {NULL} is read back as {0}. */
  lemma NullableTupleLoses()
    ensures var t := NullableOf(TupleOf([ScalarType]));
      ValidType(t) && Accepts(Struct([Null]), t, false) && Stored(Struct([Null]), t) == Struct([Num(0)])
  {
    var t := NullableOf(TupleOf([ScalarType]));
    assert Stored(Struct([Null]), TupleOf([ScalarType])).fields == [Num(0)];
  }
}
