/** What appending a vector's rows to a column comes to (src/clickhouse_writer.cpp), and why the parts make up the
    whole: the elements of the selected lists and where they end, one column appended to another, flags beside nested
    values, and a STRUCT's fields. Writer's methods are proved with these. */
module Appends {
  import opened Columns

  // ---------------------------------------------------------------- what an append is to do

  predicate InRange(source: Vector, sel: seq<nat>) {
    forall i :: 0 <= i < |sel| ==> sel[i] < Length(source)
  }

  ghost predicate Ready(source: Vector, sel: seq<nat>, t: Type) {
    ValidType(t) && WellFormed(source) && NullsReachDown(source) && Matches(source, t) && InRange(source, sel)
  }

  ghost predicate AllAccepted(source: Vector, sel: seq<nat>, t: Type, nullsAsDefault: bool)
    requires WellFormed(source) && InRange(source, sel)
  {
    forall i :: 0 <= i < |sel| ==> Accepts(ValueAt(source, sel[i]), t, nullsAsDefault)
  }

  /** The column has kept its rows and gained the selected ones. */
  ghost predicate Appended(before: Column, after: Column, source: Vector, sel: seq<nat>, t: Type)
    requires WellFormed(source) && InRange(source, sel) && Fits(before, t)
  {
    Fits(after, t) && Size(after) == Size(before) + |sel| &&
    (forall i :: 0 <= i < Size(before) ==> RowAt(after, t, i) == RowAt(before, t, i)) &&
    forall i :: 0 <= i < |sel| ==> RowAt(after, t, Size(before) + i) == Stored(ValueAt(source, sel[i]), t)
  }

  predicate IsNullRow(v: Vector, row: nat)
    requires WellFormed(v) && row < Length(v)
  {
    match v
    case ScalarVector(sel, validity, _) => !validity[sel[row]]
    case ListVector(sel, validity, _, _) => !validity[sel[row]]
    case StructVector(validity, _) => !validity[row]
  }

  lemma NullRow(v: Vector, row: nat)
    requires WellFormed(v) && row < Length(v)
    ensures IsNullRow(v, row) <==> ValueAt(v, row) == Null
  {
  }

  // ---------------------------------------------------------------- lists

  /** The positions of a row's elements in the child vector. */
  function ElementRange(source: Vector, row: nat): (r: seq<nat>)
    requires source.ListVector? && WellFormed(source) && row < Length(source)
    ensures forall k :: 0 <= k < |r| ==> r[k] < Length(source.child)
  {
    var index := source.sel[row];
    if !source.validity[index] then []
    else
      var e := source.entries[index];
      seq(e.length, k requires 0 <= k < e.length => e.offset + k)
  }

  function Positions(source: Vector, sel: seq<nat>): (r: seq<nat>)
    requires source.ListVector? && WellFormed(source) && InRange(source, sel)
    ensures forall k :: 0 <= k < |r| ==> r[k] < Length(source.child)
  {
    if sel == [] then []
    else Positions(source, sel[..|sel| - 1]) + ElementRange(source, sel[|sel| - 1])
  }

  /** How many elements the first `i` selected rows have. */
  function Before(source: Vector, sel: seq<nat>, i: nat): nat
    requires source.ListVector? && WellFormed(source) && InRange(source, sel) && i <= |sel|
  {
    |Positions(source, sel[..i])|
  }

  lemma PositionsSnoc(source: Vector, sel: seq<nat>, i: nat)
    requires source.ListVector? && WellFormed(source) && InRange(source, sel) && i < |sel|
    ensures Positions(source, sel[..i + 1]) == Positions(source, sel[..i]) + ElementRange(source, sel[i])
    ensures Before(source, sel, i + 1) == Before(source, sel, i) + |ElementRange(source, sel[i])|
  {
    assert sel[..i + 1][..i] == sel[..i];
  }

  lemma PositionsAll(source: Vector, sel: seq<nat>)
    requires source.ListVector? && WellFormed(source) && InRange(source, sel)
    ensures Positions(source, sel[..|sel|]) == Positions(source, sel)
    ensures Before(source, sel, |sel|) == |Positions(source, sel)| && Before(source, sel, 0) == 0
  {
    assert sel[..|sel|] == sel;
  }

  lemma {:induction false} PositionsPrefix(source: Vector, sel: seq<nat>, i: nat, j: nat)
    requires source.ListVector? && WellFormed(source) && InRange(source, sel) && i <= j <= |sel|
    ensures Before(source, sel, i) <= Before(source, sel, j)
    ensures Positions(source, sel[..j])[..Before(source, sel, i)] == Positions(source, sel[..i])
    decreases j - i
  {
    hide Positions, ElementRange, WellFormed;
    if i < j {
      PositionsPrefix(source, sel, i, j - 1);
      PositionsSnoc(source, sel, j - 1);
      PrefixOf(Positions(source, sel[..j - 1]), ElementRange(source, sel[j - 1]), Before(source, sel, i));
    } else {
      assert Positions(source, sel[..j])[..|Positions(source, sel[..j])|] == Positions(source, sel[..j]);
    }
  }

  lemma PrefixOf(a: seq<nat>, b: seq<nat>, n: nat)
    requires n <= |a|
    ensures (a + b)[..n] == a[..n]
  {
  }

  /** Where a row's elements are among all those appended. */
  lemma PositionOf(source: Vector, sel: seq<nat>, i: nat, k: nat)
    requires source.ListVector? && WellFormed(source) && InRange(source, sel) && i < |sel|
    requires k < |ElementRange(source, sel[i])|
    ensures Before(source, sel, i) + k < |Positions(source, sel)|
    ensures Positions(source, sel)[Before(source, sel, i) + k] == ElementRange(source, sel[i])[k]
  {
    hide Positions, ElementRange, WellFormed;
    PositionsAll(source, sel);
    PositionsPrefix(source, sel, i + 1, |sel|);
    PositionsSnoc(source, sel, i);
    var whole, upTo := Positions(source, sel), Positions(source, sel[..i + 1]);
    assert whole[..|upTo|][Before(source, sel, i) + k] == upTo[Before(source, sel, i) + k];
  }

  lemma NoPositions(source: Vector, sel: seq<nat>)
    requires source.ListVector? && WellFormed(source) && InRange(source, sel)
    ensures Positions(source, sel[..0]) == []
  {
  }

  /** The ends of an append: absolute in the data column, which has `base` elements before it. */
  ghost predicate EndsAppend(source: Vector, sel: seq<nat>, ends: seq<nat>, base: nat, r: seq<nat>)
    requires source.ListVector? && WellFormed(source) && InRange(source, sel)
  {
    |r| == |ends| + |sel| && r[..|ends|] == ends &&
    forall j :: |ends| <= j < |r| ==> r[j] == base + Before(source, sel, j - |ends| + 1)
  }

  /** Where each row starts after an append. */
  lemma EndsAppended(source: Vector, sel: seq<nat>, ends: seq<nat>, base: nat, r: seq<nat>)
    requires source.ListVector? && WellFormed(source) && InRange(source, sel)
    requires Ascending(ends) && StartOf(ends, |ends|) == base && EndsAppend(source, sel, ends, base, r)
    ensures Ascending(r) && StartOf(r, |r|) == base + |Positions(source, sel)|
    ensures forall i :: 0 <= i <= |ends| ==> StartOf(r, i) == StartOf(ends, i)
    ensures forall j :: |ends| <= j <= |r| ==> StartOf(r, j) == base + Before(source, sel, j - |ends|)
  {
    hide Positions, Before, WellFormed;
    PositionsAll(source, sel);
    assert forall k :: 0 <= k < |ends| ==> r[k] == r[..|ends|][k] == ends[k];
    forall j, k | 0 <= j <= k < |r| ensures r[j] <= r[k] {
      if |ends| <= j {
        PositionsPrefix(source, sel, j - |ends| + 1, k - |ends| + 1);
      } else if |ends| <= k {
        assert ends[j] <= ends[|ends| - 1] == base;
      }
    }
  }

  /** A row of the array after the append. */
  lemma AppendedList(source: Vector, sel: seq<nat>, element: Type, isMap: bool, before: Column, after: Column, i: nat)
    requires Ready(source, sel, ArrayOf(element, isMap)) && Fits(before, ArrayOf(element, isMap)) && i < |sel|
    requires Fits(after, ArrayOf(element, isMap)) && |after.ends| == |before.ends| + |sel|
    requires Appended(before.data, after.data, source.child, Positions(source, sel), element)
    requires StartOf(after.ends, |before.ends| + i) == Size(before.data) + Before(source, sel, i)
    requires after.ends[|before.ends| + i] == Size(before.data) + Before(source, sel, i + 1)
    ensures RowAt(after, ArrayOf(element, isMap), |before.ends| + i) ==
      Stored(ValueAt(source, sel[i]), ArrayOf(element, isMap))
  {
    hide Positions, Before, Appended, NullsReachDown;
    var row := RowAt(after, ArrayOf(element, isMap), |before.ends| + i);
    var v := ValueAt(source, sel[i]);
    PositionsSnoc(source, sel, i);
    var stored := Stored(v, ArrayOf(element, isMap));
    assert |row.elements| == |stored.elements|;
    forall k | 0 <= k < |row.elements| ensures row.elements[k] == stored.elements[k] {
      PositionOf(source, sel, i, k);
      ElementAppended(before.data, after.data, source.child, Positions(source, sel), element,
                      Before(source, sel, i) + k);
    }
    assert row.elements == stored.elements;
  }

  lemma ElementAppended(before: Column, after: Column, source: Vector, sel: seq<nat>, t: Type, i: nat)
    requires WellFormed(source) && InRange(source, sel) && Fits(before, t) && i < |sel|
    requires Appended(before, after, source, sel, t)
    ensures Fits(after, t) && Size(before) + i < Size(after)
    ensures RowAt(after, t, Size(before) + i) == Stored(ValueAt(source, sel[i]), t)
  {
    hide RowAt, Stored, ValueAt, Fits, Size, WellFormed;
  }

  lemma ElementAppendedAt(before: Column, after: Column, source: Vector, sel: seq<nat>, t: Type, i: nat, j: nat)
    requires WellFormed(source) && InRange(source, sel) && Fits(before, t) && i < |sel| && j == Size(before) + i
    requires Appended(before, after, source, sel, t)
    ensures Fits(after, t) && j < Size(after) && RowAt(after, t, j) == Stored(ValueAt(source, sel[i]), t)
  {
    hide RowAt, Stored, ValueAt, Fits, Size, WellFormed, Appended;
    ElementAppended(before, after, source, sel, t, i);
  }

  lemma ElementKept(before: Column, after: Column, source: Vector, sel: seq<nat>, t: Type, i: nat)
    requires WellFormed(source) && InRange(source, sel) && Fits(before, t) && i < Size(before)
    requires Appended(before, after, source, sel, t)
    ensures Fits(after, t) && i < Size(after) && RowAt(after, t, i) == RowAt(before, t, i)
  {
    hide RowAt, Stored, ValueAt, Fits, Size, WellFormed;
  }

  lemma AcceptedElements(source: Vector, sel: seq<nat>, element: Type, isMap: bool, nullsAsDefault: bool)
    requires Ready(source, sel, ArrayOf(element, isMap))
    ensures InRange(source.child, Positions(source, sel))
    ensures AllAccepted(source, sel, ArrayOf(element, isMap), nullsAsDefault) <==>
            (nullsAsDefault || forall i :: 0 <= i < |sel| ==> !IsNullRow(source, sel[i])) &&
            AllAccepted(source.child, Positions(source, sel), element, false)
  {
    hide Positions, NullsReachDown;
    var elements := Positions(source, sel);
    if AllAccepted(source.child, elements, element, false) {
      forall i | 0 <= i < |sel| && (nullsAsDefault || !IsNullRow(source, sel[i]))
        ensures Accepts(ValueAt(source, sel[i]), ArrayOf(element, isMap), nullsAsDefault)
      {
        RowAccepted(source, sel, element, isMap, nullsAsDefault, i);
      }
    }
    if AllAccepted(source, sel, ArrayOf(element, isMap), nullsAsDefault) {
      ElementsAccepted(source, sel, element, isMap, nullsAsDefault);
      forall i | 0 <= i < |sel| ensures nullsAsDefault || !IsNullRow(source, sel[i]) {
        NullRow(source, sel[i]);
      }
    }
  }

  lemma RowAccepted(source: Vector, sel: seq<nat>, element: Type, isMap: bool, nullsAsDefault: bool, i: nat)
    requires Ready(source, sel, ArrayOf(element, isMap)) && i < |sel| && InRange(source.child, Positions(source, sel))
    requires AllAccepted(source.child, Positions(source, sel), element, false)
    requires nullsAsDefault || !IsNullRow(source, sel[i])
    ensures Accepts(ValueAt(source, sel[i]), ArrayOf(element, isMap), nullsAsDefault)
  {
    hide Positions, Before, NullsReachDown;
    NullRow(source, sel[i]);
    var v := ValueAt(source, sel[i]);
    if !v.Null? {
      forall k | 0 <= k < |v.elements| ensures Accepts(v.elements[k], element, false) {
        PositionOf(source, sel, i, k);
        assert Accepts(ValueAt(source.child, Positions(source, sel)[Before(source, sel, i) + k]), element, false);
      }
    }
  }

  lemma {:induction false} ElementsAccepted(source: Vector, sel: seq<nat>, element: Type, isMap: bool,
                                            nullsAsDefault: bool)
    requires source.ListVector?
    requires Ready(source, sel, ArrayOf(element, isMap)) &&
      AllAccepted(source, sel, ArrayOf(element, isMap), nullsAsDefault)
    ensures InRange(source.child, Positions(source, sel))
    ensures AllAccepted(source.child, Positions(source, sel), element, false)
    decreases |sel|
  {
    hide NullsReachDown, Matches;
    if sel != [] {
      var n := |sel| - 1;
      var before := sel[..n];
      ElementsAccepted(source, before, element, isMap, nullsAsDefault);
      var range := ElementRange(source, sel[n]);
      var v := ValueAt(source, sel[n]);
      assert Accepts(v, ArrayOf(element, isMap), nullsAsDefault);
      forall k | 0 <= k < |range| ensures Accepts(ValueAt(source.child, range[k]), element, false) {
        assert v.elements[k] == ValueAt(source.child, range[k]);
      }
    }
  }

  /** The array after an append is one. */
  lemma ArrayFits(source: Vector, sel: seq<nat>, element: Type, isMap: bool, before: Column, after: Column)
    requires source.ListVector?
    requires Ready(source, sel, ArrayOf(element, isMap)) && Fits(before, ArrayOf(element, isMap)) && after.Arrays?
    requires InRange(source.child, Positions(source, sel))
    requires Appended(before.data, after.data, source.child, Positions(source, sel), element)
    requires EndsAppend(source, sel, before.ends, Size(before.data), after.ends)
    ensures Appended(before, after, source, sel, ArrayOf(element, isMap))
  {
    hide Positions, Before, NullsReachDown, Matches, Stored;
    EndsAppended(source, sel, before.ends, Size(before.data), after.ends);
    assert Fits(after, ArrayOf(element, isMap));
    forall i | 0 <= i < Size(before)
      ensures RowAt(after, ArrayOf(element, isMap), i) == RowAt(before, ArrayOf(element, isMap), i)
    {
      OldList(before, after, element, isMap, i);
    }
    forall i | 0 <= i < |sel|
      ensures RowAt(after, ArrayOf(element, isMap), Size(before) + i) ==
        Stored(ValueAt(source, sel[i]), ArrayOf(element, isMap))
    {
      assert StartOf(after.ends, |before.ends| + i + 1) == after.ends[|before.ends| + i];
      ListAppended(source, sel, element, isMap, before, after, i);
    }
  }

  lemma ListAppended(source: Vector, sel: seq<nat>, element: Type, isMap: bool, before: Column, after: Column, i: nat)
    requires Ready(source, sel, ArrayOf(element, isMap)) && Fits(before, ArrayOf(element, isMap)) && i < |sel|
    requires Fits(after, ArrayOf(element, isMap)) && |after.ends| == |before.ends| + |sel|
    requires InRange(source.child, Positions(source, sel))
    requires Appended(before.data, after.data, source.child, Positions(source, sel), element)
    requires forall j :: |before.ends| <= j <= |after.ends| ==>
      StartOf(after.ends, j) == Size(before.data) + Before(source, sel, j - |before.ends|)
    ensures RowAt(after, ArrayOf(element, isMap), |before.ends| + i) ==
      Stored(ValueAt(source, sel[i]), ArrayOf(element, isMap))
  {
    hide Positions, Before, NullsReachDown, Matches, Stored, Appended;
    assert StartOf(after.ends, |before.ends| + i + 1) == after.ends[|before.ends| + i];
    AppendedList(source, sel, element, isMap, before, after, i);
  }

  lemma OldList(before: Column, after: Column, element: Type, isMap: bool, i: nat)
    requires Fits(before, ArrayOf(element, isMap)) && Fits(after, ArrayOf(element, isMap))
    requires i < |before.ends| <= |after.ends|
    requires after.ends[..|before.ends|] == before.ends && Size(before.data) <= Size(after.data)
    requires forall k :: 0 <= k < Size(before.data) ==> RowAt(after.data, element, k) == RowAt(before.data, element, k)
    ensures RowAt(after, ArrayOf(element, isMap), i) == RowAt(before, ArrayOf(element, isMap), i)
  {
    ListRow(before, element, isMap, i);
    ListRow(after, element, isMap, i);
    hide RowAt, Fits;
    assert forall k :: 0 <= k < |before.ends| ==> after.ends[k] == after.ends[..|before.ends|][k] == before.ends[k];
    var a, b := RowAt(after, ArrayOf(element, isMap), i), RowAt(before, ArrayOf(element, isMap), i);
    assert StartOf(after.ends, i) == StartOf(before.ends, i);
    assert |a.elements| == |b.elements|;
    assert a.elements == b.elements;
  }

  // ---------------------------------------------------------------- appending one column to another

  function Shifted(ends: seq<nat>, shift: nat): (r: seq<nat>)
    ensures |r| == |ends| && forall k :: 0 <= k < |r| ==> r[k] == shift + ends[k]
  {
    seq(|ends|, k requires 0 <= k < |ends| => shift + ends[k])
  }

  lemma ConcatEnds(a: seq<nat>, b: seq<nat>, sizeA: nat, sizeB: nat)
    requires Ascending(a) && Ascending(b) && StartOf(a, |a|) == sizeA && StartOf(b, |b|) == sizeB
    ensures var c := a + Shifted(b, sizeA);
      Ascending(c) && StartOf(c, |c|) == sizeA + sizeB &&
      (forall i :: 0 <= i <= |a| ==> StartOf(c, i) == StartOf(a, i)) &&
      forall j :: |a| <= j <= |c| ==> StartOf(c, j) == sizeA + StartOf(b, j - |a|)
  {
    var c := a + Shifted(b, sizeA);
    forall j, k | 0 <= j <= k < |c| ensures c[j] <= c[k] {
      if j < |a| <= k {
        assert a[j] <= a[|a| - 1] == sizeA;
      }
    }
  }

  /** A column's rows after another's: what Column::Append does. */
  function Concat(a: Column, b: Column, t: Type): (c: Column)
    requires Fits(a, t) && Fits(b, t)
    ensures Fits(c, t) && Size(c) == Size(a) + Size(b)
    decreases t
  {
    match t
    case ScalarType => Scalars(a.numbers + b.numbers)
    case NullableOf(inner) => Nullable(a.flags + b.flags, Concat(a.nested, b.nested, inner))
    case ArrayOf(element, _) =>
      ConcatEnds(a.ends, b.ends, Size(a.data), Size(b.data));
      Arrays(a.ends + Shifted(b.ends, Size(a.data)), Concat(a.data, b.data, element))
    case TupleOf(fields) =>
      Tuples(seq(|fields|, k requires 0 <= k < |fields| => Concat(a.fields[k], b.fields[k], fields[k])))
  }

  /** Rows of the first column stay, rows of the second follow. */
  ghost predicate Follows(a: Column, b: Column, c: Column, t: Type)
    requires Fits(a, t) && Fits(b, t) && Fits(c, t) && Size(c) == Size(a) + Size(b)
  {
    (forall i :: 0 <= i < Size(a) ==> RowAt(c, t, i) == RowAt(a, t, i)) &&
    forall j :: Size(a) <= j < Size(c) ==> RowAt(c, t, j) == RowAt(b, t, j - Size(a))
  }

  lemma {:induction false} ConcatFollows(a: Column, b: Column, t: Type)
    requires Fits(a, t) && Fits(b, t)
    ensures Follows(a, b, Concat(a, b, t), t)
    decreases t
  {
    hide Follows;
    var c := Concat(a, b, t);
    match t
    case ScalarType => ScalarsFollow(a, b, c);
    case NullableOf(inner) =>
      ConcatFollows(a.nested, b.nested, inner);
      NullablesFollow(a, b, c, inner);
    case ArrayOf(element, isMap) =>
      ConcatFollows(a.data, b.data, element);
      ArraysFollow(a, b, c, t);
    case TupleOf(fields) =>
      forall k | 0 <= k < |fields|
        ensures Size(c.fields[k]) == Size(a.fields[k]) + Size(b.fields[k])
        ensures Follows(a.fields[k], b.fields[k], c.fields[k], fields[k])
      {
        ConcatFollows(a.fields[k], b.fields[k], fields[k]);
      }
      TuplesFollow(a, b, c, fields);
  }

  lemma FollowsIntro(a: Column, b: Column, c: Column, t: Type)
    requires Fits(a, t) && Fits(b, t) && Fits(c, t) && Size(c) == Size(a) + Size(b)
    requires forall i :: 0 <= i < Size(a) ==> RowAt(c, t, i) == RowAt(a, t, i)
    requires forall j :: Size(a) <= j < Size(c) ==> RowAt(c, t, j) == RowAt(b, t, j - Size(a))
    ensures Follows(a, b, c, t)
  {
    hide RowAt, Fits, Size;
  }

  lemma ScalarRow(a: Column, b: Column, i: nat)
    requires a.Scalars? && b.Scalars?
    ensures var c := Scalars(a.numbers + b.numbers);
      (i < Size(a) ==> i < Size(c) && RowAt(c, ScalarType, i) == RowAt(a, ScalarType, i)) &&
      (Size(a) <= i < Size(c) ==> i - Size(a) < Size(b) && RowAt(c, ScalarType, i) == RowAt(b, ScalarType, i - Size(a)))
  {
  }

  lemma ScalarsFollow(a: Column, b: Column, c: Column)
    requires a.Scalars? && b.Scalars? && c == Scalars(a.numbers + b.numbers)
    requires Fits(a, ScalarType) && Fits(b, ScalarType) && Fits(c, ScalarType) && Size(c) == Size(a) + Size(b)
    ensures Follows(a, b, c, ScalarType)
  {
    hide RowAt, Fits, Follows, Size;
    forall i | 0 <= i < Size(a) ensures RowAt(c, ScalarType, i) == RowAt(a, ScalarType, i) {
      ScalarRow(a, b, i);
    }
    forall j | Size(a) <= j < Size(c) ensures RowAt(c, ScalarType, j) == RowAt(b, ScalarType, j - Size(a)) {
      ScalarRow(a, b, j);
    }
    FollowsIntro(a, b, c, ScalarType);
  }

  lemma NullableParts(c: Column, inner: Type)
    requires Fits(c, NullableOf(inner))
    ensures c.Nullable? && Fits(c.nested, inner) && Size(c.nested) == Size(c) == |c.flags|
  {
  }

  lemma NullablesFollow(a: Column, b: Column, c: Column, inner: Type)
    requires Fits(a, NullableOf(inner)) && Fits(b, NullableOf(inner)) && Fits(c, NullableOf(inner))
    requires c.flags == a.flags + b.flags && Size(c.nested) == Size(a.nested) + Size(b.nested)
    requires Follows(a.nested, b.nested, c.nested, inner)
    ensures Follows(a, b, c, NullableOf(inner))
  {
    hide RowAt, Fits, Size, Follows;
    var t := NullableOf(inner);
    NullableParts(a, inner);
    NullableParts(b, inner);
    NullableParts(c, inner);
    forall i | 0 <= i < Size(a) ensures RowAt(c, t, i) == RowAt(a, t, i) {
      NullableRow(c, inner, i);
      NullableRow(a, inner, i);
      EarlierRow(a.nested, b.nested, c.nested, inner, i);
    }
    forall j | Size(a) <= j < Size(c) ensures RowAt(c, t, j) == RowAt(b, t, j - Size(a)) {
      var i := j - Size(a);
      NullableRow(c, inner, j);
      NullableRow(b, inner, i);
      FollowingRow(a.nested, b.nested, c.nested, inner, i);
    }
    FollowsIntro(a, b, c, t);
  }

  /** Two arrays and one with the rows of both. */
  ghost predicate Joined(a: Column, b: Column, c: Column, t: Type)
    requires t.ArrayOf? && Fits(a, t) && Fits(b, t) && Fits(c, t)
  {
    c.ends == a.ends + Shifted(b.ends, Size(a.data)) && Size(c.data) == Size(a.data) + Size(b.data) &&
    Follows(a.data, b.data, c.data, t.element)
  }

  lemma ArraysFollow(a: Column, b: Column, c: Column, t: Type)
    requires t.ArrayOf? && Fits(a, t) && Fits(b, t) && Fits(c, t) && Joined(a, b, c, t)
    ensures Size(c) == Size(a) + Size(b) && Follows(a, b, c, t)
  {
    hide RowAt, Fits, Joined, Size, Follows;
    JoinedSize(a, b, c, t);
    forall i | 0 <= i < Size(a) ensures RowAt(c, t, i) == RowAt(a, t, i) {
      JoinedOld(a, b, c, t, i);
    }
    forall j | Size(a) <= j < Size(c) ensures RowAt(c, t, j) == RowAt(b, t, j - Size(a)) {
      JoinedNew(a, b, c, t, j);
    }
    FollowsIntro(a, b, c, t);
  }

  lemma JoinedSize(a: Column, b: Column, c: Column, t: Type)
    requires t.ArrayOf? && Fits(a, t) && Fits(b, t) && Fits(c, t) && Joined(a, b, c, t)
    ensures Size(c) == Size(a) + Size(b)
  {
  }

  lemma JoinedOld(a: Column, b: Column, c: Column, t: Type, i: nat)
    requires t.ArrayOf? && Fits(a, t) && Fits(b, t) && Fits(c, t) && Joined(a, b, c, t) && i < Size(a)
    ensures i < Size(c) && RowAt(c, t, i) == RowAt(a, t, i)
  {
    hide RowAt;
    assert c.ends[..|a.ends|] == a.ends;
    OldList(a, c, t.element, t.isMap, i);
  }

  lemma JoinedNew(a: Column, b: Column, c: Column, t: Type, j: nat)
    requires t.ArrayOf? && Fits(a, t) && Fits(b, t) && Fits(c, t) && Joined(a, b, c, t)
    requires Size(c) == Size(a) + Size(b) && Size(a) <= j < Size(c)
    ensures RowAt(c, t, j) == RowAt(b, t, j - Size(a))
  {
    hide RowAt;
    ConcatEnds(a.ends, b.ends, Size(a.data), Size(b.data));
    NewList(a, b, c, t.element, t.isMap, j);
  }

  lemma NewList(a: Column, b: Column, c: Column, element: Type, isMap: bool, j: nat)
    requires var t := ArrayOf(element, isMap); Fits(a, t) && Fits(b, t) && Fits(c, t)
    requires c.ends == a.ends + Shifted(b.ends, Size(a.data)) && Size(c.data) == Size(a.data) + Size(b.data)
    requires forall k :: Size(a.data) <= k < Size(c.data) ==>
      RowAt(c.data, element, k) == RowAt(b.data, element, k - Size(a.data))
    requires |a.ends| <= j < |c.ends| && StartOf(c.ends, j) == Size(a.data) + StartOf(b.ends, j - |a.ends|)
    ensures RowAt(c, ArrayOf(element, isMap), j) == RowAt(b, ArrayOf(element, isMap), j - |a.ends|)
  {
    ListRow(c, element, isMap, j);
    ListRow(b, element, isMap, j - |a.ends|);
    hide RowAt, Fits;
    var x, y := RowAt(c, ArrayOf(element, isMap), j), RowAt(b, ArrayOf(element, isMap), j - |a.ends|);
    assert |x.elements| == |y.elements|;
    forall k | 0 <= k < |x.elements| ensures x.elements[k] == y.elements[k] {
      assert RowAt(c.data, element, StartOf(c.ends, j) + k) ==
             RowAt(b.data, element, StartOf(c.ends, j) + k - Size(a.data));
    }
    assert x.elements == y.elements;
  }

  /** Every field of one tuple column follows those of another. */
  ghost predicate FieldsFollow(a: Column, b: Column, c: Column, fields: seq<Type>)
    requires Fits(a, TupleOf(fields)) && Fits(b, TupleOf(fields)) && Fits(c, TupleOf(fields))
  {
    Size(c) == Size(a) + Size(b) &&
    forall k :: 0 <= k < |fields| ==>
      Size(c.fields[k]) == Size(a.fields[k]) + Size(b.fields[k]) &&
      Follows(a.fields[k], b.fields[k], c.fields[k], fields[k])
  }

  lemma TupleParts(c: Column, fields: seq<Type>)
    requires Fits(c, TupleOf(fields))
    ensures c.Tuples? && |c.fields| == |fields|
    ensures forall k :: 0 <= k < |fields| ==> Fits(c.fields[k], fields[k]) && Size(c.fields[k]) == Size(c)
  {
  }

  lemma OldTuple(a: Column, b: Column, c: Column, fields: seq<Type>, i: nat)
    requires Fits(a, TupleOf(fields)) && Fits(b, TupleOf(fields)) && Fits(c, TupleOf(fields))
    requires FieldsFollow(a, b, c, fields) && i < Size(a)
    ensures i < Size(c) && RowAt(c, TupleOf(fields), i) == RowAt(a, TupleOf(fields), i)
  {
    hide RowAt, Fits, Size, Follows;
    TupleParts(a, fields);
    TupleParts(b, fields);
    TupleParts(c, fields);
    TupleRow(c, fields, i);
    TupleRow(a, fields, i);
    var x, y := RowAt(c, TupleOf(fields), i), RowAt(a, TupleOf(fields), i);
    forall k | 0 <= k < |fields| ensures x.fields[k] == y.fields[k] {
      EarlierRow(a.fields[k], b.fields[k], c.fields[k], fields[k], i);
    }
    assert x.fields == y.fields;
  }

  lemma NewTuple(a: Column, b: Column, c: Column, fields: seq<Type>, j: nat)
    requires Fits(a, TupleOf(fields)) && Fits(b, TupleOf(fields)) && Fits(c, TupleOf(fields))
    requires FieldsFollow(a, b, c, fields) && Size(a) <= j < Size(c)
    ensures RowAt(c, TupleOf(fields), j) == RowAt(b, TupleOf(fields), j - Size(a))
  {
    hide RowAt, Fits, Size, Follows;
    TupleParts(a, fields);
    TupleParts(b, fields);
    TupleParts(c, fields);
    var i := j - Size(a);
    TupleRow(c, fields, j);
    TupleRow(b, fields, i);
    var x, y := RowAt(c, TupleOf(fields), j), RowAt(b, TupleOf(fields), i);
    forall k | 0 <= k < |fields| ensures x.fields[k] == y.fields[k] {
      FollowingRow(a.fields[k], b.fields[k], c.fields[k], fields[k], i);
    }
    assert x.fields == y.fields;
  }

  lemma TuplesFollow(a: Column, b: Column, c: Column, fields: seq<Type>)
    requires Fits(a, TupleOf(fields)) && Fits(b, TupleOf(fields)) && Fits(c, TupleOf(fields))
    requires Size(c) == Size(a) + Size(b) && FieldsFollow(a, b, c, fields)
    ensures Follows(a, b, c, TupleOf(fields))
  {
    hide RowAt, Fits, Size, FieldsFollow, Follows;
    forall i | 0 <= i < Size(a) ensures RowAt(c, TupleOf(fields), i) == RowAt(a, TupleOf(fields), i) {
      OldTuple(a, b, c, fields, i);
    }
    forall j | Size(a) <= j < Size(c)
      ensures RowAt(c, TupleOf(fields), j) == RowAt(b, TupleOf(fields), j - Size(a))
    {
      NewTuple(a, b, c, fields, j);
    }
    FollowsIntro(a, b, c, TupleOf(fields));
  }

  /** A filled column with the selected rows, put after another. */
  lemma AppendedThrough(before: Column, filled: Column, source: Vector, sel: seq<nat>, t: Type)
    requires Ready(source, sel, t) && Fits(before, t) && Appended(Empty(t), filled, source, sel, t)
    ensures Appended(before, Concat(before, filled, t), source, sel, t)
  {
    var none := Empty(t);
    assert Size(none) == 0 && Fits(none, t);
    assert Fits(filled, t) && Size(filled) == |sel|;
    hide *;
    ConcatFollows(before, filled, t);
    ThroughRows(before, none, filled, Concat(before, filled, t), source, sel, t);
  }

  lemma ThroughRow(before: Column, none: Column, filled: Column, after: Column, source: Vector, sel: seq<nat>, t: Type,
                   i: nat)
    requires WellFormed(source) && InRange(source, sel) && Fits(before, t) && Fits(none, t) && Size(none) == 0
    requires Appended(none, filled, source, sel, t) && i < |sel|
    requires Fits(after, t) && Size(after) == Size(before) + Size(filled) && Follows(before, filled, after, t)
    ensures Size(before) + i < Size(after)
    ensures RowAt(after, t, Size(before) + i) == Stored(ValueAt(source, sel[i]), t)
  {
    hide WellFormed, RowAt, Stored, ValueAt, Fits, Size, Follows;
    FollowingRow(before, filled, after, t, i);
    AppendedRow(none, filled, source, sel, t, i);
  }

  lemma ThroughRows(before: Column, none: Column, filled: Column, after: Column, source: Vector, sel: seq<nat>, t: Type)
    requires WellFormed(source) && InRange(source, sel) && Fits(before, t) && Fits(none, t) && Size(none) == 0
    requires Appended(none, filled, source, sel, t) && Fits(filled, t) && Size(filled) == |sel|
    requires Fits(after, t) && Size(after) == Size(before) + Size(filled) && Follows(before, filled, after, t)
    ensures Appended(before, after, source, sel, t)
  {
    hide Appended, Follows, RowAt, Stored, ValueAt, Fits, Size, WellFormed;
    forall i | 0 <= i < Size(before) ensures RowAt(after, t, i) == RowAt(before, t, i) {
      EarlierRow(before, filled, after, t, i);
    }
    forall i | 0 <= i < |sel| ensures RowAt(after, t, Size(before) + i) == Stored(ValueAt(source, sel[i]), t) {
      ThroughRow(before, none, filled, after, source, sel, t, i);
    }
    AppendedIntro(before, after, source, sel, t);
  }

  lemma AppendedIntro(before: Column, after: Column, source: Vector, sel: seq<nat>, t: Type)
    requires WellFormed(source) && InRange(source, sel) && Fits(before, t)
    requires Fits(after, t) && Size(after) == Size(before) + |sel|
    requires forall i :: 0 <= i < Size(before) ==> RowAt(after, t, i) == RowAt(before, t, i)
    requires forall i :: 0 <= i < |sel| ==> RowAt(after, t, Size(before) + i) == Stored(ValueAt(source, sel[i]), t)
    ensures Appended(before, after, source, sel, t)
  {
    hide RowAt, Stored, ValueAt, Fits, Size, WellFormed;
  }

  lemma AppendedRow(before: Column, after: Column, source: Vector, sel: seq<nat>, t: Type, i: nat)
    requires WellFormed(source) && InRange(source, sel) && Fits(before, t) && Appended(before, after, source, sel, t)
    requires Size(before) == 0 && i < |sel|
    ensures Fits(after, t) && i < Size(after) && RowAt(after, t, i) == Stored(ValueAt(source, sel[i]), t)
  {
    hide RowAt, Stored, ValueAt, Fits, Size, WellFormed;
    assert RowAt(after, t, Size(before) + i) == Stored(ValueAt(source, sel[i]), t);
  }

  lemma EarlierRow(a: Column, b: Column, c: Column, t: Type, i: nat)
    requires Fits(a, t) && Fits(b, t) && Fits(c, t) && Size(c) == Size(a) + Size(b) && Follows(a, b, c, t)
    requires i < Size(a)
    ensures RowAt(c, t, i) == RowAt(a, t, i)
  {
    hide RowAt, Fits, Size;
  }

  lemma FollowingRow(a: Column, b: Column, c: Column, t: Type, i: nat)
    requires Fits(a, t) && Fits(b, t) && Fits(c, t) && Size(c) == Size(a) + Size(b) && Follows(a, b, c, t)
    requires i < Size(b)
    ensures RowAt(c, t, Size(a) + i) == RowAt(b, t, i)
  {
    hide RowAt, Fits, Size;
    var j := Size(a) + i;
    assert RowAt(c, t, j) == RowAt(b, t, j - Size(a));
  }

  // ---------------------------------------------------------------- Nullable and Tuple columns

  /** A Nullable column with new flags and values. */
  ghost predicate FlagsAppended(before: Column, after: Column, source: Vector, sel: seq<nat>)
    requires WellFormed(source) && InRange(source, sel) && before.Nullable? && after.Nullable?
  {
    |after.flags| == |before.flags| + |sel| && after.flags[..|before.flags|] == before.flags &&
    forall j :: |before.flags| <= j < |after.flags| ==>
      after.flags[j] == IsNullRow(source, sel[j - |before.flags|])
  }

  lemma NullableAfter(before: Column, after: Column, source: Vector, sel: seq<nat>, inner: Type)
    requires WellFormed(source) && InRange(source, sel) && Fits(before, NullableOf(inner)) && after.Nullable?
    requires FlagsAppended(before, after, source, sel)
    requires Appended(before.nested, after.nested, source, sel, inner)
    ensures Fits(after, NullableOf(inner)) && Size(after) == Size(before) + |sel|
  {
    hide WellFormed, ValueAt, Stored, RowAt;
  }

  lemma NullableAppended(before: Column, after: Column, source: Vector, sel: seq<nat>, inner: Type)
    requires Ready(source, sel, NullableOf(inner)) && Fits(before, NullableOf(inner)) && after.Nullable?
    requires FlagsAppended(before, after, source, sel)
    requires Appended(before.nested, after.nested, source, sel, inner)
    ensures Appended(before, after, source, sel, NullableOf(inner))
  {
    var t := NullableOf(inner);
    hide RowAt, Fits, Size, ValueAt, Stored, FlagsAppended, Appended, WellFormed, NullsReachDown, Matches, ValidType;
    NullableAfter(before, after, source, sel, inner);
    forall i | 0 <= i < Size(before) ensures RowAt(after, t, i) == RowAt(before, t, i) {
      OldNullable(before, after, source, sel, inner, i);
    }
    forall i | 0 <= i < |sel| ensures RowAt(after, t, Size(before) + i) == Stored(ValueAt(source, sel[i]), t) {
      NewNullable(before, after, source, sel, inner, i);
    }
    AppendedIntro(before, after, source, sel, t);
  }

  lemma OldNullable(before: Column, after: Column, source: Vector, sel: seq<nat>, inner: Type, i: nat)
    requires WellFormed(source) && InRange(source, sel) && Fits(before, NullableOf(inner)) &&
      Fits(after, NullableOf(inner))
    requires FlagsAppended(before, after, source, sel) && i < Size(before)
    requires Appended(before.nested, after.nested, source, sel, inner)
    ensures i < Size(after) && RowAt(after, NullableOf(inner), i) == RowAt(before, NullableOf(inner), i)
  {
    assert after.flags[i] == after.flags[..|before.flags|][i] == before.flags[i];
    assert Size(before.nested) == Size(before) && Size(after) == |after.flags|;
    hide RowAt, ValueAt, Stored, WellFormed, Fits, Appended, FlagsAppended;
    NullableRow(after, inner, i);
    NullableRow(before, inner, i);
    ElementKept(before.nested, after.nested, source, sel, inner, i);
  }

  lemma NewNullable(before: Column, after: Column, source: Vector, sel: seq<nat>, inner: Type, i: nat)
    requires WellFormed(source) && InRange(source, sel) && Fits(before, NullableOf(inner)) &&
      Fits(after, NullableOf(inner))
    requires FlagsAppended(before, after, source, sel) && i < |sel|
    requires Appended(before.nested, after.nested, source, sel, inner)
    ensures Size(before) + i < Size(after)
    ensures RowAt(after, NullableOf(inner), Size(before) + i) == Stored(ValueAt(source, sel[i]), NullableOf(inner))
  {
    var j := NewFlag(before, after, source, sel, inner, i);
    hide Stored, ValueAt, RowAt, Fits, Size, WellFormed, IsNullRow, Appended, FlagsAppended;
    NullableParts(before, inner);
    NullableParts(after, inner);
    assert j < Size(after);
    NullableRow(after, inner, j);
    NullRow(source, sel[i]);
    ElementAppendedAt(before.nested, after.nested, source, sel, inner, i, j);
    StoredNullable(ValueAt(source, sel[i]), inner);
  }

  lemma NewFlag(before: Column, after: Column, source: Vector, sel: seq<nat>, inner: Type, i: nat) returns (j: nat)
    requires WellFormed(source) && InRange(source, sel) && Fits(before, NullableOf(inner)) &&
      Fits(after, NullableOf(inner))
    requires FlagsAppended(before, after, source, sel) && i < |sel|
    ensures j == Size(before) + i && j < |after.flags| && after.flags[j] == IsNullRow(source, sel[i])
  {
    j := Size(before) + i;
  }

  lemma StoredNullable(v: Value, inner: Type)
    ensures Stored(v, NullableOf(inner)) == if v.Null? then Null else Stored(v, inner)
  {
  }

  lemma NullableAccepted(source: Vector, sel: seq<nat>, inner: Type, nullsAsDefault: bool)
    requires WellFormed(source) && InRange(source, sel)
    ensures AllAccepted(source, sel, NullableOf(inner), nullsAsDefault) <==> AllAccepted(source, sel, inner, true)
  {
    hide WellFormed, ValueAt;
    forall i | 0 <= i < |sel|
      ensures Accepts(ValueAt(source, sel[i]), NullableOf(inner), nullsAsDefault) ==
              Accepts(ValueAt(source, sel[i]), inner, true)
    {
    }
  }

  /** A field's value of a STRUCT row, NULL under a NULL STRUCT. */
  lemma FieldValue(source: Vector, row: nat, k: nat)
    requires source.StructVector? && WellFormed(source) && NullsReachDown(source)
    requires row < Length(source) && k < |source.children|
    ensures ValueAt(source.children[k], row) ==
            if IsNullRow(source, row) then Null else ValueAt(source, row).fields[k]
  {
  }

  lemma StructAccepted(source: Vector, sel: seq<nat>, fields: seq<Type>, nullsAsDefault: bool)
    requires source.StructVector? && |source.children| == |fields| && Ready(source, sel, TupleOf(fields))
    ensures forall k :: 0 <= k < |fields| ==> InRange(source.children[k], sel)
    ensures AllAccepted(source, sel, TupleOf(fields), nullsAsDefault) <==>
            (nullsAsDefault || forall i :: 0 <= i < |sel| ==> !IsNullRow(source, sel[i])) &&
            forall k :: 0 <= k < |fields| ==> AllAccepted(source.children[k], sel, fields[k], nullsAsDefault)
  {
    if AllAccepted(source, sel, TupleOf(fields), nullsAsDefault) {
      forall k | 0 <= k < |fields| ensures AllAccepted(source.children[k], sel, fields[k], nullsAsDefault) {
        hide WellFormed, NullsReachDown, Matches;
        forall i | 0 <= i < |sel| ensures Accepts(ValueAt(source.children[k], sel[i]), fields[k], nullsAsDefault) {
          FieldAccepted(source, sel[i], fields, k, nullsAsDefault);
        }
      }
      forall i | 0 <= i < |sel| ensures nullsAsDefault || !IsNullRow(source, sel[i]) {
        NullRow(source, sel[i]);
      }
    } else if forall k :: 0 <= k < |fields| ==> AllAccepted(source.children[k], sel, fields[k], nullsAsDefault) {
      var i :| 0 <= i < |sel| && !Accepts(ValueAt(source, sel[i]), TupleOf(fields), nullsAsDefault);
      RefusedStruct(source, sel, fields, nullsAsDefault, i);
    }
  }

  lemma FieldAccepted(source: Vector, row: nat, fields: seq<Type>, k: nat, nullsAsDefault: bool)
    requires source.StructVector? && |source.children| == |fields| && WellFormed(source) && NullsReachDown(source)
    requires ValidType(TupleOf(fields)) && row < Length(source) && k < |fields|
    requires Accepts(ValueAt(source, row), TupleOf(fields), nullsAsDefault)
    ensures row < Length(source.children[k])
    ensures Accepts(ValueAt(source.children[k], row), fields[k], nullsAsDefault)
  {
    FieldValue(source, row, k);
    NullRow(source, row);
    if IsNullRow(source, row) {
      NullAccepted(fields[k]);
    }
  }

  lemma RefusedStruct(source: Vector, sel: seq<nat>, fields: seq<Type>, nullsAsDefault: bool, i: nat)
    requires source.StructVector? && |source.children| == |fields| && Ready(source, sel, TupleOf(fields)) && i < |sel|
    requires forall k :: 0 <= k < |fields| ==>
      InRange(source.children[k], sel) && AllAccepted(source.children[k], sel, fields[k], nullsAsDefault)
    requires !Accepts(ValueAt(source, sel[i]), TupleOf(fields), nullsAsDefault)
    ensures !nullsAsDefault && IsNullRow(source, sel[i])
  {
    NullRow(source, sel[i]);
    if !IsNullRow(source, sel[i]) {
      var v := ValueAt(source, sel[i]);
      forall k | 0 <= k < |fields| ensures Accepts(v.fields[k], fields[k], nullsAsDefault) {
        FieldValue(source, sel[i], k);
        assert Accepts(ValueAt(source.children[k], sel[i]), fields[k], nullsAsDefault);
      }
    }
  }

  lemma StructAppended(before: Column, after: Column, source: Vector, sel: seq<nat>, fields: seq<Type>)
    requires source.StructVector? && |source.children| == |fields| && Ready(source, sel, TupleOf(fields))
    requires Fits(before, TupleOf(fields)) && after.Tuples? && |after.fields| == |fields|
    requires forall k :: 0 <= k < |fields| ==>
      InRange(source.children[k], sel) &&
      Appended(before.fields[k], after.fields[k], source.children[k], sel, fields[k])
    ensures Appended(before, after, source, sel, TupleOf(fields))
  {
    var t := TupleOf(fields);
    assert Fits(after, t) && Size(after) == Size(before) + |sel|;
    forall i | 0 <= i < Size(before) ensures RowAt(after, t, i) == RowAt(before, t, i) {
      hide RowAt, ValueAt, Stored, Matches, NullsReachDown;
      TupleRow(after, fields, i);
      TupleRow(before, fields, i);
      assert RowAt(after, t, i).fields == RowAt(before, t, i).fields;
    }
    hide RowAt, ValueAt, Stored, Matches, NullsReachDown, Appended, Fits, Size;
    forall i | 0 <= i < |sel| ensures RowAt(after, t, Size(before) + i) == Stored(ValueAt(source, sel[i]), t) {
      StructRow(before, after, source, sel, fields, i);
    }
    AppendedIntro(before, after, source, sel, t);
  }

  lemma StructRow(before: Column, after: Column, source: Vector, sel: seq<nat>, fields: seq<Type>, i: nat)
    requires source.StructVector? && |source.children| == |fields| && Ready(source, sel, TupleOf(fields)) && i < |sel|
    requires Fits(before, TupleOf(fields)) && Fits(after, TupleOf(fields)) && Size(after) == Size(before) + |sel|
    requires forall k :: 0 <= k < |fields| ==>
      InRange(source.children[k], sel) &&
      Appended(before.fields[k], after.fields[k], source.children[k], sel, fields[k])
    ensures RowAt(after, TupleOf(fields), Size(before) + i) == Stored(ValueAt(source, sel[i]), TupleOf(fields))
  {
    hide RowAt, Stored, ValueAt, Matches, Appended, NullsReachDown, ValidType;
    var v := ValueAt(source, sel[i]);
    var x, y := RowAt(after, TupleOf(fields), Size(before) + i), Stored(v, TupleOf(fields));
    TupleRow(after, fields, Size(before) + i);
    StoredFields(v, fields);
    forall k | 0 <= k < |fields| ensures x.fields[k] == y.fields[k] {
      NewField(before, after, source, sel, fields, i, k);
    }
    assert x.fields == y.fields;
  }

  /** The stored form of a STRUCT, field by field. */
  lemma StoredFields(v: Value, fields: seq<Type>)
    ensures var s := Stored(v, TupleOf(fields));
      s.Struct? && |s.fields| == |fields| &&
      forall k :: 0 <= k < |fields| ==>
        s.fields[k] == Stored(if v.Struct? && |v.fields| == |fields| then v.fields[k] else Null, fields[k])
  {
  }

  lemma NewField(before: Column, after: Column, source: Vector, sel: seq<nat>, fields: seq<Type>, i: nat, k: nat)
    requires source.StructVector? && |source.children| == |fields| && WellFormed(source) && NullsReachDown(source)
    requires InRange(source, sel) && i < |sel| && k < |fields|
    requires Fits(before, TupleOf(fields)) && Fits(after, TupleOf(fields)) && Size(after) == Size(before) + |sel|
    requires InRange(source.children[k], sel)
    requires Appended(before.fields[k], after.fields[k], source.children[k], sel, fields[k])
    ensures var v := ValueAt(source, sel[i]);
      RowAt(after.fields[k], fields[k], Size(before) + i) ==
      Stored(if v.Struct? && |v.fields| == |fields| then v.fields[k] else Null, fields[k])
  {
    hide RowAt, Stored, NullsReachDown;
    NullRow(source, sel[i]);
    FieldValue(source, sel[i], k);
    assert RowAt(after.fields[k], fields[k], Size(before.fields[k]) + i) ==
           Stored(ValueAt(source.children[k], sel[i]), fields[k]);
  }
}
