/** Appending vectors to columns (src/clickhouse_writer.cpp): offsets, null flags and child columns, by selection. */
module Writer {
  import opened Options
  import opened Columns
  import opened Appends

  // ---------------------------------------------------------------- scalars

  /** ForEachValue over a scalar column. */
  method AppendScalars(source: Vector, sel: seq<nat>, target: Column, nullsAsDefault: bool) returns (r: Option<Column>)
    requires Ready(source, sel, ScalarType) && Fits(target, ScalarType)
    ensures r.Some? <==> AllAccepted(source, sel, ScalarType, nullsAsDefault)
    ensures r.Some? ==> Appended(target, r.value, source, sel, ScalarType)
  {
    var numbers := target.numbers;
    for i := 0 to |sel|
      invariant |numbers| == |target.numbers| + i && numbers[..|target.numbers|] == target.numbers
      invariant forall k :: 0 <= k < i ==> Accepts(ValueAt(source, sel[k]), ScalarType, nullsAsDefault)
      invariant forall k :: 0 <= k < i ==>
        Num(numbers[|target.numbers| + k]) == Stored(ValueAt(source, sel[k]), ScalarType)
    {
      var index := source.sel[sel[i]];
      if !source.validity[index] {
        if !nullsAsDefault {
          assert ValueAt(source, sel[i]) == Null;
          return None;
        }
        numbers := numbers + [0];
      } else {
        numbers := numbers + [source.numbers[index]];
      }
    }
    var after := Scalars(numbers);
    forall i | 0 <= i < Size(target) ensures RowAt(after, ScalarType, i) == RowAt(target, ScalarType, i) {
      assert numbers[..|target.numbers|][i] == target.numbers[i];
    }
    return Some(after);
  }

  // ---------------------------------------------------------------- lists

  /** The loop that counts the elements, and refuses a NULL. */
  method CountElements(source: Vector, sel: seq<nat>, nullsAsDefault: bool) returns (total: nat, ok: bool)
    requires source.ListVector? && WellFormed(source) && InRange(source, sel)
    ensures ok <==> nullsAsDefault || forall i :: 0 <= i < |sel| ==> !IsNullRow(source, sel[i])
    ensures ok ==> total == |Positions(source, sel)|
  {
    hide Positions, Before;
    PositionsAll(source, sel);
    total := 0;
    for i := 0 to |sel|
      invariant total == Before(source, sel, i)
      invariant nullsAsDefault || forall k :: 0 <= k < i ==> !IsNullRow(source, sel[k])
    {
      var index := source.sel[sel[i]];
      PositionsSnoc(source, sel, i);
      if !source.validity[index] {
        if !nullsAsDefault {
          assert IsNullRow(source, sel[i]);
          return total, false;
        }
        continue;
      }
      total := total + source.entries[index].length;
    }
    return total, true;
  }

  /** The inner loop: one row's elements. */
  method SelectRange(entry: Entry, elements: seq<nat>) returns (r: seq<nat>)
    ensures r == elements + seq(entry.length, k requires 0 <= k < entry.length => entry.offset + k)
  {
    r := elements;
    for element := entry.offset to entry.offset + entry.length
      invariant |r| == |elements| + element - entry.offset && r[..|elements|] == elements
      invariant forall j :: |elements| <= j < |r| ==> r[j] == entry.offset + j - |elements|
    {
      r := r + [element];
    }
  }

  /** The loops that fill the selection of the elements. */
  method SelectElements(source: Vector, sel: seq<nat>) returns (elements: seq<nat>)
    requires source.ListVector? && WellFormed(source) && InRange(source, sel)
    ensures elements == Positions(source, sel)
  {
    hide Positions, Before;
    elements := [];
    NoPositions(source, sel);
    for i := 0 to |sel|
      invariant elements == Positions(source, sel[..i])
    {
      var index := source.sel[sel[i]];
      PositionsSnoc(source, sel, i);
      if source.validity[index] {
        elements := SelectRange(source.entries[index], elements);
      } else {
        assert elements + [] == elements;
      }
    }
    PositionsAll(source, sel);
  }

  method AppendEnds(source: Vector, sel: seq<nat>, ends: seq<nat>, base: nat) returns (r: seq<nat>)
    requires source.ListVector? && WellFormed(source) && InRange(source, sel)
    ensures EndsAppend(source, sel, ends, base, r)
  {
    hide Positions, Before;
    PositionsAll(source, sel);
    r := ends;
    var end := base;
    for i := 0 to |sel|
      invariant |r| == |ends| + i && r[..|ends|] == ends && end == base + Before(source, sel, i)
      invariant forall j :: |ends| <= j < |r| ==> r[j] == base + Before(source, sel, j - |ends| + 1)
    {
      var index := source.sel[sel[i]];
      PositionsSnoc(source, sel, i);
      if source.validity[index] {
        end := end + source.entries[index].length;
      }
      r := r + [end];
    }
  }

  // ---------------------------------------------------------------- AppendRows

  /** The loop over a Nullable column's flags. */
  method AppendFlags(source: Vector, sel: seq<nat>, flags: seq<bool>) returns (r: seq<bool>)
    requires WellFormed(source) && InRange(source, sel)
    ensures |r| == |flags| + |sel| && r[..|flags|] == flags
    ensures forall j :: |flags| <= j < |r| ==> r[j] == IsNullRow(source, sel[j - |flags|])
  {
    r := flags;
    for i := 0 to |sel|
      invariant |r| == |flags| + i && r[..|flags|] == flags
      invariant forall j :: |flags| <= j < |r| ==> r[j] == IsNullRow(source, sel[j - |flags|])
    {
      r := r + [IsNullRow(source, sel[i])];
    }
  }

  /** Appends the selected rows of `source`; None where the C++ code throws. */
  method AppendRows(source: Vector, sel: seq<nat>, t: Type, target: Column, nullsAsDefault: bool)
      returns (r: Option<Column>)
    requires Ready(source, sel, t) && Fits(target, t)
    ensures r.Some? <==> AllAccepted(source, sel, t, nullsAsDefault)
    ensures r.Some? ==> Appended(target, r.value, source, sel, t)
    decreases t, 2
  {
    match t
    case ScalarType => r := AppendScalars(source, sel, target, nullsAsDefault);
    case NullableOf(inner) => r := AppendNullable(source, sel, inner, target, nullsAsDefault);
    case ArrayOf(element, isMap) =>
      if isMap {
        r := AppendMap(source, sel, element, target, nullsAsDefault);
      } else {
        r := AppendListRows(source, sel, element, false, target, nullsAsDefault);
      }
    case TupleOf(fields) => r := AppendStruct(source, sel, fields, target, nullsAsDefault);
  }

  method AppendNullable(source: Vector, sel: seq<nat>, inner: Type, target: Column, nullsAsDefault: bool)
      returns (r: Option<Column>)
    requires Ready(source, sel, NullableOf(inner)) && Fits(target, NullableOf(inner))
    ensures r.Some? <==> AllAccepted(source, sel, NullableOf(inner), nullsAsDefault)
    ensures r.Some? ==> Appended(target, r.value, source, sel, NullableOf(inner))
    decreases NullableOf(inner), 0
  {
    var flags := AppendFlags(source, sel, target.flags);
    assert Ready(source, sel, inner) && Fits(target.nested, inner);
    hide WellFormed, NullsReachDown, Matches, AllAccepted, Appended, RowAt, ValueAt;
    NullableAccepted(source, sel, inner, nullsAsDefault);
    var nested := AppendRows(source, sel, inner, target.nested, true);
    if nested.None? {
      return None;
    }
    NullableAppended(target, Nullable(flags, nested.value), source, sel, inner);
    return Some(Nullable(flags, nested.value));
  }

  method AppendListRows(source: Vector, sel: seq<nat>, element: Type, isMap: bool, target: Column, nullsAsDefault: bool)
      returns (r: Option<Column>)
    requires Ready(source, sel, ArrayOf(element, isMap)) && Fits(target, ArrayOf(element, isMap))
    ensures r.Some? <==> AllAccepted(source, sel, ArrayOf(element, isMap), nullsAsDefault)
    ensures r.Some? ==> Appended(target, r.value, source, sel, ArrayOf(element, isMap))
    decreases ArrayOf(element, isMap), 0
  {
    assert source.ListVector? && WellFormed(source.child) && NullsReachDown(source.child) &&
      Matches(source.child, element);
    assert Fits(target.data, element) && ValidType(element);
    AcceptedElements(source, sel, element, isMap, nullsAsDefault);
    hide WellFormed, NullsReachDown, Matches, AllAccepted, Appended, RowAt, ValueAt, Positions, EndsAppend, IsNullRow;
    var total, ok := CountElements(source, sel, nullsAsDefault);
    if !ok {
      return None;
    }
    var base := Size(target.data);
    var data := target.data;
    if total > 0 {
      var elements := SelectElements(source, sel);
      var appended := AppendRows(source.child, elements, element, target.data, false);
      if appended.None? {
        return None;
      }
      data := appended.value;
    } else {
      NothingAppended(target.data, source.child, Positions(source, sel), element);
    }
    var ends := AppendEnds(source, sel, target.ends, base);
    ArrayFits(source, sel, element, isMap, target, Arrays(ends, data));
    return Some(Arrays(ends, data));
  }

  lemma NothingAppended(c: Column, source: Vector, sel: seq<nat>, t: Type)
    requires WellFormed(source) && InRange(source, sel) && sel == [] && Fits(c, t)
    ensures Appended(c, c, source, sel, t) && AllAccepted(source, sel, t, false)
  {
  }

  /** A Map column does not show its array: a new one is filled and appended. */
  method AppendMap(source: Vector, sel: seq<nat>, element: Type, target: Column, nullsAsDefault: bool)
      returns (r: Option<Column>)
    requires Ready(source, sel, ArrayOf(element, true)) && Fits(target, ArrayOf(element, true))
    ensures r.Some? <==> AllAccepted(source, sel, ArrayOf(element, true), nullsAsDefault)
    ensures r.Some? ==> Appended(target, r.value, source, sel, ArrayOf(element, true))
    decreases ArrayOf(element, true), 1
  {
    hide WellFormed, NullsReachDown, Matches, AllAccepted, Appended, RowAt, ValueAt, Concat;
    var t := ArrayOf(element, true);
    var filled := AppendListRows(source, sel, element, true, Empty(t), nullsAsDefault);
    if filled.None? {
      return None;
    }
    AppendedFits(Empty(t), filled.value, source, sel, t);
    AppendedThrough(target, filled.value, source, sel, t);
    return Some(Concat(target, filled.value, t));
  }

  lemma AppendedFits(before: Column, after: Column, source: Vector, sel: seq<nat>, t: Type)
    requires WellFormed(source) && InRange(source, sel) && Fits(before, t) && Appended(before, after, source, sel, t)
    ensures Fits(after, t)
  {
  }

  /** The loop that refuses a NULL STRUCT. */
  method FindNullRow(source: Vector, sel: seq<nat>) returns (found: bool)
    requires WellFormed(source) && InRange(source, sel)
    ensures !found <==> forall i :: 0 <= i < |sel| ==> !IsNullRow(source, sel[i])
  {
    for i := 0 to |sel|
      invariant forall k :: 0 <= k < i ==> !IsNullRow(source, sel[k])
    {
      if IsNullRow(source, sel[i]) {
        return true;
      }
    }
    return false;
  }

  ghost predicate FieldsReady(source: Vector, sel: seq<nat>, fields: seq<Type>, target: Column) {
    source.StructVector? && |source.children| == |fields| && target.Tuples? && |target.fields| == |fields| &&
    forall k :: 0 <= k < |fields| ==> Ready(source.children[k], sel, fields[k]) && Fits(target.fields[k], fields[k])
  }

  /** The loop over a STRUCT's children. */
  method AppendFields(source: Vector, sel: seq<nat>, fields: seq<Type>, target: Column, nullsAsDefault: bool)
      returns (r: Option<seq<Column>>)
    requires FieldsReady(source, sel, fields, target)
    ensures r.Some? <==>
      forall k :: 0 <= k < |fields| ==> AllAccepted(source.children[k], sel, fields[k], nullsAsDefault)
    ensures r.Some? ==> |r.value| == |fields|
    ensures r.Some? ==> forall k :: 0 <= k < |fields| ==>
      Appended(target.fields[k], r.value[k], source.children[k], sel, fields[k])
    decreases TupleOf(fields), 0
  {
    hide WellFormed, NullsReachDown, Matches, AllAccepted, Appended, RowAt, ValueAt, Fits, ValidType;
    var done: seq<Column> := [];
    for c := 0 to |fields|
      invariant |done| == c
      invariant forall k :: 0 <= k < c ==>
        AllAccepted(source.children[k], sel, fields[k], nullsAsDefault) &&
        Appended(target.fields[k], done[k], source.children[k], sel, fields[k])
    {
      var child := AppendRows(source.children[c], sel, fields[c], target.fields[c], nullsAsDefault);
      if child.None? {
        return None;
      }
      done := done + [child.value];
    }
    return Some(done);
  }

  method AppendStruct(source: Vector, sel: seq<nat>, fields: seq<Type>, target: Column, nullsAsDefault: bool)
      returns (r: Option<Column>)
    requires Ready(source, sel, TupleOf(fields)) && Fits(target, TupleOf(fields))
    ensures r.Some? <==> AllAccepted(source, sel, TupleOf(fields), nullsAsDefault)
    ensures r.Some? ==> Appended(target, r.value, source, sel, TupleOf(fields))
    decreases TupleOf(fields), 1
  {
    assert FieldsReady(source, sel, fields, target);
    StructAccepted(source, sel, fields, nullsAsDefault);
    hide WellFormed, NullsReachDown, Matches, AllAccepted, Appended, RowAt, ValueAt, Fits, ValidType, IsNullRow;
    var found := FindNullRow(source, sel);
    if found && !nullsAsDefault {
      return None;
    }
    var done := AppendFields(source, sel, fields, target, nullsAsDefault);
    if done.None? {
      return None;
    }
    StructAppended(target, Tuples(done.value), source, sel, fields);
    return Some(Tuples(done.value));
  }
}
