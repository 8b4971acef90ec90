/** Reading a slice of a column into a vector (src/clickhouse_conversion.cpp). */
module Reader {
  import opened Columns

  /** The vector's rows are the column's from `offset` on, those that are not valid NULL. */
  ghost predicate Reads(v: Vector, c: Column, t: Type, offset: nat, count: nat, validity: seq<bool>)
    requires Fits(c, t) && offset + count <= Size(c) && |validity| == count
  {
    WellFormed(v) && Length(v) == count &&
    forall i :: 0 <= i < count ==> ValueAt(v, i) == if validity[i] then RowAt(c, t, offset + i) else Null
  }

  function AllValid(count: nat): (r: seq<bool>)
    ensures |r| == count && forall k :: 0 <= k < count ==> r[k]
  {
    seq(count, k requires 0 <= k < count => true)
  }

  /** ConvertColumn: the NULL flags, then the values beneath. */
  method ConvertColumn(c: Column, t: Type, offset: nat, count: nat) returns (v: Vector)
    requires ValidType(t) && Fits(c, t) && offset + count <= Size(c)
    ensures Reads(v, c, t, offset, count, AllValid(count))
    decreases t, 1
  {
    if t.NullableOf? {
      var validity: seq<bool> := [];
      for i := 0 to count
        invariant |validity| == i && forall k :: 0 <= k < i ==> validity[k] == !c.flags[offset + k]
      {
        validity := validity + [!c.flags[offset + i]];
      }
      v := ConvertValues(c.nested, t.inner, offset, count, validity);
      forall i | 0 <= i < count ensures ValueAt(v, i) == RowAt(c, t, offset + i) {
        hide ValueAt, RowAt, WellFormed;
        NullableRow(c, t.inner, offset + i);
      }
    } else {
      v := ConvertValues(c, t, offset, count, AllValid(count));
    }
  }

  method ConvertValues(c: Column, t: Type, offset: nat, count: nat, validity: seq<bool>) returns (v: Vector)
    requires ValidType(t) && !t.NullableOf? && Fits(c, t) && offset + count <= Size(c) && |validity| == count
    ensures Reads(v, c, t, offset, count, validity)
    decreases t, 0
  {
    match t
    case ScalarType => v := ConvertNumeric(c, offset, count, validity);
    case ArrayOf(element, isMap) => v := ConvertList(c, element, isMap, offset, count, validity);
    case TupleOf(fields) => v := ConvertStruct(c, fields, offset, count, validity);
  }

  method ConvertNumeric(c: Column, offset: nat, count: nat, validity: seq<bool>) returns (v: Vector)
    requires c.Scalars? && offset + count <= Size(c) && |validity| == count
    ensures Reads(v, c, ScalarType, offset, count, validity)
  {
    var data: seq<int> := [];
    for i := 0 to count
      invariant |data| == i && forall k :: 0 <= k < i ==> data[k] == c.numbers[offset + k]
    {
      data := data + [c.numbers[offset + i]];
    }
    v := ScalarVector(UpTo(count), validity, data);
  }

  /** Entries count from the slice's first element. */
  ghost predicate EntriesRead(entries: seq<Entry>, ends: seq<nat>, offset: nat, count: nat)
    requires Ascending(ends) && offset + count <= |ends|
  {
    |entries| == count &&
    forall i :: 0 <= i < count ==>
      entries[i].offset == StartOf(ends, offset + i) - StartOf(ends, offset) &&
      entries[i].length == ends[offset + i] - StartOf(ends, offset + i)
  }

  method ReadEntries(ends: seq<nat>, offset: nat, count: nat) returns (entries: seq<Entry>, total: nat)
    requires Ascending(ends) && offset + count <= |ends|
    ensures total == StartOf(ends, offset + count) - StartOf(ends, offset)
    ensures EntriesRead(entries, ends, offset, count)
  {
    entries := [];
    total := 0;
    for i := 0 to count
      invariant EntriesRead(entries, ends, offset, i) && total == StartOf(ends, offset + i) - StartOf(ends, offset)
    {
      EndsWithin(ends, offset + i);
      var size := ends[offset + i] - StartOf(ends, offset + i);
      entries := entries + [Entry(total, size)];
      total := total + size;
    }
  }

  method ConvertList(c: Column, element: Type, isMap: bool, offset: nat, count: nat, validity: seq<bool>)
      returns (v: Vector)
    requires ValidType(element) && Fits(c, ArrayOf(element, isMap)) && offset + count <= Size(c) && |validity| == count
    ensures Reads(v, c, ArrayOf(element, isMap), offset, count, validity)
    decreases element, 2
  {
    var entries, total := ReadEntries(c.ends, offset, count);
    var childStart := if count == 0 then 0 else StartOf(c.ends, offset);
    var child: Vector;
    SliceWithin(c.ends, offset, count);
    if total > 0 {
      child := ConvertColumn(c.data, element, childStart, total);
    } else {
      child := ScalarVector([], [], []);
    }
    v := ListVector(UpTo(count), validity, entries, child);
    hide Fits, ValidType;
    ListReads(v, c, element, isMap, offset, count, validity, total);
  }

  lemma SliceWithin(ends: seq<nat>, offset: nat, count: nat)
    requires Ascending(ends) && offset + count <= |ends|
    ensures StartOf(ends, offset) <= StartOf(ends, offset + count) <= StartOf(ends, |ends|)
    ensures forall i :: offset <= i <= offset + count ==>
      StartOf(ends, offset) <= StartOf(ends, i) <= StartOf(ends, offset + count)
  {
  }

  lemma ListReads(v: Vector, c: Column, element: Type, isMap: bool, offset: nat, count: nat, validity: seq<bool>,
                  total: nat)
    requires Fits(c, ArrayOf(element, isMap)) && offset + count <= Size(c) && |validity| == count
    requires v.ListVector? && v.sel == UpTo(count) && v.validity == validity
    requires EntriesRead(v.entries, c.ends, offset, count)
    requires total == StartOf(c.ends, offset + count) - StartOf(c.ends, offset)
    requires StartOf(c.ends, offset) + total <= Size(c.data)
    requires if total > 0 then Reads(v.child, c.data, element, StartOf(c.ends, offset), total, AllValid(total))
             else WellFormed(v.child) && Length(v.child) == 0
    ensures Reads(v, c, ArrayOf(element, isMap), offset, count, validity)
  {
    SliceWithin(c.ends, offset, count);
    forall k | 0 <= k < count ensures v.entries[k].offset + v.entries[k].length <= total {
      assert StartOf(c.ends, offset + k + 1) == c.ends[offset + k];
    }
    assert WellFormed(v);
    forall i | 0 <= i < count
      ensures ValueAt(v, i) == if validity[i] then RowAt(c, ArrayOf(element, isMap), offset + i) else Null
    {
      if validity[i] {
        ListReadsRow(v, c, element, isMap, offset, count, total, i);
      }
    }
  }

  lemma ListReadsRow(v: Vector, c: Column, element: Type, isMap: bool, offset: nat, count: nat, total: nat, i: nat)
    requires Fits(c, ArrayOf(element, isMap)) && offset + count <= Size(c) && i < count
    requires v.ListVector? && WellFormed(v) && v.sel == UpTo(count) && i < |v.validity| && v.validity[i]
    requires EntriesRead(v.entries, c.ends, offset, count)
    requires total == StartOf(c.ends, offset + count) - StartOf(c.ends, offset)
    requires StartOf(c.ends, offset) + total <= Size(c.data)
    requires if total > 0 then Reads(v.child, c.data, element, StartOf(c.ends, offset), total, AllValid(total))
             else WellFormed(v.child) && Length(v.child) == 0
    ensures ValueAt(v, i) == RowAt(c, ArrayOf(element, isMap), offset + i)
  {
    ListRow(c, element, isMap, offset + i);
    var x, y := ValueAt(v, i), RowAt(c, ArrayOf(element, isMap), offset + i);
    var e := v.entries[i];
    assert x.elements == seq(e.length, k requires 0 <= k < e.length => ValueAt(v.child, e.offset + k));
    hide RowAt, Fits;
    SliceWithin(c.ends, offset, count);
    assert |x.elements| == |y.elements|;
    forall k | 0 <= k < |x.elements| ensures x.elements[k] == y.elements[k] {
      assert StartOf(c.ends, offset + i + 1) == c.ends[offset + i];
      assert ValueAt(v.child, e.offset + k) == RowAt(c.data, element, StartOf(c.ends, offset) + (e.offset + k));
    }
    assert x.elements == y.elements;
  }

  method ConvertStruct(c: Column, fields: seq<Type>, offset: nat, count: nat, validity: seq<bool>) returns (v: Vector)
    requires ValidType(TupleOf(fields)) && Fits(c, TupleOf(fields)) && offset + count <= Size(c)
    requires |validity| == count
    ensures Reads(v, c, TupleOf(fields), offset, count, validity)
    decreases fields, 2
  {
    var children: seq<Vector> := [];
    for k := 0 to |fields|
      invariant |children| == k
      invariant forall j :: 0 <= j < k ==>
        Reads(children[j], c.fields[j], fields[j], offset, count, AllValid(count))
    {
      var child := ConvertColumn(c.fields[k], fields[k], offset, count);
      children := children + [child];
    }
    v := StructVector(validity, children);
    StructReads(v, c, fields, offset, count, validity);
  }

  lemma StructReads(v: Vector, c: Column, fields: seq<Type>, offset: nat, count: nat, validity: seq<bool>)
    requires Fits(c, TupleOf(fields)) && offset + count <= Size(c) && |validity| == count
    requires v.StructVector? && v.validity == validity && |v.children| == |fields|
    requires forall j :: 0 <= j < |fields| ==>
      Reads(v.children[j], c.fields[j], fields[j], offset, count, AllValid(count))
    ensures Reads(v, c, TupleOf(fields), offset, count, validity)
  {
    assert WellFormed(v);
    forall i | 0 <= i < count
      ensures ValueAt(v, i) == if validity[i] then RowAt(c, TupleOf(fields), offset + i) else Null
    {
      if validity[i] {
        hide RowAt;
        TupleRow(c, fields, offset + i);
        assert ValueAt(v, i).fields == RowAt(c, TupleOf(fields), offset + i).fields;
      }
    }
  }
}
