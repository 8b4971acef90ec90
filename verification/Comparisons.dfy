/** Where DuckDB's comparisons and ClickHouse's agree. */
module Comparisons {
  import opened Values

  /** Two UUIDs whose halves are ordered the same way. */
  predicate HalvesAgree(a: Value, b: Value)
    requires a.Uuid? && b.Uuid?
  {
    (a.high <= b.high && a.low <= b.low) || (b.high <= a.high && b.low <= a.low)
  }

  /** An ordered comparison of UUIDs gives DuckDB's result on the server exactly when their halves are ordered the
      same way. */
  lemma UuidOrder(op: Comparison, a: Value, b: Value)
    requires a.Uuid? && b.Uuid? && op.IsOrdered()
    ensures Compare(op, a, b) == ServerCompare(op, a, b) <==> HalvesAgree(a, b)
  {
  }

  // ---------------------------------------------------------------- what a comparison depends on

  /** What decides a comparison of two Tuples: the first pair of their parts, none of them a Tuple, that are not the
      same value. A NULL is not the same as anything. Values that are no Tuples are their own part. */
  datatype Deciding = AllEqual | DecidedBy(left: Value, right: Value) {
    predicate MeetsNull() {
      DecidedBy? && (left.Null? || right.Null?)
    }
  }

  function Decide(a: Value, b: Value): Deciding
    decreases a, 1
  {
    if a.StructOf? && b.StructOf? && |a.fields| == |b.fields| then DecideFields(a.fields, b.fields)
    else if a == b && !a.Null? then AllEqual
    else DecidedBy(a, b)
  }

  function DecideFields(a: seq<Value>, b: seq<Value>): Deciding
    requires |a| == |b|
    decreases a, 0
  {
    if a == [] then AllEqual
    else
      var first := Decide(a[0], b[0]);
      if first.AllEqual? then DecideFields(a[1..], b[1..]) else first
  }

  /** Two values that differ whatever their NULLs stand for: in parts of which neither is NULL. */
  predicate SurelyDiffer(a: Value, b: Value) {
    !a.Null? && !b.Null? &&
    if a.StructOf? && b.StructOf? && |a.fields| == |b.fields|
    then exists k :: 0 <= k < |a.fields| && SurelyDiffer(a.fields[k], b.fields[k])
    else a != b
  }

  /** Two values both systems order alike: what they first differ in is no two UUIDs, or UUIDs whose halves are ordered
      the same way. */
  predicate OrderedAlike(a: Value, b: Value)
    decreases a, 1
  {
    if a.ListOf? && b.ListOf? then ElementsAlike(a.elements, b.elements)
    else if a.StructOf? && b.StructOf? then ElementsAlike(a.fields, b.fields)
    else if a.MapOf? && b.MapOf? then ElementsAlike(a.entries, b.entries)
    else a.Uuid? && b.Uuid? ==> HalvesAgree(a, b)
  }

  predicate ElementsAlike(a: seq<Value>, b: seq<Value>)
    decreases a, 0
  {
    a == [] || b == [] || if a[0] == b[0] then ElementsAlike(a[1..], b[1..]) else OrderedAlike(a[0], b[0])
  }

  /** A comparison of Tuples that comes upon a NULL before it is decided. */
  predicate Undecided(op: Comparison, a: Value, b: Value) {
    Comparable(a, b) && Decide(a, b).DecidedBy? &&
    if op.IsOrdered() then Decide(a, b).MeetsNull() else !SurelyDiffer(a, b)
  }

  /** A comparison decided by UUIDs that the two systems order differently. */
  predicate Reversed(op: Comparison, a: Value, b: Value) {
    Comparable(a, b) && op.IsOrdered() && Decide(a, b).DecidedBy? && !Decide(a, b).MeetsNull() &&
    !OrderedAlike(Decide(a, b).left, Decide(a, b).right)
  }

  predicate ComparedAlike(op: Comparison, a: Value, b: Value) {
    !Undecided(op, a, b) && !Reversed(op, a, b)
  }

  // ---------------------------------------------------------------- orders

  /** The two orders of two different values are the same, or, where what they first differ in is ordered differently,
      opposite. */
  lemma {:induction false} OrdersDiffer(a: Value, b: Value)
    requires a != b
    ensures Precedes(a, b, true) == (Precedes(a, b, false) == OrderedAlike(a, b))
    ensures Precedes(b, a, true) == (Precedes(b, a, false) == OrderedAlike(a, b))
    decreases a, 1
  {
    hide Before, ServerBefore, HalvesAgree;
    if a.ListOf? && b.ListOf? {
      ElementOrdersDiffer(a.elements, b.elements);
    } else if a.StructOf? && b.StructOf? {
      ElementOrdersDiffer(a.fields, b.fields);
    } else if a.MapOf? && b.MapOf? {
      ElementOrdersDiffer(a.entries, b.entries);
    } else {
      PlainOrdersDiffer(a, b);
    }
  }

  lemma PlainOrdersDiffer(a: Value, b: Value)
    requires a != b
    ensures ServerBefore(a, b) == (Before(a, b) == (a.Uuid? && b.Uuid? ==> HalvesAgree(a, b)))
    ensures ServerBefore(b, a) == (Before(b, a) == (a.Uuid? && b.Uuid? ==> HalvesAgree(a, b)))
  {
  }

  lemma {:induction false} ElementOrdersDiffer(a: seq<Value>, b: seq<Value>)
    ensures a != b ==> ElementsPrecede(a, b, true) == (ElementsPrecede(a, b, false) == ElementsAlike(a, b))
    ensures a != b ==> ElementsPrecede(b, a, true) == (ElementsPrecede(b, a, false) == ElementsAlike(a, b))
    decreases a, 0
  {
    hide Precedes, OrderedAlike;
    if a != [] && b != [] {
      if a[0] == b[0] {
        ElementOrdersDiffer(a[1..], b[1..]);
      } else {
        OrdersDiffer(a[0], b[0]);
      }
    }
  }

  /** What decides a comparison decides DuckDB's order too, unless it holds a NULL, and shows that the two differ. */
  lemma {:induction false} DecidedOrder(a: Value, b: Value)
    ensures Decide(a, b).AllEqual? ==> a == b
    ensures var d := Decide(a, b);
      d.DecidedBy? && !d.MeetsNull() ==>
        SurelyDiffer(a, b) && a != b && d.left != d.right &&
        Precedes(a, b, false) == Precedes(d.left, d.right, false) &&
        Precedes(b, a, false) == Precedes(d.right, d.left, false)
    ensures SurelyDiffer(a, b) ==> a != b
    decreases a, 1
  {
    hide Before;
    if a.StructOf? && b.StructOf? && |a.fields| == |b.fields| {
      FieldsDecided(a.fields, b.fields);
    }
  }

  /** SurelyDiffer, for the fields of two Tuples. */
  predicate SomeSurelyDiffer(a: seq<Value>, b: seq<Value>)
    requires |a| == |b|
  {
    exists k :: 0 <= k < |a| && SurelyDiffer(a[k], b[k])
  }

  lemma SomeInRest(a: seq<Value>, b: seq<Value>)
    requires |a| == |b| && a != []
    ensures SomeSurelyDiffer(a, b) <==> SurelyDiffer(a[0], b[0]) || SomeSurelyDiffer(a[1..], b[1..])
  {
    hide SurelyDiffer;
    if SomeSurelyDiffer(a[1..], b[1..]) {
      var k :| 0 <= k < |a[1..]| && SurelyDiffer(a[1..][k], b[1..][k]);
      assert SurelyDiffer(a[k + 1], b[k + 1]);
    }
    if k :| 1 <= k < |a| && SurelyDiffer(a[k], b[k]) {
      assert a[1..][k - 1] == a[k] && b[1..][k - 1] == b[k];
    }
  }

  lemma {:induction false} FieldsDecided(a: seq<Value>, b: seq<Value>)
    requires |a| == |b|
    ensures DecideFields(a, b).AllEqual? ==> a == b
    ensures var d := DecideFields(a, b);
      d.DecidedBy? && !d.MeetsNull() ==>
        SomeSurelyDiffer(a, b) && a != b && d.left != d.right &&
        ElementsPrecede(a, b, false) == Precedes(d.left, d.right, false) &&
        ElementsPrecede(b, a, false) == Precedes(d.right, d.left, false)
    ensures SomeSurelyDiffer(a, b) ==> a != b
    decreases a, 0
  {
    hide Precedes, SurelyDiffer, Decide;
    if a != [] {
      hide SomeSurelyDiffer;
      DecidedOrder(a[0], b[0]);
      FieldsDecided(a[1..], b[1..]);
      SomeInRest(a, b);
      assert a == [a[0]] + a[1..] && b == [b[0]] + b[1..];
    }
  }

  // ---------------------------------------------------------------- the server's verdict

  /** The server's verdict on two values, from what decides it and from whether they surely differ. */
  function Verdict(op: Comparison, d: Deciding, differ: bool): Res {
    if d.AllEqual? then Ok(Bool(Holds(op, true, false, false)))
    else if !op.IsOrdered() then if differ then Ok(Bool(op.NotEqual?)) else Ok(Null)
    else if d.MeetsNull() then Ok(Null)
    else Ok(Bool(Holds(op, false, Precedes(d.left, d.right, true), Precedes(d.right, d.left, true))))
  }

  predicate NullOrComparable(a: Value, b: Value) {
    a.Null? || b.Null? || Comparable(a, b)
  }

  /** The field by field comparison in three-valued logic comes to that verdict. */
  lemma {:induction false} ServerVerdict(op: Comparison, a: Value, b: Value)
    requires NullOrComparable(a, b)
    ensures ServerCompare(op, a, b) == Verdict(op, Decide(a, b), SurelyDiffer(a, b))
    decreases a, 1
  {
    hide Comparable, Precedes, Holds;
    if Comparable(a, b) {
      SameKind(a, b);
      if a.StructOf? {
        hide Verdict;
        TupleVerdict(op, a.fields, b.fields);
      } else if a == b {
        NotBeforeItself(a, true);
      } else {
        VerdictOfDifferent(op, a, b);
      }
    } else {
      VerdictOnNull(op, a, b);
    }
  }

  lemma VerdictOnNull(op: Comparison, a: Value, b: Value)
    requires a.Null? || b.Null?
    ensures Decide(a, b) == DecidedBy(a, b) && !SurelyDiffer(a, b) && ServerCompare(op, a, b) == Ok(Null)
    ensures Verdict(op, DecidedBy(a, b), false) == Ok(Null)
  {
  }

  lemma SameKind(a: Value, b: Value)
    requires Comparable(a, b)
    ensures !a.Null? && !b.Null? && (a.StructOf? <==> b.StructOf?)
    ensures a.StructOf? ==>
      |a.fields| == |b.fields| && forall k :: 0 <= k < |a.fields| ==> NullOrComparable(a.fields[k], b.fields[k])
  {
  }

  lemma VerdictOfDifferent(op: Comparison, a: Value, b: Value)
    requires a != b && !a.Null? && !b.Null?
    ensures Ok(Bool(Holds(op, a == b, Precedes(a, b, true), Precedes(b, a, true)))) ==
            Verdict(op, DecidedBy(a, b), true)
  {
    hide Precedes;
  }

  lemma {:induction false} TupleVerdict(op: Comparison, a: seq<Value>, b: seq<Value>)
    requires |a| == |b| && forall k :: 0 <= k < |a| ==> NullOrComparable(a[k], b[k])
    ensures TupleCompare(op, a, b) == Verdict(op, DecideFields(a, b), SomeSurelyDiffer(a, b))
    decreases a, 0
  {
    hide ServerCompare, SurelyDiffer, Decide, Precedes, NullOrComparable;
    if a != [] {
      hide SomeSurelyDiffer;
      ServerVerdict(op.Strictly(), a[0], b[0]);
      ServerVerdict(Equal, a[0], b[0]);
      ServerVerdict(NotEqual, a[0], b[0]);
      TupleVerdict(op, a[1..], b[1..]);
      SomeInRest(a, b);
      DecidedOrder(a[0], b[0]);
      FieldsDecided(a[1..], b[1..]);
    }
  }

  lemma {:induction false} NotBeforeItself(a: Value, onServer: bool)
    ensures !Precedes(a, a, onServer)
    decreases a, 1
  {
    match a
    case ListOf(elements) => ElementsNotBefore(elements, onServer);
    case StructOf(fields) => ElementsNotBefore(fields, onServer);
    case MapOf(entries) => ElementsNotBefore(entries, onServer);
    case Str(s) => TextNotBefore(s);
    case _ =>
  }

  lemma {:induction false} ElementsNotBefore(a: seq<Value>, onServer: bool)
    ensures !ElementsPrecede(a, a, onServer)
  {
    if a != [] {
      ElementsNotBefore(a[1..], onServer);
    }
  }

  lemma {:induction false} TextNotBefore(s: string)
    ensures !TextBefore(s, s)
  {
    if s != "" {
      TextNotBefore(s[1..]);
    }
  }

  /** Where neither value is a NULL, the two orders give the same verdict or opposite ones. */
  lemma VerdictsDiffer(op: Comparison, a: Value, b: Value)
    requires op.IsOrdered() && a != b
    ensures var duck := Holds(op, false, Precedes(a, b, false), Precedes(b, a, false));
      Holds(op, false, Precedes(a, b, true), Precedes(b, a, true)) == (duck == OrderedAlike(a, b))
  {
    hide Precedes, OrderedAlike;
    OrdersDiffer(a, b);
  }

  /** What the server makes of a comparison: DuckDB's result; or NULL; or the opposite. */
  predicate Settled(duck: Res, server: Res, undecided: bool, reversed: bool) {
    (duck == server <==> !undecided && !reversed) &&
    (undecided ==> server == Ok(Null)) &&
    (reversed ==> server == Ok(Bool(duck == Ok(FALSE))))
  }

  lemma OfEqual(op: Comparison, a: Value, b: Value)
    requires Comparable(a, b) && Decide(a, b).AllEqual?
    ensures Settled(Compare(op, a, b), ServerCompare(op, a, b), Undecided(op, a, b), Reversed(op, a, b))
  {
    hide ServerCompare, Precedes, Decide, SurelyDiffer, Comparable;
    ServerVerdict(op, a, b);
    DecidedOrder(a, b);
    NotBeforeItself(a, false);
    SameKind(a, b);
  }

  lemma EqualityExactly(op: Comparison, a: Value, b: Value)
    requires Comparable(a, b) && Decide(a, b).DecidedBy? && !op.IsOrdered()
    ensures Settled(Compare(op, a, b), ServerCompare(op, a, b), Undecided(op, a, b), Reversed(op, a, b))
  {
    hide ServerCompare, Precedes, Decide, SurelyDiffer, Comparable;
    ServerVerdict(op, a, b);
    DecidedOrder(a, b);
    SameKind(a, b);
  }

  lemma OrderUndecided(op: Comparison, a: Value, b: Value)
    requires Comparable(a, b) && Decide(a, b).MeetsNull() && op.IsOrdered()
    ensures Settled(Compare(op, a, b), ServerCompare(op, a, b), Undecided(op, a, b), Reversed(op, a, b))
  {
    hide ServerCompare, Precedes, Decide, SurelyDiffer, Comparable, OrderedAlike, Holds;
    ServerVerdict(op, a, b);
    SameKind(a, b);
  }

  lemma OrderDecided(op: Comparison, a: Value, b: Value)
    requires Comparable(a, b) && Decide(a, b).DecidedBy? && !Decide(a, b).MeetsNull() && op.IsOrdered()
    ensures Settled(Compare(op, a, b), ServerCompare(op, a, b), Undecided(op, a, b), Reversed(op, a, b))
  {
    hide ServerCompare, Precedes, Decide, SurelyDiffer, Comparable, OrderedAlike, Holds, Settled;
    ServerVerdict(op, a, b);
    DecidedOrder(a, b);
    SameKind(a, b);
    var d := Decide(a, b);
    VerdictsDiffer(op, d.left, d.right);
    SettledOrder(Holds(op, false, Precedes(d.left, d.right, false), Precedes(d.right, d.left, false)),
                 OrderedAlike(d.left, d.right));
  }

  lemma SettledOrder(duck: bool, alike: bool)
    ensures Settled(Ok(Bool(duck)), Ok(Bool(duck == alike)), false, !alike)
  {
  }

  lemma Incomparable(op: Comparison, a: Value, b: Value)
    requires !Comparable(a, b)
    ensures Settled(Compare(op, a, b), ServerCompare(op, a, b), Undecided(op, a, b), Reversed(op, a, b))
  {
  }

  lemma ComparisonSettled(op: Comparison, a: Value, b: Value)
    ensures Settled(Compare(op, a, b), ServerCompare(op, a, b), Undecided(op, a, b), Reversed(op, a, b))
  {
    hide Compare, ServerCompare, Decide, SurelyDiffer, Comparable, Undecided, Reversed, Settled;
    if !Comparable(a, b) {
      Incomparable(op, a, b);
    } else if Decide(a, b).AllEqual? {
      OfEqual(op, a, b);
    } else if op.IsOrdered() {
      if Decide(a, b).MeetsNull() {
        OrderUndecided(op, a, b);
      } else {
        OrderDecided(op, a, b);
      }
    } else {
      EqualityExactly(op, a, b);
    }
  }

  /** A comparison gives DuckDB's result on the server exactly where it is compared alike. Anywhere else its verdict is
      NULL, if it comes upon one, or the opposite of DuckDB's. */
  lemma ComparisonExactly(op: Comparison, a: Value, b: Value)
    ensures Compare(op, a, b) == ServerCompare(op, a, b) <==> ComparedAlike(op, a, b)
    ensures Undecided(op, a, b) ==> ServerCompare(op, a, b) == Ok(Null)
    ensures Reversed(op, a, b) ==> ServerCompare(op, a, b) == Ok(Bool(Compare(op, a, b) == Ok(FALSE)))
  {
    hide Compare, ServerCompare, Undecided, Reversed;
    ComparisonSettled(op, a, b);
  }

  /** A comparison of other values, and an equality of UUIDs, always does. */
  lemma PlainComparison(op: Comparison, a: Value, b: Value)
    requires !a.ListOf? && !a.StructOf? && !a.MapOf? && (op.IsOrdered() ==> !a.Uuid?)
    ensures ComparedAlike(op, a, b) && Compare(op, a, b) == ServerCompare(op, a, b)
  {
    hide Compare, ServerCompare;
    ComparisonExactly(op, a, b);
  }
}
