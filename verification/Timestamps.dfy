/** Timestamps are floored the same way by INSERT, by reading and by UPDATE (src/clickhouse_utils.cpp,
    src/clickhouse_writer.cpp, src/clickhouse_conversion.cpp, src/storage/clickhouse_dml.cpp). */
module Timestamps {
  import opened Options
  import opened Values
  import opened Casts
  import opened Widening
  import opened DmlUpdate

  const MIN_INT64 := -0x8000_0000_0000_0000
  const MAX_INT64 := 0x7FFF_FFFF_FFFF_FFFF

  predicate FitsInt64(n: int) {
    MIN_INT64 <= n <= MAX_INT64
  }

  /** The digits of a second a timestamp type or column has. */
  type Precision = p: nat | p <= 9

  /** PowerOfTen's loop. */
  method PowerOfTen(exponent: Precision) returns (result: int)
    ensures result == Pow10(exponent) && FitsInt64(result)
  {
    result := 1;
    for i := 0 to exponent
      invariant result == Pow10(i)
    {
      result := result * 10;
    }
    SmallPowers(exponent);
  }

  lemma SmallPowers(exponent: Precision)
    ensures 1 <= Pow10(exponent) <= 1_000_000_000
  {
    Pow10Values();
    Pow10Monotone(exponent, 9);
  }

  /** ScaleTicks: a product, or a division that truncates and is put right below zero. */
  function ScaleTicks(ticks: int, from: Precision, to: Precision): int {
    if from == to then ticks
    else if from < to then ticks * Pow10(to - from)
    else
      var divisor := Pow10(from - to);
      var result := TruncDiv(ticks, divisor);
      if ticks - TruncDiv(ticks, divisor) * divisor != 0 && ticks < 0 then result - 1 else result
  }

  /** None where the product overflows. */
  function TryRescaleTicks(ticks: int, from: Precision, to: Precision): Option<int> {
    var scaled := ScaleTicks(ticks, from, to);
    if to > from && !FitsInt64(scaled) then None else Some(scaled)
  }

  // ---------------------------------------------------------------- floors

  lemma TruncOrFloor(n: int, d: nat)
    requires d > 0
    ensures n / d == TruncDiv(n, d) - if n - TruncDiv(n, d) * d != 0 && n < 0 then 1 else 0
  {
    if n >= 0 {
      assert TruncDiv(n, d) == n / d;
    } else {
      var a, b := (-n) / d, (-n) % d;
      assert -n == a * d + b;
      assert TruncDiv(n, d) == -a;
      NegatedProduct(a, d);
      NegativeFloor(n, d, a, b);
    }
  }

  lemma NegativeFloor(n: int, d: nat, a: int, b: int)
    requires d > 0 && -n == a * d + b && 0 <= b < d
    ensures n / d == if b == 0 then -a else -a - 1
  {
    var q, r := n / d, n % d;
    assert n == q * d + r;
    if b == 0 {
      NegatedProduct(a, d);
      QuotientUnique(-a, 0, q, r, d);
    } else {
      NegatedProduct(a + 1, d);
      NextMultiple(a, d);
      QuotientUnique(-a - 1, d - b, q, r, d);
    }
  }

  lemma NextMultiple(a: int, d: nat)
    ensures (a + 1) * d == a * d + d
  {
  }

  lemma NegatedProduct(a: int, d: nat)
    ensures (-a) * d == -(a * d)
  {
  }

  lemma QuotientUnique(q: int, r: nat, q': int, r': nat, d: nat)
    requires r < d && r' < d && q * d + r == q' * d + r'
    ensures q == q' && r == r'
  {
    if q < q' {
      MultipleGap(q, q', d);
    } else if q' < q {
      MultipleGap(q', q, d);
    }
  }

  lemma MultipleGap(a: int, b: int, d: nat)
    requires a < b
    ensures a * d + d <= b * d
  {
    MultipleMonotone(a + 1, b, d);
    assert (a + 1) * d == a * d + d;
  }

  /** Scaling up is exact; scaling down rounds toward the past, before 1970 too. */
  lemma ScaleExact(ticks: int, from: Precision, to: Precision)
    ensures from <= to ==> ScaleTicks(ticks, from, to) == ticks * Pow10(to - from)
    ensures from > to ==> ScaleTicks(ticks, from, to) == ticks / Pow10(from - to)
  {
    hide TruncDiv;
    if from > to {
      hide Pow10;
      TruncOrFloor(ticks, Pow10(from - to));
    } else {
      assert Pow10(0) == 1 by { PowZero(); }
      assert from == to ==> ticks * 1 == ticks;
    }
  }

  /** `ticks` at `to` digits is the last such instant not after `nanos`. */
  ghost predicate IsFloorOf(ticks: int, to: Precision, nanos: int) {
    var tick := Pow10(9 - to);
    ticks * tick <= nanos < ticks * tick + tick
  }

  function Nanos(ticks: int, precision: Precision): int {
    ticks * Pow10(9 - precision)
  }

  lemma DivFloor(n: int, d: nat)
    requires d > 0
    ensures n / d * d <= n < n / d * d + d
  {
  }

  lemma ProductOf(a: int, b: int, c: int)
    ensures a * b * c == a * (b * c)
  {
  }

  lemma FloorScaled(ticks: int, q: int, d: nat, p: nat)
    requires d > 0 && p > 0 && q * d <= ticks < q * d + d
    ensures q * (d * p) <= ticks * p < q * (d * p) + d * p
  {
    MultipleMonotone(q * d, ticks, p);
    MultipleMonotone(ticks + 1, q * d + d, p);
    ProductOf(q, d, p);
    assert (ticks + 1) * p == ticks * p + p;
    assert (q * d + d) * p == q * d * p + d * p;
  }

  /** ScaleTicks floors the instant, whichever way it scales. */
  lemma ScaleFloors(ticks: int, from: Precision, to: Precision)
    ensures IsFloorOf(ScaleTicks(ticks, from, to), to, Nanos(ticks, from))
  {
    hide Pow10, TruncDiv, ScaleTicks;
    ScaleExact(ticks, from, to);
    if from <= to {
      Pow10Sum(to - from, 9 - to);
      ProductOf(ticks, Pow10(to - from), Pow10(9 - to));
    } else {
      var d := Pow10(from - to);
      Pow10Sum(from - to, 9 - from);
      DivFloor(ticks, d);
      FloorScaled(ticks, ticks / d, d, Pow10(9 - from));
    }
  }

  // ---------------------------------------------------------------- INSERT

  /** 1900-01-01 00:00:00 and 2299-12-31 23:59:59.999999. */
  const MIN_MICROS := -2_208_988_800_000_000
  const MAX_MICROS := 10_413_791_999_999_999

  const MAX_UINT32 := 0xFFFF_FFFF

  /** A value of a timestamp vector: ticks at the digits of its type, or an infinity, which DuckDB keeps as the largest
      64-bit number or its negative. AppendTimestamp tells neither from ticks. */
  function Ticks(value: Instant): int {
    match value
    case NegInfinity => -MAX_INT64
    case Finite(n) => n
    case PosInfinity => MAX_INT64
  }

  predicate InVector(value: Instant) {
    value.Finite? ==> FitsInt64(value.n) && value.n != MAX_INT64 && value.n != -MAX_INT64
  }

  /** What AppendTimestamp appends to a DateTime column: None where it throws. */
  function AppendDateTime(ticks: int, from: Precision): Option<int> {
    var seconds := ScaleTicks(ticks, from, 0);
    if seconds < 0 || seconds > MAX_UINT32 then None else Some(seconds)
  }

  /** The same for DateTime64(to). */
  function AppendDateTime64(ticks: int, from: Precision, to: Precision): Option<int> {
    var micros := TryRescaleTicks(ticks, from, 6);
    if micros.None? || micros.value < MIN_MICROS || micros.value > MAX_MICROS then None
    else TryRescaleTicks(ticks, from, to)
  }

  lemma MicrosRange(ticks: int, from: Precision)
    ensures MIN_MICROS <= ScaleTicks(ticks, from, 6) <= MAX_MICROS <==>
            MIN_MICROS * 1_000 <= Nanos(ticks, from) < (MAX_MICROS + 1) * 1_000
  {
    hide ScaleTicks, Nanos, Pow10;
    ScaleFloors(ticks, from, 6);
    assert Pow10(3) == 1_000 by { Pow10Values(); }
  }

  lemma TicksFit(ticks: int, to: Precision, nanos: int)
    requires IsFloorOf(ticks, to, nanos) && to <= 8
    requires MIN_MICROS * 1_000 <= nanos < (MAX_MICROS + 1) * 1_000
    ensures FitsInt64(ticks)
  {
    hide Pow10;
    var tick := Pow10(9 - to);
    assert tick >= 10 by {
      Pow10Monotone(1, 9 - to);
      assert Pow10(1) == 10 by { PowOne(); }
    }
    MultipleMonotone(10, tick, 0x8000_0000_0000_0000);
    MultipleMonotone(10, tick, MAX_INT64);
    NegatedProduct(0x8000_0000_0000_0000, tick);
    if ticks < MIN_INT64 {
      MultipleGap(ticks, MIN_INT64, tick);
    } else if ticks > MAX_INT64 {
      MultipleMonotone(MAX_INT64, ticks, tick);
    }
  }

  lemma PowOne()
    ensures Pow10(1) == 10
  {
    assert Pow10(0) == 1;
  }

  /** An INSERT accepts ticks exactly if they lie in DateTime64's range and fit the column's 64 bits, which only
      nanoseconds can fail to, and stores their floor. */
  lemma TicksExact(ticks: int, from: Precision, to: Precision)
    requires FitsInt64(ticks)
    ensures var nanos := Nanos(ticks, from);
      AppendDateTime64(ticks, from, to).Some? <==>
        MIN_MICROS * 1_000 <= nanos < (MAX_MICROS + 1) * 1_000 && (to == 9 ==> FitsInt64(nanos))
    ensures AppendDateTime64(ticks, from, to).Some? ==>
      var stored := AppendDateTime64(ticks, from, to).value;
      IsFloorOf(stored, to, Nanos(ticks, from)) && FitsInt64(stored)
  {
    hide ScaleTicks, Pow10, TruncDiv;
    MicrosRange(ticks, from);
    ScaleFloors(ticks, from, to);
    assert 0 < Pow10(0) == 1 by { PowZero(); }
    if 6 <= from {
      DownFits(ticks, from, 6);
    }
    if to <= from {
      DownFits(ticks, from, to);
    }
    if to <= 8 {
      if MIN_MICROS * 1_000 <= Nanos(ticks, from) < (MAX_MICROS + 1) * 1_000 {
        TicksFit(ScaleTicks(ticks, from, to), to, Nanos(ticks, from));
      }
    } else {
      assert ScaleTicks(ticks, from, 9) == Nanos(ticks, from);
    }
  }

  /** So an INSERT accepts a finite timestamp exactly if it lies in that range, and stores its floor. It refuses every
      infinite one but +infinity in nanoseconds, whose ticks are in the range. */
  lemma InsertExact(value: Instant, from: Precision, to: Precision)
    requires InVector(value)
    ensures AppendDateTime64(Ticks(value), from, to).Some? <==>
      match value
      case Finite(ticks) =>
        MIN_MICROS * 1_000 <= Nanos(ticks, from) < (MAX_MICROS + 1) * 1_000 &&
        (to == 9 ==> FitsInt64(Nanos(ticks, from)))
      case PosInfinity => from == 9
      case NegInfinity => false
    ensures value.Finite? && AppendDateTime64(Ticks(value), from, to).Some? ==>
      var stored := AppendDateTime64(Ticks(value), from, to).value;
      IsFloorOf(stored, to, Nanos(value.n, from)) && FitsInt64(stored)
  {
    hide AppendDateTime64, Pow10;
    TicksExact(Ticks(value), from, to);
    if !value.Finite? {
      InfiniteNanos(from);
    }
  }

  lemma InfiniteNanos(from: Precision)
    ensures from == 9 ==> Nanos(MAX_INT64, from) == MAX_INT64 && Nanos(-MAX_INT64, from) == -MAX_INT64
    ensures from < 9 ==> Nanos(MAX_INT64, from) >= MAX_INT64 * 10
    ensures from < 9 ==> Nanos(-MAX_INT64, from) <= -MAX_INT64 * 10
  {
    hide Pow10;
    if from == 9 {
      assert Pow10(0) == 1 by { PowZero(); }
    } else {
      Pow10Monotone(1, 9 - from);
      assert Pow10(1) == 10 by { PowOne(); }
      MultipleMonotone(10, Pow10(9 - from), MAX_INT64);
      NegatedProduct(MAX_INT64, Pow10(9 - from));
    }
  }

  /** Scaling down never leaves the 64 bits. */
  lemma DownFits(ticks: int, from: Precision, to: Precision)
    requires FitsInt64(ticks) && to <= from
    ensures FitsInt64(ScaleTicks(ticks, from, to))
  {
    hide ScaleTicks, Pow10;
    ScaleExact(ticks, from, to);
    if from > to {
      QuotientFits(ticks, Pow10(from - to));
    } else {
      assert Pow10(0) == 1 by { PowZero(); }
    }
  }

  lemma QuotientFits(n: int, d: nat)
    requires FitsInt64(n) && d > 0
    ensures FitsInt64(n / d)
  {
  }

  // ---------------------------------------------------------------- reading, and UPDATE

  /** ConvertTimestamp: the microseconds a DateTime or DateTime64(precision) value is read as. */
  function ReadDateTime(seconds: int): int {
    seconds * 1_000_000
  }

  function ReadDateTime64(stored: int, precision: Precision): int {
    ScaleTicks(stored, precision, 6)
  }

  function Coarser(p: Precision, q: Precision): Precision {
    if p < q then p else q
  }

  /** `micros` is `nanos` floored to `digits` digits of a second. */
  ghost predicate IsFlooredTo(micros: int, digits: Precision, nanos: int)
    requires digits <= 6
  {
    exists ticks :: IsFloorOf(ticks, digits, nanos) && micros == ticks * Pow10(6 - digits)
  }

  lemma FloorOfFloor(a: int, p: nat, b: int, q: nat, n: int)
    requires p > 0 && q > 0
    requires a * p <= n < a * p + p && b * q <= a < b * q + q
    ensures b * (q * p) <= n < b * (q * p) + q * p
  {
    FloorScaled(a, b, q, p);
    MultipleMonotone(a + 1, b * q + q, p);
    assert (a + 1) * p == a * p + p && (b * q + q) * p == b * q * p + q * p;
    ProductOf(b, q, p);
  }

  /** An accepted finite timestamp is read back as its instant floored to the column's digits, at most six of them,
      without leaving 64 bits on the way. */
  lemma ReadBack(value: Instant, from: Precision, to: Precision)
    requires InVector(value) && value.Finite? && AppendDateTime64(Ticks(value), from, to).Some?
    ensures var read := ReadDateTime64(AppendDateTime64(Ticks(value), from, to).value, to);
      IsFlooredTo(read, Coarser(to, 6), Nanos(value.n, from)) && FitsInt64(read)
  {
    TicksReadBack(value.n, from, to);
  }

  /** +infinity in nanoseconds is read back as a finite instant: 2262-04-11 23:47:16.854775, floored to the column's
      digits. */
  lemma InfinityReadBack(to: Precision)
    ensures AppendDateTime64(Ticks(PosInfinity), 9, to).Some?
    ensures var read := ReadDateTime64(AppendDateTime64(Ticks(PosInfinity), 9, to).value, to);
      IsFlooredTo(read, Coarser(to, 6), 9_223_372_036_854_775_807) && 0 < read <= 9_223_372_036_854_775
  {
    hide AppendDateTime64, ReadDateTime64, Pow10;
    InsertExact(PosInfinity, 9, to);
    TicksReadBack(MAX_INT64, 9, to);
    InfiniteNanos(9);
    var read := ReadDateTime64(AppendDateTime64(MAX_INT64, 9, to).value, to);
    LastTick(read, Coarser(to, 6));
  }

  lemma LastTick(read: int, digits: Precision)
    requires digits <= 6 && IsFlooredTo(read, digits, MAX_INT64)
    ensures 0 < read <= 9_223_372_036_854_775
  {
    hide Pow10;
    var ticks :| IsFloorOf(ticks, digits, MAX_INT64) && read == ticks * Pow10(6 - digits);
    Pow10Sum(6 - digits, 3);
    assert Pow10(3) == 1_000 by { Pow10Values(); }
    ProductOf(ticks, Pow10(6 - digits), 1_000);
    assert ticks * Pow10(9 - digits) == read * 1_000;
    SmallPowers(9 - digits);
  }

  lemma TicksReadBack(ticks: int, from: Precision, to: Precision)
    requires FitsInt64(ticks) && AppendDateTime64(ticks, from, to).Some?
    ensures var read := ReadDateTime64(AppendDateTime64(ticks, from, to).value, to);
      IsFlooredTo(read, Coarser(to, 6), Nanos(ticks, from)) && FitsInt64(read)
  {
    hide ScaleTicks, Pow10, TruncDiv, AppendDateTime64;
    TicksExact(ticks, from, to);
    var stored, nanos := AppendDateTime64(ticks, from, to).value, Nanos(ticks, from);
    var read := ReadDateTime64(stored, to);
    ScaleExact(stored, to, 6);
    assert Pow10(0) == 1 by { PowZero(); }
    if to <= 6 {
      assert IsFloorOf(stored, to, nanos) && read == stored * Pow10(6 - to);
      ReadFits(stored, to, nanos);
    } else {
      var d := Pow10(to - 6);
      DivFloor(stored, d);
      Pow10Sum(to - 6, 9 - to);
      FloorOfFloor(stored, Pow10(9 - to), read, d, nanos);
      assert IsFloorOf(read, 6, nanos) && read == read * Pow10(0);
      QuotientFits(stored, d);
    }
  }

  lemma ReadFits(stored: int, to: Precision, nanos: int)
    requires to <= 6 && IsFloorOf(stored, to, nanos)
    requires MIN_MICROS * 1_000 <= nanos < (MAX_MICROS + 1) * 1_000
    ensures FitsInt64(stored * Pow10(6 - to))
  {
    hide Pow10;
    Pow10Sum(6 - to, 3);
    assert Pow10(3) == 1_000 by { Pow10Values(); }
    var micros := stored * Pow10(6 - to);
    ProductOf(stored, Pow10(6 - to), 1_000);
    assert stored * Pow10(9 - to) == micros * 1_000;
    assert Pow10(9 - to) <= 1_000_000_000 by { SmallPowers(9 - to); }
  }

  /** DateTime: finite seconds from 1970 to 2106, floored. */
  lemma DateTimeExact(value: Instant, from: Precision)
    ensures AppendDateTime(Ticks(value), from).Some? <==>
            value.Finite? && 0 <= Nanos(value.n, from) < (MAX_UINT32 + 1) * 1_000_000_000
    ensures AppendDateTime(Ticks(value), from).Some? ==>
      IsFloorOf(AppendDateTime(Ticks(value), from).value, 0, Nanos(value.n, from)) &&
      FitsInt64(ReadDateTime(AppendDateTime(Ticks(value), from).value))
  {
    hide ScaleTicks, Nanos, Pow10;
    ScaleFloors(Ticks(value), from, 0);
    assert Pow10(9) == 1_000_000_000 by { Pow10Values(); }
    InfiniteNanos(from);
  }

  lemma RemainderOf(n: int, d: nat)
    requires d > 0
    ensures n - n % d == n / d * d
  {
  }

  /** UPDATE's SQL, micros - positiveModulo(micros, 10^(6 - p)), is scaling down and back up: what an INSERT stores and
      a scan reads back. */
  lemma UpdateFloorsAlike(micros: int, p: Precision)
    requires p <= 6
    ensures FloorTimestamp(Ok(TimestampTz(Finite(micros))), p) ==
            Ok(TimestampTz(Finite(ReadDateTime64(ScaleTicks(micros, 6, p), p))))
  {
    hide ScaleTicks, Pow10;
    ScaleExact(micros, 6, p);
    ScaleExact(ScaleTicks(micros, 6, p), p, 6);
    assert Pow10(0) == 1 by { PowZero(); }
    RemainderOf(micros, Pow10(6 - p));
  }
}
