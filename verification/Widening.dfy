/** Which ALTER COLUMN ... TYPE statements ClickHouse may run on its own (src/storage/clickhouse_ddl.cpp): those that
    keep every value. */
module Widening {
  import opened LogicalTypes
  import opened Values
  import opened Casts
  import opened Sql

  /** How many digits a DECIMAL needs before the point to hold every integer of the type. */
  function IntegerDigits(bits: nat, signed: bool): nat {
    if bits == 8 then 3
    else if bits == 16 then 5
    else if bits == 32 then 10
    else if bits == 64 then if signed then 19 else 20
    else 39
  }

  predicate KeepsEveryValue(source: LogicalType, target: LogicalType) {
    match target
    case VarcharType => source.IntegerType? || source.DateType? || source.EnumType?
    case JsonType => false
    case FloatType => source.IntegerType? && source.bits <= 16
    case DoubleType => source.FloatType? || (source.IntegerType? && source.bits <= 32)
    case DecimalType(width, scale) =>
      var digits := width - scale;
      if source.IntegerType? then digits >= IntegerDigits(source.bits, source.signed)
      else source.DecimalType? && scale >= source.scale && digits >= source.width - source.scale
    case TimestampType(digits) => digits == 6 && source.DateType?
    case IntegerType(bits, signed) => source.IntegerType? && bits > source.bits && (signed || !source.signed)
    case _ => false
  }

  // ---------------------------------------------------------------- powers

  lemma Pow2Sum(a: nat, b: nat)
    ensures Pow2(a + b) == Pow2(a) * Pow2(b)
  {
    if a > 0 {
      Pow2Sum(a - 1, b);
    }
  }

  lemma {:induction false} Pow2Twice(a: nat)
    ensures Pow2(2 * a) == Pow2(a) * Pow2(a)
  {
    Pow2Sum(a, a);
  }

  lemma {:induction false} Pow10Sum(a: nat, b: nat)
    ensures Pow10(a + b) == Pow10(a) * Pow10(b)
  {
    if a > 0 {
      Pow10Sum(a - 1, b);
    }
  }

  lemma {:induction false} Pow10Monotone(a: nat, b: nat)
    requires a <= b
    ensures Pow10(a) <= Pow10(b)
  {
    if a < b {
      Pow10Monotone(a, b - 1);
    }
  }

  lemma Pow2Values()
    ensures Pow2(8) == 0x100 && Pow2(16) == 0x1_0000 && Pow2(32) == 0x1_0000_0000
    ensures Pow2(64) == 0x1_0000_0000_0000_0000
    ensures Pow2(128) == 0x1_0000_0000_0000_0000_0000_0000_0000_0000
  {
    assert Pow2(1) == 2 && Pow2(2) == 4 && Pow2(3) == 8 && Pow2(4) == 16;
    Pow2Twice(4);
    Pow2Twice(8);
    Pow2Twice(16);
    Pow2Twice(32);
    Pow2Twice(64);
  }

  lemma Pow2Halves()
    ensures Pow2(7) == 0x80 && Pow2(15) == 0x8000 && Pow2(31) == 0x8000_0000
    ensures Pow2(63) == 0x8000_0000_0000_0000
    ensures Pow2(127) == 0x8000_0000_0000_0000_0000_0000_0000_0000
  {
    Pow2Values();
    assert Pow2(8) == 2 * Pow2(7) && Pow2(16) == 2 * Pow2(15) && Pow2(32) == 2 * Pow2(31);
    assert Pow2(64) == 2 * Pow2(63) && Pow2(128) == 2 * Pow2(127);
  }

  lemma Pow10Values()
    ensures Pow10(2) == 100 && Pow10(3) == 1_000 && Pow10(4) == 10_000 && Pow10(5) == 100_000
    ensures Pow10(6) == 1_000_000 && Pow10(9) == 1_000_000_000 && Pow10(10) == 10_000_000_000
  {
    assert Pow10(1) == 10 && Pow10(2) == 100 && Pow10(3) == 1_000 && Pow10(4) == 10_000 && Pow10(5) == 100_000;
    assert Pow10(6) == 1_000_000 && Pow10(7) == 10_000_000 && Pow10(8) == 100_000_000;
  }

  lemma Pow10Large()
    ensures Pow10(18) == 1_000_000_000_000_000_000 && Pow10(19) == 10_000_000_000_000_000_000
    ensures Pow10(20) == 100_000_000_000_000_000_000
    ensures Pow10(38) == 100_000_000_000_000_000_000_000_000_000_000_000_000
    ensures Pow10(39) == 1_000_000_000_000_000_000_000_000_000_000_000_000_000
  {
    Pow10Values();
    Pow10Sum(9, 9);
    Pow10Sum(19, 19);
    assert Pow10(19) == 10 * Pow10(18) && Pow10(20) == 10 * Pow10(19) && Pow10(39) == 10 * Pow10(38);
  }

  // ---------------------------------------------------------------- integers in decimals

  function Magnitude(bits: nat, signed: bool): int {
    if signed && bits > 0 then Pow2(bits - 1) else Pow2(bits) - 1
  }

  /** Some value has the largest magnitude, and none a larger one. */
  lemma LargestMagnitude(bits: nat, signed: bool)
    requires bits > 0
    ensures forall n :: FitsInteger(n, bits, signed) ==> Abs(n) <= Magnitude(bits, signed)
    ensures FitsInteger(if signed then -Magnitude(bits, signed) else Magnitude(bits, signed), bits, signed)
  {
  }

  /** IntegerDigits is exact: the largest magnitude has that many digits, neither fewer nor more. */
  lemma DigitsExact(bits: nat, signed: bool)
    requires IntegerWidth(bits)
    ensures Pow10(IntegerDigits(bits, signed) - 1) <= Magnitude(bits, signed) < Pow10(IntegerDigits(bits, signed))
  {
    hide Pow2, Pow10;
    Pow2Values();
    Pow2Halves();
    Pow10Values();
    Pow10Large();
  }

  lemma ScaledFits(n: int, width: nat, scale: nat)
    requires scale <= width
    ensures Abs(n * Pow10(scale)) < Pow10(width) <==> Abs(n) < Pow10(width - scale)
  {
    hide Pow10;
    var p, q, a := Pow10(scale), Pow10(width - scale), Abs(n);
    Pow10Sum(width - scale, scale);
    ScaledAbs(n, p);
    if a < q {
      MultipleMonotone(a + 1, q, p);
      assert (a + 1) * p == a * p + p;
    } else {
      MultipleMonotone(q, a, p);
    }
  }

  lemma ScaledAbs(n: int, p: nat)
    requires p > 0
    ensures Abs(n * p) == Abs(n) * p
  {
    if n < 0 {
      NegativeProduct(-n, p);
    }
  }

  /** An integer type is accepted into a DECIMAL exactly if every one of its values fits. */
  lemma IntegerIntoDecimal(bits: nat, signed: bool, width: nat, scale: nat)
    requires IntegerWidth(bits) && scale <= width
    ensures KeepsEveryValue(IntegerType(bits, signed), DecimalType(width, scale)) <==>
            forall n :: FitsInteger(n, bits, signed) ==> DecimalResult(n * Pow10(scale), width, scale).Ok?
  {
    hide Pow10, Pow2, FitsInteger, Magnitude;
    var d, needed, m := width - scale, IntegerDigits(bits, signed), Magnitude(bits, signed);
    DigitsExact(bits, signed);
    LargestMagnitude(bits, signed);
    if d >= needed {
      Pow10Monotone(needed, d);
      forall n | FitsInteger(n, bits, signed) ensures DecimalResult(n * Pow10(scale), width, scale).Ok? {
        ScaledFits(n, width, scale);
      }
    } else {
      Pow10Monotone(d, needed - 1);
      var n := if signed then -m else m;
      ScaledFits(n, width, scale);
      assert FitsInteger(n, bits, signed) && !DecimalResult(n * Pow10(scale), width, scale).Ok?;
    }
  }

  /** A DECIMAL is accepted into another exactly if every one of its values is one of the other's: at least as many
      digits on either side of the point. */
  lemma DecimalIntoDecimal(width: nat, scale: nat, toWidth: nat, toScale: nat)
    requires 1 <= width && scale <= width && toScale <= toWidth
    ensures KeepsEveryValue(DecimalType(width, scale), DecimalType(toWidth, toScale)) <==>
            scale <= toScale &&
            forall u :: Abs(u) < Pow10(width) ==> DecimalResult(u * Pow10(toScale - scale), toWidth, toScale).Ok?
  {
    hide Pow10;
    if scale <= toScale {
      var shift := toScale - scale;
      if toWidth - toScale >= width - scale {
        forall u | Abs(u) < Pow10(width) ensures DecimalResult(u * Pow10(shift), toWidth, toScale).Ok? {
          ScaledFits(u, toWidth, shift);
          Pow10Monotone(width, toWidth - shift);
        }
      } else {
        LargestDecimal(width, toWidth, shift);
        var u := Pow10(width) - 1;
        assert Abs(u) < Pow10(width) && !DecimalResult(u * Pow10(shift), toWidth, toScale).Ok?;
      }
    }
  }

  lemma LargestDecimal(width: nat, toWidth: nat, shift: nat)
    requires 1 <= width && toWidth < width + shift
    ensures Abs((Pow10(width) - 1) * Pow10(shift)) >= Pow10(toWidth)
  {
    hide Pow10;
    Pow10Sum(width - 1, shift);
    Pow10Step(width);
    Pow10Monotone(toWidth, width - 1 + shift);
    LargerProduct(Pow10(width - 1), Pow10(width) - 1, Pow10(shift), Pow10(toWidth));
  }

  lemma LargerProduct(a: nat, u: nat, s: nat, t: nat)
    requires a <= u && a * s >= t && s > 0
    ensures Abs(u * s) >= t
  {
    MultipleMonotone(a, u, s);
    ScaledAbs(u, s);
  }

  lemma Pow10Step(n: nat)
    requires n > 0
    ensures Pow10(n) == 10 * Pow10(n - 1) && Pow10(n) - 1 >= Pow10(n - 1)
  {
  }

  // ---------------------------------------------------------------- integers in integers and floats

  lemma {:induction false} Pow2Monotone(a: nat, b: nat)
    requires a <= b
    ensures Pow2(a) <= Pow2(b)
  {
    if a < b {
      Pow2Monotone(a, b - 1);
    }
  }

  /** An integer type is accepted into another, of another width, exactly if every one of its values fits. */
  lemma IntegerIntoInteger(bits: nat, signed: bool, toBits: nat, toSigned: bool)
    requires IntegerWidth(bits) && IntegerWidth(toBits) && bits != toBits
    ensures KeepsEveryValue(IntegerType(bits, signed), IntegerType(toBits, toSigned)) <==>
            forall n :: FitsInteger(n, bits, signed) ==> FitsInteger(n, toBits, toSigned)
  {
    hide Pow2;
    Pow2Values();
    Pow2Halves();
    if toBits > bits && (toSigned || !signed) {
    } else {
      var n := if signed && !toSigned then -1 else MaxOf(bits, signed);
      assert FitsInteger(n, bits, signed) && !FitsInteger(n, toBits, toSigned);
    }
  }

  /** A float type whose significand has `precision` bits holds n: at most that many bits and trailing zeros. */
  ghost predicate Representable(n: int, precision: nat) {
    exists m: int, e: nat :: Abs(m) <= Pow2(precision) && n == m * Pow2(e)
  }

  function Significand(target: LogicalType): nat {
    if target.FloatType? then 24 else 53
  }

  /** An integer type is accepted into FLOAT or DOUBLE exactly if each of its values is held: 24 and 53 bits of
      significand decide. */
  lemma IntegerIntoFloat(bits: nat, signed: bool, target: LogicalType)
    requires IntegerWidth(bits) && (target.FloatType? || target.DoubleType?)
    ensures KeepsEveryValue(IntegerType(bits, signed), target) <==>
            forall n :: FitsInteger(n, bits, signed) ==> Representable(n, Significand(target))
  {
    hide Representable, FitsInteger;
    if KeepsEveryValue(IntegerType(bits, signed), target) {
      forall n | FitsInteger(n, bits, signed) ensures Representable(n, Significand(target)) {
        SmallRepresentable(n, bits, signed, Significand(target));
      }
    } else {
      FirstGap(bits, signed, Significand(target));
    }
  }

  lemma SmallRepresentable(n: int, bits: nat, signed: bool, precision: nat)
    requires FitsInteger(n, bits, signed) && 0 < bits <= precision
    ensures Representable(n, precision)
  {
    LargestMagnitude(bits, signed);
    Pow2Monotone(bits, precision);
    assert signed ==> Pow2(bits) == 2 * Pow2(bits - 1);
    assert Pow2(0) == 1 && n == n * Pow2(0);
  }

  lemma TwiceProduct(m: int, n: int)
    ensures m * (2 * n) == 2 * (m * n)
  {
  }

  /** One more than a power of two that takes up the whole significand is odd, and so not held. */
  lemma FirstGap(bits: nat, signed: bool, precision: nat)
    requires 1 <= precision && precision + 2 <= bits
    ensures FitsInteger(Pow2(precision) + 1, bits, signed) && !Representable(Pow2(precision) + 1, precision)
  {
    var n := Pow2(precision) + 1;
    Pow2Monotone(precision + 1, bits - 1);
    forall m: int, e: nat | Abs(m) <= Pow2(precision) ensures n != m * Pow2(e) {
      OddNotHeld(m, e, precision);
    }
  }

  lemma OddNotHeld(m: int, e: nat, precision: nat)
    requires Abs(m) <= Pow2(precision) && 1 <= precision
    ensures m * Pow2(e) != Pow2(precision) + 1
  {
    if e == 0 {
      assert Pow2(0) == 1;
    } else {
      assert Pow2(e) == 2 * Pow2(e - 1) && Pow2(precision) == 2 * Pow2(precision - 1);
      hide Pow2;
      TwiceProduct(m, Pow2(e - 1));
    }
  }

  // ---------------------------------------------------------------- all pairs

  /** What a column can hold: no infinite date and none outside Date32's range. */
  predicate Stored(v: Value) {
    v.Date? ==> v.day.Finite? && InDate32(v.day.n)
  }

  lemma Thousands(m: int)
    ensures m * 1_000 % 1_000 == 0 && m * 1_000 / 1_000 == m
  {
  }

  lemma MidnightMicros(day: int)
    requires InDate32(day)
    ensures FitsInteger(day * 86_400_000_000, 64, true)
  {
    hide Pow2;
    Pow2Halves();
  }

  lemma MidnightFits(day: int)
    requires InDate32(day)
    ensures FitsTimestamp(day * NANOS_PER_DAY, 6)
  {
    hide Pow10, FitsInteger;
    assert Pow10(3) == 1_000 by { Pow10Values(); }
    var micros := day * 86_400_000_000;
    assert day * NANOS_PER_DAY == micros * 1_000;
    Thousands(micros);
    MidnightMicros(day);
  }

  lemma WidenedFits(v: Value, source: LogicalType, target: LogicalType, dateText: DateText)
    requires HasType(v, source) && WellFormed(source) && WellFormed(target) && !v.Null? && Stored(v)
    requires KeepsEveryValue(source, target) && (target.IntegerType? || target.DecimalType?)
    ensures DuckCast(v, source, target, dateText).Ok?
    ensures ServerCast(v, target, dateText) == DuckCast(v, source, target, dateText)
  {
    hide Pow10, FitsInteger, Abs;
    match target
    case IntegerType(bits, signed) => IntegerIntoInteger(source.bits, source.signed, bits, signed);
    case DecimalType(width, scale) =>
      if source.IntegerType? {
        IntegerIntoDecimal(source.bits, source.signed, width, scale);
      } else {
        DecimalIntoDecimal(source.width, source.scale, width, scale);
        if source == target {
          assert Pow10(0) == 1 by { PowZero(); }
          assert v.unscaled * Pow10(0) == v.unscaled;
        }
      }
  }

  lemma PowZero()
    ensures Pow10(0) == 1
  {
  }

  /** Every value of an accepted pair's source type, NULL included, is converted by ClickHouse into the value DuckDB's
      ALTER makes of it, and neither fails. */
  lemma WideningExact(v: Value, source: LogicalType, target: LogicalType, dateText: DateText)
    requires HasType(v, source) && WellFormed(source) && WellFormed(target) && Stored(v)
    requires KeepsEveryValue(source, target)
    ensures DuckCast(v, source, target, dateText).Ok?
    ensures ServerCast(v, target, dateText) == DuckCast(v, source, target, dateText)
  {
    hide Pow10, FitsInteger, Abs, FitsTimestamp, Pow2;
    if !v.Null? {
      if target.IntegerType? || target.DecimalType? {
        WidenedFits(v, source, target, dateText);
      } else if target.TimestampType? {
        MidnightFits(v.day.n);
      }
    }
  }
}
