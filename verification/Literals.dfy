/** Literals of the predicate language and their conversion to a column's data type:
    `make_scalar` of parquet.rs and `make_scalar_array` of compute.rs. */
module Literals {
  import opened Wrappers
  import opened Arrow

  /** A literal as the native code receives it. Floating point is not modelled; instead a
      literal carries the outcome of the rounding the code performs on it: `f64` and `f32` are
      the (integral) values of `v as f64` and `v as f32`, and `f32Exact` says whether
      `v as f32 as f64 == v`. */
  datatype Literal =
    | IntLit(v: I64, f64: int, f32: int)
    | FloatLit(x: real, f32Exact: bool)
    | Utf8Lit(s: string)
    | BoolLit(b: bool)
    | Date32Lit(days: I32)
    | Date64Lit(millis: I64)
    | TimestampLit(unit: TimeUnit, ticks: I64)

  /** What IEEE rounding guarantees of the two carried values: they stay in range, integers of
      at most 53 (24) bits are exact, and 2^63 - 1 is not a single-precision number. */
  predicate Rounded(l: Literal)
    requires l.IntLit?
  {
    && -0x8000_0000_0000_0000 <= l.f64 <= 0x8000_0000_0000_0000
    && -0x8000_0000_0000_0000 <= l.f32 <= 0x8000_0000_0000_0000
    && (-0x20_0000_0000_0000 <= l.v <= 0x20_0000_0000_0000 ==> l.f64 == l.v)
    && (-0x100_0000 <= l.v <= 0x100_0000 ==> l.f32 == l.v)
    && l.f32 != 0x7fff_ffff_ffff_ffff
  }

  datatype EvalError =
    | ColumnNotFound(name: string)
    | OutOfRange
    | NotExact
    | CannotCompare
    | EmptyAnd
    | EmptyOr
    | NotBoolean
    | MaskLength
    | ArrayLengths

  // ---- Rust integer arithmetic ---------------------------------------------------------------

  /** `i64::checked_mul`. */
  function CheckedMul(a: I64, b: I64): (r: Option<I64>)
    ensures r.Some? <==> -9_223_372_036_854_775_808 <= a * b <= 9_223_372_036_854_775_807
    ensures r.Some? ==> r.value == a * b
  {
    if FitsI64(a * b) then Some(a * b) else None
  }

  /** Rust's `/` truncates toward zero. */
  function TruncDiv(a: int, b: int): int
    requires b > 0
  {
    if a >= 0 then a / b else -((-a) / b)
  }

  /** Rust's `%` takes the sign of the dividend. */
  function TruncRem(a: int, b: int): int
    requires b > 0
  {
    a - b * TruncDiv(a, b)
  }

  /** A float-to-integer cast saturates. */
  function SaturateI64(x: int): I64 {
    if x < -0x8000_0000_0000_0000 then -0x8000_0000_0000_0000
    else if x > 0x7fff_ffff_ffff_ffff then 0x7fff_ffff_ffff_ffff
    else x
  }

  // ---- parquet.rs: make_scalar -----------------------------------------------------------------

  function MakeScalar(value: Literal, t: DataType): (r: Result<Cell, EvalError>)
    ensures r.Ok? ==> CellOf(r.value, t)
  {
    match (value, t)
    case (IntLit(v, _, _), Int64) => Ok(IntCell(v))
    case (IntLit(v, _, _), Int32) => if FitsI32(v) then Ok(IntCell(v)) else Err(OutOfRange)
    case (FloatLit(x, _), Float64) => Ok(RealCell(x))
    case (FloatLit(x, exact), Float32) => if exact then Ok(RealCell(x)) else Err(NotExact)
    case (Utf8Lit(s), Utf8) => Ok(StrCell(s))
    case (BoolLit(b), Boolean) => Ok(BoolCell(b))
    case (IntLit(_, f64, _), Float64) => Ok(RealCell(f64 as real))
    case _ => Err(CannotCompare)
  }

  // ---- compute.rs: make_scalar_array -----------------------------------------------------------

  /** `i32::try_from`, `u8::try_from` and their siblings, by the range of the column's type. */
  function TryFrom(v: int, t: DataType): (r: Result<Cell, EvalError>)
    requires IntRange(t).Some?
    ensures r.Ok? ==> r.value == IntCell(v) && CellOf(r.value, t)
  {
    if IntRange(t).value.0 <= v <= IntRange(t).value.1 then Ok(IntCell(v)) else Err(OutOfRange)
  }

  const MILLIS_PER_DAY: I64 := 86_400_000

  function MakeScalarArray(value: Literal, t: DataType): (r: Result<Cell, EvalError>)
    ensures r.Ok? ==> CellOf(r.value, t)
  {
    match (value, t)
    case (IntLit(v, _, _), Int64) => Ok(IntCell(v))
    case (IntLit(v, _, _), Int32) => TryFrom(v, t)
    case (IntLit(v, _, _), Int16) => TryFrom(v, t)
    case (IntLit(v, _, _), Int8) => TryFrom(v, t)
    case (IntLit(v, _, _), UInt64) => if v < 0 then Err(OutOfRange) else Ok(IntCell(v))
    case (IntLit(v, _, _), UInt32) => TryFrom(v, t)
    case (IntLit(v, _, _), UInt16) => TryFrom(v, t)
    case (IntLit(v, _, _), UInt8) => TryFrom(v, t)
    case (FloatLit(x, _), Float64) => Ok(RealCell(x))
    case (IntLit(v, f64, _), Float64) => if f64 != v then Err(NotExact) else Ok(RealCell(f64 as real))
    case (FloatLit(x, exact), Float32) => if exact then Ok(RealCell(x)) else Err(NotExact)
    case (IntLit(v, _, f32), Float32) =>
      if SaturateI64(f32) != v then Err(NotExact) else Ok(RealCell(f32 as real))
    case (Utf8Lit(s), Utf8) => Ok(StrCell(s))
    case (Utf8Lit(s), LargeUtf8) => Ok(StrCell(s))
    case (BoolLit(b), Boolean) => Ok(BoolCell(b))
    case (Date32Lit(d), Date32) => Ok(IntCell(d))
    case (Date32Lit(d), Date64) =>
      (match CheckedMul(d, MILLIS_PER_DAY) case Some(ms) => Ok(IntCell(ms)) case None => Err(OutOfRange))
    case (Date64Lit(ms), Date64) => Ok(IntCell(ms))
    case (Date64Lit(ms), Date32) =>
      if TruncRem(ms, MILLIS_PER_DAY) != 0 then Err(NotExact) else TryFrom(TruncDiv(ms, MILLIS_PER_DAY), t)
    case (IntLit(v, _, _), Date32) => TryFrom(v, t)
    case (IntLit(v, _, _), Date64) => Ok(IntCell(v))
    case (TimestampLit(_, _), Timestamp(unit, _)) => MakeTimestampScalar(value, unit)
    case (IntLit(_, _, _), Timestamp(unit, _)) => MakeTimestampScalar(value, unit)
    case _ => Err(CannotCompare)
  }

  /** `make_timestamp_scalar`: through microseconds, except that a bare integer is already in
      the column's unit. */
  function MakeTimestampScalar(value: Literal, unit: TimeUnit): (r: Result<Cell, EvalError>)
    requires value.TimestampLit? || value.IntLit?
    ensures r.Ok? ==> r.value.IntCell? && FitsI64(r.value.i)
  {
    if value.IntLit? then Ok(IntCell(value.v))
    else
      var micros :- ToMicros(value.unit, value.ticks);
      var ticks :- MicrosToUnit(micros, unit);
      Ok(IntCell(ticks))
  }

  function ToMicros(unit: TimeUnit, ticks: I64): Result<I64, EvalError> {
    match unit
    case Microsecond => Ok(ticks)
    case Millisecond => (match CheckedMul(ticks, 1_000) case Some(m) => Ok(m) case None => Err(OutOfRange))
    case Second => (match CheckedMul(ticks, 1_000_000) case Some(m) => Ok(m) case None => Err(OutOfRange))
    case Nanosecond => if TruncRem(ticks, 1_000) != 0 then Err(NotExact) else Ok(TruncDiv(ticks, 1_000))
  }

  function MicrosToUnit(micros: I64, unit: TimeUnit): Result<I64, EvalError> {
    match unit
    case Microsecond => Ok(micros)
    case Millisecond => if TruncRem(micros, 1_000) != 0 then Err(NotExact) else Ok(TruncDiv(micros, 1_000))
    case Second => if TruncRem(micros, 1_000_000) != 0 then Err(NotExact) else Ok(TruncDiv(micros, 1_000_000))
    case Nanosecond => (match CheckedMul(micros, 1_000) case Some(n) => Ok(n) case None => Err(OutOfRange))
  }

  /** The type two literals are compared in; the first timestamp unit found in the order
      micro, milli, second, nano wins, whatever stands on the other side. */
  function InferLitCompareType(l: Literal, r: Literal): Result<DataType, EvalError> {
    match (l, r)
    case (BoolLit(_), BoolLit(_)) => Ok(Boolean)
    case (IntLit(_, _, _), IntLit(_, _, _)) => Ok(Int64)
    case (FloatLit(_, _), FloatLit(_, _)) => Ok(Float64)
    case (IntLit(_, _, _), FloatLit(_, _)) => Ok(Float64)
    case (FloatLit(_, _), IntLit(_, _, _)) => Ok(Float64)
    case (Utf8Lit(_), Utf8Lit(_)) => Ok(Utf8)
    case (Date32Lit(_), Date32Lit(_)) => Ok(Date32)
    case (Date64Lit(_), Date64Lit(_)) => Ok(Date64)
    case (Date32Lit(_), Date64Lit(_)) => Ok(Date64)
    case (Date64Lit(_), Date32Lit(_)) => Ok(Date64)
    case _ =>
      if IsTimestamp(l, Microsecond) || IsTimestamp(r, Microsecond) then Ok(Timestamp(Microsecond, None))
      else if IsTimestamp(l, Millisecond) || IsTimestamp(r, Millisecond) then Ok(Timestamp(Millisecond, None))
      else if IsTimestamp(l, Second) || IsTimestamp(r, Second) then Ok(Timestamp(Second, None))
      else if IsTimestamp(l, Nanosecond) || IsTimestamp(r, Nanosecond) then Ok(Timestamp(Nanosecond, None))
      else Err(CannotCompare)
  }

  predicate IsTimestamp(l: Literal, unit: TimeUnit) {
    l.TimestampLit? && l.unit == unit
  }

  /** `eval_cmp` on two literals: both are converted to one type, then compared once. */
  function LitCompare(op: CmpOp, l: Literal, r: Literal): Result<bool, EvalError> {
    var t :- InferLitCompareType(l, r);
    var a :- MakeScalarArray(l, t);
    var b :- MakeScalarArray(r, t);
    Ok(Compare(op, a, b))
  }

  // ---- what a conversion denotes ---------------------------------------------------------------

  function NanosPer(unit: TimeUnit): int {
    match unit
    case Second => 1_000_000_000
    case Millisecond => 1_000_000
    case Microsecond => 1_000
    case Nanosecond => 1
  }

  const NANOS_PER_DAY := 86_400_000_000_000

  predicate Temporal(t: DataType) { t.Date32? || t.Date64? || t.Timestamp? }

  /** Nanoseconds from the epoch for one unit of a temporal column. */
  function Resolution(t: DataType): int
    requires Temporal(t)
  {
    match t
    case Date32 => NANOS_PER_DAY
    case Date64 => 1_000_000
    case Timestamp(unit, _) => NanosPer(unit)
  }

  /** The instant a temporal literal names, in nanoseconds from the epoch. */
  function LiteralInstant(l: Literal): int
    requires l.Date32Lit? || l.Date64Lit? || l.TimestampLit?
  {
    match l
    case Date32Lit(d) => d * NANOS_PER_DAY
    case Date64Lit(ms) => ms * 1_000_000
    case TimestampLit(unit, ticks) => ticks * NanosPer(unit)
  }

  /** `nanos` is a whole number of `per`-nanosecond ticks that fits 64 bits. */
  predicate WholeI64(nanos: int, per: int)
    requires per > 0
  {
    nanos % per == 0 && FitsI64(nanos / per)
  }

  lemma TruncExact(a: int, b: int)
    requires b > 0
    ensures TruncRem(a, b) == 0 <==> a % b == 0
    ensures a % b == 0 ==> TruncDiv(a, b) == a / b && a == b * (a / b)
  {
    if a < 0 {
      var q := (-a) / b;
      assert -a == b * q + (-a) % b;
      if (-a) % b == 0 {
        assert a == b * (-q);
        Quotient(a, -q, b);
      } else if a % b == 0 {
        assert -a == b * (-(a / b));
        Quotient(-a, -(a / b), b);
      }
    }
  }

  lemma Quotient(a: int, q: int, b: int)
    requires b > 0 && a == b * q
    ensures a / b == q && a % b == 0
  {
    var q', r' := a / b, a % b;
    assert a == b * q' + r';
    assert b * (q - q') == r';
    assert q - q' >= 1 ==> b * (q - q') >= b * 1;
    assert q - q' <= -1 ==> b * (q - q') <= b * -1;
  }

  /** A timestamp literal converts to a column's unit exactly when its instant is a whole,
      in-range number of microseconds and of the column's ticks; and then to that number. */
  lemma TimestampConversionIsExact(l: Literal, unit: TimeUnit)
    requires l.TimestampLit?
    ensures var r := MakeTimestampScalar(l, unit);
      && (r.Ok? <==> WholeI64(LiteralInstant(l), 1_000) && WholeI64(LiteralInstant(l), NanosPer(unit)))
      && (r.Ok? ==> r.value.i * NanosPer(unit) == LiteralInstant(l))
  {
    var ns: int, t: int := LiteralInstant(l), l.ticks;
    TruncExact(t, 1_000);
    match l.unit {
      case Second => Quotient(ns, t * 1_000_000, 1_000);
      case Millisecond => Quotient(ns, t * 1_000, 1_000);
      case Microsecond => Quotient(ns, t, 1_000);
      case Nanosecond =>
    }
    assert ToMicros(l.unit, t).Ok? <==> WholeI64(ns, 1_000);
    if ToMicros(l.unit, t).Ok? {
      var micros: int := ToMicros(l.unit, t).value;
      assert ns == micros * 1_000;
      TruncExact(micros, 1_000);
      TruncExact(micros, 1_000_000);
      MicrosToUnitIsExact(micros, unit);
    }
  }

  lemma MicrosToUnitIsExact(micros: I64, unit: TimeUnit)
    ensures var r := MicrosToUnit(micros, unit);
      && (r.Ok? <==> WholeI64(micros * 1_000, NanosPer(unit)))
      && (r.Ok? ==> r.value * NanosPer(unit) == micros * 1_000)
  {
    var ns: int := micros * 1_000;
    match unit {
      case Second =>
        TruncExact(micros, 1_000_000);
        ScaleQuotient(micros, 1_000_000);
      case Millisecond =>
        TruncExact(micros, 1_000);
        ScaleQuotient(micros, 1_000);
      case Microsecond => Quotient(ns, micros, 1_000);
      case Nanosecond =>
    }
  }

  lemma ScaleQuotient(a: int, b: int)
    requires b > 0
    ensures (a * 1_000) % (b * 1_000) == 0 <==> a % b == 0
    ensures a % b == 0 ==> (a * 1_000) / (b * 1_000) == a / b
  {
    if a % b == 0 {
      Quotient(a * 1_000, a / b, b * 1_000);
    }
    if (a * 1_000) % (b * 1_000) == 0 {
      var q := (a * 1_000) / (b * 1_000);
      assert a * 1_000 == (b * 1_000) * q == (b * q) * 1_000;
      Quotient(a, q, b);
    }
  }

  /** Dates: days to milliseconds always converts; milliseconds to days exactly when the instant
      is a whole number of days in the 32-bit range. */
  lemma DateConversionIsExact(l: Literal, t: DataType)
    requires (l.Date32Lit? || l.Date64Lit?) && (t.Date32? || t.Date64?)
    ensures var r := MakeScalarArray(l, t);
      && (r.Ok? <==> LiteralInstant(l) % Resolution(t) == 0 && CellOf(IntCell(LiteralInstant(l) / Resolution(t)), t))
      && (r.Ok? ==> r.value.i * Resolution(t) == LiteralInstant(l))
  {
    var ns := LiteralInstant(l);
    if l.Date32Lit? && t.Date64? {
      Quotient(ns, l.days * MILLIS_PER_DAY, 1_000_000);
    } else if l.Date32Lit? {
      Quotient(ns, l.days, NANOS_PER_DAY);
    } else if t.Date64? {
      Quotient(ns, l.millis, 1_000_000);
    } else {
      TruncExact(l.millis, MILLIS_PER_DAY);
      if l.millis % MILLIS_PER_DAY == 0 {
        Quotient(ns, l.millis / MILLIS_PER_DAY, NANOS_PER_DAY);
      }
    }
  }

  predicate CompareInts(op: CmpOp, a: int, b: int) {
    match op
    case Eq => a == b
    case Ne => a != b
    case Gt => a > b
    case Gte => a >= b
    case Lt => a < b
    case Lte => a <= b
  }

  /** Comparing a temporal cell with a converted temporal literal compares the two instants. */
  lemma ConvertedLiteralComparesInstants(op: CmpOp, c: Cell, l: Literal, t: DataType)
    requires l.Date32Lit? || l.Date64Lit? || l.TimestampLit?
    requires Temporal(t) && CellOf(c, t) && MakeScalarArray(l, t).Ok?
    ensures Compare(op, c, MakeScalarArray(l, t).value) == CompareInts(op, c.i * Resolution(t), LiteralInstant(l))
    ensures Compare(op, MakeScalarArray(l, t).value, c) == CompareInts(op, LiteralInstant(l), c.i * Resolution(t))
  {
    if t.Timestamp? {
      TimestampConversionIsExact(l, t.unit);
    } else {
      DateConversionIsExact(l, t);
    }
    Scale(c.i, MakeScalarArray(l, t).value.i, Resolution(t));
  }

  lemma Scale(a: int, b: int, k: int)
    requires k > 0
    ensures a < b <==> a * k < b * k
    ensures a == b <==> a * k == b * k
  {
    if a < b {
      assert a * k < b * k;
    } else if b < a {
      assert b * k < a * k;
    }
  }

  /** The saturating check on integers against a Float32 column lets one inexact value through:
      an accepted literal stands for its own value exactly when it is not 2^63 - 1. */
  lemma IntegerAgainstFloat32(l: Literal)
    requires l.IntLit? && Rounded(l) && MakeScalarArray(l, Float32).Ok?
    ensures MakeScalarArray(l, Float32).value == RealCell(l.v as real) <==> l.v != 0x7fff_ffff_ffff_ffff
  {
  }

  /** That value is accepted, and compared as 2^63. */
  lemma LargestIntegerAgainstFloat32()
    ensures var l := IntLit(0x7fff_ffff_ffff_ffff, 0x8000_0000_0000_0000, 0x8000_0000_0000_0000);
      && Rounded(l)
      && MakeScalarArray(l, Float32) == Ok(RealCell(9223372036854775808.0))
      && MakeScalarArray(l, Float64) == Err(NotExact)
  {
  }

  /** The value a number, text or boolean literal stands for, as a cell. */
  function ExactCell(l: Literal, t: DataType): Cell
    requires l.IntLit? || l.FloatLit? || l.Utf8Lit? || l.BoolLit?
  {
    match l
    case IntLit(v, _, _) => if t.Float32? || t.Float64? then RealCell(v as real) else IntCell(v)
    case FloatLit(x, _) => RealCell(x)
    case Utf8Lit(s) => StrCell(s)
    case BoolLit(b) => BoolCell(b)
  }

  /** What a converted literal stands for. The Parquet evaluator keeps its value except where it rounds an
      integer to a double unasked; the expression evaluator keeps it except for 2^63 - 1 as a float. */
  lemma ConversionKeepsValue(l: Literal, t: DataType)
    requires l.IntLit? || l.FloatLit? || l.Utf8Lit? || l.BoolLit?
    requires l.IntLit? ==> Rounded(l)
    ensures MakeScalar(l, t).Ok? ==>
              (MakeScalar(l, t).value == ExactCell(l, t) <==> !(l.IntLit? && t.Float64? && l.f64 != l.v))
    ensures MakeScalarArray(l, t).Ok? ==>
              (MakeScalarArray(l, t).value == ExactCell(l, t) <==>
               !(l.IntLit? && t.Float32? && l.v == 0x7fff_ffff_ffff_ffff))
  {
  }

  /** The literals a column type accepts, by literal and type. */
  predicate Acceptable(l: Literal, t: DataType) {
    match l
    case IntLit(v, f64, f32) =>
      (match t
       case Int8 => -128 <= v <= 127
       case Int16 => -32_768 <= v <= 32_767
       case Int32 | Date32 => -2_147_483_648 <= v <= 2_147_483_647
       case UInt8 => 0 <= v <= 255
       case UInt16 => 0 <= v <= 65_535
       case UInt32 => 0 <= v <= 4_294_967_295
       case UInt64 => 0 <= v
       case Float64 => f64 == v
       case Float32 => f32 == v || (v == 9_223_372_036_854_775_807 && f32 == 9_223_372_036_854_775_808)
       case Int64 | Date64 => true
       case Timestamp(_, _) => true
       case _ => false)
    case FloatLit(_, f32Exact) => t.Float64? || (t.Float32? && f32Exact)
    case Utf8Lit(_) => t.Utf8? || t.LargeUtf8?
    case BoolLit(_) => t.Boolean?
    case Date32Lit(_) => t.Date32? || t.Date64?
    case Date64Lit(ms) =>
      t.Date64? || (t.Date32? && ms % 86_400_000 == 0 && -2_147_483_648 <= ms / 86_400_000 <= 2_147_483_647)
    case TimestampLit(_, _) =>
      t.Timestamp? && WholeI64(LiteralInstant(l), 1_000) && WholeI64(LiteralInstant(l), NanosPer(t.unit))
  }

  /** The expression evaluator accepts exactly these. */
  lemma AcceptanceByType(l: Literal, t: DataType)
    requires l.IntLit? ==> Rounded(l)
    ensures MakeScalarArray(l, t).Ok? <==> Acceptable(l, t)
  {
    if l.TimestampLit? && t.Timestamp? {
      TimestampConversionIsExact(l, t.unit);
    }
    if l.Date64Lit? && t.Date32? {
      TruncExact(l.millis, MILLIS_PER_DAY);
    }
  }

  // ---- two literals compared -------------------------------------------------------------------------------

  function NumberOf(l: Literal): Option<real> {
    match l
    case IntLit(v, _, _) => Some(v as real)
    case FloatLit(x, _) => Some(x)
    case _ => None
  }

  predicate IsDate(l: Literal) { l.Date32Lit? || l.Date64Lit? }

  /** Two numbers compare by value; an integer meets a float only if it is a double. */
  lemma NumbersCompare(op: CmpOp, l: Literal, r: Literal)
    requires NumberOf(l).Some? && NumberOf(r).Some?
    ensures LitCompare(op, l, r).Ok? <==>
            && (l.IntLit? && r.FloatLit? ==> l.f64 == l.v)
            && (l.FloatLit? && r.IntLit? ==> r.f64 == r.v)
    ensures LitCompare(op, l, r).Ok? ==>
              var x, y := NumberOf(l).value, NumberOf(r).value;
              LitCompare(op, l, r).value == Outcome(op, x < y, x == y, x > y)
  {
  }

  /** Two texts, or two booleans, compare as cells do. */
  lemma PlainLiteralsCompare(op: CmpOp, l: Literal, r: Literal)
    requires (l.Utf8Lit? && r.Utf8Lit?) || (l.BoolLit? && r.BoolLit?)
    ensures LitCompare(op, l, r).Ok?
    ensures var x, y := ExactCell(l, Utf8), ExactCell(r, Utf8);
      LitCompare(op, l, r).value == Outcome(op, Less(x, y), x == y, Less(y, x))
  {
    ComparisonMeans(op, ExactCell(l, Utf8), ExactCell(r, Utf8));
  }

  /** Two dates compare as instants, whatever their widths. */
  lemma DatesCompare(op: CmpOp, l: Literal, r: Literal)
    requires IsDate(l) && IsDate(r)
    ensures LitCompare(op, l, r).Ok?
    ensures var x, y := LiteralInstant(l), LiteralInstant(r);
      LitCompare(op, l, r).value == Outcome(op, x < y, x == y, x > y)
  {
    var t := InferLitCompareType(l, r).value;
    DateConversionIsExact(l, t);
    DateConversionIsExact(r, t);
    Scale(MakeScalarArray(l, t).value.i, MakeScalarArray(r, t).value.i, Resolution(t));
    Scale(MakeScalarArray(r, t).value.i, MakeScalarArray(l, t).value.i, Resolution(t));
  }

  /** The unit two timestamps are compared in. */
  function CommonUnit(l: TimeUnit, r: TimeUnit): TimeUnit {
    if Microsecond in {l, r} then Microsecond
    else if Millisecond in {l, r} then Millisecond
    else if Second in {l, r} then Second
    else Nanosecond
  }

  /** Two timestamps compare as instants, if both convert to their common unit. */
  lemma TimestampsCompare(op: CmpOp, l: Literal, r: Literal)
    requires l.TimestampLit? && r.TimestampLit?
    ensures var t := Timestamp(CommonUnit(l.unit, r.unit), None);
      LitCompare(op, l, r).Ok? <==> Acceptable(l, t) && Acceptable(r, t)
    ensures LitCompare(op, l, r).Ok? ==>
              var x, y := LiteralInstant(l), LiteralInstant(r);
              LitCompare(op, l, r).value == Outcome(op, x < y, x == y, x > y)
  {
    var t := Timestamp(CommonUnit(l.unit, r.unit), None);
    assert InferLitCompareType(l, r) == Ok(t);
    AcceptanceByType(l, t);
    AcceptanceByType(r, t);
    if LitCompare(op, l, r).Ok? {
      TimestampConversionIsExact(l, t.unit);
      TimestampConversionIsExact(r, t.unit);
      Scale(MakeScalarArray(l, t).value.i, MakeScalarArray(r, t).value.i, Resolution(t));
      Scale(MakeScalarArray(r, t).value.i, MakeScalarArray(l, t).value.i, Resolution(t));
    }
  }

  /** A timestamp meets an integer as a count of its own unit. */
  lemma TimestampMeetsInteger(op: CmpOp, l: Literal, r: Literal)
    requires l.TimestampLit? && r.IntLit?
    ensures LitCompare(op, l, r).Ok? <==> Acceptable(l, Timestamp(l.unit, None))
    ensures LitCompare(op, l, r).Ok? ==>
              LitCompare(op, l, r).value == Outcome(op, l.ticks < r.v, l.ticks == r.v, l.ticks > r.v)
  {
    OwnUnit(l);
    assert InferLitCompareType(l, r) == Ok(Timestamp(l.unit, None));
  }

  lemma IntegerMeetsTimestamp(op: CmpOp, l: Literal, r: Literal)
    requires l.IntLit? && r.TimestampLit?
    ensures LitCompare(op, l, r).Ok? <==> Acceptable(r, Timestamp(r.unit, None))
    ensures LitCompare(op, l, r).Ok? ==>
              LitCompare(op, l, r).value == Outcome(op, l.v < r.ticks, l.v == r.ticks, l.v > r.ticks)
  {
    OwnUnit(r);
    assert InferLitCompareType(l, r) == Ok(Timestamp(r.unit, None));
  }

  /** In its own unit a timestamp that converts keeps its ticks. */
  lemma OwnUnit(l: Literal)
    requires l.TimestampLit?
    ensures MakeScalarArray(l, Timestamp(l.unit, None)).Ok? <==> Acceptable(l, Timestamp(l.unit, None))
    ensures MakeScalarArray(l, Timestamp(l.unit, None)).Ok? ==>
              MakeScalarArray(l, Timestamp(l.unit, None)) == Ok(IntCell(l.ticks))
  {
    var t := Timestamp(l.unit, None);
    AcceptanceByType(l, t);
    if MakeScalarArray(l, t).Ok? {
      TimestampConversionIsExact(l, l.unit);
      Scale(MakeScalarArray(l, t).value.i, l.ticks, NanosPer(l.unit));
    }
  }

  /** Nothing else compares. */
  lemma OtherLiteralsDoNotCompare(op: CmpOp, l: Literal, r: Literal)
    requires !(NumberOf(l).Some? && NumberOf(r).Some?)
    requires !(l.Utf8Lit? && r.Utf8Lit?) && !(l.BoolLit? && r.BoolLit?) && !(IsDate(l) && IsDate(r))
    requires !(l.TimestampLit? && (r.TimestampLit? || r.IntLit?)) && !(l.IntLit? && r.TimestampLit?)
    ensures LitCompare(op, l, r).Err?
  {
  }

  /** Why a literal is refused for a column that is not temporal: an integer outside the type's range, a
      number that is not exact in the type, or no way to compare at all. */
  lemma RefusalReason(l: Literal, t: DataType)
    requires !Temporal(t) && (l.IntLit? ==> Rounded(l))
    ensures MakeScalarArray(l, t).Err? ==>
              MakeScalarArray(l, t).error ==
              if l.IntLit? && IntRange(t).Some? then OutOfRange
              else if (l.IntLit? || l.FloatLit?) && (t.Float32? || t.Float64?) then NotExact
              else CannotCompare
    ensures MakeScalar(l, t).Err? ==>
              MakeScalar(l, t).error ==
              if l.IntLit? && t.Int32? then OutOfRange
              else if l.FloatLit? && t.Float32? then NotExact
              else CannotCompare
  {
  }

  /** Where both evaluators accept a literal for a column they compare with the same cell; and
      `make_scalar_array` refuses what `make_scalar` accepts only for an integer that rounds. */
  lemma ScalarsAgree(l: Literal, t: DataType)
    ensures MakeScalar(l, t).Ok? && MakeScalarArray(l, t).Ok? ==> MakeScalar(l, t) == MakeScalarArray(l, t)
    ensures MakeScalar(l, t).Ok? ==> (MakeScalarArray(l, t).Err? <==> l.IntLit? && t.Float64? && l.f64 != l.v)
  {
  }
}
