/** The type tests and conversions of Json::Value
    (src/lib_json/json_value.cpp): `isInt` ... `isUInt64`, `asInt` ...
    `asUInt64`, `asBool`, `asString` and `isConvertibleTo`. A failed
    JSON_ASSERT_MESSAGE or JSON_FAIL_MESSAGE is a `Fail` result.

    Doubles are exact reals here, so the real branches only model the range
    tests: the limits 2^63 - 1 and 2^64 - 1 are not representable and are
    compared as the doubles they round to, 2^63 and 2^64. */
module ValueConvert {
  import opened Wrappers
  import opened Bytes
  import opened Values
  import opened StringWriter

  /** The integer an integral payload denotes. */
  function IntegerOf(v: Value): int
    requires v.data.Int? || v.data.UInt?
  {
    if v.data.Int? then v.data.i else v.data.u
  }

  /** Truncation toward zero, as a C++ cast from double to an integer type. */
  function Trunc(r: real): int {
    if r >= 0.0 then r.Floor else -((-r).Floor)
  }

  /** The value of `static_cast<double>(n)` for the limits the source uses. */
  function LimitAsDouble(n: int): real {
    if n == MaxInt64 then 0x8000_0000_0000_0000 as real
    else if n == MaxUInt64 then 0x1_0000_0000_0000_0000 as real
    else n as real
  }

  /** IsIntegral: `modf` leaves no fraction. Infinities have a zero fraction;
      NaN has a NaN fraction. */
  predicate IsIntegral(d: Double) {
    match d
    case Finite(r) => r.Floor as real == r
    case NaN => false
    case _ => true
  }

  /** `lo <= d && d <= hi` on a double, for finite bounds. */
  predicate Between(d: Double, lo: real, hi: real) {
    d.Finite? && lo <= d.r <= hi
  }

  /** InRange(d, min, max): `d` lies between the limits and its truncation
      does not land on `min` from above. A truncation outside [min, max]
      (possible only at the rounded-up 64-bit limit, where the C++ cast is
      out of range) is counted as out of range. */
  predicate InRange(d: Double, min: int, max: int) {
    && Between(d, min as real, LimitAsDouble(max))
    && min <= Trunc(d.r) <= max
    && !(Trunc(d.r) == min && d.r != min as real)
  }

  /** isInt. */
  predicate IsInt(v: Value)
    ensures IsInt(v) ==> IsInt64(v)
  {
    match v.data
    case Int(i) => MinInt <= i <= MaxInt
    case UInt(u) => u <= MaxInt
    case Real(d) => Between(d, MinInt as real, MaxInt as real) && IsIntegral(d)
    case _ => false
  }

  /** isUInt. */
  predicate IsUInt(v: Value)
    ensures IsUInt(v) ==> IsInt64(v) && IsUInt64(v)
  {
    match v.data
    case Int(i) => i >= 0 && i <= MaxUInt
    case UInt(u) => u <= MaxUInt
    case Real(d) => Between(d, 0.0, MaxUInt as real) && IsIntegral(d)
    case _ => false
  }

  /** isInt64: the real bounds are strict. */
  predicate IsInt64(v: Value)
    ensures IsInt64(v) ==> IsNumeric(v)
    ensures v.data.Int? ==> IsInt64(v)
  {
    match v.data
    case Int(_) => true
    case UInt(u) => u <= MaxInt64
    case Real(d) =>
      d.Finite? && MinInt64 as real < d.r < LimitAsDouble(MaxInt64) && IsIntegral(d)
    case _ => false
  }

  /** isUInt64. */
  predicate IsUInt64(v: Value)
    ensures IsUInt64(v) ==> IsNumeric(v)
    ensures v.data.UInt? ==> IsUInt64(v)
  {
    match v.data
    case Int(i) => i >= 0
    case UInt(_) => true
    case Real(d) => d.Finite? && 0.0 <= d.r < MaxUInt64AsDouble && IsIntegral(d)
    case _ => false
  }

  /** isIntegral. */
  predicate IsIntegralValue(v: Value)
    ensures IsIntegralValue(v) <==> IsInt64(v) || IsUInt64(v)
  {
    match v.data
    case Int(_) => true
    case UInt(_) => true
    case Real(d) =>
      d.Finite? && MinInt64 as real < d.r < MaxUInt64AsDouble && IsIntegral(d)
    case _ => false
  }

  /** isNumeric (= isDouble): the three number tags. */
  predicate IsNumeric(v: Value)
    ensures IsNumeric(v) <==> 1 <= Ordinal(TypeOf(v)) <= 3
  {
    v.data.Int? || v.data.UInt? || v.data.Real?
  }

  /** For the two integer tags, the `is*` tests are exact range checks on
      the stored integer, and every stored integer passes the 64-bit test of
      its own signedness. */
  lemma IntegerRangeChecks(v: Value)
    requires v.data.Int? || v.data.UInt?
    ensures IsInt(v) <==> MinInt <= IntegerOf(v) <= MaxInt
    ensures IsUInt(v) <==> 0 <= IntegerOf(v) <= MaxUInt
    ensures IsInt64(v) <==> MinInt64 <= IntegerOf(v) <= MaxInt64
    ensures IsUInt64(v) <==> 0 <= IntegerOf(v) <= MaxUInt64
    ensures v.data.Int? ==> IsInt64(v)
    ensures v.data.UInt? ==> IsUInt64(v)
    ensures IsInt(v) ==> IsInt64(v)
    ensures IsUInt(v) ==> IsUInt64(v) && IsInt64(v)
    ensures IsIntegralValue(v)
  {
  }

  /** asInt. */
  function AsInt(v: Value): (r: Result<int>)
    ensures r.Ok? ==> MinInt <= r.value <= MaxInt
    ensures (v.data.Int? || v.data.UInt?) ==> (r.Ok? <==> IsInt(v))
    ensures (v.data.Int? || v.data.UInt?) && r.Ok? ==> r.value == IntegerOf(v)
  {
    match v.data
    case Int(i) => if IsInt(v) then Ok(i) else Fail("LargestInt out of Int range")
    case UInt(u) => if IsInt(v) then Ok(u) else Fail("LargestUInt out of Int range")
    case Real(d) => if InRange(d, MinInt, MaxInt) then Ok(Trunc(d.r)) else Fail("double out of Int range")
    case Null => Ok(0)
    case Bool(b) => Ok(if b then 1 else 0)
    case _ => Fail("Value is not convertible to Int.")
  }

  /** asUInt. */
  function AsUInt(v: Value): (r: Result<int>)
    ensures r.Ok? ==> 0 <= r.value <= MaxUInt
    ensures (v.data.Int? || v.data.UInt?) ==> (r.Ok? <==> IsUInt(v))
    ensures (v.data.Int? || v.data.UInt?) && r.Ok? ==> r.value == IntegerOf(v)
  {
    match v.data
    case Int(i) => if IsUInt(v) then Ok(i) else Fail("LargestInt out of UInt range")
    case UInt(u) => if IsUInt(v) then Ok(u) else Fail("LargestUInt out of UInt range")
    case Real(d) => if InRange(d, 0, MaxUInt) then Ok(Trunc(d.r)) else Fail("double out of UInt range")
    case Null => Ok(0)
    case Bool(b) => Ok(if b then 1 else 0)
    case _ => Fail("Value is not convertible to UInt.")
  }

  /** asInt64 (= asLargestInt). */
  function AsInt64(v: Value): (r: Result<int>)
    ensures r.Ok? ==> MinInt64 <= r.value <= MaxInt64
    ensures (v.data.Int? || v.data.UInt?) ==> (r.Ok? <==> IsInt64(v))
    ensures (v.data.Int? || v.data.UInt?) && r.Ok? ==> r.value == IntegerOf(v)
  {
    match v.data
    case Int(i) => Ok(i)
    case UInt(u) => if IsInt64(v) then Ok(u) else Fail("LargestUInt out of Int64 range")
    case Real(d) =>
      if d == Finite(MinInt64 as real) then
        Fail("Double value is minInt64, precise value cannot be determined")
      else if InRange(d, MinInt64, MaxInt64) then Ok(Trunc(d.r))
      else Fail("double out of Int64 range")
    case Null => Ok(0)
    case Bool(b) => Ok(if b then 1 else 0)
    case _ => Fail("Value is not convertible to Int64.")
  }

  /** asUInt64 (= asLargestUInt). */
  function AsUInt64(v: Value): (r: Result<int>)
    ensures r.Ok? ==> 0 <= r.value <= MaxUInt64
    ensures (v.data.Int? || v.data.UInt?) ==> (r.Ok? <==> IsUInt64(v))
    ensures (v.data.Int? || v.data.UInt?) && r.Ok? ==> r.value == IntegerOf(v)
  {
    match v.data
    case Int(i) => if IsUInt64(v) then Ok(i) else Fail("LargestInt out of UInt64 range")
    case UInt(u) => Ok(u)
    case Real(d) => if InRange(d, 0, MaxUInt64) then Ok(Trunc(d.r)) else Fail("double out of UInt64 range")
    case Null => Ok(0)
    case Bool(b) => Ok(if b then 1 else 0)
    case _ => Fail("Value is not convertible to UInt64.")
  }

  /** asBool: numbers are true unless zero (or NaN). */
  function AsBool(v: Value): (r: Result<bool>)
    ensures r.Ok? <==> !(v.data.Str? || v.data.Array? || v.data.Object?)
    ensures (v.data.Int? || v.data.UInt?) ==> r == Ok(IntegerOf(v) != 0)
  {
    match v.data
    case Bool(b) => Ok(b)
    case Null => Ok(false)
    case Int(i) => Ok(i != 0)
    case UInt(u) => Ok(u != 0)
    case Real(d) => Ok(!(d.NaN? || d == Finite(0.0)))
    case _ => Fail("Value is not convertible to bool.")
  }

  /** asString. The text of a double comes from `realText`, standing for
      valueToString(double), which is not part of this model. */
  function AsString(v: Value, realText: Double -> bytes): (r: Result<bytes>)
    ensures r.Ok? <==> !(v.data.Array? || v.data.Object?)
    ensures v.data.Str? ==> r == Ok(v.data.s)
    ensures v.data.Null? ==> r == Ok([])
    ensures v.data.Bool? ==> r == Ok(if v.data.b then "true" else "false")
    ensures v.data.Int? ==> r.Ok? && |r.value| > 0 && (r.value[0] == '-' <==> v.data.i < 0)
    ensures v.data.Int? ==> var digits := if v.data.i < 0 then r.value[1..] else r.value;
      AllDigits(digits) && DecimalValue(digits) == (if v.data.i < 0 then -(v.data.i as int) else v.data.i as int)
    ensures v.data.UInt? ==> r.Ok? && AllDigits(r.value) && DecimalValue(r.value) == v.data.u
    ensures v.data.Real? ==> r == Ok(realText(v.data.d))
  {
    match v.data
    case Null => Ok([])
    case Str(s) => Ok(s)
    case Bool(b) => Ok(BoolText(b))
    case Int(i) => Ok(IntText(i))
    case UInt(u) => Ok(UIntText(u))
    case Real(d) => Ok(realText(d))
    case _ => Fail("Type is not convertible to string")
  }

  /** isConvertibleTo. */
  predicate IsConvertibleTo(v: Value, other: ValueType)
    ensures v.data.Null? ==> IsConvertibleTo(v, other)
    ensures IsConvertibleTo(v, other) && (other == ArrayValue || other == ObjectValue) ==>
      v.data.Null? || TypeOf(v) == other
    ensures IsNumeric(v) && (other == RealValue || other == BooleanValue || other == StringValue) ==>
      IsConvertibleTo(v, other)
  {
    match other
    case NullValue =>
      || (v.data.Int? && v.data.i == 0)
      || (v.data.UInt? && v.data.u == 0)
      || (v.data.Real? && v.data.d == Finite(0.0))
      || (v.data.Bool? && !v.data.b)
      || (v.data.Str? && |v.data.s| == 0)
      || (v.data.Array? && |v.data.elems| == 0)
      || (v.data.Object? && |v.data.members| == 0)
      || v.data.Null?
    case IntValue =>
      IsInt(v) || (v.data.Real? && InRange(v.data.d, MinInt, MaxInt)) || v.data.Bool? || v.data.Null?
    case UIntValue =>
      IsUInt(v) || (v.data.Real? && InRange(v.data.d, 0, MaxUInt)) || v.data.Bool? || v.data.Null?
    case RealValue => IsNumeric(v) || v.data.Bool? || v.data.Null?
    case BooleanValue => IsNumeric(v) || v.data.Bool? || v.data.Null?
    case StringValue => IsNumeric(v) || v.data.Bool? || v.data.Str? || v.data.Null?
    case ArrayValue => v.data.Array? || v.data.Null?
    case ObjectValue => v.data.Object? || v.data.Null?
  }

  /** isConvertibleTo answers exactly whether the matching `as*` conversion
      succeeds, for every value. */
  lemma ConvertibleIffConversionSucceeds(v: Value, realText: Double -> bytes)
    ensures IsConvertibleTo(v, IntValue) <==> AsInt(v).Ok?
    ensures IsConvertibleTo(v, UIntValue) <==> AsUInt(v).Ok?
    ensures IsConvertibleTo(v, BooleanValue) <==> AsBool(v).Ok?
    ensures IsConvertibleTo(v, StringValue) <==> AsString(v, realText).Ok?
  {
    ConvertibleToIntIff(v);
    ConvertibleToUIntIff(v);
  }

  lemma ConvertibleToIntIff(v: Value)
    ensures IsConvertibleTo(v, IntValue) <==> AsInt(v).Ok?
  {
    if v.data.Real? && IsInt(v) {
      assert Trunc(v.data.d.r) as real == v.data.d.r;
    }
  }

  lemma ConvertibleToUIntIff(v: Value)
    ensures IsConvertibleTo(v, UIntValue) <==> AsUInt(v).Ok?
  {
    if v.data.Real? && IsUInt(v) {
      assert Trunc(v.data.d.r) as real == v.data.d.r;
    }
  }

  /** Null converts to every type; every other value converts to its own
      type, except an integer outside the 32-bit range of its signedness. */
  lemma ConvertibleToOwnType(v: Value, t: ValueType)
    ensures IsConvertibleTo(NullValueV, t)
    ensures IsConvertibleTo(v, TypeOf(v)) <==>
      !(v.data.Int? || v.data.UInt?) || (v.data.Int? && IsInt(v)) || (v.data.UInt? && IsUInt(v))
  {
  }

  /** The lower-bound clause of InRange makes asUInt reject every double
      strictly between 0 and 1, while asInt truncates them to 0 and asUInt
      accepts 1.5. */
  lemma AsUIntRejectsProperFractions()
    ensures AsUInt(Of(Real(Finite(0.5)))).Fail?
    ensures AsInt(Of(Real(Finite(0.5)))) == Ok(0)
    ensures AsUInt(Of(Real(Finite(1.5)))) == Ok(1)
  {
  }
}
