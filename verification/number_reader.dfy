/** decodeNumber and decodeDouble of src/lib_json/json_reader.cpp, for
    OurReader and for the legacy Reader. A number token is read exactly as an
    integer when it is an optional '-' followed by decimal digits whose value
    fits; otherwise the token goes to the stream-based double parser, which
    the model takes as a parameter. */
module NumberReader {
  import opened Wrappers
  import opened Bytes
  import opened Values
  import opened StringWriter

  /** `istringstream >> double` on the token text, including the mapping of
      an out-of-range result to an infinity: `None` when the stream could not
      read a number. Floating-point text is not modelled. */
  type DoubleParser = bytes -> Option<Double>

  function NotANumber(token: bytes): string {
    "'" + token + "' is not a number."
  }

  /** decodeDouble. */
  function DecodeDouble(token: bytes, parse: DoubleParser): (r: Result<Data>)
    ensures r.Ok? <==> parse(token).Some?
    ensures r.Ok? ==> r.value == Real(parse(token).value)
    ensures r.Fail? ==> r.message == NotANumber(token)
  {
    match parse(token)
    case None => Fail(NotANumber(token))
    case Some(d) => Ok(Real(d))
  }

  /* The overflow guard: a magnitude may reach Threshold * 10 + LastDigit,
     which is maxLargestUInt for a positive token and -minLargestInt for a
     negative one. C++ division truncates toward zero, so the source's
     -(minLargestInt / 10) and -(minLargestInt % 10) are the quotient and
     remainder of the magnitude 2^63. */
  const PositiveThreshold: nat := MaxLargestUInt / 10
  const PositiveLastDigit: nat := MaxLargestUInt % 10
  const NegativeThreshold: nat := (-MinLargestInt) / 10
  const NegativeLastDigit: nat := (-MinLargestInt) % 10

  lemma GuardLimits()
    ensures PositiveThreshold * 10 + PositiveLastDigit == MaxLargestUInt
    ensures NegativeThreshold * 10 + NegativeLastDigit == -MinLargestInt
  {
  }

  /** The digit loop of decodeNumber from position `k` with the value read
      so far: `None` where the source falls back to decodeDouble (a
      non-digit, or a value that would pass the limit). */
  function Accumulate(t: bytes, k: nat, value: nat, threshold: nat, lastDigit: nat): (r: Option<nat>)
    requires k <= |t|
    ensures r.Some? ==> forall j :: k <= j < |t| ==> IsDigit(t[j])
    ensures r.Some? ==> r.value >= value
    decreases |t| - k
  {
    if k == |t| then Some(value)
    else if !IsDigit(t[k]) then None
    else
      var d := DigitValue(t[k]);
      if value >= threshold && (value > threshold || k + 1 != |t| || d > lastDigit) then None
      else Accumulate(t, k + 1, value * 10 + d, threshold, lastDigit)
  }

  lemma {:induction false} DecimalMonotone(t: bytes, j: nat)
    requires AllDigits(t) && j <= |t|
    ensures DecimalValue(t[..j]) <= DecimalValue(t)
    decreases |t|
  {
    if j < |t| {
      var p := t[..|t| - 1];
      assert p[..j] == t[..j];
      DecimalMonotone(p, j);
    } else {
      assert t[..j] == t;
    }
  }

  lemma DecimalStep(t: bytes, k: nat)
    requires k < |t| && AllDigits(t[..k + 1])
    ensures AllDigits(t[..k]) && DecimalValue(t[..k + 1]) == DecimalValue(t[..k]) * 10 + DigitValue(t[k])
  {
    assert t[..k + 1][..k] == t[..k];
  }

  /** The loop's guard is exact: it accepts precisely the digit strings
      whose value does not pass the limit, and returns that value. */
  lemma {:induction false} AccumulateExact(t: bytes, k: nat, value: nat, threshold: nat, lastDigit: nat)
    requires threshold >= 1 && lastDigit < 10 && k <= |t|
    requires AllDigits(t[..k]) && value == DecimalValue(t[..k]) && value <= threshold * 10 + lastDigit
    ensures Accumulate(t, k, value, threshold, lastDigit)
         == if AllDigits(t) && DecimalValue(t) <= threshold * 10 + lastDigit then Some(DecimalValue(t)) else None
    decreases |t| - k
  {
    var limit := threshold * 10 + lastDigit;
    if k == |t| {
      assert t[..k] == t;
    } else if !IsDigit(t[k]) {
      assert !AllDigits(t);
    } else {
      var d := DigitValue(t[k]);
      assert AllDigits(t[..k + 1]);
      DecimalStep(t, k);
      if value >= threshold && (value > threshold || k + 1 != |t| || d > lastDigit) {
        if AllDigits(t) {
          if value > threshold {
            DecimalMonotone(t, k + 1);
          } else if k + 1 != |t| {
            assert AllDigits(t[..k + 2]);
            DecimalStep(t, k + 1);
            DecimalMonotone(t, k + 2);
          } else {
            assert t[..k + 1] == t;
          }
        }
      } else {
        AccumulateExact(t, k + 1, value * 10 + d, threshold, lastDigit);
      }
    }
  }

  /** The largest magnitude a token of the given sign reads as an integer. */
  function MagnitudeLimit(isNegative: bool): (n: nat)
    ensures n == if isNegative then -MinLargestInt else MaxLargestUInt
  {
    GuardLimits();
    if isNegative then NegativeThreshold * 10 + NegativeLastDigit
    else PositiveThreshold * 10 + PositiveLastDigit
  }

  /** The largest non-negative value stored with the signed type: maxInt for
      the legacy Reader, maxLargestInt for OurReader. */
  function IntCutoff(legacy: bool): nat {
    if legacy then MaxInt else MaxLargestInt
  }

  /** The payload an integer token of the given sign and magnitude gets.
      A negative magnitude is stored negated; both readers' special handling
      of -2^63 (through minLargestInt, or through `value / 10` and
      `value % 10`) produces the same number. */
  function IntegerData(isNegative: bool, magnitude: nat, legacy: bool): (d: Data)
    requires magnitude <= MagnitudeLimit(isNegative)
    ensures isNegative ==> d == Int(-(magnitude as int))
    ensures !isNegative ==> (d.Int? <==> magnitude <= IntCutoff(legacy))
    ensures !isNegative ==> (d.Int? && d.i == magnitude) || (d.UInt? && d.u == magnitude)
  {
    if isNegative then Int(-(magnitude as int))
    else if magnitude <= IntCutoff(legacy) then Int(magnitude)
    else UInt(magnitude)
  }

  /** decodeNumber as written: a token that is a lone '-' has no digits, the
      loop does not run, and it reads as the integer 0. */
  function DecodeNumberAsWritten(token: bytes, parse: DoubleParser, legacy: bool): (r: Result<Data>)
    requires |token| > 0
    ensures r.Ok? ==> r.value.Int? || r.value.UInt? || r.value.Real?
  {
    var isNegative := token[0] == '-';
    var digits := if isNegative then token[1..] else token;
    var threshold := if isNegative then NegativeThreshold else PositiveThreshold;
    var lastDigit := if isNegative then NegativeLastDigit else PositiveLastDigit;
    match Accumulate(digits, 0, 0, threshold, lastDigit)
    case None => DecodeDouble(token, parse)
    case Some(v) =>
      GuardLimits();
      assert digits[..0] == [];
      AccumulateExact(digits, 0, 0, threshold, lastDigit);
      Ok(IntegerData(isNegative, v, legacy))
  }

  /** decodeNumber with the missing-digit case handed to decodeDouble, like
      every other token that is not a plain integer. */
  function DecodeNumber(token: bytes, parse: DoubleParser, legacy: bool): (r: Result<Data>)
    requires |token| > 0
    ensures r.Ok? ==> r.value.Int? || r.value.UInt? || r.value.Real?
  {
    var isNegative := token[0] == '-';
    var digits := if isNegative then token[1..] else token;
    if |digits| == 0 then DecodeDouble(token, parse)
    else DecodeNumberAsWritten(token, parse, legacy)
  }

  /** A token that is an optional '-' and at least one decimal digit whose
      value fits the sign's range is read exactly as that integer; every other
      token is read by the double parser. */
  lemma DecodeNumberSpec(token: bytes, parse: DoubleParser, legacy: bool)
    requires |token| > 0
    ensures var isNegative := token[0] == '-';
      var digits := if isNegative then token[1..] else token;
      DecodeNumber(token, parse, legacy) ==
        if |digits| > 0 && AllDigits(digits) && DecimalValue(digits) <= MagnitudeLimit(isNegative)
        then Ok(IntegerData(isNegative, DecimalValue(digits), legacy))
        else DecodeDouble(token, parse)
  {
    var isNegative := token[0] == '-';
    var digits := if isNegative then token[1..] else token;
    var threshold := if isNegative then NegativeThreshold else PositiveThreshold;
    var lastDigit := if isNegative then NegativeLastDigit else PositiveLastDigit;
    GuardLimits();
    assert digits[..0] == [];
    AccumulateExact(digits, 0, 0, threshold, lastDigit);
  }

  /** What the writer prints for a signed integer reads back as that integer
      with OurReader; with the legacy Reader too when it fits in 32 bits. */
  lemma IntTextRoundTrip(i: LargestInt, parse: DoubleParser, legacy: bool)
    requires !legacy || i <= MaxInt
    ensures DecodeNumber(IntText(i), parse, legacy) == Ok(Int(i))
  {
    DecodeNumberSpec(IntText(i), parse, legacy);
  }

  /** What the writer prints for an unsigned integer reads back as that
      number, with the signed type whenever it fits the reader's cut-off. */
  lemma UIntTextRoundTrip(u: LargestUInt, parse: DoubleParser, legacy: bool)
    ensures DecodeNumber(UIntText(u), parse, legacy)
         == Ok(if u <= IntCutoff(legacy) then Int(u) else UInt(u))
  {
    DecodeNumberSpec(UIntText(u), parse, legacy);
  }

  /** A lone '-' reads as the integer 0 as written; with the correction it
      goes to the double parser, which rejects it when the stream cannot read
      a number from it. */
  lemma LoneMinusReadsAsZero(parse: DoubleParser, legacy: bool)
    ensures DecodeNumberAsWritten("-", parse, legacy) == Ok(Int(0))
    ensures parse("-").None? ==> DecodeNumber("-", parse, legacy) == Fail("'-' is not a number.")
  {
    var token: bytes := "-";
    assert token[0] == '-' && token[1..] == [];
    assert Accumulate([], 0, 0, NegativeThreshold, NegativeLastDigit) == Some(0);
    assert DecodeNumber(token, parse, legacy) == DecodeDouble(token, parse);
    assert NotANumber(token) == "'-' is not a number.";
  }

  /** The decoder as written and the corrected one differ only on a token
      that is a lone '-'. */
  lemma DecodeNumberAgrees(token: bytes, parse: DoubleParser, legacy: bool)
    requires |token| > 0
    ensures token != "-" ==> DecodeNumber(token, parse, legacy) == DecodeNumberAsWritten(token, parse, legacy)
  {
    if token[0] == '-' && |token[1..]| == 0 {
      assert token == "-";
    }
  }
}
