/** Model of the string-level helpers of src/lib_json/json_writer.cpp: the
    decimal text of integers, the escaping test, UTF-8 decoding with U+FFFD
    replacement, `toHex16Bit`, and `valueToQuotedStringN`. */
module StringWriter {
  import opened Wrappers
  import opened Bytes
  import opened Tool
  import opened Values

  /** valueToString(LargestUInt) (and the widening `UInt` overload): the
      canonical decimal text of `value`. */
  function UIntText(value: LargestUInt): (r: bytes)
    ensures AllDigits(r) && DecimalValue(r) == value
    ensures |r| > 1 ==> r[0] != '0'
  {
    DigitsValue(value);
    Digits(value)
  }

  /** valueToString(LargestInt) (and the widening `Int` overload): '-' and the
      magnitude's digits for a negative value, with minLargestInt printed
      through the unsigned value maxLargestInt + 1. */
  function IntText(value: LargestInt): (r: bytes)
    ensures |r| > 0 && (r[0] == '-' <==> value < 0)
    ensures var digits := if value < 0 then r[1..] else r;
      AllDigits(digits) && DecimalValue(digits) == (if value < 0 then -(value as int) else value as int)
      && |digits| > 0 && (|digits| > 1 ==> digits[0] != '0')
  {
    if value == MinLargestInt then
      DigitsValue(MaxLargestInt + 1);
      ['-'] + Digits(MaxLargestInt + 1)
    else if value < 0 then
      DigitsValue(-value);
      ['-'] + Digits(-value)
    else
      DigitsValue(value);
      Digits(value)
  }

  /** valueToString(bool). */
  function BoolText(value: bool): bytes {
    if value then "true" else "false"
  }

  /** The bytes valueToQuotedStringN cannot copy verbatim. */
  predicate RequiresEscaping(c: byte) {
    c == '\\' || c == '"' || c as int < 0x20 || c as int > 0x7F
  }

  /** doesAnyCharRequireEscaping. */
  function DoesAnyCharRequireEscaping(s: bytes): (r: bool)
    ensures r <==> exists i :: 0 <= i < |s| && RequiresEscaping(s[i])
  {
    if |s| == 0 then false
    else
      assert forall i :: 1 <= i < |s| ==> s[i] == s[1..][i - 1];
      RequiresEscaping(s[0]) || DoesAnyCharRequireEscaping(s[1..])
  }

  const ReplacementCharacter: nat := 0xFFFD

  /** A Unicode scalar value: a code point that is not a surrogate. */
  predicate IsScalar(cp: nat) {
    cp <= 0x10FFFF && !(0xD800 <= cp <= 0xDFFF)
  }

  /** What one decoding step yields: a code point and the number of input
      bytes it used up (the loop's own `++c` included). */
  datatype Decoded = Decoded(cp: nat, len: nat)

  /** utf8ToCodepoint exactly as written: the lead byte alone picks the
      sequence length, continuation bytes are never checked, and a four-byte
      form is only tested against the lower bound. */
  function Utf8ToCodepointAsWritten(s: bytes, i: nat): (d: Decoded)
    requires i < |s|
    ensures 1 <= d.len <= |s| - i
    ensures d.cp < 0x200000
  {
    var b := s[i] as int;
    if b < 0x80 then Decoded(b, 1)
    else if b < 0xE0 then
      if |s| - i < 2 then Decoded(ReplacementCharacter, 1)
      else
        var c := Utf8Payload(s[i..i + 2]);
        Decoded(if c < 0x80 then ReplacementCharacter else c, 2)
    else if b < 0xF0 then
      if |s| - i < 3 then Decoded(ReplacementCharacter, 1)
      else
        var c := Utf8Payload(s[i..i + 3]);
        Decoded(if 0xD800 <= c <= 0xDFFF || c < 0x800 then ReplacementCharacter else c, 3)
    else if b < 0xF8 then
      if |s| - i < 4 then Decoded(ReplacementCharacter, 1)
      else
        var c := Utf8Payload(s[i..i + 4]);
        Decoded(if c < 0x10000 then ReplacementCharacter else c, 4)
    else Decoded(ReplacementCharacter, 1)
  }

  /** The bytes after the lead that a `n`-byte form needs are present and are
      all continuation bytes. */
  predicate ContinuationsAt(s: bytes, i: nat, n: nat)
    requires i < |s|
  {
    |s| - i >= n && forall k :: i < k < i + n ==> IsContinuation(s[k])
  }

  /** utf8ToCodepoint as its documentation promises: every ill-formed
      sequence yields U+FFFD. Beyond the checks of the code as written, a
      stray continuation byte or a lead byte whose continuation bytes are
      missing or wrong yields U+FFFD after one byte, and a four-byte form
      above U+10FFFF yields U+FFFD. */
  function Utf8ToCodepoint(s: bytes, i: nat): (d: Decoded)
    requires i < |s|
    ensures 1 <= d.len <= |s| - i
    ensures IsScalar(d.cp)
    ensures d.cp != ReplacementCharacter ==> s[i..i + d.len] == CodePointToUtf8(d.cp)
  {
    var b := s[i] as int;
    if b < 0x80 then
      Decoded(b, 1)
    else if b < 0xC0 then
      Decoded(ReplacementCharacter, 1)
    else if b < 0xE0 then
      if !ContinuationsAt(s, i, 2) then Decoded(ReplacementCharacter, 1)
      else
        var c := Utf8Payload(s[i..i + 2]);
        if c < 0x80 then Decoded(ReplacementCharacter, 2)
        else
          TwoByteInverse(s[i..i + 2]);
          Decoded(c, 2)
    else if b < 0xF0 then
      if !ContinuationsAt(s, i, 3) then Decoded(ReplacementCharacter, 1)
      else
        var c := Utf8Payload(s[i..i + 3]);
        if 0xD800 <= c <= 0xDFFF || c < 0x800 then Decoded(ReplacementCharacter, 3)
        else
          ThreeByteInverse(s[i..i + 3]);
          Decoded(c, 3)
    else if b < 0xF8 then
      if !ContinuationsAt(s, i, 4) then Decoded(ReplacementCharacter, 1)
      else
        var c := Utf8Payload(s[i..i + 4]);
        if c < 0x10000 || c > 0x10FFFF then Decoded(ReplacementCharacter, 4)
        else
          FourByteInverse(s[i..i + 4]);
          Decoded(c, 4)
    else
      Decoded(ReplacementCharacter, 1)
  }

  lemma TwoByteInverse(r: bytes)
    requires |r| == 2 && 0xC0 <= r[0] as int < 0xE0 && IsContinuation(r[1])
    requires Utf8Payload(r) >= 0x80
    ensures Utf8Payload(r) <= 0x7FF
    ensures CodePointToUtf8(Utf8Payload(r)) == r
  {
    var cp := Utf8Payload(r);
    var a, b := r[0] as int % 0x20, r[1] as int % 0x40;
    assert cp == a * 0x40 + b;
    assert cp / 0x40 == a && cp % 0x40 == b;
  }

  lemma ThreeByteInverse(r: bytes)
    requires |r| == 3 && 0xE0 <= r[0] as int < 0xF0 && IsContinuation(r[1]) && IsContinuation(r[2])
    requires Utf8Payload(r) >= 0x800
    ensures Utf8Payload(r) <= 0xFFFF
    ensures CodePointToUtf8(Utf8Payload(r)) == r
  {
    var cp := Utf8Payload(r);
    var a, b, c := r[0] as int % 0x10, r[1] as int % 0x40, r[2] as int % 0x40;
    assert cp == (a * 0x40 + b) * 0x40 + c;
    assert cp / 0x40 == a * 0x40 + b && cp % 0x40 == c;
    assert (a * 0x40 + b) / 0x40 == a && (a * 0x40 + b) % 0x40 == b;
    assert cp / 0x1000 == a;
  }

  lemma FourByteInverse(r: bytes)
    requires |r| == 4 && 0xF0 <= r[0] as int < 0xF8
    requires IsContinuation(r[1]) && IsContinuation(r[2]) && IsContinuation(r[3])
    requires 0x10000 <= Utf8Payload(r) <= 0x10FFFF
    ensures CodePointToUtf8(Utf8Payload(r)) == r
  {
    var cp := Utf8Payload(r);
    var a, b, c, d := r[0] as int % 0x08, r[1] as int % 0x40, r[2] as int % 0x40, r[3] as int % 0x40;
    SixBitGroups(cp, a, b, c, d);
    var e := CodePointToUtf8(cp);
    assert e[0] == r[0] && e[1] == r[1] && e[2] == r[2] && e[3] == r[3];
  }

  /** Division by a positive `k` recovers quotient and remainder. */
  lemma DivModOf(x: int, q: int, m: int, k: int)
    requires k > 0 && 0 <= m < k && x == q * k + m
    ensures x / k == q && x % k == m
  {
    var q0, m0 := x / k, x % k;
    assert (q - q0) * k == m0 - m;
    if q > q0 {
      MulAtLeast(q - q0, k);
    } else if q < q0 {
      MulAtLeast(q0 - q, k);
    }
  }

  lemma MulAtLeast(a: int, k: int)
    requires a >= 1 && k > 0
    ensures a * k >= k
  {
    assert a * k == (a - 1) * k + k;
  }

  /** A number written as a three-bit group and three six-bit groups. */
  lemma SixBitGroups(cp: int, a: int, b: int, c: int, d: int)
    requires 0 <= a < 8 && 0 <= b < 0x40 && 0 <= c < 0x40 && 0 <= d < 0x40
    requires cp == a * 0x40000 + b * 0x1000 + c * 0x40 + d
    ensures (cp / 0x40000) % 0x8 == a && (cp / 0x1000) % 0x40 == b && (cp / 0x40) % 0x40 == c && cp % 0x40 == d
  {
    var q2 := a * 0x40 + b;
    var q1 := q2 * 0x40 + c;
    DivModOf(cp, q1, d, 0x40);
    DivModOf(q1, q2, c, 0x40);
    DivModOf(cp, q2, c * 0x40 + d, 0x1000);
    DivModOf(q2, a, b, 0x40);
    DivModOf(cp, a, b * 0x1000 + c * 0x40 + d, 0x40000);
    DivModOf(a, 0, a, 0x8);
  }

  /** The lead byte and continuation bytes codePointToUTF8 produces. */
  lemma EncodingShape(cp: uint32)
    requires IsScalar(cp)
    ensures var r := CodePointToUtf8(cp);
      && (|r| == 2 ==> 0xC0 <= r[0] as int < 0xE0 && cp >= 0x80)
      && (|r| == 3 ==> 0xE0 <= r[0] as int < 0xF0 && cp >= 0x800)
      && (|r| == 4 ==> 0xF0 <= r[0] as int < 0xF8 && 0x10000 <= cp <= 0x10FFFF)
      && Utf8Payload(r) == cp
  {
    CodePointToUtf8Payload(cp);
  }

  /** Decoding the encoding of a scalar value gives it back and uses up the
      whole encoding, for the code as written. */
  lemma Utf8RoundTripAsWritten(cp: uint32)
    requires IsScalar(cp)
    ensures Utf8ToCodepointAsWritten(CodePointToUtf8(cp), 0) == Decoded(cp, |CodePointToUtf8(cp)|)
  {
    var r := CodePointToUtf8(cp);
    EncodingShape(cp);
    assert r[0..|r|] == r;
  }

  /** The same round trip for the checked decoder. */
  lemma Utf8RoundTrip(cp: uint32)
    requires IsScalar(cp)
    ensures Utf8ToCodepoint(CodePointToUtf8(cp), 0) == Decoded(cp, |CodePointToUtf8(cp)|)
  {
    var r := CodePointToUtf8(cp);
    EncodingShape(cp);
    assert r[0..|r|] == r;
  }

  /** Two ill-formed inputs the code as written decodes to something other
      than U+FFFD: F4 90 80 80 gives 0x110000, which is not a code point, and
      C2 41 gives U+0081 and swallows the 'A'. The checked decoder answers
      U+FFFD for both and, for C2 41, leaves the 'A' to the next step. */
  lemma Utf8AsWrittenAcceptsIllFormed()
    ensures Utf8ToCodepointAsWritten([0xF4 as char, 0x90 as char, 0x80 as char, 0x80 as char], 0) == Decoded(0x110000, 4)
    ensures Utf8ToCodepoint([0xF4 as char, 0x90 as char, 0x80 as char, 0x80 as char], 0).cp == ReplacementCharacter
    ensures Utf8ToCodepointAsWritten([0xC2 as char, 'A'], 0) == Decoded(0x81, 2)
    ensures Utf8ToCodepoint([0xC2 as char, 'A'], 0) == Decoded(ReplacementCharacter, 1)
  {
    var s: bytes := [0xF4 as char, 0x90 as char, 0x80 as char, 0x80 as char];
    assert s[0..4] == s;
    var t: bytes := [0xC2 as char, 'A'];
    assert t[0..2] == t;
    assert !IsContinuation(t[1]);
  }

  /** Wherever the checked decoder finds a well-formed sequence, the decoder
      as written reads the same code point from the same bytes: the two differ
      only where the checked one yields U+FFFD. */
  lemma Utf8DecodersAgree(s: bytes, i: nat)
    requires i < |s|
    ensures Utf8ToCodepoint(s, i).cp != ReplacementCharacter ==>
      Utf8ToCodepointAsWritten(s, i) == Utf8ToCodepoint(s, i)
  {
  }

  /** The two hex digits of each byte, as the writer's `hex2` table lists them. */
  function Hex2(n: nat): (r: bytes)
    requires n < 0x100
  {
    [LowerHexDigit(n / 16), LowerHexDigit(n % 16)]
  }

  /** toHex16Bit: four lower-case hex digits of the low 16 bits of `x`. */
  function ToHex16Bit(x: uint32): (r: bytes)
    ensures |r| == 4
    ensures forall k :: 0 <= k < 4 ==> IsHexDigit(r[k]) && !('A' <= r[k] <= 'F')
    ensures HexValue(r) == x % 0x10000
  {
    var hi := (x / 0x100) % 0x100;
    var lo := x % 0x100;
    var r := Hex2(hi) + Hex2(lo);
    FourDigitValue(r);
    HexPairs(x as nat, hi, lo);
    r
  }

  /** The value of four hexadecimal digits. */
  lemma FourDigitValue(r: bytes)
    requires |r| == 4 && forall k :: 0 <= k < 4 ==> IsHexDigit(r[k])
    ensures HexValue(r) == ((HexDigitValue(r[0]) * 16 + HexDigitValue(r[1])) * 16 + HexDigitValue(r[2])) * 16
                           + HexDigitValue(r[3])
  {
    assert r[..3][..2] == r[..2] && r[..2][..1] == r[..1] && r[..1][..0] == [];
    assert HexValue(r[..1]) == HexDigitValue(r[0]);
    assert HexValue(r[..2]) == HexValue(r[..1]) * 16 + HexDigitValue(r[1]);
    assert HexValue(r[..3]) == HexValue(r[..2]) * 16 + HexDigitValue(r[2]);
    assert r[..4] == r;
  }

  /** The low 16 bits as two bytes, each as two nibbles. */
  lemma HexPairs(x: nat, hi: nat, lo: nat)
    requires hi == (x / 0x100) % 0x100 && lo == x % 0x100
    ensures (((hi / 16) * 16 + hi % 16) * 16 + lo / 16) * 16 + lo % 16 == x % 0x10000
  {
    assert (hi / 16) * 16 + hi % 16 == hi;
    assert (lo / 16) * 16 + lo % 16 == lo;
    assert ((hi * 16) + lo / 16) * 16 + lo % 16 == hi * 0x100 + lo;
    var q := x / 0x100;
    assert x == q * 0x100 + lo;
    assert q == (q / 0x100) * 0x100 + hi;
    assert x == (q / 0x100) * 0x10000 + (hi * 0x100 + lo);
  }

  /** appendHex: "\u" and four hex digits. */
  function HexEscape(x: uint32): (r: bytes)
    ensures |r| == 6 && r[0] == '\\' && r[1] == 'u' && r[2..] == ToHex16Bit(x)
  {
    "\\u" + ToHex16Bit(x)
  }

  /** The two-character escape of `"` `\` and the five named controls. */
  function ShortEscape(c: byte): (r: Option<byte>)
  {
    if c == '"' then Some('"')
    else if c == '\\' then Some('\\')
    else if c == Backspace then Some('b')
    else if c == FormFeed then Some('f')
    else if c == '\n' then Some('n')
    else if c == '\r' then Some('r')
    else if c == '\t' then Some('t')
    else None
  }

  /** The text the non-UTF-8 branch emits for one decoded code point:
      controls and the Basic Multilingual Plane as one `\u` escape, ASCII raw,
      and higher code points as a surrogate pair. */
  function CodePointText(cp: nat): (r: bytes)
    requires cp < 0x200000
    ensures |r| == 1 <==> 0x20 <= cp < 0x80
    ensures |r| == 12 <==> cp >= 0x10000
  {
    if cp < 0x20 then HexEscape(cp)
    else if cp < 0x80 then [ByteOf(cp)]
    else if cp < 0x10000 then HexEscape(cp)
    else
      var c := cp - 0x10000;
      HexEscape(0xD800 + (c / 0x400) % 0x400) + HexEscape(0xDC00 + c % 0x400)
  }

  /** The body valueToQuotedStringN's loop builds from `s[i..]`. */
  function EscapeFrom(s: bytes, i: nat, emitUtf8: bool): (r: bytes)
    requires i <= |s|
    decreases |s| - i
  {
    if i == |s| then []
    else match ShortEscape(s[i])
      case Some(e) => ['\\', e] + EscapeFrom(s, i + 1, emitUtf8)
      case None =>
        if emitUtf8 then
          (if s[i] as int < 0x20 then HexEscape(s[i] as int) else [s[i]]) + EscapeFrom(s, i + 1, emitUtf8)
        else
          var d := Utf8ToCodepoint(s, i);
          CodePointText(d.cp) + EscapeFrom(s, i + d.len, emitUtf8)
  }

  /** Every byte of a `\u` escape is ASCII. */
  lemma HexEscapeAscii(x: uint32)
    ensures forall j :: 0 <= j < 6 ==> HexEscape(x)[j] as int < 0x80
  {
    var r := HexEscape(x);
    forall j | 2 <= j < 6 ensures r[j] as int < 0x80 {
      assert r[j] == ToHex16Bit(x)[j - 2];
    }
  }

  /** The text of a decoded code point is ASCII. */
  lemma CodePointTextAscii(cp: nat)
    requires cp < 0x200000
    ensures Ascii(CodePointText(cp))
  {
    if cp < 0x20 || 0x80 <= cp < 0x10000 {
      HexEscapeAscii(cp);
    } else if cp >= 0x10000 {
      var c := cp - 0x10000;
      HexEscapeAscii(0xD800 + (c / 0x400) % 0x400);
      HexEscapeAscii(0xDC00 + c % 0x400);
    }
  }

  /** Without emitUTF8 the escaped body is pure ASCII: every byte above 0x7F
      ends up inside a `\u` escape or as U+FFFD's escape. */
  lemma {:induction false} EscapeFromAscii(s: bytes, i: nat)
    requires i <= |s|
    ensures Ascii(EscapeFrom(s, i, false))
    decreases |s| - i
  {
    if i < |s| {
      var n, head := EscapeStep(s, i);
      EscapeFromAscii(s, n);
      AsciiConcat(head, EscapeFrom(s, n, false));
    }
  }

  /** One turn of the non-UTF-8 loop: an ASCII piece for the bytes from `i`
      to `n`, followed by the rest of the body. */
  lemma EscapeStep(s: bytes, i: nat) returns (n: nat, head: bytes)
    requires i < |s|
    ensures i < n <= |s| && Ascii(head)
    ensures EscapeFrom(s, i, false) == head + EscapeFrom(s, n, false)
  {
    var se := ShortEscape(s[i]);
    if se.Some? {
      ShortEscapeStep(s, i, se.value);
      n, head := i + 1, ['\\', se.value];
    } else {
      var d := Utf8ToCodepoint(s, i);
      CodePointStep(s, i);
      CodePointTextAscii(d.cp);
      n, head := i + d.len, CodePointText(d.cp);
    }
  }

  lemma ShortEscapeStep(s: bytes, i: nat, e: byte)
    requires i < |s| && ShortEscape(s[i]) == Some(e)
    ensures e as int < 0x80
    ensures EscapeFrom(s, i, false) == ['\\', e] + EscapeFrom(s, i + 1, false)
  {
  }

  lemma CodePointStep(s: bytes, i: nat)
    requires i < |s| && ShortEscape(s[i]).None?
    ensures var d := Utf8ToCodepoint(s, i);
      EscapeFrom(s, i, false) == CodePointText(d.cp) + EscapeFrom(s, i + d.len, false)
  {
  }

  /** Every byte of `t` is below 0x80. */
  predicate Ascii(t: bytes)
  {
    forall j :: 0 <= j < |t| ==> t[j] as int < 0x80
  }

  lemma AsciiConcat(a: bytes, b: bytes)
    requires Ascii(a) && Ascii(b)
    ensures Ascii(a + b)
  {
    forall j | 0 <= j < |a + b| ensures (a + b)[j] as int < 0x80 {
      if j >= |a| { assert (a + b)[j] == b[j - |a|]; }
    }
  }

  /** valueToQuotedStringN: `s` between double quotes, escaped only when some
      byte requires it. The null-pointer case is not modelled. */
  function ValueToQuotedStringN(s: bytes, emitUtf8: bool): (r: bytes)
    ensures |r| >= 2 && r[0] == '"' && r[|r| - 1] == '"'
    ensures !DoesAnyCharRequireEscaping(s) ==> r == ['"'] + s + ['"']
  {
    if !DoesAnyCharRequireEscaping(s) then ['"'] + s + ['"']
    else ['"'] + EscapeFrom(s, 0, emitUtf8) + ['"']
  }
}
