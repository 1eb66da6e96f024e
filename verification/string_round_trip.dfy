/** The writer's string escaping (valueToQuotedStringN in
    src/lib_json/json_writer.cpp) against the reader's string decoding
    (decodeString in src/lib_json/json_reader.cpp): reading back what the
    writer wrote gives the original bytes. With emitUTF8 this holds for every
    byte string; without it, for every well-formed UTF-8 string. */
module StringRoundTrip {
  import opened Wrappers
  import opened Bytes
  import opened Tool
  import opened StringWriter
  import opened ReaderText

  /** Each short escape letter the writer uses reads back as the byte it
      stands for. */
  lemma ShortEscapeInverse(c: byte)
    requires ShortEscape(c).Some?
    ensures Unescape(ShortEscape(c).value) == Some(c)
    ensures ShortEscape(c).value != 'u'
  {
  }

  /** The four hex digits toHex16Bit writes are what
      decodeUnicodeEscapeSequence reads back. */
  lemma HexEscapeRoundTrip(x: uint32, rest: bytes)
    ensures UnicodeEscape(ToHex16Bit(x) + rest) == Scanned(x % 0x10000, rest)
    ensures x < 0x10000 ==> UnicodeEscape(ToHex16Bit(x) + rest) == Scanned(x, rest)
  {
    var t := ToHex16Bit(x) + rest;
    assert t[..4] == ToHex16Bit(x) && t[4..] == rest;
  }

  /** decodeString hands a `\u` escape to decodeUnicodeCodePoint and
      appends the UTF-8 form of what it returns. */
  lemma UnicodeStep(t: bytes, cp: nat, rest: bytes)
    requires |t| >= 2 && t[0] == '\\' && t[1] == 'u'
    requires UnicodeCodePoint(t[2..]) == Scanned(cp, rest)
    ensures cp <= 0x10FFFF
    ensures DecodeChars(t) == Prefix(CodePointToUtf8(cp), DecodeChars(rest))
  {
  }

  lemma BmpCodePoint(x: uint32, rest: bytes)
    requires x < 0x10000 && !(0xD800 <= x <= 0xDBFF)
    ensures UnicodeCodePoint(ToHex16Bit(x) + rest) == Scanned(x, rest)
  {
    HexEscapeRoundTrip(x, rest);
  }

  lemma PairCase(t: bytes, hi: nat, tail: bytes, lo: nat, rest: bytes)
    requires UnicodeEscape(t) == Scanned(hi, tail) && 0xD800 <= hi <= 0xDBFF
    requires |tail| >= 6 && tail[0] == '\\' && tail[1] == 'u'
    requires UnicodeEscape(tail[2..]) == Scanned(lo, rest)
    ensures UnicodeCodePoint(t) == Scanned(CombineSurrogates(hi, lo), rest)
  {
  }

  lemma PairCodePoint(hi: uint32, lo: uint32, tail: bytes, rest: bytes)
    requires 0xD800 <= hi <= 0xDBFF && lo < 0x10000
    requires tail == HexEscape(lo) + rest
    ensures UnicodeCodePoint(ToHex16Bit(hi) + tail) == Scanned(CombineSurrogates(hi, lo), rest)
  {
    var t := ToHex16Bit(hi) + tail;
    HexEscapeRoundTrip(hi, tail);
    SecondEscape(lo, rest);
    PairCase(t, hi, tail, lo, rest);
  }

  lemma SecondEscape(lo: uint32, rest: bytes)
    requires lo < 0x10000
    ensures var tail := HexEscape(lo) + rest;
      |tail| >= 6 && tail[0] == '\\' && tail[1] == 'u' && UnicodeEscape(tail[2..]) == Scanned(lo, rest)
  {
    var tail := HexEscape(lo) + rest;
    assert tail[2..] == ToHex16Bit(lo) + rest;
    HexEscapeRoundTrip(lo, rest);
  }

  /** A `\u` escape of a code point outside the surrogate ranges reads back
      as the UTF-8 form of that code point. */
  lemma BmpEscapeDecodes(cp: uint32, rest: bytes)
    requires cp < 0x10000 && !(0xD800 <= cp <= 0xDFFF)
    ensures DecodeChars(HexEscape(cp) + rest) == Prefix(CodePointToUtf8(cp), DecodeChars(rest))
  {
    var t := HexEscape(cp) + rest;
    assert t[0] == '\\' && t[1] == 'u';
    assert t[2..] == ToHex16Bit(cp) + rest;
    BmpCodePoint(cp, rest);
    UnicodeStep(t, cp, rest);
  }

  /** The two halves the writer computes for a code point above the Basic
      Multilingual Plane: a high surrogate and a low one that combine back
      into it, written as two `\u` escapes. */
  lemma SurrogateSplit(cp: uint32)
    requires 0x10000 <= cp <= 0x10FFFF
    ensures var c := cp - 0x10000;
      var hi, lo := 0xD800 + (c / 0x400) % 0x400, 0xDC00 + c % 0x400;
      && 0xD800 <= hi <= 0xDBFF && 0xDC00 <= lo <= 0xDFFF
      && CombineSurrogates(hi, lo) == cp
      && CodePointText(cp) == HexEscape(hi) + HexEscape(lo)
  {
    var c := cp - 0x10000;
    assert c / 0x400 < 0x400;
  }

  /** A high and a low surrogate escape in a row read back as the UTF-8
      form of the code point they combine into. */
  lemma PairTextDecodes(hi: uint32, lo: uint32, cp: uint32, rest: bytes)
    requires 0xD800 <= hi <= 0xDBFF && lo < 0x10000 && CombineSurrogates(hi, lo) == cp
    ensures DecodeChars(HexEscape(hi) + HexEscape(lo) + rest) == Prefix(CodePointToUtf8(cp), DecodeChars(rest))
  {
    var t := HexEscape(hi) + HexEscape(lo) + rest;
    assert t[0] == '\\' && t[1] == 'u';
    assert t[2..] == ToHex16Bit(hi) + (HexEscape(lo) + rest);
    PairCodePoint(hi, lo, HexEscape(lo) + rest, rest);
    UnicodeStep(t, cp, rest);
  }

  /** The surrogate pair the writer emits for a code point above the Basic
      Multilingual Plane reads back as that code point's UTF-8 form. */
  lemma PairEscapeDecodes(cp: uint32, rest: bytes)
    requires 0x10000 <= cp <= 0x10FFFF
    ensures DecodeChars(CodePointText(cp) + rest) == Prefix(CodePointToUtf8(cp), DecodeChars(rest))
  {
    var c := cp - 0x10000;
    var hi, lo := 0xD800 + (c / 0x400) % 0x400, 0xDC00 + c % 0x400;
    SurrogateSplit(cp);
    PairTextDecodes(hi, lo, cp, rest);
  }

  /** A byte that is neither a quote nor a backslash is read back verbatim. */
  lemma RawByteDecodes(b: byte, rest: bytes)
    requires b != '"' && b != '\\'
    ensures DecodeChars([b] + rest) == Prefix([b], DecodeChars(rest))
  {
    assert ([b] + rest)[1..] == rest;
  }

  lemma ShortEscapeDecodes(c: byte, rest: bytes)
    requires ShortEscape(c).Some?
    ensures DecodeChars(['\\', ShortEscape(c).value] + rest) == Prefix([c], DecodeChars(rest))
  {
    ShortEscapeInverse(c);
    assert (['\\', ShortEscape(c).value] + rest)[2..] == rest;
  }

  lemma PrefixAppend(p: bytes, q: bytes, s: bytes)
    ensures Prefix(p, Prefix(q, Unescaped(s))) == Unescaped(p + q + s)
  {
  }

  /** Reading back what the emitUTF8 writer escaped gives the original
      bytes, whatever they are. */
  lemma {:induction false} EscapeRoundTripUtf8(s: bytes, i: nat)
    requires i <= |s|
    ensures DecodeChars(EscapeFrom(s, i, true)) == Unescaped(s[i..])
    decreases |s| - i
  {
    if i < |s| {
      EscapeRoundTripUtf8(s, i + 1);
      var rest := EscapeFrom(s, i + 1, true);
      assert s[i..] == [s[i]] + s[i + 1..];
      match ShortEscape(s[i])
      case Some(e) =>
        ShortEscapeDecodes(s[i], rest);
      case None =>
        if s[i] as int < 0x20 {
          BmpEscapeDecodes(s[i] as int, rest);
          assert CodePointToUtf8(s[i] as int) == [s[i]];
        } else {
          RawByteDecodes(s[i], rest);
        }
    } else {
      assert s[i..] == [];
    }
  }

  /** The UTF-8 form of a sequence of code points. */
  function EncodeAll(cps: seq<uint32>): bytes {
    if |cps| == 0 then [] else CodePointToUtf8(cps[0]) + EncodeAll(cps[1..])
  }

  predicate AllScalars(cps: seq<uint32>) {
    forall k :: 0 <= k < |cps| ==> IsScalar(cps[k])
  }

  /** The checked decoder reads a scalar value's encoding the same way
      wherever it sits in a longer string. */
  lemma Utf8StepInContext(s: bytes, i: nat, cp: uint32)
    requires IsScalar(cp)
    requires i + |CodePointToUtf8(cp)| <= |s| && s[i..i + |CodePointToUtf8(cp)|] == CodePointToUtf8(cp)
    ensures Utf8ToCodepoint(s, i) == Decoded(cp, |CodePointToUtf8(cp)|)
  {
    var r := CodePointToUtf8(cp);
    EncodingShape(cp);
    assert forall k :: 0 <= k < |r| ==> s[i + k] == r[k];
    assert |r| > 1 ==> ContinuationsAt(s, i, |r|);
  }

  /** One step of the non-UTF-8 escaping loop over a well-formed code point
      reads back as that code point's UTF-8 form. */
  lemma EscapeStepAscii(s: bytes, i: nat, cp: uint32)
    requires IsScalar(cp)
    requires i + |CodePointToUtf8(cp)| <= |s| && s[i..i + |CodePointToUtf8(cp)|] == CodePointToUtf8(cp)
    ensures DecodeChars(EscapeFrom(s, i, false))
         == Prefix(CodePointToUtf8(cp), DecodeChars(EscapeFrom(s, i + |CodePointToUtf8(cp)|, false)))
  {
    var enc := CodePointToUtf8(cp);
    var n := i + |enc|;
    Utf8StepInContext(s, i, cp);
    assert s[i] == enc[0];
    match ShortEscape(s[i])
    case Some(e) =>
      assert |enc| == 1 && enc == [s[i]];
      ShortEscapeDecodes(s[i], EscapeFrom(s, i + 1, false));
    case None =>
      var rest := EscapeFrom(s, n, false);
      assert EscapeFrom(s, i, false) == CodePointText(cp) + rest;
      if cp < 0x20 {
        BmpEscapeDecodes(cp, rest);
      } else if cp < 0x80 {
        assert enc == [s[i]];
        RawByteDecodes(s[i], rest);
      } else if cp < 0x10000 {
        BmpEscapeDecodes(cp, rest);
      } else {
        PairEscapeDecodes(cp, rest);
      }
  }

  /** Reading back what the writer escaped without emitUTF8 gives the
      original bytes when they are well-formed UTF-8: one `\u` escape per
      code point of the Basic Multilingual Plane, a surrogate pair above it. */
  lemma {:induction false} EscapeRoundTripAscii(s: bytes, i: nat, cps: seq<uint32>)
    requires i <= |s| && AllScalars(cps) && s[i..] == EncodeAll(cps)
    ensures DecodeChars(EscapeFrom(s, i, false)) == Unescaped(s[i..])
    decreases |cps|
  {
    if |cps| == 0 {
      assert |s[i..]| == 0;
    } else {
      var cp := cps[0];
      var enc := CodePointToUtf8(cp);
      assert IsScalar(cp);
      assert s[i..] == enc + EncodeAll(cps[1..]);
      assert s[i..i + |enc|] == s[i..][..|enc|];
      var n := i + |enc|;
      assert s[n..] == s[i..][|enc|..];
      assert AllScalars(cps[1..]) by {
        forall k | 0 <= k < |cps[1..]| ensures IsScalar(cps[1..][k]) { assert cps[1..][k] == cps[k + 1]; }
      }
      EscapeRoundTripAscii(s, n, cps[1..]);
      EscapeStepAscii(s, i, cp);
      assert s[i..] == enc + s[n..];
    }
  }

  /** The quoted string either writer emits reads back, between its quotes,
      as the original bytes: for every input with emitUTF8, for UTF-8 input
      without it. */
  lemma QuotedStringRoundTrip(s: bytes, emitUtf8: bool, cps: seq<uint32>)
    requires emitUtf8 || (AllScalars(cps) && s == EncodeAll(cps))
    ensures var q := ValueToQuotedStringN(s, emitUtf8);
      DecodeString(q, 0, |q|) == Ok(s)
  {
    var q := ValueToQuotedStringN(s, emitUtf8);
    assert s[0..] == s;
    if DoesAnyCharRequireEscaping(s) {
      if emitUtf8 { EscapeRoundTripUtf8(s, 0); } else { EscapeRoundTripAscii(s, 0, cps); }
      assert q[1..|q| - 1] == EscapeFrom(s, 0, emitUtf8);
    } else {
      assert q[1..|q| - 1] == s;
      UnescapedReadsVerbatim(s);
    }
  }

  /** A string no byte of which needs escaping decodes to itself. */
  lemma {:induction false} UnescapedReadsVerbatim(s: bytes)
    requires !DoesAnyCharRequireEscaping(s)
    ensures DecodeChars(s) == Unescaped(s)
    decreases |s|
  {
    if |s| > 0 {
      assert !RequiresEscaping(s[0]);
      assert forall k :: 0 <= k < |s[1..]| ==> s[1..][k] == s[k + 1];
      UnescapedReadsVerbatim(s[1..]);
      assert s == [s[0]] + s[1..];
    }
  }
}
