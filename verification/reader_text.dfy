/** The text-level helpers of the reader (src/lib_json/json_reader.cpp,
    OurReader and the legacy Reader alike): decoding a string token with its
    escapes and `\u` sequences (section 7 of RFC 8259, surrogate pairs per
    section 2.2 of RFC 2781), end-of-line normalisation of comments, the
    newline test and the line/column of a location.

    A string token is decoded from the bytes between its quotes. An error
    reports how many of those bytes remain after its location, so that the
    location itself is the token's closing-quote offset minus that count. */
module ReaderText {
  import opened Wrappers
  import opened Bytes
  import opened Tool

  /** The outcome of a sub-scanner over the remaining bytes. */
  datatype Scan<T> = Scanned(value: T, rest: bytes) | ScanError(message: string, remaining: nat)

  const FourDigitsExpected := "Bad unicode escape sequence in string: four digits expected."
  const HexDigitExpected := "Bad unicode escape sequence in string: hexadecimal digit expected."
  const SixCharactersExpected := "additional six characters expected to parse unicode surrogate pair."
  const SecondHalfExpected := "expecting another \\u token to begin the second half of a unicode surrogate pair"
  const EmptyEscape := "Empty escape sequence in string"
  const BadEscape := "Bad escape sequence in string"

  /** Index of the first of the four bytes that is not a hex digit, or 4. */
  function FirstNonHex(t: bytes, k: nat): (i: nat)
    requires |t| >= 4 && k <= 4
    ensures k <= i <= 4
    ensures forall j :: k <= j < i ==> IsHexDigit(t[j])
    ensures i < 4 ==> !IsHexDigit(t[i])
    decreases 4 - k
  {
    if k == 4 then 4 else if !IsHexDigit(t[k]) then k else FirstNonHex(t, k + 1)
  }

  /** decodeUnicodeEscapeSequence, on the bytes after `\u`: four hex digits
      of either case, most significant first. */
  function UnicodeEscape(t: bytes): (r: Scan<nat>)
    ensures r.Scanned? <==> |t| >= 4 && forall k :: 0 <= k < 4 ==> IsHexDigit(t[k])
    ensures r.Scanned? ==> r.rest == t[4..] && r.value == HexValue(t[..4]) && r.value < 0x10000
    ensures r.ScanError? ==> r.remaining <= |t|
  {
    if |t| < 4 then ScanError(FourDigitsExpected, |t|)
    else
      var i := FirstNonHex(t, 0);
      if i < 4 then ScanError(HexDigitExpected, |t| - (i + 1))
      else
        HexValueBound(t[..4]);
        Scanned(HexValue(t[..4]), t[4..])
  }

  lemma {:induction false} HexValueBound(s: bytes)
    requires forall i :: 0 <= i < |s| ==> IsHexDigit(s[i])
    ensures HexValue(s) < Pow16(|s|)
    decreases |s|
  {
    if |s| > 0 {
      HexValueBound(s[..|s| - 1]);
    }
  }

  function Pow16(n: nat): nat {
    if n == 0 then 1 else 16 * Pow16(n - 1)
  }

  /** The code point a high and a low surrogate escape combine to. */
  function CombineSurrogates(hi: nat, lo: nat): (cp: nat)
    ensures 0x10000 <= cp <= 0x10FFFF
  {
    0x10000 + (hi % 0x400) * 0x400 + lo % 0x400
  }

  /** decodeUnicodeCodePoint, on the bytes after `\u`: a high surrogate
      D800-DBFF must be followed by `\u` and four more hex digits, whose low
      ten bits complete the code point; the second escape's range is not
      checked. */
  function UnicodeCodePoint(t: bytes): (r: Scan<nat>)
    ensures r.Scanned? ==> r.value <= 0x10FFFF && |r.rest| <= |t| - 4
    ensures r.ScanError? ==> r.remaining <= |t|
  {
    match UnicodeEscape(t)
    case ScanError(m, n) => ScanError(m, n)
    case Scanned(u, rest) =>
      if 0xD800 <= u <= 0xDBFF then
        if |rest| < 6 then ScanError(SixCharactersExpected, |rest|)
        else if rest[0] == '\\' && rest[1] == 'u' then
          match UnicodeEscape(rest[2..])
          case ScanError(m, n) => ScanError(m, n)
          case Scanned(lo, rest2) => Scanned(CombineSurrogates(u, lo), rest2)
        else
          ScanError(SecondHalfExpected, if rest[0] == '\\' then |rest| - 2 else |rest| - 1)
      else Scanned(u, rest)
  }

  /** The byte each short escape letter stands for. */
  function Unescape(e: byte): Option<byte> {
    if e == '"' then Some('"')
    else if e == '/' then Some('/')
    else if e == '\\' then Some('\\')
    else if e == 'b' then Some(Backspace)
    else if e == 'f' then Some(FormFeed)
    else if e == 'n' then Some('\n')
    else if e == 'r' then Some('\r')
    else if e == 't' then Some('\t')
    else None
  }

  datatype Decoding = Unescaped(out: bytes) | DecodeError(message: string, remaining: nat)

  function Prefix(p: bytes, d: Decoding): Decoding {
    if d.Unescaped? then Unescaped(p + d.out) else d
  }

  /** A string body with no escape and no quote: decodeString copies it. */
  predicate PlainText(t: bytes) {
    forall k :: 0 <= k < |t| ==> t[k] != '"' && t[k] != '\\'
  }

  /** decodeString's loop over the bytes between the quotes. An unescaped
      '"' ends the string early (it can only occur in a single-quoted
      token). */
  function DecodeChars(t: bytes): (r: Decoding)
    ensures r.DecodeError? ==> r.remaining <= |t|
    decreases |t|
  {
    if |t| == 0 then Unescaped([])
    else if t[0] == '"' then Unescaped([])
    else if t[0] == '\\' then
      if |t| == 1 then DecodeError(EmptyEscape, 0)
      else
        match Unescape(t[1])
        case Some(c) => Prefix([c], DecodeChars(t[2..]))
        case None =>
          if t[1] == 'u' then
            match UnicodeCodePoint(t[2..])
            case ScanError(m, n) => DecodeError(m, n)
            case Scanned(cp, rest) => Prefix(CodePointToUtf8(cp), DecodeChars(rest))
          else DecodeError(BadEscape, |t| - 2)
    else Prefix([t[0]], DecodeChars(t[1..]))
  }

  /** A body with no escape and no quote decodes to itself. */
  lemma {:induction false} PlainTextDecodes(t: bytes)
    requires PlainText(t)
    ensures DecodeChars(t) == Unescaped(t)
    decreases |t|
  {
    if |t| > 0 {
      assert PlainText(t[1..]) by {
        forall k | 0 <= k < |t| - 1 ensures t[1..][k] == t[k + 1] { }
      }
      PlainTextDecodes(t[1..]);
      assert [t[0]] + t[1..] == t;
    }
  }

  /** decodeString(token, decoded) on the document `text`: the token spans
      [start, end) including both quotes. The error location is an offset
      into `text`. */
  function DecodeString(text: bytes, start: nat, end: nat): (r: Result<bytes>)
    requires start + 2 <= end <= |text|
    ensures r.Fail? <==> DecodeChars(text[start + 1..end - 1]).DecodeError?
    ensures r.Fail? ==> r.message == DecodeChars(text[start + 1..end - 1]).message
  {
    match DecodeChars(text[start + 1..end - 1])
    case Unescaped(out) => Ok(out)
    case DecodeError(m, n) => Fail(m)
  }

  /** Where decodeString's error points, as an offset into the document. */
  function DecodeStringErrorAt(text: bytes, start: nat, end: nat): (at: nat)
    requires start + 2 <= end <= |text|
    requires DecodeChars(text[start + 1..end - 1]).DecodeError?
    ensures start + 1 <= at <= end - 1
  {
    end - 1 - DecodeChars(text[start + 1..end - 1]).remaining
  }

  // ----- End-of-line handling -----

  predicate IsLineBreakByte(c: byte) { c == '\n' || c == '\r' }

  /** containsNewLine. */
  function ContainsNewLine(s: bytes): (r: bool)
    ensures r <==> exists i :: 0 <= i < |s| && IsLineBreakByte(s[i])
  {
    if |s| == 0 then false
    else
      assert forall i :: 1 <= i < |s| ==> s[i] == s[1..][i - 1];
      IsLineBreakByte(s[0]) || ContainsNewLine(s[1..])
  }

  /** The number of line breaks in `s`: every CR, and every LF that does not
      directly follow a CR (so CRLF counts once). */
  function Breaks(s: bytes): nat {
    if |s| == 0 then 0
    else
      var p := s[..|s| - 1];
      var c := s[|s| - 1];
      Breaks(p) + (if c == '\r' || (c == '\n' && !(|p| > 0 && p[|p| - 1] == '\r')) then 1 else 0)
  }

  /** The offset just after the last CR or LF of `s` (0 if there is none):
      where the current line starts. */
  function LineStart(s: bytes): (n: nat)
    ensures n <= |s|
  {
    if |s| == 0 then 0
    else if IsLineBreakByte(s[|s| - 1]) then |s|
    else LineStart(s[..|s| - 1])
  }

  /** The number of `c` bytes in `s`. */
  function Count(s: bytes, c: byte): nat {
    if |s| == 0 then 0 else Count(s[..|s| - 1], c) + (if s[|s| - 1] == c then 1 else 0)
  }

  /** The bytes of `s` other than CR and LF, in order. */
  function NonBreaks(s: bytes): bytes {
    if |s| == 0 then []
    else NonBreaks(s[..|s| - 1]) + (if IsLineBreakByte(s[|s| - 1]) then [] else [s[|s| - 1]])
  }

  /** normalizeEOL: CRLF and a lone CR each become one LF. */
  function NormalizeEol(s: bytes): (r: bytes)
    ensures |r| <= |s|
    decreases |s|
  {
    if |s| == 0 then []
    else if s[0] == '\r' then
      ['\n'] + NormalizeEol(if |s| > 1 && s[1] == '\n' then s[2..] else s[1..])
    else [s[0]] + NormalizeEol(s[1..])
  }

  lemma {:induction false} BreaksAppend(a: bytes, b: bytes)
    ensures Breaks(a + b) ==
      Breaks(a) + Breaks(b) - (if |a| > 0 && a[|a| - 1] == '\r' && |b| > 0 && b[0] == '\n' then 1 else 0)
    decreases |b|
  {
    if |b| > 0 {
      var p := b[..|b| - 1];
      assert (a + b)[..|a + b| - 1] == a + p;
      assert (a + b)[|a + b| - 1] == b[|b| - 1];
      BreaksAppend(a, p);
      if |b| == 1 {
        assert p == [] && a + p == a;
      } else {
        assert (a + p)[|a + p| - 1] == p[|p| - 1];
        assert p[0] == b[0];
      }
    } else {
      assert a + b == a;
    }
  }

  lemma CountAppend(a: bytes, b: bytes, c: byte)
    ensures Count(a + b, c) == Count(a, c) + Count(b, c)
    ensures NonBreaks(a + b) == NonBreaks(a) + NonBreaks(b)
    decreases |b|
  {
    if |b| > 0 {
      assert (a + b)[..|a + b| - 1] == a + b[..|b| - 1];
      CountAppend(a, b[..|b| - 1], c);
    } else {
      assert a + b == a;
    }
  }

  /** normalizeEOL leaves no CR, produces one LF per line break, and keeps
      every other byte in order. */
  lemma NormalizeEolSpec(s: bytes)
    ensures Count(NormalizeEol(s), '\r') == 0
    ensures Count(NormalizeEol(s), '\n') == Breaks(s)
    ensures NonBreaks(NormalizeEol(s)) == NonBreaks(s)
  {
    NormalizeEolNoCr(s);
    NormalizeEolBreaks(s);
    NormalizeEolKeeps(s);
  }

  /** The first line break or byte of a non-empty text, what normalizeEOL
      writes for it, and the text after it. */
  lemma FirstPiece(s: bytes) returns (head: bytes, out: bytes, rest: bytes)
    requires |s| > 0
    ensures s == head + rest && |rest| < |s| && rest == s[|head|..]
    ensures NormalizeEol(s) == out + NormalizeEol(rest)
    ensures Count(out, '\r') == 0 && Count(out, '\n') == Breaks(head) && NonBreaks(out) == NonBreaks(head)
    ensures !(head[|head| - 1] == '\r' && |rest| > 0 && rest[0] == '\n')
  {
    rest := if s[0] == '\r' && |s| > 1 && s[1] == '\n' then s[2..] else s[1..];
    head := s[..|s| - |rest|];
    assert s == head + rest;
    out := if s[0] == '\r' then ['\n'] else [s[0]];
    HeadPiece(head, out);
  }

  lemma {:induction false} NormalizeEolNoCr(s: bytes)
    ensures Count(NormalizeEol(s), '\r') == 0
    decreases |s|
  {
    if |s| > 0 {
      var head, out, rest := FirstPiece(s);
      NormalizeEolNoCr(rest);
      CountAppend(out, NormalizeEol(rest), '\r');
    }
  }

  lemma {:induction false} NormalizeEolBreaks(s: bytes)
    ensures Count(NormalizeEol(s), '\n') == Breaks(s)
    decreases |s|
  {
    if |s| > 0 {
      var head, out, rest := FirstPiece(s);
      NormalizeEolBreaks(rest);
      CountAppend(out, NormalizeEol(rest), '\n');
      BreaksAppend(head, rest);
    }
  }

  lemma {:induction false} NormalizeEolKeeps(s: bytes)
    ensures NonBreaks(NormalizeEol(s)) == NonBreaks(s)
    decreases |s|
  {
    if |s| > 0 {
      var head, out, rest := FirstPiece(s);
      NormalizeEolKeeps(rest);
      CountAppend(out, NormalizeEol(rest), '\n');
      CountAppend(head, rest, '\n');
    }
  }

  /** What normalizeEOL writes for one line break or one other byte. */
  lemma HeadPiece(head: bytes, out: bytes)
    requires || (head == ['\r', '\n'] && out == ['\n'])
             || (head == ['\r'] && out == ['\n'])
             || (|head| == 1 && head[0] != '\r' && out == head)
    ensures Count(out, '\r') == 0 && Count(out, '\n') == Breaks(head) && NonBreaks(out) == NonBreaks(head)
  {
    assert out[..0] == [] && head[..0] == [];
    if |head| == 2 {
      assert head[..1] == ['\r'] && head[..1][..0] == [];
    }
  }

  /** Text without CR is left unchanged by normalizeEOL, so normalising
      twice is normalising once. */
  lemma {:induction false} NormalizeEolIdempotent(s: bytes)
    ensures Count(s, '\r') == 0 ==> NormalizeEol(s) == s
    ensures NormalizeEol(NormalizeEol(s)) == NormalizeEol(s)
    decreases |s|
  {
    if |s| > 0 {
      CountAppend([s[0]], s[1..], '\r');
      assert [s[0]] + s[1..] == s;
      assert [s[0]][..0] == [];
      NormalizeEolIdempotent(s[1..]);
    }
    NormalizeEolSpec(s);
    if Count(NormalizeEol(s), '\r') == 0 && |NormalizeEol(s)| < |s| {
      NormalizeEolIdempotent(NormalizeEol(s));
    } else if |s| > 0 && Count(NormalizeEol(s), '\r') == 0 {
      CrFreeFixed(NormalizeEol(s));
    }
  }

  lemma {:induction false} CrFreeFixed(s: bytes)
    requires Count(s, '\r') == 0
    ensures NormalizeEol(s) == s
    decreases |s|
  {
    if |s| > 0 {
      CountAppend([s[0]], s[1..], '\r');
      assert [s[0]] + s[1..] == s;
      assert [s[0]][..0] == [];
      CrFreeFixed(s[1..]);
    }
  }

  // ----- Line and column of a location -----

  /** getLocationLineAndColumn's loop from offset `current`, with the line
      count and line start so far. A CR's LF is skipped even when it lies at
      `location`. */
  function LineColumnFrom(text: bytes, location: nat, current: nat, line: nat, lineStart: nat): (lc: (nat, int))
    requires current <= |text|
    decreases |text| - current
  {
    if current < location && current != |text| then
      var c := text[current];
      if c == '\r' then
        var next := if current + 1 != |text| && text[current + 1] == '\n' then current + 2 else current + 1;
        LineColumnFrom(text, location, next, line + 1, next)
      else if c == '\n' then
        LineColumnFrom(text, location, current + 1, line + 1, current + 1)
      else
        LineColumnFrom(text, location, current + 1, line, lineStart)
    else
      (line + 1, location - lineStart + 1)
  }

  /** getLocationLineAndColumn: offsets are relative to the document start
      (after a skipped byte order mark). */
  function LineAndColumn(text: bytes, location: nat): (nat, int) {
    LineColumnFrom(text, location, 0, 0, 0)
  }

  /** A location inside the document that does not split a CRLF pair. */
  predicate OnLineGrid(text: bytes, location: nat) {
    location <= |text| && !(0 < location < |text| && text[location - 1] == '\r' && text[location] == '\n')
  }

  lemma {:induction false} LineColumnLoop(text: bytes, location: nat, current: nat)
    requires current <= location && OnLineGrid(text, location) && OnLineGrid(text, current)
    ensures LineColumnFrom(text, location, current, Breaks(text[..current]), LineStart(text[..current]))
         == (Breaks(text[..location]) + 1, location - LineStart(text[..location]) + 1)
    decreases |text| - current
  {
    if current < location {
      var next := LineStepCounts(text, current);
      LineColumnLoop(text, location, next);
    }
  }

  /** One turn of the location loop: a CRLF pair, a lone CR or LF, or
      another byte, and what it adds to the counts. */
  lemma LineStepCounts(text: bytes, current: nat) returns (next: nat)
    requires current < |text| && OnLineGrid(text, current)
    ensures next == if text[current] == '\r' && current + 1 != |text| && text[current + 1] == '\n'
                    then current + 2 else current + 1
    ensures Breaks(text[..next]) == Breaks(text[..current]) + (if IsLineBreakByte(text[current]) then 1 else 0)
    ensures LineStart(text[..next]) == if IsLineBreakByte(text[current]) then next else LineStart(text[..current])
  {
    var c := text[current];
    next := if c == '\r' && current + 1 != |text| && text[current + 1] == '\n' then current + 2 else current + 1;
    assert text[..next] == text[..current] + text[current..next];
    BreaksAppend(text[..current], text[current..next]);
    var piece := text[current..next];
    assert piece[..0] == [];
    if next == current + 2 {
      assert piece[..1] == ['\r'] && piece[..1][..0] == [];
      assert Breaks(piece) == 1;
      assert text[..next][..next - 1] == text[..current + 1];
    } else {
      assert text[..next][..next - 1] == text[..current];
    }
  }

  /** The line is one more than the number of line breaks before the
      location, CRLF counted once; the column is one more than the number of
      bytes since the last line break. */
  lemma LineAndColumnSpec(text: bytes, location: nat)
    requires OnLineGrid(text, location)
    ensures LineAndColumn(text, location) ==
      (Breaks(text[..location]) + 1, location - LineStart(text[..location]) + 1)
  {
    assert text[..0] == [];
    LineColumnLoop(text, location, 0);
  }

  /** From any point on the line grid, the loop reaches any later point on
      the grid before the location with the counts of that point. */
  lemma {:induction false} LineColumnReaches(text: bytes, location: nat, current: nat, mid: nat)
    requires current <= mid <= location && OnLineGrid(text, mid) && OnLineGrid(text, current)
    ensures LineColumnFrom(text, location, current, Breaks(text[..current]), LineStart(text[..current]))
         == LineColumnFrom(text, location, mid, Breaks(text[..mid]), LineStart(text[..mid]))
    decreases |text| - current
  {
    if current < mid {
      var next := LineStepCounts(text, current);
      LineColumnReaches(text, location, next, mid);
    }
  }

  /** A location between a CR and its LF reports column 0 on the line after
      the break: the loop skips the LF and starts the new line after it. */
  lemma LocationInsideCrLf(text: bytes, location: nat)
    requires 0 < location < |text| && text[location - 1] == '\r' && text[location] == '\n'
    ensures LineAndColumn(text, location) == (Breaks(text[..location - 1]) + 2, 0)
  {
    assert text[..0] == [];
    LineColumnReaches(text, location, 0, location - 1);
  }
}
