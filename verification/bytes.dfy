/** The byte strings jsoncpp works on. A C++ `char` of the source is a byte;
    the model keeps it as a Dafny `char` below 256 so that literals read as in
    the source, and compares bytes as unsigned values (`memcmp` semantics). */
module Bytes {

  type byte = c: char | c as int < 0x100
  type bytes = seq<byte>

  /** The byte with unsigned value `n`. */
  function ByteOf(n: nat): (b: byte)
    requires n < 0x100
    ensures b as int == n
  {
    n as char
  }

  /** The two C escapes Dafny's character literals lack: `\b` and `\f`. */
  const Backspace: byte := 8 as char
  const FormFeed: byte := 12 as char

  predicate IsDigit(c: byte) { '0' <= c <= '9' }

  function DigitValue(c: byte): (d: nat)
    requires IsDigit(c)
    ensures d < 10
  {
    c as int - '0' as int
  }

  function DigitOf(d: nat): (c: byte)
    requires d < 10
    ensures IsDigit(c) && DigitValue(c) == d
  {
    ByteOf('0' as int + d)
  }

  predicate AllDigits(s: bytes) {
    forall i :: 0 <= i < |s| ==> IsDigit(s[i])
  }

  /** The number a string of decimal digits denotes, most significant first. */
  function DecimalValue(s: bytes): nat
    requires AllDigits(s)
  {
    if |s| == 0 then 0 else DecimalValue(s[..|s| - 1]) * 10 + DigitValue(s[|s| - 1])
  }

  predicate IsHexDigit(c: byte) {
    ('0' <= c <= '9') || ('a' <= c <= 'f') || ('A' <= c <= 'F')
  }

  function HexDigitValue(c: byte): (d: nat)
    requires IsHexDigit(c)
    ensures d < 16
  {
    if '0' <= c <= '9' then c as int - '0' as int
    else if 'a' <= c <= 'f' then c as int - 'a' as int + 10
    else c as int - 'A' as int + 10
  }

  /** Lower-case hexadecimal digit, as in the writer's `hex2` table. */
  function LowerHexDigit(d: nat): (c: byte)
    requires d < 16
    ensures IsHexDigit(c) && HexDigitValue(c) == d
    ensures !('A' <= c <= 'F')
  {
    if d < 10 then ByteOf('0' as int + d) else ByteOf('a' as int + d - 10)
  }

  /** The number a string of hexadecimal digits denotes, most significant first. */
  function HexValue(s: bytes): nat
    requires forall i :: 0 <= i < |s| ==> IsHexDigit(s[i])
  {
    if |s| == 0 then 0 else HexValue(s[..|s| - 1]) * 16 + HexDigitValue(s[|s| - 1])
  }

  /** The C string a `const char*` argument holds: the bytes before the
      first NUL, the length `strlen` measures. */
  function CString(s: bytes): (r: bytes)
    ensures |r| <= |s| && r == s[..|r|]
    ensures forall i :: 0 <= i < |r| ==> r[i] != 0 as char
    ensures |r| < |s| ==> s[|r|] == 0 as char
    ensures (forall i :: 0 <= i < |s| ==> s[i] != 0 as char) ==> r == s
    decreases |s|
  {
    if |s| == 0 || s[0] == 0 as char then []
    else
      var rest := CString(s[1..]);
      assert s[1..][..|rest|] == s[1..|rest| + 1];
      [s[0]] + rest
  }

  /** `memcmp` over the common prefix, then the shorter string first: the order
      of CZString keys and of string values. */
  predicate BytesLess(a: bytes, b: bytes) {
    if |a| == 0 then |b| > 0
    else if |b| == 0 then false
    else if a[0] != b[0] then a[0] < b[0]
    else BytesLess(a[1..], b[1..])
  }

  lemma {:induction false} BytesLessIrreflexive(a: bytes)
    ensures !BytesLess(a, a)
  {
    if |a| > 0 {
      BytesLessIrreflexive(a[1..]);
    }
  }

  lemma {:induction false} BytesLessTrichotomy(a: bytes, b: bytes)
    ensures BytesLess(a, b) || a == b || BytesLess(b, a)
    ensures !(BytesLess(a, b) && BytesLess(b, a))
  {
    if |a| > 0 && |b| > 0 && a[0] == b[0] {
      BytesLessTrichotomy(a[1..], b[1..]);
      if a[1..] == b[1..] {
        assert a == [a[0]] + a[1..] && b == [b[0]] + b[1..];
      }
    }
  }

  lemma {:induction false} BytesLessTransitive(a: bytes, b: bytes, c: bytes)
    requires BytesLess(a, b) && BytesLess(b, c)
    ensures BytesLess(a, c)
  {
    if |a| > 0 && |b| > 0 && |c| > 0 && a[0] == b[0] && b[0] == c[0] {
      BytesLessTransitive(a[1..], b[1..], c[1..]);
    }
  }
}
