/** Model of src/lib_json/json_tool.h: UTF-8 encoding of a code point, the
    right-to-left decimal printer with its fixed-size buffer, and the two
    post-processing passes applied to printed numbers. */
module Tool {
  import opened Bytes

  /** `unsigned int` of the source. */
  type uint32 = x: int | 0 <= x < 0x1_0000_0000
  /** `LargestUInt` of the source. */
  type uint64 = x: int | 0 <= x < 0x1_0000_0000_0000_0000

  predicate IsContinuation(b: byte) { 0x80 <= b as int < 0xC0 }

  /** codePointToUTF8: the shortest UTF-8 form of `cp` (section 3 of RFC 3629);
      a value above U+10FFFF matches no branch and yields the empty string.
      Surrogates are not rejected: they get their 3-byte form. */
  function CodePointToUtf8(cp: uint32): (r: bytes)
    ensures cp <= 0x7F <==> |r| == 1
    ensures 0x7F < cp <= 0x7FF <==> |r| == 2
    ensures 0x7FF < cp <= 0xFFFF <==> |r| == 3
    ensures 0xFFFF < cp <= 0x10FFFF <==> |r| == 4
    ensures cp > 0x10FFFF <==> |r| == 0
    ensures |r| == 1 ==> r[0] as int == cp
    ensures |r| == 2 ==> 0xC0 <= r[0] as int < 0xE0
    ensures |r| == 3 ==> 0xE0 <= r[0] as int < 0xF0
    ensures |r| == 4 ==> 0xF0 <= r[0] as int < 0xF8
    ensures forall i :: 1 <= i < |r| ==> IsContinuation(r[i])
  {
    if cp <= 0x7F then
      [ByteOf(cp)]
    else if cp <= 0x7FF then
      [ByteOf(0xC0 + (cp / 0x40) % 0x20), ByteOf(0x80 + cp % 0x40)]
    else if cp <= 0xFFFF then
      [ByteOf(0xE0 + (cp / 0x1000) % 0x10),
       ByteOf(0x80 + (cp / 0x40) % 0x40),
       ByteOf(0x80 + cp % 0x40)]
    else if cp <= 0x10FFFF then
      [ByteOf(0xF0 + (cp / 0x40000) % 0x8),
       ByteOf(0x80 + (cp / 0x1000) % 0x40),
       ByteOf(0x80 + (cp / 0x40) % 0x40),
       ByteOf(0x80 + cp % 0x40)]
    else
      []
  }

  /** The code point a well-formed UTF-8 sequence of one to four bytes carries:
      the payload bits of the lead byte followed by six bits per continuation. */
  function Utf8Payload(r: bytes): nat
    requires 1 <= |r| <= 4
  {
    var lead := r[0] as int;
    if |r| == 1 then lead
    else if |r| == 2 then (lead % 0x20) * 0x40 + r[1] as int % 0x40
    else if |r| == 3 then (lead % 0x10) * 0x1000 + (r[1] as int % 0x40) * 0x40 + r[2] as int % 0x40
    else (lead % 0x08) * 0x40000 + (r[1] as int % 0x40) * 0x1000
         + (r[2] as int % 0x40) * 0x40 + r[3] as int % 0x40
  }

  lemma TwoByteArith(cp: int)
    requires 0x7F < cp <= 0x7FF
    ensures ((0xC0 + (cp / 0x40) % 0x20) % 0x20) * 0x40 + (0x80 + cp % 0x40) % 0x40 == cp
  {
    var a, b := cp / 0x40, cp % 0x40;
    assert cp == a * 0x40 + b;
    assert a < 0x20;
    assert (0xC0 + a) % 0x20 == a;
    assert (0x80 + b) % 0x40 == b;
  }

  lemma ThreeByteArith(cp: int)
    requires 0x7FF < cp <= 0xFFFF
    ensures ((0xE0 + (cp / 0x1000) % 0x10) % 0x10) * 0x1000
            + ((0x80 + (cp / 0x40) % 0x40) % 0x40) * 0x40 + (0x80 + cp % 0x40) % 0x40 == cp
  {
    var q1 := cp / 0x40; var c := cp % 0x40;
    var q2 := q1 / 0x40; var b := q1 % 0x40;
    assert cp == q1 * 0x40 + c;
    assert q1 == q2 * 0x40 + b;
    assert q2 < 0x10;
    assert cp / 0x1000 == q2;
  }

  lemma FourByteArith(cp: int)
    requires 0xFFFF < cp <= 0x10FFFF
    ensures ((0xF0 + (cp / 0x40000) % 0x8) % 0x08) * 0x40000
            + ((0x80 + (cp / 0x1000) % 0x40) % 0x40) * 0x1000
            + ((0x80 + (cp / 0x40) % 0x40) % 0x40) * 0x40 + (0x80 + cp % 0x40) % 0x40 == cp
  {
    var q1 := cp / 0x40; var d := cp % 0x40;
    var q2 := q1 / 0x40; var c := q1 % 0x40;
    var q3 := q2 / 0x40; var b := q2 % 0x40;
    assert cp == q1 * 0x40 + d;
    assert q1 == q2 * 0x40 + c;
    assert q2 == q3 * 0x40 + b;
    assert cp == q2 * 0x1000 + (c * 0x40 + d);
    assert cp / 0x1000 == q2;
    assert cp == q3 * 0x40000 + (b * 0x1000 + c * 0x40 + d);
    assert cp / 0x40000 == q3;
    assert q3 < 8;
    assert (0xF0 + q3 % 8) % 8 == q3;
    assert (0x80 + b) % 0x40 == b && (0x80 + c) % 0x40 == c && (0x80 + d) % 0x40 == d;
  }

  /** Every code point up to U+10FFFF is recovered from its encoding. */
  lemma CodePointToUtf8Payload(cp: uint32)
    requires cp <= 0x10FFFF
    ensures 1 <= |CodePointToUtf8(cp)| <= 4
    ensures Utf8Payload(CodePointToUtf8(cp)) == cp
  {
    if 0x7F < cp <= 0x7FF {
      TwoByteArith(cp);
    } else if 0x7FF < cp <= 0xFFFF {
      ThreeByteArith(cp);
    } else if 0xFFFF < cp {
      FourByteArith(cp);
    }
  }

  /** uintToStringBufferSize: three characters per byte of LargestUInt plus
      the terminating NUL. */
  const UIntToStringBufferSize: nat := 3 * 8 + 1

  /** Decimal digits of `v`, most significant first. */
  function Digits(v: nat): (r: bytes)
    ensures 1 <= |r|
    ensures AllDigits(r)
    decreases v
  {
    if v < 10 then [DigitOf(v)] else Digits(v / 10) + [DigitOf(v % 10)]
  }

  /** The digits read back as `v` and carry no leading zero: "0" is the only
      representation starting with '0'. */
  lemma {:induction false} DigitsValue(v: nat)
    ensures DecimalValue(Digits(v)) == v
    ensures Digits(v)[0] == '0' <==> v == 0
    ensures v == 0 ==> Digits(v) == "0"
    decreases v
  {
    if v >= 10 {
      var p := Digits(v / 10);
      DigitsValue(v / 10);
      assert (p + [DigitOf(v % 10)])[..|p|] == p;
    }
  }

  function Pow10(n: nat): (r: nat)
    ensures r >= 1
  {
    if n == 0 then 1 else 10 * Pow10(n - 1)
  }

  /** A value below 10^n has at most n digits. */
  lemma {:induction false} DigitsLength(v: nat, n: nat)
    requires v < Pow10(n)
    ensures |Digits(v)| <= n || (v == 0 && n == 0)
  {
    if v >= 10 {
      assert n != 0 && n != 1;
      DigitsLength(v / 10, n - 1);
    }
  }

  /** The 25-byte buffer holds every 64-bit value: at most 20 digits plus NUL. */
  lemma UIntToStringFits(v: uint64)
    ensures |Digits(v)| <= 20
    ensures |Digits(v)| + 1 <= UIntToStringBufferSize
  {
    assert Pow10(5) == 100000;
    assert Pow10(10) == 10000000000;
    assert Pow10(15) == 1000000000000000;
    assert Pow10(20) == 100_000_000_000_000_000_000;
    DigitsLength(v, 20);
  }

  lemma DigitsLast(v: nat)
    ensures Digits(v) == (if v < 10 then [] else Digits(v / 10)) + [DigitOf(v % 10)]
  {
  }

  /** Storing `d` just before a written stretch extends it by one on the left
      and leaves the rest of the buffer alone. */
  lemma StoreBefore(buf: bytes, cursor: nat, current: nat, d: byte)
    requires 0 < cursor < current <= |buf|
    ensures buf[cursor - 1 := d][cursor - 1..current - 1] == [d] + buf[cursor..current - 1]
    ensures buf[cursor - 1 := d][..cursor - 1] == buf[..cursor - 1]
    ensures buf[cursor - 1 := d][current - 1..] == buf[current - 1..]
  {
  }

  /** uintToString: stores a NUL just before `current`, then the digits of
      `value` right to left with a do-while loop (so 0 prints as "0"); the
      returned cursor points at the first digit. Bytes outside
      [cursor, current) are left as they were. */
  method UIntToString(value: uint64, buffer: bytes, current: nat) returns (buf: bytes, cursor: nat)
    requires current <= |buffer|
    requires |Digits(value)| + 1 <= current
    ensures |buf| == |buffer|
    ensures cursor + |Digits(value)| + 1 == current
    ensures buf[cursor..current - 1] == Digits(value)
    ensures buf[current - 1] == 0 as char
    ensures buf[..cursor] == buffer[..cursor] && buf[current..] == buffer[current..]
  {
    buf := buffer[current - 1 := 0 as char];
    cursor := current - 1;
    var v: nat := value;
    ghost var pending := Digits(value);
    ghost var written: bytes := [];
    while true
      invariant |buf| == |buffer| && cursor < current
      invariant buf[current - 1] == 0 as char
      invariant buf[..cursor] == buffer[..cursor] && buf[current..] == buffer[current..]
      invariant pending + written == Digits(value)
      invariant cursor + |written| + 1 == current
      invariant forall k :: cursor <= k < current - 1 ==> buf[k] == written[k - cursor]
      invariant |pending| > 0 && pending == Digits(v)
      decreases |pending|
    {
      var d := DigitOf(v % 10);
      DigitsLast(v);
      cursor := cursor - 1;
      buf := buf[cursor := d];
      written := [d] + written;
      pending := pending[..|pending| - 1];
      v := v / 10;
      if v == 0 {
        break;
      }
    }
    assert buf[cursor..current - 1] == written;
  }

  /** fixNumericLocale: every ',' becomes '.', every other byte and the length
      are unchanged. */
  method FixNumericLocale(s: bytes) returns (r: bytes)
    ensures |r| == |s|
    ensures forall i :: 0 <= i < |s| ==> r[i] == (if s[i] == ',' then '.' else s[i])
    ensures forall i :: 0 <= i < |r| ==> r[i] != ','
  {
    r := s;
    var i := 0;
    while i < |r|
      invariant 0 <= i <= |r| == |s|
      invariant forall k :: 0 <= k < i ==> r[k] == (if s[k] == ',' then '.' else s[k])
      invariant forall k :: i <= k < |r| ==> r[k] == s[k]
    {
      if r[i] == ',' {
        r := r[i := '.'];
      }
      i := i + 1;
    }
  }

  /** Length of `s` once every trailing '0' is dropped. */
  function TrimmedLength(s: bytes): (z: nat)
    ensures z <= |s|
    ensures forall i :: z <= i < |s| ==> s[i] == '0'
    ensures z == 0 || s[z - 1] != '0'
  {
    if |s| > 0 && s[|s| - 1] == '0' then TrimmedLength(s[..|s| - 1]) else |s|
  }

  /** fixZerosInTheEnd: walks back over trailing '0's. When the walk reaches a
      '.' that is not the first byte it keeps ".0" (precision > 0) or drops the
      '.' too (precision 0); otherwise it stops after the last non-'0' byte.
      Only '0' bytes (and that '.') are ever removed. */
  method FixZerosInTheEnd(s: bytes, precision: uint32) returns (newEnd: nat)
    ensures newEnd <= |s|
    ensures forall i :: newEnd <= i < |s| ==> s[i] == '0' || (i == newEnd && s[i] == '.')
    ensures var z := TrimmedLength(s);
      newEnd == if z < |s| && 2 <= z && s[z - 1] == '.' then
                  (if precision != 0 then z + 1 else z - 1)
                else z
  {
    ghost var z := TrimmedLength(s);
    ghost var dotCase := z < |s| && 2 <= z && s[z - 1] == '.';
    var end := |s|;
    while end != 0
      invariant z <= end <= |s|
      invariant dotCase ==> end >= z + 1
    {
      if s[end - 1] != '0' {
        return end;
      }
      if end >= 3 && s[end - 2] == '.' {
        if precision != 0 {
          return end;
        }
        return end - 2;
      }
      end := end - 1;
    }
    return end;
  }
}
