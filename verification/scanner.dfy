/** The lexer of src/lib_json/json_reader.cpp: readToken and its
    sub-scanners (skipSpaces, skipBom, match, readNumber, readString,
    readStringSingleQuote, the comment readers), shared by OurReader and the
    legacy Reader. Every scanner takes the document and a cursor offset and
    returns where the cursor ends; a position at or past the end reads as the
    NUL byte, as `getNextChar` does. */
module Scanner {
  import opened Wrappers
  import opened Bytes
  import opened ReaderText

  /** OurFeatures, plus whether the lexer is the legacy Reader's (which
      reads '-' without the Infinity check and has no '+' token). */
  datatype Features = Features(
    allowComments: bool,
    allowTrailingCommas: bool,
    strictRoot: bool,
    allowDroppedNullPlaceholders: bool,
    allowNumericKeys: bool,
    allowSingleQuotes: bool,
    failIfExtra: bool,
    rejectDupKeys: bool,
    allowSpecialFloats: bool,
    skipBom: bool,
    stackLimit: nat,
    legacy: bool)

  /** The legacy Reader's stackLimit_g (JSONCPP_DEPRECATED_STACK_LIMIT). */
  const LegacyStackLimit: nat := 1000

  /** Json::Features of the legacy Reader: its four settable flags; every
      other behaviour is fixed. */
  datatype LegacyFlags = LegacyFlags(
    allowComments: bool, strictRoot: bool, allowDroppedNullPlaceholders: bool, allowNumericKeys: bool)

  /** Features::all(). */
  const AllLegacyFlags := LegacyFlags(true, false, false, false)

  /** Features::strictMode(). */
  const StrictLegacyFlags := LegacyFlags(false, true, false, false)

  /** The legacy Reader as a preset of the one parser. */
  function LegacyFeatures(flags: LegacyFlags): (f: Features)
    ensures f.legacy && !f.allowTrailingCommas && !f.allowSingleQuotes && !f.failIfExtra
    ensures !f.rejectDupKeys && !f.allowSpecialFloats && !f.skipBom && f.stackLimit == LegacyStackLimit
  {
    Features(flags.allowComments, false, flags.strictRoot, flags.allowDroppedNullPlaceholders,
             flags.allowNumericKeys, false, false, false, false, false, LegacyStackLimit, true)
  }

  datatype TokenType =
    | ObjectBegin | ObjectEnd | ArrayBegin | ArrayEnd
    | StringTok | NumberTok | TrueTok | FalseTok | NullTok
    | NaNTok | PosInfTok | NegInfTok
    | ArraySeparator | MemberSeparator | CommentTok
    | EndOfStream | ErrorTok

  /** A token: its type and the offsets [start, end) it spans. */
  datatype Token = Token(kind: TokenType, start: nat, end: nat)

  const Nul: byte := 0 as char

  /** The byte at `k`, or NUL past the end. */
  function At(text: bytes, k: nat): byte {
    if k < |text| then text[k] else Nul
  }

  predicate IsSpace(c: byte) { c == ' ' || c == '\t' || c == '\r' || c == '\n' }

  /** skipSpaces. */
  function SkipSpaces(text: bytes, pos: nat): (r: nat)
    requires pos <= |text|
    ensures pos <= r <= |text|
    ensures forall k :: pos <= k < r ==> IsSpace(text[k])
    ensures r < |text| ==> !IsSpace(text[r])
    decreases |text| - pos
  {
    if pos < |text| && IsSpace(text[pos]) then SkipSpaces(text, pos + 1) else pos
  }

  const Bom: bytes := [0xEF as char, 0xBB as char, 0xBF as char]

  /** skipBom: the offset where the document starts. */
  function SkipBom(text: bytes, skip: bool): (begin: nat)
    ensures begin == 0 || begin == 3
    ensures begin == 3 <==> skip && |text| >= 3 && text[..3] == Bom
  {
    if skip && |text| >= 3 && text[..3] == Bom then 3 else 0
  }

  /** The first `n` bytes of the pattern agree with the text at `pos`,
      compared from the last byte down as the source's loop does. */
  function MatchDown(text: bytes, pos: nat, pattern: bytes, n: nat): (r: bool)
    requires n <= |pattern| && pos + |pattern| <= |text|
    ensures r <==> forall k :: 0 <= k < n ==> text[pos + k] == pattern[k]
  {
    if n == 0 then true
    else if text[pos + n - 1] != pattern[n - 1] then false
    else MatchDown(text, pos, pattern, n - 1)
  }

  /** match: the cursor after `pattern` when the text continues with it. */
  function Match(text: bytes, pos: nat, pattern: bytes): (r: Option<nat>)
    ensures r.Some? <==> pos + |pattern| <= |text| && text[pos..pos + |pattern|] == pattern
    ensures r.Some? ==> r.value == pos + |pattern|
  {
    if |text| < pos + |pattern| then None
    else if MatchDown(text, pos, pattern, |pattern|) then
      assert text[pos..pos + |pattern|] == pattern;
      Some(pos + |pattern|)
    else None
  }

  /** The first offset at or after `k` that does not hold a digit. */
  function SkipDigits(text: bytes, k: nat): (r: nat)
    requires k <= |text|
    ensures k <= r <= |text|
    ensures forall j :: k <= j < r ==> IsDigit(text[j])
    ensures !IsDigit(At(text, r))
    decreases |text| - k
  {
    if k < |text| && IsDigit(text[k]) then SkipDigits(text, k + 1) else k
  }

  /** readNumber (without the Infinity check), from just after the first
      byte of the token: digits, then optionally '.' and digits, then
      optionally 'e' or 'E', a sign, and digits. The cursor stops on the
      first byte that does not fit. */
  function NumberEnd(text: bytes, pos: nat): (e: nat)
    requires pos <= |text|
    ensures pos <= e <= |text|
  {
    var q1 := SkipDigits(text, pos);
    var q2 := if At(text, q1) == '.' then SkipDigits(text, q1 + 1) else q1;
    if At(text, q2) == 'e' || At(text, q2) == 'E' then
      var k := if At(text, q2 + 1) == '+' || At(text, q2 + 1) == '-' then q2 + 2 else q2 + 1;
      SkipDigits(text, k)
    else q2
  }

  predicate IsNumberByte(c: byte) {
    IsDigit(c) || c == '.' || c == 'e' || c == 'E' || c == '+' || c == '-'
  }

  /** The number scanner takes only digits, '.', exponent letters and signs,
      and it stops at the first byte after a run of digits that is not '.',
      'e' or 'E'. */
  lemma NumberEndSpec(text: bytes, pos: nat)
    requires pos <= |text|
    ensures forall k :: pos <= k < NumberEnd(text, pos) ==> IsNumberByte(text[k])
    ensures var q := SkipDigits(text, pos);
      At(text, q) != '.' && At(text, q) != 'e' && At(text, q) != 'E' ==> NumberEnd(text, pos) == q
  {
  }

  /** readString / readStringSingleQuote, from just after the opening
      quote: a backslash takes the next byte with it; the string ends after
      the first other `quote` byte. Running out of input fails with the
      cursor at the end. */
  function ReadString(text: bytes, pos: nat, quote: byte): (r: (bool, nat))
    requires pos <= |text|
    ensures pos <= r.1 <= |text|
    ensures r.0 ==> pos < r.1 && text[r.1 - 1] == quote
    ensures !r.0 ==> r.1 == |text|
    decreases |text| - pos
  {
    if pos == |text| then (false, pos)
    else if text[pos] == '\\' then
      if pos + 1 == |text| then (false, pos + 1) else ReadString(text, pos + 2, quote)
    else if text[pos] == quote then (true, pos + 1)
    else ReadString(text, pos + 1, quote)
  }

  /** readCStyleComment's loop: the cursor stops on the '/' of the first
      star-slash at or after `cur`, or at the last byte; it also reports whether a
      '\n' was passed (only '\n': a '\r' is not counted). */
  function CStyleLoop(text: bytes, cur: nat, newline: bool): (r: (nat, bool, bool))
    requires cur <= |text|
    ensures cur <= r.0 <= |text|
    ensures r.2 ==> r.0 >= 1 && r.0 < |text| && text[r.0 - 1] == '*' && text[r.0] == '/'
    ensures !r.2 ==> r.0 + 1 >= |text|
    decreases |text| - cur
  {
    if cur + 1 < |text| then
      var c := text[cur];
      if c == '*' && text[cur + 1] == '/' then (cur + 1, newline, true)
      else CStyleLoop(text, cur + 1, newline || c == '\n')
    else (cur, newline, false)
  }

  /** The outcome of a comment reader: success, where the cursor ends, and
      whether a C-style comment had an embedded '\n'. */
  datatype CommentScan = CommentScan(ok: bool, end: nat, embeddedNewline: bool)

  // readCStyleComment as written, from just after the opening slash-star:
  // after the loop the comment is accepted when the next byte is '/', which
  // is also the case for a comment that never closes but whose document
  // ends in '/'.
  function ReadCStyleCommentAsWritten(text: bytes, pos: nat): (r: CommentScan)
    requires pos <= |text|
    ensures r.end <= |text|
    ensures r.ok ==> pos < r.end && text[r.end - 1] == '/'
  {
    var (cur, nl, _) := CStyleLoop(text, pos, false);
    if cur == |text| then CommentScan(false, cur, nl)
    else CommentScan(text[cur] == '/', cur + 1, nl)
  }

  // readCStyleComment as its documentation describes it: accepted only when
  // the comment closes with star-slash.
  function ReadCStyleComment(text: bytes, pos: nat): (r: CommentScan)
    requires pos <= |text|
    ensures r.end <= |text|
    ensures r.ok ==> pos + 2 <= r.end && text[r.end - 2] == '*' && text[r.end - 1] == '/'
  {
    var (cur, nl, found) := CStyleLoop(text, pos, false);
    if cur == |text| then CommentScan(false, cur, nl)
    else CommentScan(found, cur + 1, nl)
  }

  // The first star-slash at or after `pos` starts at `k`.
  predicate FirstCloseAt(text: bytes, pos: nat, k: nat) {
    pos <= k && k + 1 < |text| && text[k] == '*' && text[k + 1] == '/'
    && forall j :: pos <= j < k ==> !(text[j] == '*' && text[j + 1] == '/')
  }

  lemma {:induction false} CStyleLoopFinds(text: bytes, cur: nat, newline: bool)
    requires cur <= |text|
    ensures var r := CStyleLoop(text, cur, newline);
      r.2 <==> exists k :: FirstCloseAt(text, cur, k)
    ensures var r := CStyleLoop(text, cur, newline);
      r.2 ==> FirstCloseAt(text, cur, r.0 - 1)
    decreases |text| - cur
  {
    if cur + 1 < |text| {
      if !(text[cur] == '*' && text[cur + 1] == '/') {
        var nl := newline || text[cur] == '\n';
        CStyleLoopFinds(text, cur + 1, nl);
        forall k: nat | FirstCloseAt(text, cur, k)
          ensures FirstCloseAt(text, cur + 1, k)
        {
        }
        var r := CStyleLoop(text, cur + 1, nl);
        if r.2 {
          assert FirstCloseAt(text, cur, r.0 - 1);
        }
      } else {
        assert FirstCloseAt(text, cur, cur);
      }
    }
  }

  // The corrected C-style comment reader accepts exactly when a star-slash
  // follows, and it ends right after the first one.
  lemma CStyleCommentSpec(text: bytes, pos: nat)
    requires pos <= |text|
    ensures ReadCStyleComment(text, pos).ok <==> exists k :: FirstCloseAt(text, pos, k)
    ensures ReadCStyleComment(text, pos).ok ==> FirstCloseAt(text, pos, ReadCStyleComment(text, pos).end - 2)
  {
    CStyleLoopFinds(text, pos, false);
  }

  /** The document that shows the defect of the comment scan as written:
      `{}` followed by an unterminated comment (slash, star, slash). The
      scan as written accepts it and ends at the end of the text; the
      corrected scan, used by the rest of the model, rejects it because no
      closing star-slash follows. */
  lemma UnterminatedCommentAccepted()
    ensures ReadCStyleCommentAsWritten("{}/*/", 4) == CommentScan(true, 5, false)
    ensures !ReadCStyleComment("{}/*/", 4).ok
    ensures !exists k :: FirstCloseAt("{}/*/", 4, k)
  {
    CStyleCommentSpec("{}/*/", 4);
  }

  /** The reader as written and the corrected one agree on every comment
      that does close: they differ only on an unterminated comment. */
  lemma CStyleCommentAgrees(text: bytes, pos: nat)
    requires pos <= |text|
    ensures (exists k :: FirstCloseAt(text, pos, k)) ==>
      ReadCStyleCommentAsWritten(text, pos) == ReadCStyleComment(text, pos)
  {
    CStyleLoopFinds(text, pos, false);
  }

  /** readCppStyleComment, from just after "//": up to and including the
      first line break (CRLF taken whole), or to the end of the document. */
  function ReadCppStyleComment(text: bytes, pos: nat): (e: nat)
    requires pos <= |text|
    ensures pos <= e <= |text|
    ensures e == |text| || (e > pos && IsLineBreakByte(text[e - 1]))
    decreases |text| - pos
  {
    if pos == |text| then pos
    else if text[pos] == '\n' then pos + 1
    else if text[pos] == '\r' then
      if pos + 1 < |text| && text[pos + 1] == '\n' then pos + 2 else pos + 1
    else ReadCppStyleComment(text, pos + 1)
  }

  /** A line comment holds no line break before its terminating one. */
  lemma {:induction false} CppCommentSpansOneLine(text: bytes, pos: nat)
    requires pos <= |text|
    ensures var e := ReadCppStyleComment(text, pos);
      forall k :: pos <= k < e - 1 ==> IsLineBreakByte(text[k]) ==> text[k] == '\r' && k + 2 == e
    decreases |text| - pos
  {
    if pos < |text| && !IsLineBreakByte(text[pos]) {
      CppCommentSpansOneLine(text, pos + 1);
    }
  }

  /** readComment, from just after the first '/'. */
  function ReadComment(text: bytes, pos: nat): (r: CommentScan)
    requires pos <= |text|
    ensures pos <= r.end <= |text|
    ensures r.ok ==> r.end > pos
  {
    if pos == |text| then CommentScan(false, pos, false)
    else if text[pos] == '*' then ReadCStyleComment(text, pos + 1)
    else if text[pos] == '/' then CommentScan(true, ReadCppStyleComment(text, pos + 1), false)
    else CommentScan(false, pos + 1, false)
  }

  function Lexed(kind: TokenType, ok: bool, start: nat, end: nat): Token {
    Token(if ok then kind else ErrorTok, start, end)
  }

  /** A literal word starting at `s` whose remaining bytes `rest` are
      expected at `at`; on a mismatch the cursor stays at `at`. */
  function Word(text: bytes, kind: TokenType, s: nat, at: nat, rest: bytes): (t: Token)
    requires s < at <= |text|
    ensures s < t.end <= |text|
  {
    var m := Match(text, at, rest);
    Lexed(kind, m.Some?, s, if m.Some? then m.value else at)
  }

  /** The '-' and '+' cases of OurReader::readToken: a number, or with "I"
      next an infinity that needs allowSpecialFloats and "nfinity". */
  function SignedToken(f: Features, text: bytes, s: nat, kind: TokenType): (t: Token)
    requires s < |text|
    ensures s < t.end <= |text|
  {
    var n := s + 1;
    if n < |text| && text[n] == 'I' then
      if f.allowSpecialFloats then Word(text, kind, s, n + 1, "nfinity")
      else Token(ErrorTok, s, n + 1)
    else Token(NumberTok, s, NumberEnd(text, n))
  }

  /** readToken. */
  function ReadToken(f: Features, text: bytes, pos: nat): (t: Token)
    requires pos <= |text|
    ensures t.start == SkipSpaces(text, pos)
    ensures pos <= t.start <= t.end <= |text|
    ensures t.kind != EndOfStream ==> t.end > t.start
    ensures t.kind == EndOfStream ==> At(text, t.start) == Nul
    ensures t.kind == StringTok ==> t.start + 2 <= t.end
  {
    var s := SkipSpaces(text, pos);
    if s == |text| then Token(EndOfStream, s, s)
    else
      var c := text[s];
      var n := s + 1;
      if c == '{' then Token(ObjectBegin, s, n)
      else if c == '}' then Token(ObjectEnd, s, n)
      else if c == '[' then Token(ArrayBegin, s, n)
      else if c == ']' then Token(ArrayEnd, s, n)
      else if c == '"' then
        var (ok, e) := ReadString(text, n, '"');
        Lexed(StringTok, ok, s, e)
      else if c == '\'' && f.allowSingleQuotes then
        var (ok, e) := ReadString(text, n, '\'');
        Lexed(StringTok, ok, s, e)
      else if c == '/' then
        var r := ReadComment(text, n);
        Lexed(CommentTok, r.ok, s, r.end)
      else if IsDigit(c) then Token(NumberTok, s, NumberEnd(text, n))
      else if c == '-' && f.legacy then Token(NumberTok, s, NumberEnd(text, n))
      else if c == '-' then SignedToken(f, text, s, NegInfTok)
      else if c == '+' && !f.legacy then SignedToken(f, text, s, PosInfTok)
      else if c == 't' then Word(text, TrueTok, s, n, "rue")
      else if c == 'f' then Word(text, FalseTok, s, n, "alse")
      else if c == 'n' then Word(text, NullTok, s, n, "ull")
      else if c == 'N' && f.allowSpecialFloats then Word(text, NaNTok, s, n, "aN")
      else if c == 'I' && f.allowSpecialFloats then Word(text, PosInfTok, s, n, "nfinity")
      else if c == ',' then Token(ArraySeparator, s, n)
      else if c == ':' then Token(MemberSeparator, s, n)
      else if c == Nul then Token(EndOfStream, s, n)
      else Token(ErrorTok, s, n)
  }

  /** readTokenSkippingComments: with allowComments, comment tokens are
      passed over until another token or a failed one. */
  function ReadTokenSkippingComments(f: Features, text: bytes, pos: nat): (t: Token)
    requires pos <= |text|
    ensures pos <= t.start <= t.end <= |text|
    ensures t.kind != EndOfStream ==> t.end > t.start
    ensures f.allowComments ==> t.kind != CommentTok
    ensures t.kind == StringTok ==> t.start + 2 <= t.end
    decreases |text| - pos
  {
    var t := ReadToken(f, text, pos);
    if f.allowComments && t.kind == CommentTok then ReadTokenSkippingComments(f, text, t.end)
    else t
  }

  /** Only the end of the input, or a NUL byte in it, reads as the end of
      the stream; every other token takes at least one byte. */
  lemma EndOfStreamOnlyAtEnd(f: Features, text: bytes, pos: nat)
    requires pos <= |text|
    ensures var t := ReadToken(f, text, pos);
      t.kind == EndOfStream <==> (t.start == |text| || text[t.start] == Nul)
  {
  }

  /** The comment placement readComment chooses when comments are
      collected: after the last value on the same line, or before the next
      value. */
  datatype Placement = Before | AfterOnSameLine

  /** OurReader::readComment's placement: the same line as the last value
      (when no newline lies between them, and a C-style comment has no
      embedded '\n'), at most one such comment per value. The second
      component is the new lastValueHasAComment_. */
  function OurPlacement(text: bytes, lastValueEnd: Option<nat>, lastValueHasAComment: bool,
                        commentBegin: nat, isCStyle: bool, embeddedNewline: bool): (r: (Placement, bool))
    requires lastValueEnd.Some? ==> lastValueEnd.value <= commentBegin <= |text|
    ensures r.0 == AfterOnSameLine <==>
      !lastValueHasAComment && lastValueEnd.Some?
      && !ContainsNewLine(text[lastValueEnd.value..commentBegin]) && (!isCStyle || !embeddedNewline)
    ensures r.1 == (lastValueHasAComment || r.0 == AfterOnSameLine)
  {
    if !lastValueHasAComment && lastValueEnd.Some?
       && !ContainsNewLine(text[lastValueEnd.value..commentBegin]) && (!isCStyle || !embeddedNewline)
    then (AfterOnSameLine, true)
    else (Before, lastValueHasAComment)
  }

  /** The legacy Reader's placement: no one-per-value limit, and the
      embedded-newline test covers the whole C-style comment, '\r' included. */
  function LegacyPlacement(text: bytes, lastValueEnd: Option<nat>, commentBegin: nat, commentEnd: nat, isCStyle: bool): (p: Placement)
    requires commentBegin <= commentEnd <= |text|
    requires lastValueEnd.Some? ==> lastValueEnd.value <= commentBegin
    ensures p == AfterOnSameLine <==>
      lastValueEnd.Some? && !ContainsNewLine(text[lastValueEnd.value..commentBegin])
      && (!isCStyle || !ContainsNewLine(text[commentBegin..commentEnd]))
  {
    if lastValueEnd.Some? && !ContainsNewLine(text[lastValueEnd.value..commentBegin])
       && (!isCStyle || !ContainsNewLine(text[commentBegin..commentEnd]))
    then AfterOnSameLine
    else Before
  }

  /** Once a value has its same-line comment, every later comment before
      the next value goes before that value. */
  lemma OneSameLineCommentPerValue(text: bytes, lastValueEnd: Option<nat>, commentBegin: nat,
                                   isCStyle: bool, embeddedNewline: bool)
    requires lastValueEnd.Some? ==> lastValueEnd.value <= commentBegin <= |text|
    ensures OurPlacement(text, lastValueEnd, true, commentBegin, isCStyle, embeddedNewline) == (Before, true)
  {
  }
}
