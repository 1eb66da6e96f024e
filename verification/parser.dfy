/** The recursive-descent parser of src/lib_json/json_reader.cpp
    (OurReader::parse, readValue, readObject, readArray, recoverFromError,
    addErrorAndRecover, getStructuredErrors) over the lexer of module
    Scanner. The value under construction (the top of `nodes_`) is passed in
    and handed back; the `nodes_` stack depth is the `depth` argument.
    Comments are not collected (see README). */
module Parser {
  import opened Wrappers
  import opened Bytes
  import opened Values
  import opened ValueMembers
  import opened ValueConvert
  import opened ReaderText
  import opened NumberReader
  import opened Scanner

  /** What the reader delegates to code outside this model: the stream
      that reads a double, and valueToString(double) (used by asString on a
      numeric key that is a real). */
  datatype Oracles = Oracles(parse: DoubleParser, realText: Double -> bytes)

  /** ErrorInfo: the token at fault, the message and an optional second
      location (an offset into the document). */
  datatype ErrorInfo = ErrorInfo(token: Token, message: string, extra: Option<nat>)

  /** The state a read hands back: the value it built into the current
      node, its success flag, the cursor, and the error list. A runtime
      exception unwinds the whole parse. */
  datatype Outcome =
    | Parsed(val: Value, ok: bool, pos: nat, errors: seq<ErrorInfo>)
    | Thrown(message: string)

  const StackLimitExceeded: string := "Exceeded stackLimit in readValue()."
  const SyntaxError: string := "Syntax error: value, object or array expected."
  const MissingColon: string := "Missing ':' after object member name"
  const MissingCommaOrBrace: string := "Missing ',' or '}' in object declaration"
  const MissingBraceOrName: string := "Missing '}' or object member name"
  const MissingCommaOrBracket: string := "Missing ',' or ']' in array declaration"
  const KeyTooLong: string := "keylength >= 2^30"
  const ExtraNonWhitespace: string := "Extra non-whitespace after JSON value."
  const RootNotContainer: string := "A valid JSON document must be either an array or an object value."

  function DuplicateKey(name: bytes): string {
    "Duplicate key: '" + name + "'"
  }

  /** OurReader rejects member names of 2^30 bytes or more. */
  const KeyLengthLimit: nat := 0x4000_0000

  /** The error list grows only at its end. */
  predicate Extends(before: seq<ErrorInfo>, after: seq<ErrorInfo>) {
    |before| <= |after| && after[..|before|] == before
  }

  /** The errors from position `from` of the list point into the
      document at or after `pos`. */
  predicate PointInto(errors: seq<ErrorInfo>, from: nat, pos: nat, text: bytes) {
    forall i :: from <= i < |errors| ==>
      pos <= errors[i].token.start <= errors[i].token.end <= |text|
      && (errors[i].extra.Some? ==> pos <= errors[i].extra.value <= |text|)
  }

  /** What every read from `pos` guarantees: the cursor moves forward, the
      node stays a well-formed value, errors are only appended, each new
      error points at or after `pos`, and the success flag is set exactly
      when no error was recorded. */
  predicate Consistent(o: Outcome, pos: nat, text: bytes, errors: seq<ErrorInfo>) {
    o.Parsed? ==>
      && pos <= o.pos <= |text| && Valid(o.val)
      && Extends(errors, o.errors) && PointInto(o.errors, |errors|, pos, text)
      && (o.ok <==> o.errors == errors)
  }

  /** The text of a token. */
  function TokenText(text: bytes, t: Token): (r: bytes)
    requires t.start <= t.end <= |text|
    ensures |r| == t.end - t.start
  {
    text[t.start..t.end]
  }

  /** decodeString(token, decoded) on a string token. */
  function StringToken(text: bytes, t: Token): (r: Result<bytes>)
    requires t.start + 2 <= t.end <= |text|
  {
    DecodeString(text, t.start, t.end)
  }

  /** The error decodeString records, with its location as `extra`. */
  function StringTokenError(text: bytes, t: Token): (e: ErrorInfo)
    requires t.start + 2 <= t.end <= |text| && StringToken(text, t).Fail?
    ensures e.token == t && e.message == StringToken(text, t).message
    ensures e.extra.Some? && t.start < e.extra.value < t.end
  {
    var r := DecodeString(text, t.start, t.end);
    assert r == StringToken(text, t) && r.Fail?;
    var d := DecodeChars(text[t.start + 1..t.end - 1]);
    assert d.DecodeError? && r.message == d.message;
    ErrorInfo(t, d.message, Some(DecodeStringErrorAt(text, t.start, t.end)))
  }

  /** decodeNumber(token, decoded) on a number token. */
  function NumberToken(f: Features, o: Oracles, text: bytes, t: Token): (r: Result<Data>)
    requires t.start < t.end <= |text|
    ensures r.Ok? ==> r.value.Int? || r.value.UInt? || r.value.Real?
  {
    DecodeNumber(TokenText(text, t), o.parse, f.legacy)
  }

  /** recoverFromError: read tokens up to and including the first of type
      `target` or the end of the stream; the cursor after it. Tokens read
      here record no error, so the error list is not an argument. */
  function Recover(f: Features, text: bytes, pos: nat, target: TokenType): (e: nat)
    requires pos <= |text|
    ensures pos <= e <= |text|
    decreases |text| - pos
  {
    var t := ReadToken(f, text, pos);
    if t.kind == target || t.kind == EndOfStream then t.end
    else Recover(f, text, t.end, target)
  }

  /** addErrorAndRecover: one error on token `t`, then recovery from just
      after it; the read fails. */
  function AddErrorAndRecover(f: Features, text: bytes, v: Value, message: string, t: Token,
                              target: TokenType, errors: seq<ErrorInfo>): (r: Outcome)
    requires t.end <= |text|
    ensures r.Parsed? && r.val == v && !r.ok && t.end <= r.pos <= |text|
    ensures r.errors == errors + [ErrorInfo(t, message, None)]
  {
    Parsed(v, false, Recover(f, text, t.end, target), errors + [ErrorInfo(t, message, None)])
  }

  /** The payload swap of readValue for a scalar: the node keeps its
      comments. */
  function Put(v: Value, d: Data): (r: Value)
    requires !d.Array? && !d.Object?
    ensures Valid(r) && r.data == d && r.comments == v.comments
  {
    v.(data := d)
  }

  /** The payload a container read built, swapped into the node `target`,
      which keeps its comments. */
  function Adopt(target: Value, r: Outcome): (a: Outcome)
    requires r.Parsed? ==> Valid(r.val)
    ensures a.Parsed? <==> r.Parsed?
    ensures a.Parsed? ==> a == r.(val := target.(data := r.val.data)) && Valid(a.val)
    ensures a.Thrown? ==> a == r
  {
    if r.Parsed? then r.(val := target.(data := r.val.data)) else r
  }

  /** readValue on the node `target` at nesting depth `depth` (the root is
      at depth 1). */
  function ReadValue(f: Features, o: Oracles, text: bytes, pos: nat, depth: nat,
                     target: Value, errors: seq<ErrorInfo>): (r: Outcome)
    requires pos <= |text| && Valid(target)
    ensures Consistent(r, pos, text, errors)
    ensures r.Parsed? ==> r.val.comments == target.comments
    decreases |text| - pos, 1
  {
    if depth > f.stackLimit then Thrown(StackLimitExceeded)
    else
      var t := ReadTokenSkippingComments(f, text, pos);
      match t.kind
      case ObjectBegin =>
        Adopt(target, ReadObject(f, o, text, t.end, depth, Of(Object([])), true, errors))
      case ArrayBegin =>
        Adopt(target, ReadArray(f, o, text, t.end, depth, Of(Array([])), 0, errors))
      case NumberTok =>
        (match NumberToken(f, o, text, t)
         case Ok(d) => Parsed(Put(target, d), true, t.end, errors)
         case Fail(m) => Parsed(target, false, t.end, errors + [ErrorInfo(t, m, None)]))
      case StringTok =>
        (match StringToken(text, t)
         case Ok(s) => Parsed(Put(target, Str(s)), true, t.end, errors)
         case Fail(_) => Parsed(target, false, t.end, errors + [StringTokenError(text, t)]))
      case TrueTok => Parsed(Put(target, Bool(true)), true, t.end, errors)
      case FalseTok => Parsed(Put(target, Bool(false)), true, t.end, errors)
      case NullTok => Parsed(Put(target, Null), true, t.end, errors)
      case NaNTok => Parsed(Put(target, Real(NaN)), true, t.end, errors)
      case PosInfTok => Parsed(Put(target, Real(PosInf)), true, t.end, errors)
      case NegInfTok => Parsed(Put(target, Real(NegInf)), true, t.end, errors)
      case ArraySeparator | ObjectEnd | ArrayEnd =>
        if f.allowDroppedNullPlaceholders then
          // the cursor steps back onto the one-byte token
          Parsed(Put(target, Null), true, t.start, errors)
        else
          Parsed(target, false, t.end, errors + [ErrorInfo(t, SyntaxError, None)])
      case _ => Parsed(target, false, t.end, errors + [ErrorInfo(t, SyntaxError, None)])
  }

  /** readObject's loop on the object `obj`, at the top of an iteration:
      `first` holds before the first member. A '}' ends the object where a
      member name is expected only before the first member or with
      allowTrailingCommas. */
  function ReadObject(f: Features, o: Oracles, text: bytes, pos: nat, depth: nat,
                      obj: Value, first: bool, errors: seq<ErrorInfo>): (r: Outcome)
    requires pos <= |text| && Valid(obj) && obj.data.Object?
    ensures Consistent(r, pos, text, errors)
    ensures r.Parsed? ==> r.val.data.Object? && r.val.comments == obj.comments
    decreases |text| - pos, 0
  {
    var t := ReadTokenSkippingComments(f, text, pos);
    if t.kind == ObjectEnd && ObjectMayEnd(first, f.allowTrailingCommas) then
      Parsed(obj, true, t.end, errors)
    else if t.kind == StringTok then
      match StringToken(text, t)
      case Ok(name) => ReadMember(f, o, text, t, name, depth, obj, errors)
      case Fail(_) => Parsed(obj, false, Recover(f, text, t.end, ObjectEnd), errors + [StringTokenError(text, t)])
    else if t.kind == NumberTok && f.allowNumericKeys then
      match NumberToken(f, o, text, t)
      case Ok(d) => ReadMember(f, o, text, t, AsString(Of(d), o.realText).value, depth, obj, errors)
      case Fail(m) => Parsed(obj, false, Recover(f, text, t.end, ObjectEnd), errors + [ErrorInfo(t, m, None)])
    else
      AddErrorAndRecover(f, text, obj, MissingBraceOrName, t, ObjectEnd, errors)
  }

  /** The rest of a readObject iteration once the member name `name` (of
      token `t`) is decoded: the length and duplicate checks, the ':', the
      member's value (read into the existing member when the name repeats),
      then ',' or '}'. */
  function ReadMember(f: Features, o: Oracles, text: bytes, t: Token, name: bytes, depth: nat,
                      obj: Value, errors: seq<ErrorInfo>): (r: Outcome)
    requires t.start < t.end <= |text| && Valid(obj) && obj.data.Object?
    ensures Consistent(r, t.start, text, errors)
    ensures r.Parsed? ==> r.val.data.Object? && r.val.comments == obj.comments
    decreases |text| - t.end, 1
  {
    if |name| >= KeyLengthLimit && !f.legacy then Thrown(KeyTooLong)
    else if f.rejectDupKeys && Member(obj, name).Some? then
      AddErrorAndRecover(f, text, obj, DuplicateKey(name), t, ObjectEnd, errors)
    else
      MemberValue(f, o, text, t.end, name, depth, obj, errors)
  }

  /** The ':' after the member name `name` (whose token ends at `pos`) and
      the member's value, read into the existing member when the name
      repeats; then ',' or '}'. */
  function MemberValue(f: Features, o: Oracles, text: bytes, pos: nat, name: bytes, depth: nat,
                       obj: Value, errors: seq<ErrorInfo>): (r: Outcome)
    requires pos <= |text| && Valid(obj) && obj.data.Object?
    ensures Consistent(r, pos, text, errors)
    ensures r.Parsed? ==> r.val.data.Object? && r.val.comments == obj.comments
    decreases |text| - pos, 0
  {
    var colon := ReadToken(f, text, pos);
    if colon.kind != MemberSeparator then
      AddErrorAndRecover(f, text, obj, MissingColon, colon, ObjectEnd, errors)
    else
      match ReadValue(f, o, text, colon.end, depth + 1, OrNull(Member(obj, name)), errors)
      case Thrown(m) => Thrown(m)
      case Parsed(v, ok, p, errs) =>
        var next := SetMember(obj, name, v).value;
        if !ok then Parsed(next, false, Recover(f, text, p, ObjectEnd), errs)
        else AfterMember(f, o, text, p, depth, next, errs)
  }

  /** The rest of a readObject iteration once the member's value has been
      read without error and stored in `next`, with the cursor at `pos`:
      '}' or ',' and the next iteration. */
  function AfterMember(f: Features, o: Oracles, text: bytes, pos: nat, depth: nat,
                       next: Value, errors: seq<ErrorInfo>): (r: Outcome)
    requires pos <= |text| && Valid(next) && next.data.Object?
    ensures Consistent(r, pos, text, errors)
    ensures r.Parsed? ==> r.val.data.Object? && r.val.comments == next.comments
    decreases |text| - pos, 0
  {
    var comma := ReadTokenSkippingComments(f, text, pos);
    if comma.kind == ObjectEnd then Parsed(next, true, comma.end, errors)
    else if comma.kind == ArraySeparator then ReadObject(f, o, text, comma.end, depth, next, false, errors)
    else AddErrorAndRecover(f, text, next, MissingCommaOrBrace, comma, ObjectEnd, errors)
  }

  /** readArray's loop on the array `arr`, whose next element is `index`:
      a ']' ends the array before the first element, or after a ',' with
      allowTrailingCommas unless null placeholders may be dropped. */
  function ReadArray(f: Features, o: Oracles, text: bytes, pos: nat, depth: nat,
                     arr: Value, index: nat, errors: seq<ErrorInfo>): (r: Outcome)
    requires pos <= |text| && Valid(arr) && arr.data.Array?
    ensures Consistent(r, pos, text, errors)
    ensures r.Parsed? ==> r.val.data.Array? && r.val.comments == arr.comments
    decreases |text| - pos, 2
  {
    var s := SkipSpaces(text, pos);
    if s < |text| && text[s] == ']' && (index == 0 || (f.allowTrailingCommas && !f.allowDroppedNullPlaceholders)) then
      Parsed(arr, true, s + 1, errors)
    else
      match ReadValue(f, o, text, s, depth + 1, NullValueV, errors)
      case Thrown(m) => Thrown(m)
      case Parsed(v, ok, p, errs) =>
        var next := SetIndex(arr, index, v).value;
        if !ok then Parsed(next, false, Recover(f, text, p, ArrayEnd), errs)
        else AfterElement(f, o, text, p, depth, next, index, errs)
  }

  /** The rest of a readArray iteration once element `index` has been read
      without error and stored in `next`, with the cursor at `pos`: ']' or
      ',' and the next iteration. */
  function AfterElement(f: Features, o: Oracles, text: bytes, pos: nat, depth: nat,
                        next: Value, index: nat, errors: seq<ErrorInfo>): (r: Outcome)
    requires pos <= |text| && Valid(next) && next.data.Array?
    ensures Consistent(r, pos, text, errors)
    ensures r.Parsed? ==> r.val.data.Array? && r.val.comments == next.comments
    decreases |text| - pos, 0
  {
    var sep := ReadTokenSkippingComments(f, text, pos);
    if sep.kind == ArrayEnd then Parsed(next, true, sep.end, errors)
    else if sep.kind == ArraySeparator then ReadArray(f, o, text, sep.end, depth, next, index + 1, errors)
    else AddErrorAndRecover(f, text, next, MissingCommaOrBracket, sep, ArrayEnd, errors)
  }

  /** Where a member name is expected, '}' closes the object before the
      first member, or after a ',' with allowTrailingCommas. */
  predicate ObjectMayEnd(first: bool, allowTrailingCommas: bool) {
    first || allowTrailingCommas
  }

  /** readObject's test as written: `name` still holds the previous
      member's name (empty before the first member), so a member named ""
      lets the next '}' close the object even without allowTrailingCommas. */
  predicate ObjectMayEndAsWritten(previousName: bytes, allowTrailingCommas: bool) {
    |previousName| == 0 || allowTrailingCommas
  }

  /** The outcome of parse: the success flag, the root, the recorded
      errors and the offset where the document starts (3 after a skipped
      byte order mark); or the message of a runtime exception. */
  datatype ParseResult =
    | Finished(ok: bool, root: Value, errors: seq<ErrorInfo>, begin: nat)
    | Aborted(message: string)

  /** The root read of parse: readValue at depth 1 from the document start. */
  function RootRead(f: Features, o: Oracles, text: bytes, root: Value): (r: Outcome)
    requires Valid(root)
    ensures Consistent(r, SkipBom(text, f.skipBom), text, [])
  {
    ReadValue(f, o, text, SkipBom(text, f.skipBom), 1, root, [])
  }

  /** The token the strictRoot error is reported on: the whole document,
      from where it starts after a skipped byte order mark. */
  function RootErrorToken(text: bytes, begin: nat): (t: Token)
    requires begin <= |text|
    ensures begin <= t.start <= t.end <= |text|
  {
    Token(ErrorTok, begin, |text|)
  }

  /** The strictRoot error token as written: it starts at the beginning of
      the buffer, before a skipped byte order mark, while error offsets are
      measured from the document start. */
  function RootErrorTokenAsWritten(text: bytes): (t: Token)
    ensures t.start <= t.end == |text|
  {
    Token(ErrorTok, 0, |text|)
  }

  /** An error pointing inside the document can be appended to errors that do. */
  lemma AppendPointed(errors: seq<ErrorInfo>, e: ErrorInfo, pos: nat, text: bytes)
    requires PointInto(errors, 0, pos, text)
    requires pos <= e.token.start <= e.token.end <= |text| && e.extra.None?
    ensures PointInto(errors + [e], 0, pos, text)
  {
    assert forall i :: 0 <= i < |errors| ==> (errors + [e])[i] == errors[i];
  }

  /** OurReader::parse (and, with the legacy preset, Reader::parse) with
      comment collection off. */
  function Parse(f: Features, o: Oracles, text: bytes, root: Value): (r: ParseResult)
    requires Valid(root)
    ensures r.Finished? ==> Valid(r.root) && r.root.comments == root.comments
    ensures r.Finished? ==> r.begin == SkipBom(text, f.skipBom)
    ensures r.Finished? ==> (r.ok <==> r.errors == [])
    ensures r.Finished? ==> PointInto(r.errors, 0, r.begin, text)
    ensures r.Finished? && r.ok && f.strictRoot ==> IsContainer(r.root)
    ensures r.Aborted? <==> RootRead(f, o, text, root).Thrown?
  {
    var begin := SkipBom(text, f.skipBom);
    match RootRead(f, o, text, root)
    case Thrown(m) => Aborted(m)
    case Parsed(v, ok, p, errs) =>
      var t := ReadTokenSkippingComments(f, text, p);
      if f.failIfExtra && t.kind != EndOfStream then
        var e := ErrorInfo(t, ExtraNonWhitespace, None);
        AppendPointed(errs, e, begin, text);
        Finished(false, v, errs + [e], begin)
      else if f.strictRoot && !IsContainer(v) then
        var e := ErrorInfo(RootErrorToken(text, begin), RootNotContainer, None);
        AppendPointed(errs, e, begin, text);
        Finished(false, v, errs + [e], begin)
      else
        Finished(ok, v, errs, begin)
  }

  /** With failIfExtra, anything but the end of the document after the root
      value fails the parse with exactly one more error, on that token. */
  lemma ExtraTextRejected(f: Features, o: Oracles, text: bytes, root: Value)
    requires Valid(root) && f.failIfExtra
    requires RootRead(f, o, text, root).Parsed?
    requires ReadTokenSkippingComments(f, text, RootRead(f, o, text, root).pos).kind != EndOfStream
    ensures var read := RootRead(f, o, text, root);
      var t := ReadTokenSkippingComments(f, text, read.pos);
      Parse(f, o, text, root) == Finished(false, read.val, read.errors + [ErrorInfo(t, ExtraNonWhitespace, None)], SkipBom(text, f.skipBom))
  {
  }

  /** With strictRoot, a root that is neither an array nor an object fails
      the parse with exactly one more error, even when the value itself was
      read without error. */
  lemma ScalarRootRejected(f: Features, o: Oracles, text: bytes, root: Value)
    requires Valid(root) && f.strictRoot
    requires RootRead(f, o, text, root).Parsed? && !IsContainer(RootRead(f, o, text, root).val)
    requires !f.failIfExtra || ReadTokenSkippingComments(f, text, RootRead(f, o, text, root).pos).kind == EndOfStream
    ensures var read := RootRead(f, o, text, root);
      var begin := SkipBom(text, f.skipBom);
      && Parse(f, o, text, root).Finished? && !Parse(f, o, text, root).ok
      && Parse(f, o, text, root).errors == read.errors + [ErrorInfo(RootErrorToken(text, begin), RootNotContainer, None)]
  {
  }

  /** CharReader::StructuredError: token offsets relative to the document
      start, and the message. */
  datatype StructuredError = StructuredError(offsetStart: int, offsetLimit: int, message: string)

  function Structured(e: ErrorInfo, begin: nat): StructuredError {
    StructuredError(e.token.start - begin, e.token.end - begin, e.message)
  }

  /** getStructuredErrors: one entry per error, in order, with the token
      located relative to the document start `begin`; when every error
      points into the document, every offset lies inside it. */
  function StructuredErrors(text: bytes, r: ParseResult): (s: seq<StructuredError>)
    requires r.Finished?
    ensures |s| == |r.errors|
    ensures forall i :: 0 <= i < |s| ==> s[i].message == r.errors[i].message
    ensures forall i :: 0 <= i < |s| ==>
      r.begin + s[i].offsetStart == r.errors[i].token.start && r.begin + s[i].offsetLimit == r.errors[i].token.end
    ensures PointInto(r.errors, 0, r.begin, text) ==>
      forall i :: 0 <= i < |s| ==> 0 <= s[i].offsetStart <= s[i].offsetLimit <= |text| - r.begin
  {
    seq(|r.errors|, i requires 0 <= i < |r.errors| => Structured(r.errors[i], r.begin))
  }

  /** The structured errors of a parse lie inside the document. */
  lemma ParseErrorsInsideDocument(f: Features, o: Oracles, text: bytes, root: Value)
    requires Valid(root) && Parse(f, o, text, root).Finished?
    ensures var r := Parse(f, o, text, root);
      var s := StructuredErrors(text, r);
      forall i :: 0 <= i < |s| ==> 0 <= s[i].offsetStart <= s[i].offsetLimit <= |text| - r.begin
  {
  }

  /** As written, the strictRoot error of a document that starts with a
      byte order mark (skipped) is reported at offset -3, before the
      document; the corrected token is reported at offset 0. */
  lemma RootErrorBeforeDocument(text: bytes)
    requires |text| >= 3 && text[..3] == Bom
    ensures var begin := SkipBom(text, true);
      && begin == 3
      && Structured(ErrorInfo(RootErrorTokenAsWritten(text), RootNotContainer, None), begin).offsetStart == -3
      && Structured(ErrorInfo(RootErrorToken(text, begin), RootNotContainer, None), begin).offsetStart == 0
  {
  }
}
