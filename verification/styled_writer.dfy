/** The array layout of BuiltStyledStreamWriter (src/lib_json/json_writer.cpp).
    isMultilineArray decides whether a non-empty array is written one
    element per line. When it is not, it has collected the text of every
    element, and writeArrayValue puts those texts on one line. */
module StyledWriter {
  import opened Wrappers
  import opened Bytes
  import opened ObjectValues
  import opened Values
  import opened ValueMembers
  import opened StringWriter
  import opened FastWriter

  /** CommentStyle::Enum. */
  datatype CommentStyle = CommentsNone | CommentsAll

  /** PrecisionType. */
  datatype PrecisionType = SignificantDigits | DecimalPlaces

  /** The constructor arguments of BuiltStyledStreamWriter. */
  datatype WriterConfig = WriterConfig(
    indentation: bytes, commentStyle: CommentStyle, colonSymbol: bytes, nullSymbol: bytes,
    endingLineFeedSymbol: bytes, useSpecialFloats: bool, emitUtf8: bool, precision: nat,
    precisionType: PrecisionType)

  /** rightMargin_. */
  const RightMargin: nat := 74

  /** ArrayIndex (unsigned int) arithmetic wraps modulo 2^32. */
  const ArrayIndexModulus: nat := 0x1_0000_0000

  /** `(isArray() || isObject()) && !empty()`. */
  predicate NonEmptyContainer(x: Value)
    requires Valid(x)
  {
    (x.data.Array? || x.data.Object?) && !Empty(x)
  }

  /** hasCommentForValue: some of the three slots holds a comment. */
  predicate HasCommentForValue(x: Value) {
    HasComment(x.comments, CommentBefore) || HasComment(x.comments, CommentAfterOnSameLine)
    || HasComment(x.comments, CommentAfter)
  }

  /** What writeValue pushes for an element that is a scalar or an empty
      array or object. The text of a double comes from `realText`, standing
      for valueToString(double) at the writer's precision settings, which is
      not part of this model. */
  function ChildText(c: WriterConfig, x: Value, realText: Double -> bytes): (r: bytes)
    requires Valid(x) && !NonEmptyContainer(x)
    ensures x.data.Str? ==> |r| >= 2 && r[0] == '"' && r[|r| - 1] == '"'
    ensures x.data.Array? || x.data.Object? ==> |r| == 2
  {
    match x.data
    case Null => c.nullSymbol
    case Int(i) => IntText(i)
    case UInt(u) => UIntText(u)
    case Real(d) => realText(d)
    case Str(s) => ValueToQuotedStringN(s, c.emitUtf8)
    case Bool(b) => BoolText(b)
    case Array(_) => "[]"
    case Object(_) => "{}"
  }

  /** The first loop of isMultilineArray from `index` on: some element is a
      non-empty array or object. */
  function AnyNonEmptyContainer(v: Value, index: nat): (r: bool)
    requires Valid(v) && v.data.Array? && index <= Size(v)
    ensures r <==> exists i :: index <= i < Size(v) && NonEmptyContainer(Child(v, i))
    decreases Size(v) - index
  {
    if index == Size(v) then false
    else NonEmptyContainer(Child(v, index)) || AnyNonEmptyContainer(v, index + 1)
  }

  /** The comment test of the second loop from `index` on. */
  function AnyComment(v: Value, index: nat): (r: bool)
    requires Valid(v) && v.data.Array? && index <= Size(v)
    ensures r <==> exists i :: index <= i < Size(v) && HasCommentForValue(Child(v, i))
    decreases Size(v) - index
  {
    if index == Size(v) then false
    else HasCommentForValue(Child(v, index)) || AnyComment(v, index + 1)
  }

  /** childValues_: the texts the second loop collects from `index` on,
      one per element. */
  function ChildTexts(c: WriterConfig, v: Value, index: nat, realText: Double -> bytes): (texts: seq<bytes>)
    requires Valid(v) && v.data.Array? && index <= Size(v)
    requires forall i :: index <= i < Size(v) ==> !NonEmptyContainer(Child(v, i))
    ensures |texts| == Size(v) - index
  {
    seq(Size(v) - index, k requires 0 <= k < Size(v) - index => ChildText(c, Child(v, index + k), realText))
  }

  /** The total length of some texts. */
  function TotalLength(parts: seq<bytes>): nat
    decreases |parts|
  {
    if |parts| == 0 then 0 else |parts[0]| + TotalLength(parts[1..])
  }

  /** lineLength: the brackets and separators, two bytes per element
      boundary, plus the element texts. */
  function LineLength(c: WriterConfig, v: Value, realText: Double -> bytes): nat
    requires Valid(v) && v.data.Array? && Size(v) > 0 && !AnyNonEmptyContainer(v, 0)
  {
    4 + 2 * (Size(v) - 1) + TotalLength(ChildTexts(c, v, 0, realText))
  }

  /** isMultilineArray, with the arithmetic unbounded: an array of 25
      elements or more, one with a non-empty array or object or a commented
      element, or one whose single line would reach the right margin. */
  function IsMultilineArray(c: WriterConfig, v: Value, realText: Double -> bytes): (r: bool)
    requires Valid(v) && v.data.Array? && Size(v) > 0
    ensures r <==>
      || Size(v) * 3 >= RightMargin
      || (exists i :: 0 <= i < Size(v) && NonEmptyContainer(Child(v, i)))
      || (exists i :: 0 <= i < Size(v) && HasCommentForValue(Child(v, i)))
      || (!AnyNonEmptyContainer(v, 0) && LineLength(c, v, realText) >= RightMargin)
  {
    if Size(v) * 3 >= RightMargin then true
    else if AnyNonEmptyContainer(v, 0) then true
    else AnyComment(v, 0) || LineLength(c, v, realText) >= RightMargin
  }

  /** isMultilineArray as written: `size * 3` and `lineLength` are
      ArrayIndex values, so both wrap modulo 2^32 (wrapping each addition,
      as the source does, leaves the same residue as wrapping the sum). */
  function IsMultilineArrayAsWritten(c: WriterConfig, v: Value, realText: Double -> bytes): (r: bool)
    requires Valid(v) && v.data.Array? && 0 < Size(v) <= MaxUInt
    ensures r <==>
      || (Size(v) * 3) % ArrayIndexModulus >= RightMargin
      || (exists i :: 0 <= i < Size(v) && NonEmptyContainer(Child(v, i)))
      || (exists i :: 0 <= i < Size(v) && HasCommentForValue(Child(v, i)))
      || (!AnyNonEmptyContainer(v, 0) && LineLength(c, v, realText) % ArrayIndexModulus >= RightMargin)
  {
    if (Size(v) * 3) % ArrayIndexModulus >= RightMargin then true
    else if AnyNonEmptyContainer(v, 0) then true
    else AnyComment(v, 0) || LineLength(c, v, realText) % ArrayIndexModulus >= RightMargin
  }

  /** What writeArrayValue writes: "[]" for an empty array, the multi-line
      layout (whose text is not part of this model), or one line. */
  datatype ArrayLayout = EmptyArray | MultiLine | SingleLine(text: bytes)

  /** The single-line branch: the texts between brackets, separated by ','
      (", " and padded with spaces inside the brackets when indenting). */
  function SingleLineText(c: WriterConfig, texts: seq<bytes>): bytes {
    var pad: bytes := if c.indentation == [] then [] else " ";
    var sep: bytes := if c.indentation == [] then "," else ", ";
    "[" + pad + Join(texts, sep) + pad + "]"
  }

  /** writeArrayValue. CommentStyle All makes every non-empty array
      multi-line; a single line never reaches the right margin. */
  function WriteArrayValue(c: WriterConfig, v: Value, realText: Double -> bytes): (l: ArrayLayout)
    requires Valid(v) && v.data.Array?
    ensures l == EmptyArray <==> Size(v) == 0
    ensures c.commentStyle == CommentsAll && Size(v) > 0 ==> l == MultiLine
    ensures l.SingleLine? ==> |l.text| < RightMargin
    ensures l.SingleLine? ==> Size(v) > 0 && !AnyNonEmptyContainer(v, 0)
    ensures Size(v) > 0 ==> (l == MultiLine <==> c.commentStyle == CommentsAll || IsMultilineArray(c, v, realText))
    ensures l.SingleLine? ==> l.text == SingleLineText(c, ChildTexts(c, v, 0, realText))
  {
    if Size(v) == 0 then EmptyArray
    else if c.commentStyle == CommentsAll || IsMultilineArray(c, v, realText) then MultiLine
    else
      var texts := ChildTexts(c, v, 0, realText);
      SingleLineLength(c, texts);
      SingleLine(SingleLineText(c, texts))
  }

  lemma {:induction false} PrefixedLength(parts: seq<bytes>, sep: bytes)
    ensures |Prefixed(parts, sep)| == TotalLength(parts) + |parts| * |sep|
    decreases |parts|
  {
    if |parts| > 0 {
      PrefixedLength(parts[1..], sep);
    }
  }

  /** The single line is as long as lineLength counts with an indentation,
      and shorter without one. */
  lemma SingleLineLength(c: WriterConfig, texts: seq<bytes>)
    requires |texts| > 0
    ensures |SingleLineText(c, texts)| <= 4 + 2 * (|texts| - 1) + TotalLength(texts)
  {
    PrefixedLength(texts[1..], if c.indentation == [] then "," else ", ");
  }

  /** Without indentation and with the FastWriter's choices for strings and
      null, the single line is exactly what FastWriter writes. */
  lemma SingleLineMatchesFast(c: WriterConfig, v: Value, realText: Double -> bytes)
    requires Valid(v) && v.data.Array?
    requires c.indentation == [] && !c.emitUtf8 && (c.nullSymbol == "null" || c.nullSymbol == [])
    requires WriteArrayValue(c, v, realText).SingleLine?
    ensures WriteArrayValue(c, v, realText).text
         == WriteValue(FastConfig(false, c.nullSymbol == [], false), v, realText)
  {
    var fc := FastConfig(false, c.nullSymbol == [], false);
    var texts := ChildTexts(c, v, 0, realText);
    ChildTextsAreFast(c, fc, v, realText);
    SingleLineTexts(c, v, realText);
    SingleLineWithoutIndent(c, texts);
    ArrayText(fc, v, realText);
  }

  /** Without indentation the single line is the texts joined by ',' between
      bare brackets. */
  lemma SingleLineWithoutIndent(c: WriterConfig, texts: seq<bytes>)
    requires c.indentation == []
    ensures SingleLineText(c, texts) == "[" + Join(texts, ",") + "]"
  {
  }

  /** The single line holds the texts the second loop collected. */
  lemma SingleLineTexts(c: WriterConfig, v: Value, realText: Double -> bytes)
    requires Valid(v) && v.data.Array? && WriteArrayValue(c, v, realText).SingleLine?
    ensures !AnyNonEmptyContainer(v, 0)
    ensures WriteArrayValue(c, v, realText).text == SingleLineText(c, ChildTexts(c, v, 0, realText))
  {
  }

  /** The texts the second loop collects are the FastWriter's texts of the
      same elements. */
  lemma ChildTextsAreFast(c: WriterConfig, fc: FastConfig, v: Value, realText: Double -> bytes)
    requires Valid(v) && v.data.Array? && !AnyNonEmptyContainer(v, 0)
    requires !c.emitUtf8 && (c.nullSymbol == "null" || c.nullSymbol == [])
    requires fc.dropNullPlaceholders == (c.nullSymbol == [])
    ensures ChildTexts(c, v, 0, realText) == ElementTexts(fc, v, 0, realText)
  {
    var texts := ChildTexts(c, v, 0, realText);
    var fast := ElementTexts(fc, v, 0, realText);
    forall k | 0 <= k < |texts|
      ensures texts[k] == fast[k]
    {
      ChildTextIsFastText(c, fc, Child(v, k), realText);
    }
  }

  lemma ChildTextIsFastText(c: WriterConfig, fc: FastConfig, x: Value, realText: Double -> bytes)
    requires Valid(x) && !NonEmptyContainer(x)
    requires !c.emitUtf8 && (c.nullSymbol == "null" || c.nullSymbol == [])
    requires fc.dropNullPlaceholders == (c.nullSymbol == [])
    ensures ChildText(c, x, realText) == WriteValue(fc, x, realText)
  {
    match x.data
    case Array(_) =>
      assert WriteElements(fc, x, 0, 0, realText) == [];
    case Object(_) =>
      assert WriteMembers(fc, x, 0, realText) == [];
    case _ =>
  }

  /** The element at index `n` of an array holding only `[n] = x`. */
  lemma ChildOfSingleton(n: nat, x: Value, i: nat)
    requires Valid(x)
    ensures Valid(Of(Array([Entry(Index(n), x)])))
    ensures Child(Of(Array([Entry(Index(n), x)])), i) == if i == n then x else NullValueV
  {
    var es := [Entry(Index(n), x)];
    assert Sorted(es);
    LookupSpec(es, Index(i));
  }

  /** Texts that all have four bytes add up to four bytes each. */
  lemma {:induction false} FourByteTexts(texts: seq<bytes>)
    requires forall k :: 0 <= k < |texts| ==> |texts[k]| == 4
    ensures TotalLength(texts) == 4 * |texts|
    decreases |texts|
  {
    if |texts| > 0 {
      FourByteTexts(texts[1..]);
    }
  }

  /** The index of the one element of WrapArray. */
  const WrapIndex: nat := 0x5555_5555

  /** An array holding only `[0x5555_5555] = true`: a hole at every lower
      index. */
  function WrapArray(): Value {
    Of(Array([Entry(Index(WrapIndex), Of(Bool(true)))]))
  }

  /** No indentation, no comments, "null" for null. */
  const PlainConfig := WriterConfig([], CommentsNone, ":", "null", [], false, false, 17, SignificantDigits)

  lemma WrapArrayShape(realText: Double -> bytes)
    ensures Valid(WrapArray()) && WrapArray().data.Array?
    ensures Size(WrapArray()) == WrapIndex + 1
    ensures !AnyNonEmptyContainer(WrapArray(), 0) && !AnyComment(WrapArray(), 0)
    ensures TotalLength(ChildTexts(PlainConfig, WrapArray(), 0, realText)) == 4 * (WrapIndex + 1)
  {
    var x := Of(Bool(true));
    var v := WrapArray();
    ChildOfSingleton(WrapIndex, x, 0);
    forall i | 0 <= i < Size(v)
      ensures !NonEmptyContainer(Child(v, i)) && !HasCommentForValue(Child(v, i))
      ensures |ChildText(PlainConfig, Child(v, i), realText)| == 4
    {
      ChildOfSingleton(WrapIndex, x, i);
    }
    FourByteTexts(ChildTexts(PlainConfig, v, 0, realText));
  }

  /** WrapArray has 0x5555_5556 elements: as written, `size * 3` wraps to
      2 and lineLength to 6, so the array counts as short enough for one
      line, while the unbounded test sees 25 elements or more. */
  lemma MultilineTestWraps(realText: Double -> bytes)
    ensures Valid(WrapArray()) && WrapArray().data.Array? && Size(WrapArray()) == 0x5555_5556
    ensures !IsMultilineArrayAsWritten(PlainConfig, WrapArray(), realText)
    ensures IsMultilineArray(PlainConfig, WrapArray(), realText)
  {
    WrapArrayShape(realText);
    var n := Size(WrapArray());
    WrapArithmetic(n);
    assert LineLength(PlainConfig, WrapArray(), realText) == 4 + 2 * (n - 1) + 4 * n;
  }

  /** While neither `size * 3` nor the line length reaches 2^32, the test as
      written and the unbounded one agree. */
  lemma MultilineTestAgrees(c: WriterConfig, v: Value, realText: Double -> bytes)
    requires Valid(v) && v.data.Array? && 0 < Size(v) <= MaxUInt
    ensures (Size(v) * 3 < ArrayIndexModulus
             && (!AnyNonEmptyContainer(v, 0) ==> LineLength(c, v, realText) < ArrayIndexModulus)) ==>
      IsMultilineArrayAsWritten(c, v, realText) == IsMultilineArray(c, v, realText)
  {
  }

  /** The two ArrayIndex wrap-arounds for 0x5555_5556 elements of four
      bytes each. */
  lemma WrapArithmetic(n: nat)
    requires n == 0x5555_5556
    ensures (n * 3) % ArrayIndexModulus == 2
    ensures (4 + 2 * (n - 1) + 4 * n) % ArrayIndexModulus == 6
  {
    assert n * 3 == 0x1_0000_0002;
    assert 4 + 2 * (n - 1) + 4 * n == 0x2_0000_0006;
  }
}
