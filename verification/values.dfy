/** Model of the Json::Value data of include/json/value.h and
    src/lib_json/json_value.cpp: the eight-way tagged union, its integer
    limits, the three comment slots, and the size of a value. */
module Values {
  import opened Wrappers
  import opened Bytes
  import opened ObjectValues

  /* Integer limits of Json::Value (value.h). Int/UInt are 32 bits wide,
     LargestInt/LargestUInt (= Int64/UInt64) 64 bits. */
  const MinLargestInt: int := -0x8000_0000_0000_0000
  const MaxLargestInt: int := 0x7FFF_FFFF_FFFF_FFFF
  const MaxLargestUInt: int := 0xFFFF_FFFF_FFFF_FFFF
  const MinInt: int := -0x8000_0000
  const MaxInt: int := 0x7FFF_FFFF
  const MaxUInt: int := 0xFFFF_FFFF
  const MinInt64: int := MinLargestInt
  const MaxInt64: int := MaxLargestInt
  const MaxUInt64: int := MaxLargestUInt
  const DefaultRealPrecision: nat := 17
  /** The literal 18446744073709551615.0 rounds to 2^64 as a double. */
  const MaxUInt64AsDouble: real := 18446744073709551616.0

  type LargestInt = x: int | -0x8000_0000_0000_0000 <= x <= 0x7FFF_FFFF_FFFF_FFFF
  type LargestUInt = x: int | 0 <= x <= 0xFFFF_FFFF_FFFF_FFFF

  /** ValueType, in declaration order: `operator<` compares this tag first. */
  datatype ValueType = NullValue | IntValue | UIntValue | RealValue
                     | StringValue | BooleanValue | ArrayValue | ObjectValue

  /** The enumerator's numeric value (nullValue = 0 ... objectValue = 7). */
  function Ordinal(t: ValueType): (n: nat)
    ensures n < 8
    ensures t == NullValue <==> n == 0
    ensures t == ObjectValue <==> n == 7
  {
    match t
    case NullValue => 0
    case IntValue => 1
    case UIntValue => 2
    case RealValue => 3
    case StringValue => 4
    case BooleanValue => 5
    case ArrayValue => 6
    case ObjectValue => 7
  }

  /** An IEEE-754 double as far as comparisons and integral conversions
      observe it: a finite value, NaN, or an infinity. Rounding is not
      modelled: a finite double is just its exact real value. */
  datatype Double = Finite(r: real) | NaN | PosInf | NegInf

  /* CommentPlacement (value.h): three slots, then the slot count. */
  const CommentBefore: nat := 0
  const CommentAfterOnSameLine: nat := 1
  const CommentAfter: nat := 2
  const NumberOfCommentPlacement: nat := 3

  /** Value::Comments: one string per placement; "" means no comment. */
  datatype Comments = Comments(before: bytes, afterOnSameLine: bytes, after: bytes)

  const NoComments: Comments := Comments([], [], [])

  /** Json::Value: the payload plus its comments. The start/limit offsets
      are not modelled. */
  datatype Value = Value(data: Data, comments: Comments)

  datatype Data =
    | Null
    | Int(i: LargestInt)
    | UInt(u: LargestUInt)
    | Real(d: Double)
    | Str(s: bytes)
    | Bool(b: bool)
    | Array(elems: seq<Entry<Value>>)
    | Object(members: seq<Entry<Value>>)

  function Of(d: Data): Value { Value(d, NoComments) }

  /** `Value()`/`nullSingleton()`: null without comments. */
  const NullValueV: Value := Value(Null, NoComments)

  function TypeOf(v: Value): ValueType {
    match v.data
    case Null => NullValue
    case Int(_) => IntValue
    case UInt(_) => UIntValue
    case Real(_) => RealValue
    case Str(_) => StringValue
    case Bool(_) => BooleanValue
    case Array(_) => ArrayValue
    case Object(_) => ObjectValue
  }

  /** The representation invariant every value of the source satisfies: the
      map is ordered by CZString, arrays hold only index keys and objects
      only member names, recursively. */
  predicate Valid(v: Value)
    decreases v
  {
    match v.data
    case Array(es) =>
      Sorted(es) && forall i :: 0 <= i < |es| ==> es[i].key.Index? && Valid(es[i].val)
    case Object(ms) =>
      Sorted(ms) && forall i :: 0 <= i < |ms| ==> ms[i].key.Name? && Valid(ms[i].val)
    case _ => true
  }

  predicate IsContainer(v: Value) { v.data.Array? || v.data.Object? }

  function Items(v: Value): seq<Entry<Value>>
    requires IsContainer(v)
  {
    if v.data.Array? then v.data.elems else v.data.members
  }

  /** In a sorted map of index keys, indices grow at least as fast as
      positions: the index at position p is at least p. */
  lemma {:induction false} IndexAtLeastPosition(es: seq<Entry<Value>>, p: nat)
    requires Sorted(es) && p < |es|
    requires forall i :: 0 <= i < |es| ==> es[i].key.Index?
    ensures es[p].key.Index? && es[p].key.index >= p
  {
    if p > 0 {
      IndexAtLeastPosition(es, p - 1);
      assert KeyLess(es[p - 1].key, es[p].key);
    }
  }

  /** size(): 0 for scalars, the entry count of an object, and for an array
      the last (greatest) index plus one, so holes count. */
  function Size(v: Value): (n: nat)
    requires Valid(v)
    ensures !IsContainer(v) ==> n == 0
    ensures v.data.Object? ==> n == |v.data.members|
    ensures v.data.Array? ==> n >= |v.data.elems|
    ensures v.data.Array? ==> (n == 0 <==> |v.data.elems| == 0)
    ensures v.data.Array? ==> forall i :: 0 <= i < |v.data.elems| ==> v.data.elems[i].key.index < n
  {
    match v.data
    case Array(es) =>
      if |es| == 0 then 0
      else
        IndexAtLeastPosition(es, |es| - 1);
        assert forall i :: 0 <= i < |es| - 1 ==> KeyLess(es[i].key, es[|es| - 1].key);
        es[|es| - 1].key.index + 1
    case Object(ms) => |ms|
    case _ => 0
  }

  /** The entries of an array value (none for any other value). */
  function Elems(v: Value): seq<Entry<Value>> {
    if v.data.Array? then v.data.elems else []
  }

  /** The element an array map holds at index `j`, if any. */
  function Slot(es: seq<Entry<Value>>, j: nat): Option<Value> {
    Lookup(es, Index(j))
  }

  /** The element an array holds at index `j`, if any. */
  function At(v: Value, j: nat): Option<Value> {
    Slot(Elems(v), j)
  }

  /** A hole reads as null. */
  function OrNull(o: Option<Value>): Value {
    o.GetOr(NullValueV)
  }

  /** The array map invariant of Valid, for a bare entry sequence. */
  predicate ArrayMap(es: seq<Entry<Value>>) {
    Sorted(es) && forall i :: 0 <= i < |es| ==> es[i].key.Index? && Valid(es[i].val)
  }

  /** The object map invariant of Valid, for a bare entry sequence. */
  predicate ObjectMap(ms: seq<Entry<Value>>) {
    Sorted(ms) && forall i :: 0 <= i < |ms| ==> ms[i].key.Name? && Valid(ms[i].val)
  }

  /** Storing a valid element at an index keeps an array map valid. */
  lemma ArrayAssign(es: seq<Entry<Value>>, j: nat, x: Value)
    requires ArrayMap(es) && Valid(x)
    ensures ArrayMap(Assign(es, Index(j), x))
  {
    AssignSpec(es, Index(j), x);
    AssignEntries(es, Index(j), x);
  }

  /** Erasing an index keeps an array map valid. */
  lemma ArrayErase(es: seq<Entry<Value>>, j: nat)
    requires ArrayMap(es)
    ensures ArrayMap(Erase(es, Index(j)))
  {
    EraseSpec(es, Index(j));
    EraseEntries(es, Index(j));
  }

  /** Storing a valid member keeps an object map valid. */
  lemma ObjectAssign(ms: seq<Entry<Value>>, name: bytes, x: Value)
    requires ObjectMap(ms) && Valid(x)
    ensures ObjectMap(Assign(ms, Name(name), x))
  {
    AssignSpec(ms, Name(name), x);
    AssignEntries(ms, Name(name), x);
  }

  /** Erasing a member keeps an object map valid. */
  lemma ObjectErase(ms: seq<Entry<Value>>, name: bytes)
    requires ObjectMap(ms)
    ensures ObjectMap(Erase(ms, Name(name)))
  {
    EraseSpec(ms, Name(name));
    EraseEntries(ms, Name(name));
  }

  /** The size of an array bounds every index it holds, and the index just
      below the size is present. */
  lemma {:induction false} SizeBounds(v: Value)
    requires Valid(v) && v.data.Array?
    ensures forall j: nat :: At(v, j).Some? ==> j < Size(v)
    ensures Size(v) > 0 ==> At(v, Size(v) - 1).Some?
  {
    var es := v.data.elems;
    forall j: nat | At(v, j).Some?
      ensures j < Size(v)
    {
      LookupSpec(es, Index(j));
    }
    if Size(v) > 0 {
      LookupSpec(es, Index(Size(v) - 1));
      assert es[|es| - 1].key == Index(Size(v) - 1);
    }
  }

  /** Those two facts determine the size: the size is the one `n` that
      bounds every present index and has `n - 1` present. */
  lemma SizeFromElements(v: Value, n: nat)
    requires Valid(v) && v.data.Array?
    requires forall j: nat :: At(v, j).Some? ==> j < n
    requires n > 0 ==> At(v, n - 1).Some?
    ensures Size(v) == n
  {
    SizeBounds(v);
  }

  /** empty(): true only for a null, array or object value of size 0. */
  function Empty(v: Value): (r: bool)
    requires Valid(v)
    ensures r <==> (v.data.Null? || (v.data.Array? && |v.data.elems| == 0)
                    || (v.data.Object? && |v.data.members| == 0))
  {
    if v.data.Null? || v.data.Array? || v.data.Object? then Size(v) == 0 else false
  }

  /** Comments::has: a slot holds a comment when its string is non-empty. */
  function GetComment(c: Comments, slot: nat): bytes
    requires slot < NumberOfCommentPlacement
  {
    if slot == CommentBefore then c.before
    else if slot == CommentAfterOnSameLine then c.afterOnSameLine
    else c.after
  }

  predicate HasComment(c: Comments, slot: nat)
    requires slot < NumberOfCommentPlacement
  {
    |GetComment(c, slot)| > 0
  }

  /** Comments::set: a slot outside the three placements is ignored;
      otherwise that slot alone is replaced. */
  function SetCommentSlot(c: Comments, slot: nat, text: bytes): (r: Comments)
    ensures slot >= NumberOfCommentPlacement ==> r == c
    ensures slot < NumberOfCommentPlacement ==> GetComment(r, slot) == text
    ensures forall s: nat :: s < NumberOfCommentPlacement && s != slot ==> GetComment(r, s) == GetComment(c, s)
  {
    if slot == CommentBefore then c.(before := text)
    else if slot == CommentAfterOnSameLine then c.(afterOnSameLine := text)
    else if slot == CommentAfter then c.(after := text)
    else c
  }

  /** Value::setComment: one trailing '\n' is dropped, then the comment must
      be empty or start with '/', or the call throws. */
  function SetComment(v: Value, comment: bytes, placement: nat): (r: Result<Value>)
    ensures var text := if |comment| > 0 && comment[|comment| - 1] == '\n'
                        then comment[..|comment| - 1] else comment;
      && (r.Ok? <==> (|text| == 0 || text[0] == '/'))
      && (r.Ok? ==> r.value.data == v.data)
      && (r.Ok? && placement < NumberOfCommentPlacement ==>
            GetComment(r.value.comments, placement) == text)
      && (r.Ok? && placement >= NumberOfCommentPlacement ==> r.value == v)
      && (r.Ok? ==> forall s: nat :: s < NumberOfCommentPlacement && s != placement ==>
            GetComment(r.value.comments, s) == GetComment(v.comments, s))
  {
    var text := if |comment| > 0 && comment[|comment| - 1] == '\n'
                then comment[..|comment| - 1] else comment;
    if |text| == 0 || text[0] == '/' then
      Ok(v.(comments := SetCommentSlot(v.comments, placement, text)))
    else
      Fail("in Json::Value::setComment(): Comments must start with /")
  }

  /** Comments hold the text without the dropped newline: setting a comment
      that ends in "\n" and reading it back gives the text before it. */
  lemma SetCommentThenGet(v: Value, body: bytes, placement: nat)
    requires placement < NumberOfCommentPlacement
    requires |body| > 0 && body[0] == '/'
    ensures SetComment(v, body + "\n", placement).Ok?
    ensures HasComment(SetComment(v, body + "\n", placement).value.comments, placement)
    ensures GetComment(SetComment(v, body + "\n", placement).value.comments, placement) == body
  {
    assert (body + "\n")[..|body|] == body;
  }
}
