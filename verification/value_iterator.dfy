/** The iterators of Json::Value (src/lib_json/json_valueiterator.inl and
    Value::begin/end of src/lib_json/json_value.cpp). An iterator into a
    container is a position in its sorted entry sequence; the iterator of a
    scalar value, and a default-constructed one, is singular (`isNull_`). */
module ValueIterator {
  import opened Wrappers
  import opened Bytes
  import opened ObjectValues
  import opened Values
  import opened ValueMembers

  datatype Iter = Singular | Cursor(pos: nat)

  /** `begin()`: the first entry of an array or object; singular otherwise. */
  function Begin(v: Value): (it: Iter)
    ensures it.Singular? <==> !IsContainer(v)
    ensures it.Cursor? ==> it.pos == 0
  {
    if IsContainer(v) then Cursor(0) else Singular
  }

  /** `end()`: one past the last entry; singular for a scalar. */
  function End(v: Value): (it: Iter)
    ensures it.Singular? <==> !IsContainer(v)
    ensures it.Cursor? ==> it.pos == |Items(v)|
  {
    if IsContainer(v) then Cursor(|Items(v)|) else Singular
  }

  /** An iterator that can be dereferenced: it points at an entry of `v`. */
  predicate Points(v: Value, it: Iter) {
    IsContainer(v) && it.Cursor? && it.pos < |Items(v)|
  }

  function KeyAt(v: Value, it: Iter): Key
    requires Points(v, it)
  {
    Items(v)[it.pos].key
  }

  function Deref(v: Value, it: Iter): Value
    requires Points(v, it)
  {
    Items(v)[it.pos].val
  }

  /** `key()`: the index as an unsigned value, or the name as a string
      value. ArrayIndex is 32 bits wide, so an index key is at most maxUInt. */
  function KeyValue(v: Value, it: Iter): (k: Value)
    requires Points(v, it)
    requires KeyAt(v, it).Index? ==> KeyAt(v, it).index <= MaxUInt
    ensures KeyAt(v, it).Index? <==> k.data.UInt?
    ensures k.data.UInt? ==> k.data.u == KeyAt(v, it).index
    ensures k.data.Str? ==> Name(k.data.s) == KeyAt(v, it)
    ensures k.comments == NoComments
  {
    match KeyAt(v, it)
    case Index(j) => Of(UInt(j))
    case Name(n) => Of(Str(n))
  }

  /** `Value::UInt(-1)`: what index() gives for a member name. */
  const NotAnIndex: nat := 0xFFFF_FFFF

  /** `index()`: the array index, or UInt(-1) for a member name. */
  function IndexOf(v: Value, it: Iter): (i: nat)
    requires Points(v, it)
    requires KeyAt(v, it).Index? ==> KeyAt(v, it).index <= MaxUInt
    ensures i <= MaxUInt
    ensures KeyAt(v, it).Index? ==> i == KeyAt(v, it).index
    ensures KeyAt(v, it).Name? ==> i == NotAnIndex
  {
    match KeyAt(v, it)
    case Index(j) => j
    case Name(_) => NotAnIndex
  }

  /** `memberName(&end)`: the name's bytes, or a null pointer (None) for an
      index key. */
  function MemberNameRange(v: Value, it: Iter): (r: Option<bytes>)
    requires Points(v, it)
    ensures r.Some? <==> KeyAt(v, it).Name?
    ensures r.Some? ==> KeyAt(v, it) == Name(r.value)
  {
    match KeyAt(v, it)
    case Index(_) => None
    case Name(n) => Some(n)
  }

  /** `name()`: the member name, or "" for an index key. */
  function NameOf(v: Value, it: Iter): (n: bytes)
    requires Points(v, it)
    ensures KeyAt(v, it).Name? ==> KeyAt(v, it) == Name(n)
    ensures KeyAt(v, it).Index? ==> n == []
  {
    MemberNameRange(v, it).GetOr([])
  }

  /** `memberName()`: the name, or "" for an index key. */
  function MemberNameOf(v: Value, it: Iter): (n: bytes)
    requires Points(v, it)
    ensures KeyAt(v, it).Name? ==> KeyAt(v, it) == Name(n)
    ensures KeyAt(v, it).Index? ==> n == []
  {
    match KeyAt(v, it)
    case Index(_) => []
    case Name(n) => n
  }

  /** The two spellings of the member name agree. */
  lemma NameAgreesWithMemberName(v: Value, it: Iter)
    requires Points(v, it)
    ensures NameOf(v, it) == MemberNameOf(v, it)
  {
  }

  /** `isEqual`: a singular iterator equals only a singular one; otherwise
      the positions are compared. */
  function IsEqual(a: Iter, b: Iter): (r: bool)
    ensures a.Singular? ==> (r <==> b.Singular?)
    ensures a.Cursor? && b.Cursor? ==> (r <==> a.pos == b.pos)
  {
    if a.Singular? then b.Singular? else a == b
  }

  /** isEqual is the identity of iterators: reflexive, symmetric, and true
      exactly on equal iterators. */
  lemma IsEqualIsIdentity(a: Iter, b: Iter)
    ensures IsEqual(a, b) <==> a == b
    ensures IsEqual(a, b) == IsEqual(b, a)
  {
  }

  /** `computeDistance`: 0 between two singular iterators; otherwise the
      number of increments that take `a` to `b`, which the source requires to
      be reachable. */
  method ComputeDistance(a: Iter, b: Iter) returns (d: nat)
    requires (a.Singular? && b.Singular?) || (a.Cursor? && b.Cursor? && a.pos <= b.pos)
    ensures a.Cursor? ==> a.pos + d == b.pos
    ensures a.Singular? ==> d == 0
  {
    if a.Singular? && b.Singular? {
      return 0;
    }
    var it := a.pos;
    d := 0;
    while it != b.pos
      invariant a.pos <= it <= b.pos
      invariant it == a.pos + d
      decreases b.pos - it
    {
      it := it + 1;
      d := d + 1;
    }
  }

  /** Walking from begin() to end() takes one step per entry: size() for
      an object, the entry count for an array, none for a scalar. */
  method DistanceBeginEnd(v: Value) returns (d: nat)
    requires Valid(v)
    ensures v.data.Object? ==> d == Size(v)
    ensures v.data.Array? ==> d == |v.data.elems| <= Size(v)
    ensures !IsContainer(v) ==> d == 0
  {
    d := ComputeDistance(Begin(v), End(v));
  }

  /** `ValueIterator(const ValueConstIterator&)`: always throws. */
  function ToMutable(it: Iter): (r: Result<Iter>)
    ensures r == Fail("ConstIterator to Iterator should never be allowed.")
  {
    Fail("ConstIterator to Iterator should never be allowed.")
  }

  /** Iterating an object visits its members: the name under the iterator
      looks up the value under it. */
  lemma NameFindsValue(v: Value, it: Iter)
    requires Valid(v) && v.data.Object? && Points(v, it)
    ensures Member(v, NameOf(v, it)) == Some(Deref(v, it))
  {
    MemberSpec(v, NameOf(v, it));
  }

  /** Iterating an array visits its present elements: the index under the
      iterator holds the value under it. */
  lemma IndexFindsValue(v: Value, it: Iter)
    requires Valid(v) && v.data.Array? && Points(v, it)
    ensures KeyAt(v, it).Index?
    ensures At(v, KeyAt(v, it).index) == Some(Deref(v, it))
  {
    LookupSpec(v.data.elems, KeyAt(v, it));
  }

  /** The names an iteration of an object visits, in order, are
      getMemberNames(). */
  lemma NamesInIterationOrder(v: Value)
    requires Valid(v) && v.data.Object?
    ensures GetMemberNames(v).Ok?
    ensures var names := GetMemberNames(v).value;
      |names| == |Items(v)| &&
      forall p :: 0 <= p < |names| ==> names[p] == NameOf(v, Cursor(p))
  {
  }
}
