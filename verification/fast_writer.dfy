/** FastWriter of src/lib_json/json_writer.cpp: the whole value on one line,
    arrays as `[a,b]` over every index below size(), objects as
    `{"name":value}` in member-name order. */
module FastWriter {
  import opened Wrappers
  import opened Bytes
  import opened ObjectValues
  import opened Values
  import opened ValueAccess
  import opened ValueMembers
  import opened StringWriter

  /** The three switches of a FastWriter, all off after construction. */
  datatype FastConfig = FastConfig(yamlCompatibility: bool, dropNullPlaceholders: bool, omitEndingLineFeed: bool)

  const DefaultFastConfig: FastConfig := FastConfig(false, false, false)

  /** What a null value writes: nothing with dropNullPlaceholders. */
  function NullText(c: FastConfig): (r: bytes)
    ensures r == [] <==> c.dropNullPlaceholders
  {
    if c.dropNullPlaceholders then [] else "null"
  }

  /** The separator between a member name and its value. */
  function Colon(c: FastConfig): (r: bytes)
    ensures |r| > 0 && r[0] == ':' && (|r| == 2 <==> c.yamlCompatibility)
  {
    if c.yamlCompatibility then ": " else ":"
  }

  /** The const `value[index]`: the element, or null for a hole. */
  function Child(v: Value, index: nat): (r: Value)
    requires Valid(v) && v.data.Array?
    ensures Valid(r)
    ensures At(v, index).Some? ==> r == At(v, index).value
    ensures At(v, index).None? ==> r == NullValueV
  {
    LookupValid(v.data.elems, index);
    OrNull(At(v, index))
  }

  /** writeValue. The text of a double comes from `realText`, standing for
      valueToString(double), which is not part of this model. */
  function WriteValue(c: FastConfig, v: Value, realText: Double -> bytes): (r: bytes)
    requires Valid(v)
    ensures v.data.Null? ==> (r == [] <==> c.dropNullPlaceholders)
    decreases v, 1, 0
  {
    match v.data
    case Null => NullText(c)
    case Int(i) => IntText(i)
    case UInt(u) => UIntText(u)
    case Real(d) => realText(d)
    case Str(s) => ValueToQuotedStringN(s, false)
    case Bool(b) => BoolText(b)
    case Array(_) => "[" + WriteElements(c, v, 0, 0, realText) + "]"
    case Object(_) => "{" + WriteMembers(c, v, 0, realText) + "}"
  }

  /** The array loop from `index` on; `p` is the position in the map of the
      first element whose index is `index` or more, so the element at
      `index` is there or `index` is a hole. */
  function WriteElements(c: FastConfig, v: Value, p: nat, index: nat, realText: Double -> bytes): (r: bytes)
    requires Valid(v) && v.data.Array? && p <= |v.data.elems| && index <= Size(v)
    ensures index == Size(v) ==> r == []
    ensures 0 < index < Size(v) ==> |r| > 0 && r[0] == ','
    decreases v, 0, Size(v) - index
  {
    if index == Size(v) then []
    else
      var sep: bytes := if index > 0 then "," else [];
      if p < |v.data.elems| && v.data.elems[p].key.index == index then
        sep + WriteValue(c, v.data.elems[p].val, realText) + WriteElements(c, v, p + 1, index + 1, realText)
      else
        sep + NullText(c) + WriteElements(c, v, p, index + 1, realText)
  }

  /** The object loop from the `p`-th member on. */
  function WriteMembers(c: FastConfig, v: Value, p: nat, realText: Double -> bytes): (r: bytes)
    requires Valid(v) && v.data.Object? && p <= |v.data.members|
    ensures r == [] <==> p == |v.data.members|
    ensures p < |v.data.members| ==> r[0] == if p > 0 then ',' else '"'
    decreases v, 0, |v.data.members| - p
  {
    if p == |v.data.members| then []
    else
      var sep: bytes := if p > 0 then "," else [];
      sep + ValueToQuotedStringN(v.data.members[p].key.name, false) + Colon(c)
        + WriteValue(c, v.data.members[p].val, realText) + WriteMembers(c, v, p + 1, realText)
  }

  /** write(): the value, then a line feed unless omitEndingLineFeed. */
  function Write(c: FastConfig, v: Value, realText: Double -> bytes): (r: bytes)
    requires Valid(v)
    ensures c.omitEndingLineFeed ==> r == WriteValue(c, v, realText)
    ensures !c.omitEndingLineFeed ==> |r| > 0 && r[|r| - 1] == '\n' && r[..|r| - 1] == WriteValue(c, v, realText)
  {
    WriteValue(c, v, realText) + (if c.omitEndingLineFeed then [] else "\n")
  }

  /** Each part preceded by `sep`. */
  function Prefixed(parts: seq<bytes>, sep: bytes): bytes
    decreases |parts|
  {
    if |parts| == 0 then [] else sep + parts[0] + Prefixed(parts[1..], sep)
  }

  /** The parts with `sep` between neighbours. */
  function Join(parts: seq<bytes>, sep: bytes): bytes {
    if |parts| == 0 then [] else parts[0] + Prefixed(parts[1..], sep)
  }

  /** A first part followed by the rest, each of those after a separator,
      is the joined text. */
  lemma JoinFromSteps(w0: bytes, first: bytes, w1: bytes, rest: seq<bytes>, texts: seq<bytes>, sep: bytes)
    requires w0 == [] + first + w1 && w1 == Prefixed(rest, sep) && texts == [first] + rest
    ensures w0 == Join(texts, sep)
  {
    assert texts[1..] == rest;
    assert [] + first == first;
  }

  /** What writeValue writes for `value[index]`, for each index from
      `index` up to size(). */
  function ElementTexts(c: FastConfig, v: Value, index: nat, realText: Double -> bytes): (texts: seq<bytes>)
    requires Valid(v) && v.data.Array? && index <= Size(v)
    ensures |texts| == Size(v) - index
    ensures forall k :: 0 <= k < |texts| ==> texts[k] == WriteValue(c, Child(v, index + k), realText)
    decreases Size(v) - index
  {
    if index == Size(v) then []
    else
      var rest := ElementTexts(c, v, index + 1, realText);
      var texts := [WriteValue(c, Child(v, index), realText)] + rest;
      assert forall k :: 0 < k < |texts| ==> texts[k] == rest[k - 1];
      texts
  }

  /** What the object loop writes for the member `name`: the quoted name,
      the colon and the text of `value[name]`. */
  function MemberText(c: FastConfig, v: Value, name: bytes, realText: Double -> bytes): bytes
    requires Valid(v) && v.data.Object?
  {
    ValueToQuotedStringN(name, false) + Colon(c) + WriteValue(c, OrNull(Member(v, name)), realText)
  }

  /** MemberText for each of `names`. */
  function MemberTexts(c: FastConfig, v: Value, names: seq<bytes>, realText: Double -> bytes): (texts: seq<bytes>)
    requires Valid(v) && v.data.Object?
    ensures |texts| == |names|
    decreases |names|
  {
    if |names| == 0 then [] else [MemberText(c, v, names[0], realText)] + MemberTexts(c, v, names[1..], realText)
  }

  /** `p` splits the array map at `index`: the entries before it have
      smaller indices, the rest have `index` or more. */
  predicate SplitAt(es: seq<Entry<Value>>, p: nat, index: nat)
    requires p <= |es|
  {
    && (forall j :: 0 <= j < p ==> es[j].key.Index? && es[j].key.index < index)
    && (forall j :: p <= j < |es| ==> es[j].key.Index? && es[j].key.index >= index)
  }

  /** At a split, the element at `index` is the entry at `p` if that entry
      carries `index`, and a hole otherwise. */
  lemma ChildAtSplit(v: Value, p: nat, index: nat)
    requires Valid(v) && v.data.Array? && p <= |v.data.elems| && SplitAt(v.data.elems, p, index)
    ensures var es := v.data.elems;
      Child(v, index) == if p < |es| && es[p].key.index == index then es[p].val else NullValueV
  {
    var es := v.data.elems;
    LookupSpec(es, Index(index));
    if !(p < |es| && es[p].key.index == index) {
      forall j | 0 <= j < |es|
        ensures es[j].key != Index(index)
      {
        if j > p {
          assert KeyLess(es[p].key, es[j].key);
        }
      }
    }
  }

  lemma SplitStep(v: Value, p: nat, index: nat)
    requires Valid(v) && v.data.Array? && p <= |v.data.elems| && SplitAt(v.data.elems, p, index)
    ensures var es := v.data.elems;
      if p < |es| && es[p].key.index == index then SplitAt(es, p + 1, index + 1) else SplitAt(es, p, index + 1)
  {
    var es := v.data.elems;
    if p < |es| {
      assert forall j :: p < j < |es| ==> KeyLess(es[p].key, es[j].key);
    }
  }

  /** One turn of the array loop: the separator, the text of
      `value[index]`, and the loop from the next index with the split moved
      past it. */
  lemma ElementsStep(c: FastConfig, v: Value, p: nat, index: nat, realText: Double -> bytes) returns (q: nat)
    requires Valid(v) && v.data.Array? && p <= |v.data.elems| && index < Size(v)
    requires SplitAt(v.data.elems, p, index)
    ensures q <= |v.data.elems| && SplitAt(v.data.elems, q, index + 1)
    ensures WriteElements(c, v, p, index, realText)
         == (if index > 0 then "," else []) + WriteValue(c, Child(v, index), realText)
            + WriteElements(c, v, q, index + 1, realText)
  {
    var es := v.data.elems;
    q := if p < |es| && es[p].key.index == index then p + 1 else p;
    ChildAtSplit(v, p, index);
    SplitStep(v, p, index);
    assert WriteValue(c, NullValueV, realText) == NullText(c);
  }

  /** From `index` on, the array loop writes the element texts, each
      preceded by a comma. */
  lemma {:induction false} ElementsFrom(c: FastConfig, v: Value, p: nat, index: nat, realText: Double -> bytes)
    requires Valid(v) && v.data.Array? && p <= |v.data.elems| && index <= Size(v)
    requires SplitAt(v.data.elems, p, index) && index > 0
    ensures WriteElements(c, v, p, index, realText) == Prefixed(ElementTexts(c, v, index, realText), ",")
    decreases Size(v) - index
  {
    if index < Size(v) {
      var q := ElementsStep(c, v, p, index, realText);
      ElementsFrom(c, v, q, index + 1, realText);
      var texts := ElementTexts(c, v, index, realText);
      assert texts == [WriteValue(c, Child(v, index), realText)] + ElementTexts(c, v, index + 1, realText);
    }
  }

  /** The array loop from index 0 writes the element texts separated by
      commas. */
  lemma ElementsFromZero(c: FastConfig, v: Value, realText: Double -> bytes)
    requires Valid(v) && v.data.Array?
    ensures WriteElements(c, v, 0, 0, realText) == Join(ElementTexts(c, v, 0, realText), ",")
  {
    if Size(v) > 0 {
      var first := WriteValue(c, Child(v, 0), realText);
      var rest := ElementTexts(c, v, 1, realText);
      var q := ElementsStep(c, v, 0, 0, realText);
      ElementsFrom(c, v, q, 1, realText);
      var w0 := WriteElements(c, v, 0, 0, realText);
      var w1 := WriteElements(c, v, q, 1, realText);
      assert w0 == [] + first + w1;
      assert w1 == Prefixed(rest, ",");
      assert ElementTexts(c, v, 0, realText) == [first] + rest;
      JoinFromSteps(w0, first, w1, rest, ElementTexts(c, v, 0, realText), ",");
    }
  }

  /** An array writes as '[', the text of `value[index]` for every index
      below size() (null for a hole) separated by ',', and ']'. */
  lemma ArrayText(c: FastConfig, v: Value, realText: Double -> bytes)
    requires Valid(v) && v.data.Array?
    ensures WriteValue(c, v, realText) == "[" + Join(ElementTexts(c, v, 0, realText), ",") + "]"
  {
    ElementsFromZero(c, v, realText);
  }

  /** One turn of the member loop writes the member's text. */
  lemma MembersStep(c: FastConfig, v: Value, p: nat, realText: Double -> bytes)
    requires Valid(v) && v.data.Object? && p < |v.data.members|
    ensures WriteMembers(c, v, p, realText)
         == (if p > 0 then "," else []) + MemberText(c, v, v.data.members[p].key.name, realText)
            + WriteMembers(c, v, p + 1, realText)
  {
    var e := v.data.members[p];
    MemberSpec(v, e.key.name);
    assert OrNull(Member(v, e.key.name)) == e.val;
    var sep: bytes := if p > 0 then "," else [];
    var name := ValueToQuotedStringN(e.key.name, false);
    var tail := WriteMembers(c, v, p + 1, realText);
    assert WriteMembers(c, v, p, realText) == sep + name + Colon(c) + WriteValue(c, e.val, realText) + tail;
    assert MemberText(c, v, e.key.name, realText) == name + Colon(c) + WriteValue(c, e.val, realText);
    Regroup(sep, name, Colon(c), WriteValue(c, e.val, realText), tail);
  }

  /** Helper of MembersStep: the name, colon and value of one member form
      its member text inside the loop's concatenation. */
  lemma Regroup(a: bytes, b: bytes, c: bytes, d: bytes, e: bytes)
    ensures a + b + c + d + e == a + (b + c + d) + e
  {
  }

  /** `names` lists the member names of the map `ms`, in map order. */
  predicate NamesMatch(ms: seq<Entry<Value>>, names: seq<bytes>) {
    |names| == |ms| && forall i :: 0 <= i < |ms| ==> ms[i].key == Name(names[i])
  }

  /** The member loop from `p` on writes the texts of the remaining names,
      each preceded by a comma. */
  lemma {:induction false} MembersFrom(c: FastConfig, v: Value, names: seq<bytes>, p: nat, realText: Double -> bytes)
    requires Valid(v) && v.data.Object? && NamesMatch(v.data.members, names) && 0 < p <= |names|
    ensures WriteMembers(c, v, p, realText) == Prefixed(MemberTexts(c, v, names[p..], realText), ",")
    decreases |names| - p
  {
    if p < |names| {
      MembersFrom(c, v, names, p + 1, realText);
      MembersStep(c, v, p, realText);
      assert names[p..][1..] == names[p + 1..];
      assert MemberTexts(c, v, names[p..], realText)
          == [MemberText(c, v, names[p], realText)] + MemberTexts(c, v, names[p + 1..], realText);
    }
  }

  /** The member loop writes the member texts separated by commas. */
  lemma MembersFromZero(c: FastConfig, v: Value, names: seq<bytes>, realText: Double -> bytes)
    requires Valid(v) && v.data.Object? && NamesMatch(v.data.members, names)
    ensures WriteMembers(c, v, 0, realText) == Join(MemberTexts(c, v, names, realText), ",")
  {
    if |names| > 0 {
      var first := MemberText(c, v, names[0], realText);
      var rest := MemberTexts(c, v, names[1..], realText);
      MembersFrom(c, v, names, 1, realText);
      MembersStep(c, v, 0, realText);
      var w0 := WriteMembers(c, v, 0, realText);
      var w1 := WriteMembers(c, v, 1, realText);
      assert w0 == [] + first + w1;
      assert w1 == Prefixed(rest, ",");
      assert MemberTexts(c, v, names, realText) == [first] + rest;
      JoinFromSteps(w0, first, w1, rest, MemberTexts(c, v, names, realText), ",");
    }
  }

  /** An object writes as '{', then for each name of getMemberNames() in
      order the quoted name, ':' (": " under YAML compatibility) and the
      text of `value[name]`, separated by ',', then '}'. */
  lemma ObjectText(c: FastConfig, v: Value, realText: Double -> bytes)
    requires Valid(v) && v.data.Object?
    ensures GetMemberNames(v).Ok?
    ensures WriteValue(c, v, realText)
         == "{" + Join(MemberTexts(c, v, GetMemberNames(v).value, realText), ",") + "}"
  {
    MembersFromZero(c, v, NamesOf(v.data.members), realText);
  }
}
