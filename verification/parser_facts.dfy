/** Properties of the parser of module Parser over whole documents: how a
    repeated member name is read, when an object may end, and the nesting
    limit. */
module ParserFacts {
  import opened Wrappers
  import opened Bytes
  import opened ObjectValues
  import opened Values
  import opened ValueAccess
  import opened ValueMembers
  import opened NumberReader
  import opened Scanner
  import opened Parser

  /** A read that succeeds replaces the node's payload whatever it was
      before, and keeps only the node's comments: this is how the value of
      a repeated member name overwrites the earlier one. */
  lemma SuccessfulReadReplacesPayload(f: Features, o: Oracles, text: bytes, pos: nat, depth: nat,
                                      a: Value, b: Value, errors: seq<ErrorInfo>)
    requires pos <= |text| && Valid(a) && Valid(b)
    requires ReadValue(f, o, text, pos, depth, a, errors).Parsed? && ReadValue(f, o, text, pos, depth, a, errors).ok
    ensures var ra := ReadValue(f, o, text, pos, depth, a, errors);
      ReadValue(f, o, text, pos, depth, b, errors) == ra.(val := b.(data := ra.val.data))
  {
    var t := ReadTokenSkippingComments(f, text, pos);
    match t.kind
    case ObjectBegin =>
    case ArrayBegin =>
    case NumberTok =>
    case StringTok =>
    case TrueTok =>
    case FalseTok =>
    case NullTok =>
    case NaNTok =>
    case PosInfTok =>
    case NegInfTok =>
    case ArraySeparator =>
    case ObjectEnd =>
    case ArrayEnd =>
    case MemberSeparator =>
    case CommentTok =>
    case EndOfStream =>
    case ErrorTok =>
  }

  /** The two tests agree whenever "no member read yet" and "the previous
      name is empty" coincide, that is, unless a member named "" was read. */
  lemma ObjectMayEndAgrees(first: bool, previousName: bytes, allowTrailingCommas: bool)
    ensures (first <==> |previousName| == 0) ==>
      ObjectMayEnd(first, allowTrailingCommas) == ObjectMayEndAsWritten(previousName, allowTrailingCommas)
  {
  }

  /** Before the first member, or with allowTrailingCommas, a '}' closes
      the object; after a member named "" the test as written also closes
      it without allowTrailingCommas, which the corrected test does not. */
  lemma EmptyNameClosesObject()
    ensures ObjectMayEndAsWritten("", false)
    ensures !ObjectMayEnd(false, false)
    ensures forall name: bytes :: |name| > 0 ==> !ObjectMayEndAsWritten(name, false)
  {
  }

  /** With rejectDupKeys, a member name the object already holds is an
      error on the name's token: the object is left as it was and exactly
      one error is added. */
  lemma DuplicateKeyRejected(f: Features, o: Oracles, text: bytes, t: Token, name: bytes, depth: nat,
                             obj: Value, errors: seq<ErrorInfo>)
    requires t.start < t.end <= |text| && Valid(obj) && obj.data.Object?
    requires f.rejectDupKeys && Member(obj, name).Some? && (f.legacy || |name| < KeyLengthLimit)
    ensures var r := ReadMember(f, o, text, t, name, depth, obj, errors);
      && r.Parsed? && !r.ok && r.val == obj && t.end <= r.pos
      && r.errors == errors + [ErrorInfo(t, DuplicateKey(name), None)]
  {
  }

  /** Without rejectDupKeys, a repeated member name reads its value into
      the member already there: when '}' follows, the object holds the new
      value under that name, every other member as before, and no more
      members than before. */
  lemma DuplicateKeyOverwrites(f: Features, o: Oracles, text: bytes, t: Token, name: bytes, depth: nat,
                               obj: Value, errors: seq<ErrorInfo>)
    requires t.start < t.end <= |text| && Valid(obj) && obj.data.Object?
    requires !f.rejectDupKeys && Member(obj, name).Some? && (f.legacy || |name| < KeyLengthLimit)
    requires ReadToken(f, text, t.end).kind == MemberSeparator
    requires var inner := ReadValue(f, o, text, ReadToken(f, text, t.end).end, depth + 1, Member(obj, name).value, errors);
      inner.Parsed? && inner.ok && ReadTokenSkippingComments(f, text, inner.pos).kind == ObjectEnd
    ensures var r := ReadMember(f, o, text, t, name, depth, obj, errors);
      var inner := ReadValue(f, o, text, ReadToken(f, text, t.end).end, depth + 1, Member(obj, name).value, errors);
      && r.Parsed? && r.ok && r.errors == inner.errors
      && Member(r.val, name) == Some(inner.val) && Size(r.val) == Size(obj)
      && forall n :: n != name ==> Member(r.val, n) == Member(obj, n)
  {
    var colon := ReadToken(f, text, t.end);
    var inner := ReadValue(f, o, text, colon.end, depth + 1, Member(obj, name).value, errors);
    var next := SetMember(obj, name, inner.val).value;
    var close := ReadTokenSkippingComments(f, text, inner.pos);
    assert ReadMember(f, o, text, t, name, depth, obj, errors) == MemberValue(f, o, text, t.end, name, depth, obj, errors);
    assert MemberValue(f, o, text, t.end, name, depth, obj, errors) == AfterMember(f, o, text, inner.pos, depth, next, inner.errors);
    assert AfterMember(f, o, text, inner.pos, depth, next, inner.errors) == Parsed(next, true, close.end, inner.errors);
  }

  /** `n` opening brackets followed by `n` closing ones. */
  function Nested(n: nat): (text: bytes)
    ensures |text| == 2 * n
    ensures forall k :: 0 <= k < n ==> text[k] == '['
    ensures forall k :: n <= k < 2 * n ==> text[k] == ']'
  {
    seq(n, _ => '[') + seq(n, _ => ']')
  }

  /** The payload of `k` nested arrays, the innermost one empty. */
  function Nest(k: nat): Data
    requires k >= 1
  {
    if k == 1 then Array([]) else Array([Entry(Index(0), Of(Nest(k - 1)))])
  }

  /** What reading `k` nested arrays into `target` gives when the innermost
      one sits at depth `deepest`: a throw beyond the stack limit, otherwise
      the nested payload read without error up to `end`. */
  function NestOutcome(limit: nat, deepest: int, target: Value, k: nat, end: nat, errors: seq<ErrorInfo>): Outcome
    requires k >= 1
  {
    if deepest > limit then Thrown(StackLimitExceeded)
    else Parsed(target.(data := Nest(k)), true, end, errors)
  }

  lemma NestValid(k: nat)
    requires k >= 1
    ensures Valid(Of(Nest(k)))
  {
    if k > 1 {
      NestValid(k - 1);
      assert Sorted([Entry(Index(0), Of(Nest(k - 1)))]);
    }
  }

  lemma BracketToken(f: Features, text: bytes, i: nat)
    requires i < |text| && (text[i] == '[' || text[i] == ']')
    ensures ReadTokenSkippingComments(f, text, i) == Token(if text[i] == '[' then ArrayBegin else ArrayEnd, i, i + 1)
    ensures SkipSpaces(text, i) == i
  {
  }

  lemma StoreFirst(x: Value)
    requires Valid(x)
    ensures Valid(Of(Array([])))
    ensures SetIndex(Of(Array([])), 0, x) == Ok(Of(Array([Entry(Index(0), x)])))
  {
    var v := Of(Array([]));
    var es := Vivify([], Index(0));
    assert es == [Entry(Index(0), NullValueV)];
    assert ArrayReceiver(v) == v;
    var u := Update(v.(data := Array(es)), NullValueV);
    assert AtIndex(v, 0) == Ok(u);
    assert Assign(es, Index(0), x) == [Entry(Index(0), x)] + es[1..];
    assert es[1..] == [];
    assert Assign(es, Index(0), x) == [Entry(Index(0), x)];
    assert u.self.(data := Array(Assign(es, Index(0), x))) == Of(Array([Entry(Index(0), x)]));
    assert SetIndex(v, 0, x) == Ok(u.self.(data := Array(Assign(es, Index(0), x))));
  }

  lemma ReadAtOpen(f: Features, o: Oracles, text: bytes, i: nat, d: nat, target: Value, errors: seq<ErrorInfo>)
    requires i < |text| && text[i] == '[' && d <= f.stackLimit && Valid(target)
    ensures ReadValue(f, o, text, i, d, target, errors) == Adopt(target, ReadArray(f, o, text, i + 1, d, Of(Array([])), 0, errors))
  {
    BracketToken(f, text, i);
  }

  lemma ArrayAtClose(f: Features, o: Oracles, text: bytes, p: nat, d: nat, arr: Value, errors: seq<ErrorInfo>)
    requires p < |text| && text[p] == ']' && Valid(arr) && arr.data.Array?
    ensures ReadArray(f, o, text, p, d, arr, 0, errors) == Parsed(arr, true, p + 1, errors)
  {
    BracketToken(f, text, p);
  }

  lemma ArrayOfOne(f: Features, o: Oracles, text: bytes, p: nat, d: nat, errors: seq<ErrorInfo>)
    requires p < |text| && text[p] == '['
    ensures var inner := ReadValue(f, o, text, p, d + 1, NullValueV, errors);
      var r := ReadArray(f, o, text, p, d, Of(Array([])), 0, errors);
      && (inner.Thrown? ==> r == inner)
      && (inner.Parsed? && inner.ok && inner.pos < |text| && text[inner.pos] == ']' ==>
            r == Parsed(Of(Array([Entry(Index(0), inner.val)])), true, inner.pos + 1, errors))
  {
    BracketToken(f, text, p);
    var inner := ReadValue(f, o, text, p, d + 1, NullValueV, errors);
    if inner.Parsed? && inner.ok && inner.pos < |text| && text[inner.pos] == ']' {
      StoreFirst(inner.val);
      BracketToken(f, text, inner.pos);
    }
  }

  lemma DeepThrows(f: Features, o: Oracles, text: bytes, pos: nat, d: nat, target: Value, errors: seq<ErrorInfo>)
    requires pos <= |text| && d > f.stackLimit && Valid(target)
    ensures ReadValue(f, o, text, pos, d, target, errors) == Thrown(StackLimitExceeded)
  {
  }

  /** An opening bracket right before a closing one reads as an empty array. */
  lemma EmptyArrayRead(f: Features, o: Oracles, text: bytes, i: nat, d: nat, target: Value, errors: seq<ErrorInfo>)
    requires i + 1 < |text| && text[i] == '[' && text[i + 1] == ']' && d <= f.stackLimit && Valid(target)
    ensures ReadValue(f, o, text, i, d, target, errors) == Parsed(target.(data := Array([])), true, i + 2, errors)
  {
    ReadAtOpen(f, o, text, i, d, target, errors);
    ArrayAtClose(f, o, text, i + 1, d, Of(Array([])), errors);
  }

  /** An opening bracket before a value that reads without error and is
      followed by a closing bracket reads as an array of that one value; a
      throw inside passes through. */
  lemma OneElementRead(f: Features, o: Oracles, text: bytes, i: nat, d: nat, target: Value, errors: seq<ErrorInfo>)
    requires i + 1 < |text| && text[i] == '[' && text[i + 1] == '[' && d <= f.stackLimit && Valid(target)
    ensures var inner := ReadValue(f, o, text, i + 1, d + 1, NullValueV, errors);
      var r := ReadValue(f, o, text, i, d, target, errors);
      && (inner.Thrown? ==> r == inner)
      && (inner.Parsed? && inner.ok && inner.pos < |text| && text[inner.pos] == ']' ==>
            r == Parsed(target.(data := Array([Entry(Index(0), inner.val)])), true, inner.pos + 1, errors))
  {
    ReadAtOpen(f, o, text, i, d, target, errors);
    ArrayOfOne(f, o, text, i + 1, d, errors);
  }

  /** readValue on the `i`-th opening bracket of Nested(n) at depth `d`:
      it throws exactly when the innermost array's readValue runs deeper
      than the stack limit; otherwise it reads the remaining n - i levels
      and stops right after the matching closing bracket. */
  lemma {:induction false} NestedRead(f: Features, o: Oracles, n: nat, i: nat, d: nat,
                                      target: Value, errors: seq<ErrorInfo>)
    requires i < n && Valid(target)
    ensures ReadValue(f, o, Nested(n), i, d, target, errors)
         == NestOutcome(f.stackLimit, d + (n - i) - 1, target, n - i, 2 * n - i, errors)
    decreases n - i, 2
  {
    if d > f.stackLimit {
      DeepThrows(f, o, Nested(n), i, d, target, errors);
    } else {
      NestedReadWithin(f, o, n, i, d, target, errors);
    }
  }

  /** NestedRead where the array at bracket `i` is within the stack limit. */
  lemma {:induction false} NestedReadWithin(f: Features, o: Oracles, n: nat, i: nat, d: nat,
                                            target: Value, errors: seq<ErrorInfo>)
    requires i < n && Valid(target) && d <= f.stackLimit
    ensures ReadValue(f, o, Nested(n), i, d, target, errors)
         == NestOutcome(f.stackLimit, d + (n - i) - 1, target, n - i, 2 * n - i, errors)
    decreases n - i, 1
  {
    if i + 1 == n {
      EmptyArrayRead(f, o, Nested(n), i, d, target, errors);
    } else {
      NestedOuter(f, o, n, i, d, target, errors);
    }
  }

  /** NestedReadWithin for a bracket that is not the innermost one. */
  lemma {:induction false} NestedOuter(f: Features, o: Oracles, n: nat, i: nat, d: nat,
                                       target: Value, errors: seq<ErrorInfo>)
    requires i + 1 < n && Valid(target) && d <= f.stackLimit
    ensures ReadValue(f, o, Nested(n), i, d, target, errors)
         == NestOutcome(f.stackLimit, d + (n - i) - 1, target, n - i, 2 * n - i, errors)
    decreases n - i, 0
  {
    var text := Nested(n);
    var k, e := n - i - 1, 2 * n - i - 1;
    assert d + 1 + (n - (i + 1)) - 1 == d + k && 2 * n - (i + 1) == e && n - (i + 1) == k;
    NestedRead(f, o, n, i + 1, d + 1, NullValueV, errors);
    NestedStep(f, o, text, i, d, target, errors, k, e);
    assert d + k == d + (n - i) - 1 && k + 1 == n - i && e + 1 == 2 * n - i;
  }

  /** One level of NestedRead: the array at bracket `i` holds the `k`
      levels that the bracket after it reads, up to the closing bracket at
      `e`. */
  lemma NestedStep(f: Features, o: Oracles, text: bytes, i: nat, d: nat, target: Value, errors: seq<ErrorInfo>,
                   k: nat, e: nat)
    requires i + 1 < |text| && text[i] == '[' && text[i + 1] == '[' && e < |text| && text[e] == ']'
    requires d <= f.stackLimit && Valid(target) && k >= 1
    requires ReadValue(f, o, text, i + 1, d + 1, NullValueV, errors)
          == NestOutcome(f.stackLimit, d + k, NullValueV, k, e, errors)
    ensures ReadValue(f, o, text, i, d, target, errors)
         == NestOutcome(f.stackLimit, d + k, target, k + 1, e + 1, errors)
  {
    OneElementRead(f, o, text, i, d, target, errors);
  }

  lemma EndToken(f: Features, text: bytes)
    ensures ReadTokenSkippingComments(f, text, |text|).kind == EndOfStream
  {
  }

  lemma NoBomBeforeBracket(f: Features, text: bytes)
    requires |text| > 0 && text[0] == '['
    ensures SkipBom(text, f.skipBom) == 0
  {
  }

  /** A root value read without error up to the end of the document, and
      a container, is the result of the parse. */
  lemma WholeDocument(f: Features, o: Oracles, text: bytes, root: Value, v: Value)
    requires Valid(root) && IsContainer(v)
    requires RootRead(f, o, text, root) == Parsed(v, true, |text|, [])
    ensures Parse(f, o, text, root) == Finished(true, v, [], SkipBom(text, f.skipBom))
  {
    EndToken(f, text);
  }

  lemma RootReadNested(f: Features, o: Oracles, n: nat, root: Value)
    requires n >= 1 && Valid(root)
    ensures RootRead(f, o, Nested(n), root)
         == if n > f.stackLimit then Thrown(StackLimitExceeded)
            else Parsed(root.(data := Nest(n)), true, 2 * n, [])
  {
    NoBomBeforeBracket(f, Nested(n));
    NestedRead(f, o, n, 0, 1, root, []);
  }

  /** A document of `n` nested arrays is read without error when `n` is at
      most the stack limit, and throws otherwise. */
  lemma NestedDocument(f: Features, o: Oracles, n: nat, root: Value)
    requires n >= 1 && Valid(root)
    ensures Parse(f, o, Nested(n), root)
         == if n > f.stackLimit then Aborted(StackLimitExceeded)
            else Finished(true, root.(data := Nest(n)), [], 0)
  {
    var text := Nested(n);
    NoBomBeforeBracket(f, text);
    RootReadNested(f, o, n, root);
    if n <= f.stackLimit {
      WholeDocument(f, o, text, root, root.(data := Nest(n)));
    }
  }
}
