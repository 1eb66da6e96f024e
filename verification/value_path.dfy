/** Json::Path of src/lib_json/json_value.cpp: makePath turns a path text
    such as ".a[2].b" and up to five extra PathArguments (standing in for
    "%" and "[%]") into a list of index and name steps; resolve follows the
    steps through a value without changing it, and make follows them
    through the auto-vivifying `operator[]`. */
module ValuePath {
  import opened Wrappers
  import opened Bytes
  import opened ObjectValues
  import opened Values
  import opened ValueAccess
  import opened ValueMembers
  import opened StringWriter
  import opened NumberReader

  /** PathArgument: kindNone (the default-constructed filler), kindIndex or
      kindKey. */
  datatype PathArg = NoArg | IndexArg(index: nat) | KeyArg(key: bytes)

  /** An index PathArgument holds an ArrayIndex. */
  predicate ArgsInRange(args: seq<PathArg>) {
    forall i :: 0 <= i < |args| ==> (args[i].IndexArg? ==> args[i].index <= MaxUInt)
  }

  /** ArrayIndex arithmetic wraps modulo 2^32. */
  const ArrayIndexModulus: nat := 0x1_0000_0000

  /** The cursor of makePath, the next unused PathArgument, and the steps
      so far. */
  datatype PathState = PathState(pos: nat, next: nat, args: seq<PathArg>)

  /** addPathInArg: the next PathArgument is taken only if there is one
      and it has the wanted kind; otherwise nothing happens. */
  function AddInArg(ins: seq<PathArg>, s: PathState, wantIndex: bool): (t: PathState)
    requires s.next <= |ins|
    ensures t.pos == s.pos && t.next <= |ins|
    ensures t.next == s.next + 1 <==>
      s.next < |ins| && (if wantIndex then ins[s.next].IndexArg? else ins[s.next].KeyArg?)
    ensures t.next == s.next + 1 ==> t.args == s.args + [ins[s.next]]
    ensures t.next != s.next + 1 ==> t == s
  {
    if s.next == |ins| then s
    else if (if wantIndex then ins[s.next].IndexArg? else ins[s.next].KeyArg?) then
      s.(next := s.next + 1, args := s.args + [ins[s.next]])
    else s
  }

  /** The digit loop after '[': the first position that is not a digit,
      and the index accumulated left to right in ArrayIndex arithmetic. */
  function ScanIndex(path: bytes, pos: nat, acc: nat): (r: (nat, nat))
    requires pos <= |path| && acc < ArrayIndexModulus
    ensures pos <= r.0 <= |path| && r.1 < ArrayIndexModulus
    ensures AllDigits(path[pos..r.0]) && (r.0 == |path| || !IsDigit(path[r.0]))
    decreases |path| - pos
  {
    if pos < |path| && IsDigit(path[pos]) then
      var r := ScanIndex(path, pos + 1, (acc * 10 + DigitValue(path[pos])) % ArrayIndexModulus);
      assert path[pos..r.0] == [path[pos]] + path[pos + 1..r.0];
      r
    else (pos, acc)
  }

  /** Whether the name loop stops at byte `c`. As written it asks
      `strchr("[.", c)`, which also finds the string's terminating NUL. */
  predicate EndsName(c: byte, nulEndsName: bool) {
    c == '[' || c == '.' || (nulEndsName && c == 0 as char)
  }

  /** The end of a name that starts at `pos`. */
  function NameEnd(path: bytes, pos: nat, nulEndsName: bool): (q: nat)
    requires pos <= |path|
    ensures pos <= q <= |path|
    ensures q == |path| || EndsName(path[q], nulEndsName)
    ensures forall k :: pos <= k < q ==> !EndsName(path[k], nulEndsName)
    decreases |path| - pos
  {
    if pos < |path| && !EndsName(path[pos], nulEndsName) then NameEnd(path, pos + 1, nulEndsName)
    else pos
  }

  /** The steps makePath may produce: indices that fit an ArrayIndex, and
      names; never a kindNone argument. */
  predicate StepsInRange(args: seq<PathArg>) {
    forall i :: 0 <= i < |args| ==> !args[i].NoArg? && (args[i].IndexArg? ==> args[i].index <= MaxUInt)
  }

  /** One turn of makePath's loop at a cursor before the end. After the
      digits of "[n]" the source tests the byte AFTER the one it expects to
      be ']' (`*++current`), so that byte is passed over unseen; since
      invalidPath does nothing, a malformed index is silently accepted. */
  function Step(path: bytes, ins: seq<PathArg>, s: PathState, nulEndsName: bool): (t: PathState)
    requires s.pos < |path| && s.next <= |ins|
    ensures t.pos <= |path| && s.next <= t.next <= |ins|
    ensures !nulEndsName ==> t.pos > s.pos
    ensures |s.args| <= |t.args| <= |s.args| + 1 && t.args[..|s.args|] == s.args
    ensures ArgsInRange(ins) && StepsInRange(s.args) ==> StepsInRange(t.args)
  {
    var c := path[s.pos];
    if c == '[' then
      var p := s.pos + 1;
      if p < |path| && path[p] == '%' then
        AddInArg(ins, s, true).(pos := p + 1)
      else
        var (q, index) := ScanIndex(path, p, 0);
        PathState(if q == |path| then q else q + 1, s.next, s.args + [IndexArg(index)])
    else if c == '%' then
      AddInArg(ins, s, false).(pos := s.pos + 1)
    else if c == '.' || c == ']' then
      s.(pos := s.pos + 1)
    else
      var q := NameEnd(path, s.pos, nulEndsName);
      PathState(q, s.next, s.args + [KeyArg(path[s.pos..q])])
  }

  /** makePath's loop from state `s` to the end of the path, with the name
      loop stopping only at '[' and '.'. */
  function MakePathFrom(path: bytes, ins: seq<PathArg>, s: PathState): (t: PathState)
    requires s.pos <= |path| && s.next <= |ins|
    ensures t.pos == |path| && s.next <= t.next <= |ins|
    ensures |t.args| >= |s.args| && t.args[..|s.args|] == s.args
    ensures ArgsInRange(ins) && StepsInRange(s.args) ==> StepsInRange(t.args)
    decreases |path| - s.pos
  {
    if s.pos == |path| then s
    else
      var u := Step(path, ins, s, false);
      var t := MakePathFrom(path, ins, u);
      assert t.args[..|s.args|] == t.args[..|u.args|][..|s.args|];
      t
  }

  /** The Path constructor: the steps of the path text, with "%" and "[%]"
      taking the extra arguments in order. Every step is an index that fits
      an ArrayIndex or a name. */
  function MakePath(path: bytes, ins: seq<PathArg>): (args: seq<PathArg>)
    ensures ArgsInRange(ins) ==> StepsInRange(args)
  {
    MakePathFrom(path, ins, PathState(0, 0, [])).args
  }

  /** A name that reads back as one step after '.': not empty, without
      '[', '.' or a NUL byte (on which the source's loop never ends), and
      not starting with a byte the loop treats specially. */
  predicate PlainName(k: bytes) {
    && |k| > 0 && k[0] != '%' && k[0] != ']'
    && forall i :: 0 <= i < |k| ==> k[i] != '[' && k[i] != '.' && k[i] != 0 as char
  }

  /** The canonical text of a step: ".name" or "[n]". */
  function StepText(a: PathArg): bytes
    requires a.IndexArg? ==> a.index <= MaxUInt
  {
    match a
    case NoArg => []
    case IndexArg(i) => "[" + UIntText(i) + "]"
    case KeyArg(k) => "." + k
  }

  /** The text of a list of steps. */
  function PathText(args: seq<PathArg>): bytes
    requires ArgsInRange(args)
    decreases |args|
  {
    if |args| == 0 then [] else StepText(args[0]) + PathText(args[1..])
  }

  /** Steps that PathText writes and makePath reads back. */
  predicate Printable(args: seq<PathArg>) {
    && ArgsInRange(args)
    && forall i :: 0 <= i < |args| ==> !args[i].NoArg? && (args[i].KeyArg? ==> PlainName(args[i].key))
  }

  /** The digit loop reads the decimal value of a digit run below 2^32. */
  lemma {:induction false} ScanDigits(t: bytes, path: bytes, p0: nat, p: nat, acc: nat)
    requires p0 <= p <= p0 + |t| <= |path| && path[p0..p0 + |t|] == t
    requires AllDigits(t) && (p0 + |t| == |path| || !IsDigit(path[p0 + |t|]))
    requires DecimalValue(t) < ArrayIndexModulus
    requires AllDigits(t[..p - p0]) && acc == DecimalValue(t[..p - p0])
    ensures acc < ArrayIndexModulus
    ensures ScanIndex(path, p, acc) == (p0 + |t|, DecimalValue(t))
    decreases p0 + |t| - p
  {
    var k := p - p0;
    DecimalMonotone(t, k);
    if k < |t| {
      assert path[p] == t[k];
      assert AllDigits(t[..k + 1]);
      DecimalStep(t, k);
      var next := acc * 10 + DigitValue(t[k]);
      DecimalMonotone(t, k + 1);
      assert next % ArrayIndexModulus == next;
      ScanDigits(t, path, p0, p + 1, next);
    } else {
      assert t[..k] == t;
    }
  }

  /** The name loop ends at the first byte that ends a name. */
  lemma {:induction false} NameEndAt(path: bytes, pos: nat, e: nat, nulEndsName: bool)
    requires pos <= e <= |path|
    requires forall k :: pos <= k < e ==> !EndsName(path[k], nulEndsName)
    requires e == |path| || EndsName(path[e], nulEndsName)
    ensures NameEnd(path, pos, nulEndsName) == e
    decreases e - pos
  {
    if pos < e {
      NameEndAt(path, pos + 1, e, nulEndsName);
    }
  }

  /** A name step's text followed by a text that starts a new step. */
  lemma KeyTextStep(path: bytes, ins: seq<PathArg>, s: PathState, k: bytes)
    requires s.next <= |ins| && PlainName(k)
    requires s.pos + 1 + |k| <= |path| && path[s.pos..s.pos + 1 + |k|] == "." + k
    requires s.pos + 1 + |k| == |path| || path[s.pos + 1 + |k|] == '.' || path[s.pos + 1 + |k|] == '['
    ensures var t := Step(path, ins, s, false);
      t.pos == s.pos + 1 && Step(path, ins, t, false) == PathState(s.pos + 1 + |k|, s.next, s.args + [KeyArg(k)])
  {
    var e := s.pos + 1 + |k|;
    assert path[s.pos] == ("." + k)[0];
    forall i | 0 <= i < |k|
      ensures path[s.pos + 1 + i] == k[i]
    {
      assert path[s.pos + 1 + i] == path[s.pos..e][1 + i];
    }
    assert path[s.pos + 1] == k[0];
    NameEndAt(path, s.pos + 1, e, false);
    assert path[s.pos + 1..e] == path[s.pos..e][1..] == k;
  }

  /** An index step's text followed by a text that starts a new step. */
  lemma IndexTextStep(path: bytes, ins: seq<PathArg>, s: PathState, i: nat)
    requires s.next <= |ins| && i <= MaxUInt
    requires var d := UIntText(i);
      s.pos + 2 + |d| <= |path| && path[s.pos..s.pos + 2 + |d|] == "[" + d + "]"
    ensures Step(path, ins, s, false) == PathState(s.pos + 2 + |UIntText(i)|, s.next, s.args + [IndexArg(i)])
  {
    var d := UIntText(i);
    var p := s.pos + 1;
    var q := p + |d|;
    var w := "[" + d + "]";
    assert path[s.pos] == w[0];
    assert path[q] == w[1 + |d|];
    SubSlice(path, s.pos, s.pos + 2 + |d|, 1, 1 + |d|);
    assert w[1..1 + |d|] == d;
    if |d| > 0 {
      assert path[p] == d[0];
    }
    assert d[..0] == [];
    ScanDigits(d, path, p, p, 0);
  }

  lemma SubSlice(path: bytes, a: nat, b: nat, i: nat, j: nat)
    requires a <= b <= |path| && i <= j <= b - a
    ensures path[a..b][i..j] == path[a + i..a + j]
  {
    forall k | 0 <= k < j - i
      ensures path[a..b][i..j][k] == path[a + i..a + j][k]
    {
    }
  }

  /** The text of printable steps starts a new step. */
  lemma PathTextStart(args: seq<PathArg>)
    requires Printable(args)
    ensures PathText(args) == [] || PathText(args)[0] == '.' || PathText(args)[0] == '['
  {
    if |args| > 0 {
      assert PathText(args)[0] == StepText(args[0])[0];
    }
  }

  lemma SliceSplit(path: bytes, pos: nat, x: bytes, y: bytes)
    requires pos <= |path| && path[pos..] == x + y
    ensures pos + |x| <= |path| && path[pos..pos + |x|] == x && path[pos + |x|..] == y
  {
    assert path[pos..pos + |x|] == path[pos..][..|x|];
    assert path[pos + |x|..] == path[pos..][|x|..];
  }

  /** The text between the cursor and `rest` ends at a byte that starts
      a new step, or at the end. */
  lemma BeforeRest(path: bytes, pos: nat, text: bytes, rest: bytes)
    requires pos <= |path| && path[pos..] == text + rest
    requires rest == [] || rest[0] == '.' || rest[0] == '['
    ensures pos + |text| <= |path| && path[pos..pos + |text|] == text && path[pos + |text|..] == rest
    ensures pos + |text| == |path| || path[pos + |text|] == '.' || path[pos + |text|] == '['
  {
    SliceSplit(path, pos, text, rest);
    var e := pos + |text|;
    if e < |path| {
      assert path[e] == path[e..][0];
    }
  }

  /** A name step's text read at the cursor. */
  lemma ReadKeyText(path: bytes, k: bytes, rest: bytes, ins: seq<PathArg>, s: PathState)
    requires PlainName(k) && s.pos <= |path| && s.next <= |ins| && path[s.pos..] == ("." + k) + rest
    requires rest == [] || rest[0] == '.' || rest[0] == '['
    ensures s.pos + 1 + |k| <= |path| && path[s.pos + 1 + |k|..] == rest
    ensures MakePathFrom(path, ins, s) == MakePathFrom(path, ins, PathState(s.pos + 1 + |k|, s.next, s.args + [KeyArg(k)]))
  {
    BeforeRest(path, s.pos, "." + k, rest);
    KeyTextStep(path, ins, s, k);
    var t := Step(path, ins, s, false);
    LoopTurn(path, ins, s);
    LoopTurn(path, ins, t);
  }

  /** An index step's text read at the cursor. */
  lemma ReadIndexText(path: bytes, i: nat, rest: bytes, ins: seq<PathArg>, s: PathState)
    requires i <= MaxUInt && s.pos <= |path| && s.next <= |ins|
    requires path[s.pos..] == ("[" + UIntText(i) + "]") + rest
    requires rest == [] || rest[0] == '.' || rest[0] == '['
    ensures s.pos + 2 + |UIntText(i)| <= |path| && path[s.pos + 2 + |UIntText(i)|..] == rest
    ensures MakePathFrom(path, ins, s)
         == MakePathFrom(path, ins, PathState(s.pos + 2 + |UIntText(i)|, s.next, s.args + [IndexArg(i)]))
  {
    BeforeRest(path, s.pos, "[" + UIntText(i) + "]", rest);
    IndexTextStep(path, ins, s, i);
    LoopTurn(path, ins, s);
  }

  /** One turn of makePath's loop. */
  lemma LoopTurn(path: bytes, ins: seq<PathArg>, s: PathState)
    requires s.pos < |path| && s.next <= |ins|
    ensures MakePathFrom(path, ins, s) == MakePathFrom(path, ins, Step(path, ins, s, false))
  {
  }

  /** The first step of PathText(args) read at the cursor. */
  lemma ReadFirstStep(path: bytes, args: seq<PathArg>, ins: seq<PathArg>, s: PathState, u: PathState)
    requires Printable(args) && |args| > 0
    requires s.pos <= |path| && s.next <= |ins| && path[s.pos..] == PathText(args)
    requires u == PathState(s.pos + |StepText(args[0])|, s.next, s.args + [args[0]])
    ensures Printable(args[1..]) && u.pos <= |path|
    ensures path[u.pos..] == PathText(args[1..])
    ensures MakePathFrom(path, ins, s) == MakePathFrom(path, ins, u)
  {
    var rest := PathText(args[1..]);
    PrintableTail(args);
    assert PathText(args) == StepText(args[0]) + rest;
    PathTextStart(args[1..]);
    match args[0]
    case KeyArg(k) =>
      assert u == PathState(s.pos + 1 + |k|, s.next, s.args + [KeyArg(k)]);
      ReadKeyText(path, k, rest, ins, s);
    case IndexArg(i) =>
      assert u == PathState(s.pos + 2 + |UIntText(i)|, s.next, s.args + [IndexArg(i)]);
      ReadIndexText(path, i, rest, ins, s);
  }

  lemma PrintableTail(args: seq<PathArg>)
    requires Printable(args) && |args| > 0
    ensures Printable(args[1..]) && !args[0].NoArg? && (args[0].KeyArg? ==> PlainName(args[0].key))
  {
    forall i | 0 <= i < |args| - 1
      ensures args[1..][i] == args[i + 1]
    {
    }
  }

  /** Reading PathText(args) where it starts at the cursor appends `args`
      to the steps read so far. */
  lemma {:induction false} ReadBack(path: bytes, args: seq<PathArg>, ins: seq<PathArg>, s: PathState)
    requires Printable(args) && s.pos <= |path| && s.next <= |ins| && path[s.pos..] == PathText(args)
    ensures MakePathFrom(path, ins, s) == PathState(|path|, s.next, s.args + args)
    decreases |args|
  {
    if |args| == 0 {
      assert s.args + args == s.args;
    } else {
      var u := PathState(s.pos + |StepText(args[0])|, s.next, s.args + [args[0]]);
      ReadFirstStep(path, args, ins, s, u);
      ReadBack(path, args[1..], ins, u);
      AppendFirst(s.args, args);
    }
  }

  lemma AppendFirst(done: seq<PathArg>, args: seq<PathArg>)
    requires |args| > 0
    ensures (done + [args[0]]) + args[1..] == done + args
  {
  }

  /** makePath reads back the text of any printable steps, whatever extra
      arguments it is given. */
  lemma MakePathOfText(args: seq<PathArg>, ins: seq<PathArg>)
    requires Printable(args)
    ensures MakePath(PathText(args), ins) == args
  {
    ReadBack(PathText(args), args, ins, PathState(0, 0, []));
  }

  /** The element `index` of an array as the const `operator[]` reads it. */
  function Element(v: Value, index: nat): (r: Value)
    requires Valid(v) && v.data.Array?
    ensures Valid(r) && r == OrNull(At(v, index))
  {
    LookupValid(v.data.elems, index);
    OrNull(At(v, index))
  }

  /** `resolve(root)`: None where the source returns the null singleton
      because a step does not apply: an index into a non-array or at or
      beyond size(), a name into a non-object or one it lacks. A hole
      below size() reads as null and the walk goes on. */
  function Resolve(root: Value, args: seq<PathArg>): (r: Option<Value>)
    requires Valid(root)
    ensures r.Some? ==> Valid(r.value)
    decreases |args|
  {
    if |args| == 0 then Some(root)
    else match args[0]
      case NoArg => Resolve(root, args[1..])
      case IndexArg(i) =>
        if !root.data.Array? || !IsValidIndex(root, i) then None
        else Resolve(Element(root, i), args[1..])
      case KeyArg(k) =>
        if !root.data.Object? then None
        else match Member(root, k)
          case None => None
          case Some(x) => Resolve(x, args[1..])
  }

  /** `resolve(root, defaultValue)`: the same walk, giving the default
      where the other overload gives the null singleton. */
  function ResolveOr(root: Value, args: seq<PathArg>, default: Value): (r: Value)
    requires Valid(root)
    ensures Valid(default) ==> Valid(r)
    decreases |args|
  {
    if |args| == 0 then root
    else match args[0]
      case NoArg => ResolveOr(root, args[1..], default)
      case IndexArg(i) =>
        if !root.data.Array? || !IsValidIndex(root, i) then default
        else ResolveOr(Element(root, i), args[1..], default)
      case KeyArg(k) =>
        if !root.data.Object? then default
        else match Member(root, k)
          case None => default
          case Some(x) => ResolveOr(x, args[1..], default)
  }

  /** The two overloads agree: the default stands exactly for the null
      singleton. */
  lemma {:induction false} ResolveOrAgrees(root: Value, args: seq<PathArg>, default: Value)
    requires Valid(root)
    ensures ResolveOr(root, args, default) == Resolve(root, args).GetOr(default)
    decreases |args|
  {
    if |args| > 0 {
      match args[0]
      case NoArg => ResolveOrAgrees(root, args[1..], default);
      case IndexArg(i) =>
        if root.data.Array? && IsValidIndex(root, i) {
          ResolveOrAgrees(Element(root, i), args[1..], default);
        }
      case KeyArg(k) =>
        if root.data.Object? && Member(root, k).Some? {
          ResolveOrAgrees(Member(root, k).value, args[1..], default);
        }
    }
  }

  /** `make(root)`: each step goes through the mutable `operator[]`, which
      turns null into an array or object and creates a missing entry, and
      throws on any other type; the result is the root afterwards and the
      value at the end of the walk. */
  function Make(root: Value, args: seq<PathArg>): (r: Result<Update<Value>>)
    requires Valid(root)
    ensures r.Ok? ==> Valid(r.value.self) && Valid(r.value.out)
    decreases |args|
  {
    if |args| == 0 then Ok(Update(root, root))
    else match args[0]
      case NoArg => Make(root, args[1..])
      case IndexArg(i) =>
        var u :- AtIndex(root, i);
        LookupValid(ArrayReceiver(root).data.elems, i);
        var sub :- Make(u.out, args[1..]);
        Ok(Update(SetIndex(root, i, sub.self).value, sub.out))
      case KeyArg(k) =>
        var u :- AtName(root, k);
        var sub :- Make(u.out, args[1..]);
        Ok(Update(SetMember(root, k, sub.self).value, sub.out))
  }

  /** What make creates, resolve finds. */
  lemma {:induction false} MakeThenResolve(root: Value, args: seq<PathArg>)
    requires Valid(root) && Make(root, args).Ok?
    ensures Resolve(Make(root, args).value.self, args) == Some(Make(root, args).value.out)
    decreases |args|
  {
    if |args| > 0 {
      var self := Make(root, args).value.self;
      match args[0]
      case NoArg => MakeThenResolve(root, args[1..]);
      case IndexArg(i) =>
        var u := AtIndex(root, i).value;
        LookupValid(ArrayReceiver(root).data.elems, i);
        MakeThenResolve(u.out, args[1..]);
        var sub := Make(u.out, args[1..]).value;
        assert At(self, i) == Some(sub.self);
        IndexAtBelowSize(self, i);
      case KeyArg(k) =>
        var u := AtName(root, k).value;
        MakeThenResolve(u.out, args[1..]);
    }
  }

  /** An element that is present sits below size(). */
  lemma IndexAtBelowSize(v: Value, i: nat)
    requires Valid(v) && v.data.Array? && At(v, i).Some?
    ensures IsValidIndex(v, i)
  {
    IsValidIndexSpec(v, i);
  }

  /** Where resolve finds a value, make reaches the same value. */
  lemma {:induction false} ResolveThenMake(root: Value, args: seq<PathArg>)
    requires Valid(root) && Resolve(root, args).Some?
    ensures Make(root, args).Ok? && Make(root, args).value.out == Resolve(root, args).value
    decreases |args|
  {
    if |args| > 0 {
      match args[0]
      case NoArg => ResolveThenMake(root, args[1..]);
      case IndexArg(i) =>
        ResolveThenMake(Element(root, i), args[1..]);
      case KeyArg(k) =>
        ResolveThenMake(Member(root, k).value, args[1..]);
    }
  }

  /** On a path without NUL bytes, a turn of the loop as written and a turn
      of the corrected loop take the same step: the two loops differ only
      at a NUL. */
  lemma StepWithoutNul(path: bytes, ins: seq<PathArg>, s: PathState)
    requires s.pos < |path| && s.next <= |ins|
    requires forall i :: 0 <= i < |path| ==> path[i] != 0 as char
    ensures Step(path, ins, s, true) == Step(path, ins, s, false)
  {
    var c := path[s.pos];
    if !(c == '[' || c == '%' || c == '.' || c == ']') {
      var e := NameEnd(path, s.pos, false);
      NameEndAt(path, s.pos, e, true);
    }
  }

  /** makePath as written: the name loop also stops at a NUL byte, which
      no branch consumes, so at a NUL the loop makes no progress and
      appends an empty name on every turn. The corrected Step always
      advances, so MakePathFrom terminates. */
  lemma NulByteStallsMakePath(ins: seq<PathArg>, s: PathState)
    requires s.pos == 0 && s.next <= |ins|
    ensures var path: bytes := [0 as char];
      && Step(path, ins, s, true) == s.(args := s.args + [KeyArg([])])
      && Step(path, ins, s, false).pos == 1
  {
  }
}
