/** Ordering and equality of Json::Value (src/lib_json/json_value.cpp):
    `operator<`, `operator==` and `compare`. Values of different types order
    by their ValueType tag; containers compare by entry count first and then
    as std::map, i.e. lexicographically over (key, value) pairs. Comments
    take no part. */
module ValueCompare {
  import opened Bytes
  import opened ObjectValues
  import opened Values

  /** `<` on doubles: false whenever NaN is involved. */
  predicate DoubleLess(x: Double, y: Double) {
    if x.NaN? || y.NaN? then false
    else if x.NegInf? then !y.NegInf?
    else if y.PosInf? then !x.PosInf?
    else x.Finite? && y.Finite? && x.r < y.r
  }

  /** `==` on doubles: NaN equals nothing, itself included. */
  predicate DoubleEq(x: Double, y: Double) {
    !x.NaN? && x == y
  }

  function Sum(ws: seq<nat>): nat {
    if |ws| == 0 then 0 else ws[0] + Sum(ws[1..])
  }

  /** A termination measure: the number of values in a tree. */
  function Weight(v: Value): (w: nat)
    ensures w >= 1
    decreases v
  {
    match v.data
    case Array(es) => 1 + Sum(seq(|es|, i requires 0 <= i < |es| => Weight(es[i].val)))
    case Object(ms) => 1 + Sum(seq(|ms|, i requires 0 <= i < |ms| => Weight(ms[i].val)))
    case _ => 1
  }

  function EntriesWeight(es: seq<Entry<Value>>): nat {
    Sum(seq(|es|, i requires 0 <= i < |es| => Weight(es[i].val)))
  }

  lemma WeightOfContainer(v: Value)
    ensures v.data.Array? ==> Weight(v) == 1 + EntriesWeight(v.data.elems)
    ensures v.data.Object? ==> Weight(v) == 1 + EntriesWeight(v.data.members)
  {
  }

  lemma EntriesWeightCons(es: seq<Entry<Value>>)
    requires |es| > 0
    ensures EntriesWeight(es) == Weight(es[0].val) + EntriesWeight(es[1..])
  {
    var ws := seq(|es|, i requires 0 <= i < |es| => Weight(es[i].val));
    var ts := seq(|es| - 1, i requires 0 <= i < |es| - 1 => Weight(es[1..][i].val));
    assert ws[1..] == ts;
  }

  /** `Value::operator<`. */
  predicate Less(a: Value, b: Value)
    ensures Less(a, b) ==> Ordinal(TypeOf(a)) <= Ordinal(TypeOf(b))
    decreases Weight(a) + Weight(b), 0
  {
    var ta := Ordinal(TypeOf(a));
    var tb := Ordinal(TypeOf(b));
    if ta != tb then ta < tb
    else match (a.data, b.data)
      case (Int(x), Int(y)) => x < y
      case (UInt(x), UInt(y)) => x < y
      case (Real(x), Real(y)) => DoubleLess(x, y)
      case (Bool(x), Bool(y)) => !x && y
      case (Str(x), Str(y)) => BytesLess(x, y)
      case (Array(xs), Array(ys)) => if |xs| != |ys| then |xs| < |ys| else MapLess(xs, ys)
      case (Object(xs), Object(ys)) => if |xs| != |ys| then |xs| < |ys| else MapLess(xs, ys)
      case _ => false
  }

  /** std::pair's `<`: the key first, then the value on equivalent keys. */
  predicate PairLess(x: Entry<Value>, y: Entry<Value>)
    decreases Weight(x.val) + Weight(y.val), 1
  {
    KeyLess(x.key, y.key) || (!KeyLess(y.key, x.key) && Less(x.val, y.val))
  }

  /** std::map's `<`: std::lexicographical_compare over the entries. */
  predicate MapLess(xs: seq<Entry<Value>>, ys: seq<Entry<Value>>)
    decreases EntriesWeight(xs) + EntriesWeight(ys), 2
  {
    if |xs| == 0 then |ys| > 0
    else if |ys| == 0 then false
    else
      EntriesWeightCons(xs);
      EntriesWeightCons(ys);
      if PairLess(xs[0], ys[0]) then true
      else if PairLess(ys[0], xs[0]) then false
      else MapLess(xs[1..], ys[1..])
  }

  /** `Value::operator==`: same type and equal payload; containers need the
      same entry count and pairwise equal keys and values. */
  predicate Equal(a: Value, b: Value)
    ensures Equal(a, b) ==> TypeOf(a) == TypeOf(b)
    decreases a
  {
    match (a.data, b.data)
    case (Null, Null) => true
    case (Int(x), Int(y)) => x == y
    case (UInt(x), UInt(y)) => x == y
    case (Real(x), Real(y)) => DoubleEq(x, y)
    case (Bool(x), Bool(y)) => x == y
    case (Str(x), Str(y)) => x == y
    case (Array(xs), Array(ys)) =>
      |xs| == |ys| && forall i :: 0 <= i < |xs| ==> xs[i].key == ys[i].key && Equal(xs[i].val, ys[i].val)
    case (Object(xs), Object(ys)) =>
      |xs| == |ys| && forall i :: 0 <= i < |xs| ==> xs[i].key == ys[i].key && Equal(xs[i].val, ys[i].val)
    case _ => false
  }

  /** `compare`: -1, 1 or 0 through two `<` tests. */
  function Compare(a: Value, b: Value): (r: int)
    ensures r == -1 <==> Less(a, b)
    ensures r == 1 <==> Less(b, a)
    ensures r == 0 <==> !Less(a, b) && !Less(b, a)
  {
    LessAsymmetric(a, b);
    LessAsymmetric(b, a);
    if Less(a, b) then -1 else if Less(b, a) then 1 else 0
  }

  /** No double in the tree is NaN. */
  predicate NoNaN(v: Value)
    decreases v
  {
    match v.data
    case Real(d) => !d.NaN?
    case Array(es) => forall i :: 0 <= i < |es| ==> NoNaN(es[i].val)
    case Object(ms) => forall i :: 0 <= i < |ms| ==> NoNaN(ms[i].val)
    case _ => true
  }

  lemma DoubleLessOrder(x: Double, y: Double, z: Double)
    ensures !DoubleLess(x, x)
    ensures DoubleLess(x, y) ==> !DoubleLess(y, x)
    ensures DoubleLess(x, y) && DoubleLess(y, z) ==> DoubleLess(x, z)
    ensures !x.NaN? && !y.NaN? ==> DoubleLess(x, y) || DoubleEq(x, y) || DoubleLess(y, x)
  {
  }

  /** The entries' weight is at least that of any one value in it. */
  lemma {:induction false} EntryWeight(es: seq<Entry<Value>>, i: nat)
    requires i < |es|
    ensures Weight(es[i].val) <= EntriesWeight(es)
    decreases i
  {
    EntriesWeightCons(es);
    if i > 0 {
      EntryWeight(es[1..], i - 1);
      assert es[1..][i - 1] == es[i];
    }
  }

  /** `<` is irreflexive on every value, NaN included. */
  lemma {:induction false} LessIrreflexive(a: Value)
    ensures !Less(a, a)
    decreases Weight(a), 0
  {
    match a.data
    case Str(x) => BytesLessIrreflexive(x);
    case Array(xs) => MapLessIrreflexive(xs);
    case Object(xs) => MapLessIrreflexive(xs);
    case _ =>
  }

  lemma {:induction false} MapLessIrreflexive(xs: seq<Entry<Value>>)
    ensures !MapLess(xs, xs)
    decreases EntriesWeight(xs), 1
  {
    if |xs| > 0 {
      KeyLessTotal(xs[0].key, xs[0].key);
      EntriesWeightCons(xs);
      LessIrreflexive(xs[0].val);
      MapLessIrreflexive(xs[1..]);
    }
  }

  /** `<` is asymmetric on every value, NaN included. */
  lemma {:induction false} LessAsymmetric(a: Value, b: Value)
    ensures Less(a, b) ==> !Less(b, a)
    decreases Weight(a) + Weight(b), 0
  {
    if TypeOf(a) == TypeOf(b) {
      match (a.data, b.data)
      case (Str(x), Str(y)) => BytesLessTrichotomy(x, y);
      case (Array(xs), Array(ys)) => MapLessAsymmetric(xs, ys);
      case (Object(xs), Object(ys)) => MapLessAsymmetric(xs, ys);
      case _ =>
    }
  }

  lemma {:induction false} MapLessAsymmetric(xs: seq<Entry<Value>>, ys: seq<Entry<Value>>)
    ensures MapLess(xs, ys) ==> !MapLess(ys, xs)
    decreases EntriesWeight(xs) + EntriesWeight(ys), 1
  {
    if |xs| > 0 && |ys| > 0 {
      EntriesWeightCons(xs);
      EntriesWeightCons(ys);
      KeyLessTotal(xs[0].key, ys[0].key);
      LessAsymmetric(xs[0].val, ys[0].val);
      assert PairLess(xs[0], ys[0]) ==> !PairLess(ys[0], xs[0]);
      MapLessAsymmetric(xs[1..], ys[1..]);
    }
  }

  /** Pairwise equal entries, the container case of Equal. */
  predicate EntriesEqual(xs: seq<Entry<Value>>, ys: seq<Entry<Value>>) {
    |xs| == |ys| && forall i :: 0 <= i < |xs| ==> xs[i].key == ys[i].key && Equal(xs[i].val, ys[i].val)
  }

  lemma EntriesEqualTail(xs: seq<Entry<Value>>, ys: seq<Entry<Value>>)
    requires |xs| > 0 && EntriesEqual(xs, ys)
    ensures EntriesEqual(xs[1..], ys[1..])
  {
    forall i | 0 <= i < |xs| - 1
      ensures xs[1..][i].key == ys[1..][i].key && Equal(xs[1..][i].val, ys[1..][i].val)
    {
      assert xs[1..][i] == xs[i + 1] && ys[1..][i] == ys[i + 1];
    }
  }

  /** `==` is symmetric. */
  lemma {:induction false} EqualSymmetric(a: Value, b: Value)
    ensures Equal(a, b) ==> Equal(b, a)
    decreases a
  {
    if Equal(a, b) {
      match (a.data, b.data)
      case (Array(xs), Array(ys)) =>
        forall i | 0 <= i < |ys| ensures ys[i].key == xs[i].key && Equal(ys[i].val, xs[i].val) {
          EqualSymmetric(xs[i].val, ys[i].val);
        }
      case (Object(xs), Object(ys)) =>
        forall i | 0 <= i < |ys| ensures ys[i].key == xs[i].key && Equal(ys[i].val, xs[i].val) {
          EqualSymmetric(xs[i].val, ys[i].val);
        }
      case _ =>
    }
  }

  /** `==` is reflexive exactly on the trees without NaN. */
  lemma {:induction false} EqualReflexive(a: Value)
    ensures Equal(a, a) <==> NoNaN(a)
    decreases a
  {
    match a.data
    case Array(xs) =>
      forall i | 0 <= i < |xs| ensures Equal(xs[i].val, xs[i].val) <==> NoNaN(xs[i].val) {
        EqualReflexive(xs[i].val);
      }
    case Object(xs) =>
      forall i | 0 <= i < |xs| ensures Equal(xs[i].val, xs[i].val) <==> NoNaN(xs[i].val) {
        EqualReflexive(xs[i].val);
      }
    case _ =>
  }

  /** A NaN double is unequal to itself, yet `compare` calls it equivalent. */
  lemma NaNSelfCompare()
    ensures !Equal(Of(Real(NaN)), Of(Real(NaN)))
    ensures Compare(Of(Real(NaN)), Of(Real(NaN))) == 0
  {
    LessIrreflexive(Of(Real(NaN)));
  }

  /** Values of different types are ordered by their ValueType enumerators
      alone, whatever their payloads: null first, then int, uint, real,
      string, boolean, array and object. */
  lemma TypeOrderDrivesLess(a: Value, b: Value)
    requires TypeOf(a) != TypeOf(b)
    ensures Less(a, b) <==> Ordinal(TypeOf(a)) < Ordinal(TypeOf(b))
    ensures Less(a, b) || Less(b, a)
  {
  }

  /** With a NaN inside, `<` is not transitive: the NaN entries compare
      neither way, so the next entries decide, and the three arrays below
      form a cycle. */
  lemma NaNBreaksTransitivity()
    ensures var x := Of(Array([Entry(Index(0), Of(Real(NaN))), Entry(Index(1), Of(Int(0)))]));
            var y := Of(Array([Entry(Index(0), Of(Real(Finite(5.0)))), Entry(Index(1), Of(Int(1)))]));
            var z := Of(Array([Entry(Index(0), Of(Real(Finite(6.0)))), Entry(Index(1), Of(Int(-1)))]));
            Less(x, y) && Less(y, z) && !Less(x, z)
  {
    var x0, x1 := Entry(Index(0), Of(Real(NaN))), Entry(Index(1), Of(Int(0)));
    var y0, y1 := Entry(Index(0), Of(Real(Finite(5.0)))), Entry(Index(1), Of(Int(1)));
    var z0, z1 := Entry(Index(0), Of(Real(Finite(6.0)))), Entry(Index(1), Of(Int(-1)));
    assert !PairLess(x0, y0) && !PairLess(y0, x0) && PairLess(x1, y1);
    assert [x0, x1][1..] == [x1] && [y0, y1][1..] == [y1] && [z0, z1][1..] == [z1];
    assert MapLess([x1], [y1]);
    assert MapLess([x0, x1], [y0, y1]);
    assert PairLess(y0, z0);
    assert MapLess([y0, y1], [z0, z1]);
    assert !PairLess(x0, z0) && !PairLess(z0, x0) && PairLess(z1, x1) && !PairLess(x1, z1);
    assert !MapLess([x1], [z1]);
    assert !MapLess([x0, x1], [z0, z1]);
  }

  /** Equal values are unordered by `<` in both directions. */
  lemma {:induction false} EqualNotLess(a: Value, b: Value)
    requires Equal(a, b)
    ensures !Less(a, b) && !Less(b, a)
    decreases Weight(a) + Weight(b), 0
  {
    match (a.data, b.data)
    case (Str(x), Str(y)) => BytesLessIrreflexive(x);
    case (Real(x), Real(y)) => DoubleLessOrder(x, y, y);
    case (Array(xs), Array(ys)) => EntriesEqualNotLess(xs, ys);
    case (Object(xs), Object(ys)) => EntriesEqualNotLess(xs, ys);
    case _ =>
  }

  lemma {:induction false} EntriesEqualNotLess(xs: seq<Entry<Value>>, ys: seq<Entry<Value>>)
    requires EntriesEqual(xs, ys)
    ensures !MapLess(xs, ys) && !MapLess(ys, xs)
    decreases EntriesWeight(xs) + EntriesWeight(ys), 1
  {
    if |xs| > 0 {
      EntriesWeightCons(xs);
      EntriesWeightCons(ys);
      KeyLessTotal(xs[0].key, ys[0].key);
      EqualNotLess(xs[0].val, ys[0].val);
      assert !PairLess(xs[0], ys[0]) && !PairLess(ys[0], xs[0]);
      EntriesEqualTail(xs, ys);
      EntriesEqualNotLess(xs[1..], ys[1..]);
    }
  }

  /** Without NaN, `<` and `==` are trichotomous. */
  lemma {:induction false} LessTrichotomy(a: Value, b: Value)
    requires NoNaN(a) && NoNaN(b)
    ensures Less(a, b) || Equal(a, b) || Less(b, a)
    decreases Weight(a) + Weight(b), 0
  {
    if TypeOf(a) == TypeOf(b) {
      match (a.data, b.data)
      case (Str(x), Str(y)) => BytesLessTrichotomy(x, y);
      case (Real(x), Real(y)) => DoubleLessOrder(x, y, y);
      case (Array(xs), Array(ys)) =>
        if |xs| == |ys| { EntriesTrichotomy(xs, ys); }
      case (Object(xs), Object(ys)) =>
        if |xs| == |ys| { EntriesTrichotomy(xs, ys); }
      case _ =>
    }
  }

  lemma {:induction false} EntriesTrichotomy(xs: seq<Entry<Value>>, ys: seq<Entry<Value>>)
    requires |xs| == |ys|
    requires forall i :: 0 <= i < |xs| ==> NoNaN(xs[i].val)
    requires forall i :: 0 <= i < |ys| ==> NoNaN(ys[i].val)
    ensures MapLess(xs, ys) || EntriesEqual(xs, ys) || MapLess(ys, xs)
    decreases EntriesWeight(xs) + EntriesWeight(ys), 1
  {
    if |xs| > 0 {
      EntriesWeightCons(xs);
      EntriesWeightCons(ys);
      KeyLessTotal(xs[0].key, ys[0].key);
      LessTrichotomy(xs[0].val, ys[0].val);
      if !PairLess(xs[0], ys[0]) && !PairLess(ys[0], xs[0]) {
        assert xs[0].key == ys[0].key && Equal(xs[0].val, ys[0].val);
        forall i | 0 <= i < |xs| - 1 ensures NoNaN(xs[1..][i].val) && NoNaN(ys[1..][i].val) {
          assert xs[1..][i] == xs[i + 1] && ys[1..][i] == ys[i + 1];
        }
        EntriesTrichotomy(xs[1..], ys[1..]);
        if EntriesEqual(xs[1..], ys[1..]) {
          forall i | 0 <= i < |xs| ensures xs[i].key == ys[i].key && Equal(xs[i].val, ys[i].val) {
            if i > 0 {
              assert xs[1..][i - 1] == xs[i] && ys[1..][i - 1] == ys[i];
            }
          }
        }
      }
    }
  }

  /** Without NaN, `compare` answers 0 exactly for values `==` calls equal. */
  lemma CompareZeroIffEqual(a: Value, b: Value)
    requires NoNaN(a) && NoNaN(b)
    ensures Compare(a, b) == 0 <==> Equal(a, b)
  {
    LessTrichotomy(a, b);
    if Equal(a, b) {
      EqualNotLess(a, b);
    }
  }
}
