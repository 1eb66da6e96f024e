/** The element-access and mutation members of Json::Value
    (src/lib_json/json_value.cpp): auto-vivifying `operator[]`, `get`,
    `append`, `insert`, `removeIndex`, `resize`, `clear`, `front`/`back`.
    Each mutating member is a function from the receiver to an `Update`:
    the receiver afterwards plus what the call returned. A failed
    JSON_ASSERT is a `Fail`. */
module ValueAccess {
  import opened Wrappers
  import opened Bytes
  import opened ObjectValues
  import opened Values

  datatype Update<T> = Update(self: Value, out: T)

  /** `*this = Value(arrayValue)` on a null receiver. The copy-and-swap
      assignment also swaps in the fresh value's empty comments. */
  function ArrayReceiver(v: Value): (r: Value)
    requires v.data.Null? || v.data.Array?
    ensures r.data.Array? && Elems(r) == Elems(v)
    ensures r.comments == if v.data.Null? then NoComments else v.comments
  {
    if v.data.Null? then Value(Array([]), NoComments) else v
  }

  /** `map[k]` on a std::map: creates a null entry when `k` is absent. */
  function Vivify(es: seq<Entry<Value>>, k: Key): seq<Entry<Value>> {
    if Lookup(es, k).Some? then es else Assign(es, k, NullValueV)
  }

  lemma VivifySpec(es: seq<Entry<Value>>, j: nat)
    requires ArrayMap(es)
    ensures ArrayMap(Vivify(es, Index(j)))
    ensures Slot(Vivify(es, Index(j)), j) == Some(OrNull(Slot(es, j)))
    ensures forall k: nat :: k != j ==> Slot(Vivify(es, Index(j)), k) == Slot(es, k)
  {
    AssignSpec(es, Index(j), NullValueV);
    ArrayAssign(es, Index(j).index, NullValueV);
  }

  /** Mutable `operator[](ArrayIndex)`: a null receiver becomes an array; an
      absent index gets a null element; nothing else changes. */
  function AtIndex(v: Value, index: nat): (r: Result<Update<Value>>)
    requires Valid(v)
    ensures r.Ok? <==> v.data.Null? || v.data.Array?
    ensures r.Ok? ==> r.value.self.data.Array? && Valid(r.value.self)
    ensures r.Ok? ==> At(r.value.self, index) == Some(r.value.out)
    ensures r.Ok? ==> r.value.out == OrNull(At(v, index))
    ensures r.Ok? ==> forall j: nat :: j != index ==> At(r.value.self, j) == At(v, j)
    ensures r.Ok? ==> r.value.self.comments == if v.data.Null? then NoComments else v.comments
  {
    if !(v.data.Null? || v.data.Array?) then
      Fail("in Json::Value::operator[](ArrayIndex): requires arrayValue")
    else
      var recv := ArrayReceiver(v);
      VivifySpec(recv.data.elems, index);
      var es := Vivify(recv.data.elems, Index(index));
      Ok(Update(recv.(data := Array(es)), OrNull(At(v, index))))
  }

  /** `operator[](int)`: a negative index fails before the conversion. */
  function AtInt(v: Value, index: int): (r: Result<Update<Value>>)
    requires Valid(v)
    ensures index < 0 ==> r.Fail?
    ensures index >= 0 ==> r == AtIndex(v, index)
  {
    if index < 0 then Fail("in Json::Value::operator[](int index): index cannot be negative")
    else AtIndex(v, index)
  }

  /** Const `operator[](ArrayIndex)`: never mutates; a null receiver or an
      absent index reads as null. */
  function ConstAtIndex(v: Value, index: nat): (r: Result<Value>)
    ensures r.Ok? <==> v.data.Null? || v.data.Array?
    ensures r.Ok? && At(v, index).Some? ==> r.value == At(v, index).value
    ensures r.Ok? && At(v, index).None? ==> r.value == NullValueV
  {
    if !(v.data.Null? || v.data.Array?) then
      Fail("in Json::Value::operator[](ArrayIndex)const: requires arrayValue")
    else if v.data.Null? then Ok(NullValueV)
    else match Slot(v.data.elems, index)
      case None => Ok(NullValueV)
      case Some(x) => Ok(x)
  }

  /** The mutable access returns what the const access reads, and the entry
      it may create is invisible to later const reads. */
  lemma AtIndexAgreesWithConst(v: Value, index: nat, j: nat)
    requires Valid(v) && (v.data.Null? || v.data.Array?)
    ensures AtIndex(v, index).value.out == ConstAtIndex(v, index).value
    ensures ConstAtIndex(AtIndex(v, index).value.self, j) == ConstAtIndex(v, j)
  {
  }

  /** Repeating a mutable access changes nothing more. */
  lemma AtIndexIdempotent(v: Value, index: nat)
    requires Valid(v) && (v.data.Null? || v.data.Array?)
    ensures var u := AtIndex(v, index).value;
      AtIndex(u.self, index) == Ok(u)
  {
    var u := AtIndex(v, index).value;
    assert Slot(u.self.data.elems, index).Some?;
  }

  /** `get(index, defaultValue)`: the default replaces only an absent
      element (the const access returned the null singleton). */
  function GetIndex(v: Value, index: nat, default: Value): (r: Result<Value>)
    ensures r.Ok? <==> v.data.Null? || v.data.Array?
    ensures r.Ok? ==> r.value == At(v, index).GetOr(default)
  {
    if !(v.data.Null? || v.data.Array?) then
      Fail("in Json::Value::operator[](ArrayIndex)const: requires arrayValue")
    else Ok(At(v, index).GetOr(default))
  }

  /** `isValidIndex(index)`: `index < size()`. */
  function IsValidIndex(v: Value, index: nat): (r: bool)
    requires Valid(v)
  {
    index < Size(v)
  }

  /** On an array, an index is valid exactly when some element sits at or
      beyond it, so a hole below the last element is valid. Since size()
      of an object counts its members, an index below that count is
      "valid" for an object too; scalars have no valid index. */
  lemma IsValidIndexSpec(v: Value, index: nat)
    requires Valid(v)
    ensures v.data.Array? ==> (IsValidIndex(v, index) <==> exists j: nat :: index <= j && At(v, j).Some?)
    ensures v.data.Object? ==> (IsValidIndex(v, index) <==> index < |v.data.members|)
    ensures !IsContainer(v) ==> !IsValidIndex(v, index)
  {
    if v.data.Array? {
      SizeBounds(v);
      if IsValidIndex(v, index) {
        var w: nat := Size(v) - 1;
        assert index <= w && At(v, w).Some?;
      }
      if exists j: nat :: index <= j && At(v, j).Some? {
        var j: nat :| index <= j && At(v, j).Some?;
        assert j < Size(v);
      }
    }
  }

  /** `append(value)`: stores at index size(). */
  function Append(v: Value, x: Value): (r: Result<Update<Value>>)
    requires Valid(v) && Valid(x)
    ensures r.Ok? <==> v.data.Null? || v.data.Array?
    ensures r.Ok? ==> r.value.self.data.Array? && Valid(r.value.self) && r.value.out == x
    ensures r.Ok? ==> Size(r.value.self) == Size(v) + 1
    ensures r.Ok? ==> At(r.value.self, Size(v)) == Some(x)
    ensures r.Ok? ==> forall j: nat :: j != Size(v) ==> At(r.value.self, j) == At(v, j)
    ensures r.Ok? ==> r.value.self.comments == if v.data.Null? then NoComments else v.comments
  {
    if !(v.data.Null? || v.data.Array?) then Fail("in Json::Value::append: requires arrayValue")
    else
      var recv := ArrayReceiver(v);
      var n := Size(recv);
      AssignSpec(recv.data.elems, Index(n), x);
      ArrayAssign(recv.data.elems, n, x);
      var self := recv.(data := Array(Assign(recv.data.elems, Index(n), x)));
      SizeBounds(recv);
      forall j: nat | At(self, j).Some?
        ensures j < n + 1
      {
        if j != n { assert At(self, j) == At(recv, j); }
      }
      SizeFromElements(self, n + 1);
      Ok(Update(self, x))
  }

  /* ---- insert ---- */

  /** One pass of insert's loop, `(*this)[i] = std::move((*this)[i - 1])`:
      both slots are created if absent, then the move assignment swaps them. */
  function SwapDown(es: seq<Entry<Value>>, i: nat): seq<Entry<Value>>
    requires i > 0
  {
    var below := OrNull(Slot(es, i - 1));
    var here := OrNull(Slot(es, i));
    Assign(Assign(es, Index(i), below), Index(i - 1), here)
  }

  /** The loop `for (i = length; i > index; i--)`. */
  function ShiftUp(es: seq<Entry<Value>>, i: nat, index: nat): seq<Entry<Value>>
    decreases i
  {
    if i <= index then es else ShiftUp(SwapDown(es, i), i - 1, index)
  }

  /** What index `j` holds before the pass for `i`: below `i` the original
      element, at `i` the null bubble (nothing yet when `i == len`), above
      it the original element one index lower, a hole read as null. */
  function ShiftExpected(es0: seq<Entry<Value>>, len: nat, i: nat, j: nat): Option<Value> {
    if j < i then Slot(es0, j)
    else if j == i then (if i == len then None else Some(NullValueV))
    else if j <= len then Some(OrNull(Slot(es0, j - 1)))
    else None
  }

  ghost predicate ShiftState(es0: seq<Entry<Value>>, es: seq<Entry<Value>>, len: nat, i: nat) {
    && ArrayMap(es)
    && forall j: nat {:trigger ShiftExpected(es0, len, i, j)} :: Slot(es, j) == ShiftExpected(es0, len, i, j)
  }

  /** Storing two valid elements at two indices: each reads back, every
      other index is untouched. */
  lemma AssignTwice(es: seq<Entry<Value>>, a: nat, x: Value, b: nat, y: Value)
    requires ArrayMap(es) && Valid(x) && Valid(y) && a != b
    ensures ArrayMap(Assign(Assign(es, Index(a), x), Index(b), y))
    ensures forall j: nat ::
              Slot(Assign(Assign(es, Index(a), x), Index(b), y), j) ==
              (if j == a then Some(x) else if j == b then Some(y) else Slot(es, j))
  {
    var es1 := Assign(es, Index(a), x);
    AssignSpec(es, Index(a), x);
    ArrayAssign(es, a, x);
    AssignSpec(es1, Index(b), y);
    ArrayAssign(es1, b, y);
  }

  /** Elements of a valid array map are valid. */
  lemma LookupValid(es: seq<Entry<Value>>, j: nat)
    requires ArrayMap(es)
    ensures Valid(OrNull(Slot(es, j)))
  {
    if Slot(es, j).Some? { LookupSpec(es, Index(j)); }
  }

  lemma SwapDownStep(es0: seq<Entry<Value>>, es: seq<Entry<Value>>, len: nat, i: nat)
    requires 0 < i <= len && ShiftState(es0, es, len, i)
    ensures ShiftState(es0, SwapDown(es, i), len, i - 1)
  {
    var below := OrNull(Slot(es, i - 1));
    var here := OrNull(Slot(es, i));
    assert below == OrNull(Slot(es0, i - 1)) by {
      assert Slot(es, i - 1) == ShiftExpected(es0, len, i, i - 1);
    }
    assert here == NullValueV by {
      assert Slot(es, i) == ShiftExpected(es0, len, i, i);
    }
    LookupValid(es, i - 1);
    AssignTwice(es, i, below, i - 1, here);
    var es2 := SwapDown(es, i);
    forall j: nat
      ensures Slot(es2, j) == ShiftExpected(es0, len, i - 1, j)
    {
      assert Slot(es, j) == ShiftExpected(es0, len, i, j);
    }
  }

  lemma {:induction false} ShiftUpSpec(es0: seq<Entry<Value>>, es: seq<Entry<Value>>, len: nat, i: nat, index: nat)
    requires index <= i <= len && ShiftState(es0, es, len, i)
    ensures ShiftState(es0, ShiftUp(es, i, index), len, index)
    decreases i
  {
    if i > index {
      SwapDownStep(es0, es, len, i);
      ShiftUpSpec(es0, SwapDown(es, i), len, i - 1, index);
    }
  }

  /** The element at `j` after inserting `x` at `index`. */
  function InsertedAt(v: Value, index: nat, x: Value, j: nat): Option<Value>
    requires Valid(v)
  {
    if j < index then At(v, j)
    else if j == index then Some(x)
    else if j <= Size(v) then Some(OrNull(At(v, j - 1)))
    else None
  }

  /** `insert(index, newValue)`: false when `index > size()`; otherwise the
      elements from `index` up move one index higher (holes among them
      become null elements), `newValue` lands at `index`, and the size
      grows by one. */
  function Insert(v: Value, index: nat, x: Value): (r: Result<Update<bool>>)
    requires Valid(v) && Valid(x)
    ensures r.Ok? <==> v.data.Null? || v.data.Array?
    ensures r.Ok? ==> (r.value.out <==> index <= Size(v))
    ensures r.Ok? && !r.value.out ==> r.value.self == v
    ensures r.Ok? && r.value.out ==> r.value.self.data.Array? && Valid(r.value.self)
    ensures r.Ok? && r.value.out ==> Size(r.value.self) == Size(v) + 1
    ensures r.Ok? && r.value.out ==> forall j: nat :: At(r.value.self, j) == InsertedAt(v, index, x, j)
    ensures r.Ok? && r.value.out ==> r.value.self.comments == if v.data.Null? then NoComments else v.comments
  {
    if !(v.data.Null? || v.data.Array?) then Fail("in Json::Value::insert: requires arrayValue")
    else
      var len := Size(v);
      if index > len then Ok(Update(v, false))
      else
        var recv := ArrayReceiver(v);
        InsertLoop(v, index, x);
        var es := Assign(ShiftUp(recv.data.elems, len, index), Index(index), x);
        Ok(Update(recv.(data := Array(es)), true))
  }

  /** The proof of Insert's contract: the loop invariant, then the final store. */
  lemma InsertLoop(v: Value, index: nat, x: Value)
    requires Valid(v) && Valid(x) && (v.data.Null? || v.data.Array?) && index <= Size(v)
    ensures var recv := ArrayReceiver(v);
      var es := Assign(ShiftUp(recv.data.elems, Size(v), index), Index(index), x);
      && ArrayMap(es)
      && (forall j: nat :: Slot(es, j) == InsertedAt(v, index, x, j))
      && Size(recv.(data := Array(es))) == Size(v) + 1
  {
    var recv := ArrayReceiver(v);
    ShiftInit(v);
    ShiftUpSpec(Elems(v), Elems(v), Size(v), Size(v), index);
    var es1 := ShiftUp(Elems(v), Size(v), index);
    InsertStore(v, es1, index, x);
    InsertedSize(v, index, x, recv.(data := Array(Assign(es1, Index(index), x))));
  }

  /** Before the loop: nothing has moved yet and nothing lies at or above the size. */
  lemma ShiftInit(v: Value)
    requires Valid(v) && (v.data.Null? || v.data.Array?)
    ensures ShiftState(Elems(v), Elems(v), Size(v), Size(v))
  {
    var recv := ArrayReceiver(v);
    SizeBounds(recv);
    assert Size(recv) == Size(v);
    forall j: nat
      ensures Slot(Elems(v), j) == ShiftExpected(Elems(v), Size(v), Size(v), j)
    {
      assert Slot(Elems(v), j) == At(recv, j);
    }
  }

  /** After the loop, storing the new element yields the inserted layout. */
  lemma InsertStore(v: Value, es1: seq<Entry<Value>>, index: nat, x: Value)
    requires Valid(v) && Valid(x) && index <= Size(v)
    requires ShiftState(Elems(v), es1, Size(v), index)
    ensures ArrayMap(Assign(es1, Index(index), x))
    ensures forall j: nat :: Slot(Assign(es1, Index(index), x), j) == InsertedAt(v, index, x, j)
  {
    AssignSpec(es1, Index(index), x);
    ArrayAssign(es1, index, x);
    var es := Assign(es1, Index(index), x);
    forall j: nat
      ensures Slot(es, j) == InsertedAt(v, index, x, j)
    {
      assert Slot(es1, j) == ShiftExpected(Elems(v), Size(v), index, j);
    }
  }

  /** The inserted layout has size one more than before. */
  lemma InsertedSize(v: Value, index: nat, x: Value, self: Value)
    requires Valid(v) && index <= Size(v) && Valid(self) && self.data.Array?
    requires forall j: nat :: At(self, j) == InsertedAt(v, index, x, j)
    ensures Size(self) == Size(v) + 1
  {
    var len := Size(v);
    forall j: nat | At(self, j).Some?
      ensures j < len + 1
    {
      assert At(self, j) == InsertedAt(v, index, x, j);
    }
    assert At(self, len) == InsertedAt(v, index, x, len);
    SizeFromElements(self, len + 1);
  }

  /* ---- removeIndex ---- */

  /** One pass of removeIndex's loop, `(*value_.map_)[i] = (*this)[i + 1]`:
      the element above is created if absent, then copied down. */
  function CopyDown(es: seq<Entry<Value>>, i: nat): seq<Entry<Value>> {
    var above := OrNull(Slot(es, i + 1));
    Assign(Vivify(es, Index(i + 1)), Index(i), above)
  }

  /** The loop `for (i = index; i < oldSize - 1; ++i)`. */
  function ShiftDown(es: seq<Entry<Value>>, i: nat, last: nat): seq<Entry<Value>>
    decreases last - i
  {
    if i >= last then es else ShiftDown(CopyDown(es, i), i + 1, last)
  }

  /** What index `j` holds before the pass for `i`: below `index` the
      original element, from `index` up to `i` a copy of the element one
      index higher (a hole copied as null), and from `i` on the original
      element (the one at `i` already created). */
  function DownExpected(es0: seq<Entry<Value>>, index: nat, i: nat, j: nat): Option<Value> {
    if j < index then Slot(es0, j)
    else if j < i then Some(OrNull(Slot(es0, j + 1)))
    else if j == i then Some(OrNull(Slot(es0, i)))
    else Slot(es0, j)
  }

  ghost predicate DownState(es0: seq<Entry<Value>>, es: seq<Entry<Value>>, index: nat, i: nat) {
    && ArrayMap(es)
    && forall j: nat {:trigger DownExpected(es0, index, i, j)} :: Slot(es, j) == DownExpected(es0, index, i, j)
  }

  lemma CopyDownStep(es0: seq<Entry<Value>>, es: seq<Entry<Value>>, index: nat, i: nat)
    requires index <= i && DownState(es0, es, index, i)
    ensures DownState(es0, CopyDown(es, i), index, i + 1)
  {
    var above := OrNull(Slot(es, i + 1));
    assert Slot(es, i + 1) == DownExpected(es0, index, i, i + 1);
    LookupValid(es, i + 1);
    VivifySpec(es, i + 1);
    var es1 := Vivify(es, Index(i + 1));
    AssignSpec(es1, Index(i), above);
    ArrayAssign(es1, i, above);
    var es2 := CopyDown(es, i);
    forall j: nat
      ensures Slot(es2, j) == DownExpected(es0, index, i + 1, j)
    {
      assert Slot(es, j) == DownExpected(es0, index, i, j);
    }
  }

  lemma {:induction false} ShiftDownSpec(es0: seq<Entry<Value>>, es: seq<Entry<Value>>, index: nat, i: nat, last: nat)
    requires index <= i && DownState(es0, es, index, i)
    ensures DownState(es0, ShiftDown(es, i, last), index, if i >= last then i else last)
    decreases last - i
  {
    if i < last {
      CopyDownStep(es0, es, index, i);
      ShiftDownSpec(es0, CopyDown(es, i), index, i + 1, last);
    }
  }

  /** The element at `j` after removing the one at `index`. */
  function RemovedAt(v: Value, index: nat, j: nat): Option<Value>
    requires Valid(v)
  {
    if j < index then At(v, j)
    else if j + 1 < Size(v) then Some(OrNull(At(v, j + 1)))
    else None
  }

  /** `removeIndex(index, removed)`: false (None) for a non-array or an
      absent index; otherwise the removed element is returned, every later
      element moves one index down (holes among them become null
      elements) and the last index is erased. */
  function RemoveIndex(v: Value, index: nat): (r: Update<Option<Value>>)
    requires Valid(v)
    ensures r.out.None? <==> !v.data.Array? || At(v, index).None?
    ensures r.out.None? ==> r.self == v
    ensures r.out.Some? ==> Some(r.out.value) == At(v, index)
    ensures r.out.Some? ==> r.self.data.Array? && Valid(r.self) && r.self.comments == v.comments
    ensures r.out.Some? ==> forall j: nat :: At(r.self, j) == RemovedAt(v, index, j)
  {
    if !v.data.Array? then Update(v, None)
    else match Slot(v.data.elems, index)
      case None => Update(v, None)
      case Some(removed) =>
        RemoveLoop(v, index);
        var last: nat := Size(v) - 1;
        var es := Erase(ShiftDown(v.data.elems, index, last), Index(last));
        Update(v.(data := Array(es)), Some(removed))
  }

  lemma RemoveLoop(v: Value, index: nat)
    requires Valid(v) && v.data.Array? && At(v, index).Some?
    ensures Size(v) >= index + 1
    ensures var es := Erase(ShiftDown(v.data.elems, index, Size(v) - 1), Index(Size(v) - 1));
      && ArrayMap(es)
      && forall j: nat :: Slot(es, j) == RemovedAt(v, index, j)
  {
    var es0 := v.data.elems;
    SizeBounds(v);
    var last := Size(v) - 1;
    forall j: nat
      ensures Slot(es0, j) == DownExpected(es0, index, index, j)
    {
    }
    ShiftDownSpec(es0, es0, index, index, last);
    RemoveErase(v, index, ShiftDown(es0, index, last));
  }

  /** After the loop, erasing the last index yields the removed layout. */
  lemma RemoveErase(v: Value, index: nat, es1: seq<Entry<Value>>)
    requires Valid(v) && v.data.Array? && index < Size(v)
    requires DownState(v.data.elems, es1, index, Size(v) - 1)
    ensures ArrayMap(Erase(es1, Index(Size(v) - 1)))
    ensures forall j: nat :: Slot(Erase(es1, Index(Size(v) - 1)), j) == RemovedAt(v, index, j)
  {
    var last := Size(v) - 1;
    SizeBounds(v);
    EraseSpec(es1, Index(last));
    ArrayErase(es1, last);
    var es := Erase(es1, Index(last));
    forall j: nat
      ensures Slot(es, j) == RemovedAt(v, index, j)
    {
      assert Slot(es1, j) == DownExpected(v.data.elems, index, last, j);
      if j > last {
        assert At(v, j).None?;
      } else if j < last && index <= j {
        assert At(v, j + 1) == Slot(v.data.elems, j + 1);
      }
    }
  }

  /** The size after removeIndex: one less, except when the last element
      is removed and the index below it is a hole, where it drops further. */
  lemma RemoveIndexSize(v: Value, index: nat)
    requires Valid(v) && v.data.Array? && At(v, index).Some?
    ensures var r := RemoveIndex(v, index).self;
      && Size(r) < Size(v)
      && (Size(r) == Size(v) - 1 <==> index + 1 < Size(v) || Size(v) == 1 || At(v, Size(v) - 2).Some?)
  {
    var r := RemoveIndex(v, index).self;
    SizeBounds(v);
    SizeBounds(r);
    var n := Size(v);
    forall j: nat | At(r, j).Some?
      ensures j < n - 1
    {
      assert At(r, j) == RemovedAt(v, index, j);
    }
    if index + 1 < n {
      assert At(r, n - 2) == RemovedAt(v, index, n - 2);
      SizeFromElements(r, n - 1);
    } else if n >= 2 && At(v, n - 2).Some? {
      assert At(r, n - 2) == RemovedAt(v, index, n - 2);
      SizeFromElements(r, n - 1);
    } else if n == 1 {
      SizeFromElements(r, 0);
    } else {
      assert At(r, n - 2) == RemovedAt(v, index, n - 2);
    }
  }

  /** Removing what was just appended restores every index. */
  lemma AppendThenRemoveLast(v: Value, x: Value)
    requires Valid(v) && Valid(x) && (v.data.Null? || v.data.Array?)
    ensures var a := Append(v, x).value.self;
      var r := RemoveIndex(a, Size(v));
      && r.out == Some(x)
      && forall j: nat :: At(r.self, j) == At(v, j)
  {
    var a := Append(v, x).value.self;
    var r := RemoveIndex(a, Size(v));
    SizeBounds(ArrayReceiver(v));
    assert Size(ArrayReceiver(v)) == Size(v);
    forall j: nat
      ensures At(r.self, j) == At(v, j)
    {
      assert At(r.self, j) == RemovedAt(a, Size(v), j);
      assert At(ArrayReceiver(v), j) == At(v, j);
    }
  }

  /** Removing what was just inserted restores every index, except that
      holes from `index` up to the old size come back as null elements. */
  lemma InsertThenRemove(v: Value, index: nat, x: Value)
    requires Valid(v) && Valid(x) && (v.data.Null? || v.data.Array?) && index <= Size(v)
    ensures var a := Insert(v, index, x).value.self;
      var r := RemoveIndex(a, index);
      && r.out == Some(x)
      && forall j: nat :: At(r.self, j) ==
           if index <= j < Size(v) then Some(OrNull(At(v, j))) else At(v, j)
  {
    var a := Insert(v, index, x).value.self;
    var r := RemoveIndex(a, index);
    SizeBounds(ArrayReceiver(v));
    assert Size(ArrayReceiver(v)) == Size(v);
    assert At(a, index) == InsertedAt(v, index, x, index);
    forall j: nat
      ensures At(r.self, j) == if index <= j < Size(v) then Some(OrNull(At(v, j))) else At(v, j)
    {
      assert At(r.self, j) == RemovedAt(a, index, j);
      assert At(a, j) == InsertedAt(v, index, x, j);
      assert At(a, j + 1) == InsertedAt(v, index, x, j + 1);
      assert At(ArrayReceiver(v), j) == At(v, j);
    }
  }

  /* ---- resize and clear ---- */

  /** The growing loop of resize: `(*this)[i]` for i in [i, n). */
  function Grow(es: seq<Entry<Value>>, i: nat, n: nat): seq<Entry<Value>>
    decreases n - i
  {
    if i >= n then es else Grow(Vivify(es, Index(i)), i + 1, n)
  }

  /** The shrinking loop of resize: `map_->erase(index)` for index in [i, n). */
  function Truncate(es: seq<Entry<Value>>, i: nat, n: nat): seq<Entry<Value>>
    decreases n - i
  {
    if i >= n then es else Truncate(Erase(es, Index(i)), i + 1, n)
  }

  /** What index `j` holds once the growing loop, started at `lo`, has
      reached `i`. */
  function GrowExpected(es0: seq<Entry<Value>>, lo: nat, i: nat, j: nat): Option<Value> {
    if lo <= j < i then Some(OrNull(Slot(es0, j))) else Slot(es0, j)
  }

  /** What index `j` holds once the shrinking loop, started at `lo`, has
      reached `i`. */
  function TruncExpected(es0: seq<Entry<Value>>, lo: nat, i: nat, j: nat): Option<Value> {
    if lo <= j < i then None else Slot(es0, j)
  }

  lemma {:induction false} GrowSpec(es0: seq<Entry<Value>>, es: seq<Entry<Value>>, lo: nat, i: nat, n: nat)
    requires ArrayMap(es) && lo <= i
    requires forall j: nat {:trigger GrowExpected(es0, lo, i, j)} :: Slot(es, j) == GrowExpected(es0, lo, i, j)
    ensures ArrayMap(Grow(es, i, n))
    ensures forall j: nat :: Slot(Grow(es, i, n), j) == GrowExpected(es0, lo, if i >= n then i else n, j)
    decreases n - i
  {
    if i < n {
      var es1 := Vivify(es, Index(i));
      VivifySpec(es, i);
      forall j: nat
        ensures Slot(es1, j) == GrowExpected(es0, lo, i + 1, j)
      {
        assert Slot(es, j) == GrowExpected(es0, lo, i, j);
      }
      GrowSpec(es0, es1, lo, i + 1, n);
    }
  }

  lemma {:induction false} TruncateSpec(es0: seq<Entry<Value>>, es: seq<Entry<Value>>, lo: nat, i: nat, n: nat)
    requires ArrayMap(es) && lo <= i
    requires forall j: nat {:trigger TruncExpected(es0, lo, i, j)} :: Slot(es, j) == TruncExpected(es0, lo, i, j)
    ensures ArrayMap(Truncate(es, i, n))
    ensures forall j: nat :: Slot(Truncate(es, i, n), j) == TruncExpected(es0, lo, if i >= n then i else n, j)
    decreases n - i
  {
    if i < n {
      var es1 := Erase(es, Index(i));
      EraseSpec(es, Index(i));
      ArrayErase(es, i);
      forall j: nat
        ensures Slot(es1, j) == TruncExpected(es0, lo, i + 1, j)
      {
        assert Slot(es, j) == TruncExpected(es0, lo, i, j);
      }
      TruncateSpec(es0, es1, lo, i + 1, n);
    }
  }

  /** What index `j` of an array resized to `n` holds. */
  function ResizedAt(v: Value, n: nat, j: nat): Option<Value>
    requires Valid(v)
  {
    if j >= n then None
    else if j < Size(v) then At(v, j)
    else Some(NullValueV)
  }

  /** `resize(newSize)`: a null receiver becomes an array; growing creates
      null elements up to the new size; shrinking erases every index from
      the new size on and then asserts the size is the new size, which
      fails when index `newSize - 1` is a hole. */
  function Resize(v: Value, n: nat): (r: Result<Value>)
    requires Valid(v)
    ensures r.Ok? <==> (v.data.Null? || v.data.Array?) && (n == 0 || n > Size(v) || At(v, n - 1).Some?)
    ensures r.Ok? ==> r.value.data.Array? && Valid(r.value) && Size(r.value) == n
    ensures r.Ok? ==> forall j: nat :: At(r.value, j) == ResizedAt(v, n, j)
    ensures r.Ok? ==> r.value.comments == if v.data.Null? then NoComments else v.comments
    ensures r.Fail? ==> r.message == if v.data.Null? || v.data.Array? then "assert json failed"
                                     else "in Json::Value::resize(): requires arrayValue"
  {
    if !(v.data.Null? || v.data.Array?) then
      Fail("in Json::Value::resize(): requires arrayValue")
    else
      var recv := ArrayReceiver(v);
      var es0 := recv.data.elems;
      var oldSize := Size(recv);
      ResizeLoops(v, n);
      if n == 0 then
        Ok(recv.(data := Array([])))
      else if n > oldSize then
        Ok(recv.(data := Array(Grow(es0, oldSize, n))))
      else
        var shrunk := recv.(data := Array(Truncate(es0, n, oldSize)));
        if Size(shrunk) == n then Ok(shrunk) else Fail("assert json failed")
  }

  /** The facts the three branches of resize rest on. */
  lemma ResizeLoops(v: Value, n: nat)
    requires Valid(v) && (v.data.Null? || v.data.Array?)
    ensures Size(ArrayReceiver(v)) == Size(v)
    ensures forall j: nat :: At(ArrayReceiver(v), j) == At(v, j)
    ensures var recv := ArrayReceiver(v);
      && ArrayMap(Grow(recv.data.elems, Size(v), n))
      && (n > Size(v) ==> forall j: nat :: Slot(Grow(recv.data.elems, Size(v), n), j) == ResizedAt(v, n, j))
      && (n > Size(v) ==> Size(recv.(data := Array(Grow(recv.data.elems, Size(v), n)))) == n)
    ensures var recv := ArrayReceiver(v);
      && ArrayMap(Truncate(recv.data.elems, n, Size(v)))
      && (0 < n <= Size(v) ==>
            (Size(recv.(data := Array(Truncate(recv.data.elems, n, Size(v))))) == n <==> At(v, n - 1).Some?))
      && (0 < n <= Size(v) ==> forall j: nat :: Slot(Truncate(recv.data.elems, n, Size(v)), j) == ResizedAt(v, n, j))
  {
    ResizeGrows(v, n);
    ResizeTruncates(v, n);
  }

  /** The growing branch of resize. */
  lemma ResizeGrows(v: Value, n: nat)
    requires Valid(v) && (v.data.Null? || v.data.Array?)
    ensures Size(ArrayReceiver(v)) == Size(v)
    ensures forall j: nat :: At(ArrayReceiver(v), j) == At(v, j)
    ensures var recv := ArrayReceiver(v);
      && ArrayMap(Grow(recv.data.elems, Size(v), n))
      && (n > Size(v) ==> forall j: nat :: Slot(Grow(recv.data.elems, Size(v), n), j) == ResizedAt(v, n, j))
      && (n > Size(v) ==> Size(recv.(data := Array(Grow(recv.data.elems, Size(v), n)))) == n)
  {
    var recv := ArrayReceiver(v);
    var es0 := recv.data.elems;
    var oldSize := Size(v);
    SizeBounds(recv);
    GrowSpec(es0, es0, oldSize, oldSize, n);
    if n > oldSize {
      var g := recv.(data := Array(Grow(es0, oldSize, n)));
      forall j: nat
        ensures Slot(g.data.elems, j) == ResizedAt(v, n, j)
      {
        assert Slot(g.data.elems, j) == GrowExpected(es0, oldSize, n, j);
        assert At(recv, j) == At(v, j);
      }
      SizeFromElements(g, n);
    }
  }

  /** The shrinking branch of resize. */
  lemma ResizeTruncates(v: Value, n: nat)
    requires Valid(v) && (v.data.Null? || v.data.Array?)
    ensures var recv := ArrayReceiver(v);
      && ArrayMap(Truncate(recv.data.elems, n, Size(v)))
      && (0 < n <= Size(v) ==>
            (Size(recv.(data := Array(Truncate(recv.data.elems, n, Size(v))))) == n <==> At(v, n - 1).Some?))
      && (0 < n <= Size(v) ==> forall j: nat :: Slot(Truncate(recv.data.elems, n, Size(v)), j) == ResizedAt(v, n, j))
  {
    var recv := ArrayReceiver(v);
    var es0 := recv.data.elems;
    var oldSize := Size(v);
    SizeBounds(recv);
    TruncateSpec(es0, es0, n, n, oldSize);
    if 0 < n <= oldSize {
      var t := recv.(data := Array(Truncate(es0, n, oldSize)));
      forall j: nat
        ensures Slot(t.data.elems, j) == ResizedAt(v, n, j)
      {
        assert Slot(t.data.elems, j) == TruncExpected(es0, n, oldSize, j);
        assert At(recv, j) == At(v, j);
      }
      SizeBounds(t);
      if At(v, n - 1).Some? {
        SizeFromElements(t, n);
      } else {
        assert At(t, n - 1).None?;
      }
    }
  }

  /** Resizing an array to its own size leaves it exactly as it was. */
  lemma ResizeToOwnSize(v: Value)
    requires Valid(v) && v.data.Array?
    ensures Resize(v, Size(v)) == Ok(v)
  {
    ResizeLoops(v, Size(v));
    SizeBounds(v);
  }

  /** `clear()`: asserts on a scalar; empties an array or an object, keeping
      its type and comments; a null receiver stays null. */
  function Clear(v: Value): (r: Result<Value>)
    requires Valid(v)
    ensures r.Ok? <==> v.data.Null? || IsContainer(v)
    ensures r.Ok? ==> TypeOf(r.value) == TypeOf(v) && r.value.comments == v.comments
    ensures r.Ok? ==> Valid(r.value) && Empty(r.value) && Size(r.value) == 0
  {
    match v.data
    case Null => Ok(v)
    case Array(_) => Ok(v.(data := Array([])))
    case Object(_) => Ok(v.(data := Object([])))
    case _ => Fail("in Json::Value::clear(): requires complex value")
  }

  /* ---- front and back ---- */

  /** `front()`: `*begin()`, the entry with the least key. The source
      dereferences begin() of an empty container without a check. */
  function Front(v: Value): Value
    requires IsContainer(v) && |Items(v)| > 0
  {
    Items(v)[0].val
  }

  /** `back()`: `*(--end())`, the entry with the greatest key. */
  function Back(v: Value): Value
    requires IsContainer(v) && |Items(v)| > 0
  {
    Items(v)[|Items(v)| - 1].val
  }

  /** For an array, back() is the element at index size() - 1 and front()
      is the element at the least present index. */
  lemma FrontBackOfArray(v: Value)
    requires Valid(v) && v.data.Array? && |v.data.elems| > 0
    ensures At(v, Size(v) - 1) == Some(Back(v))
    ensures exists j: nat :: At(v, j) == Some(Front(v)) && forall k: nat :: k < j ==> At(v, k).None?
  {
    var es := v.data.elems;
    LookupSpec(es, es[|es| - 1].key);
    var f := es[0].key.index;
    LookupSpec(es, Index(f));
    assert At(v, f) == Some(Front(v));
    forall k: nat | k < f
      ensures At(v, k).None?
    {
      LookupSpec(es, Index(k));
      forall i | 0 <= i < |es|
        ensures es[i].key != Index(k)
      {
        if i > 0 { assert KeyLess(es[0].key, es[i].key); }
      }
    }
  }
}
