/** The member side of Json::Value (src/lib_json/json_value.cpp): the
    auto-vivifying `operator[](String)` (resolveReference), `find`, the
    const `operator[]`, `get`, `isMember`, both `removeMember` forms,
    `getMemberNames`, and assignment through the reference `operator[]`
    returns, for member names and for array indices. */
module ValueMembers {
  import opened Wrappers
  import opened Bytes
  import opened ObjectValues
  import opened Values
  import opened ValueAccess

  /** The member an object value binds to `name`, if any (none for any other
      value). */
  function Member(v: Value, name: bytes): (r: Option<Value>)
    ensures Valid(v) && r.Some? ==> Valid(r.value)
  {
    if v.data.Object? then
      MemberValid(v, name);
      Lookup(v.data.members, Name(name))
    else None
  }

  lemma MemberValid(v: Value, name: bytes)
    requires v.data.Object?
    ensures Valid(v) && Lookup(v.data.members, Name(name)).Some? ==> Valid(Lookup(v.data.members, Name(name)).value)
  {
    if Valid(v) {
      LookupSpec(v.data.members, Name(name));
    }
  }

  /** Some entry of the object's map carries `name`. */
  ghost predicate Listed(v: Value, name: bytes)
    requires v.data.Object?
  {
    exists i :: 0 <= i < |v.data.members| && v.data.members[i].key == Name(name)
  }

  /** Member agrees with the entries of the map. */
  lemma MemberSpec(v: Value, name: bytes)
    requires Valid(v)
    ensures v.data.Object? ==> (Member(v, name).Some? <==> Listed(v, name))
    ensures v.data.Object? ==> forall i :: 0 <= i < |v.data.members| && v.data.members[i].key == Name(name) ==>
      Member(v, name) == Some(v.data.members[i].val)
  {
    if v.data.Object? {
      LookupSpec(v.data.members, Name(name));
    }
  }

  /** `*this = Value(objectValue)` on a null receiver, which also swaps in
      the fresh value's empty comments. */
  function ObjectReceiver(v: Value): (r: Value)
    requires v.data.Null? || v.data.Object?
    ensures r.data.Object? && (v.data.Object? ==> r == v)
    ensures v.data.Null? ==> |r.data.members| == 0
    ensures r.comments == if v.data.Null? then NoComments else v.comments
  {
    if v.data.Null? then Value(Object([]), NoComments) else v
  }

  /** Mutable `operator[](String)`, i.e. resolveReference: a null receiver
      becomes an object; an absent name gets a null member; nothing else
      changes. */
  function AtName(v: Value, name: bytes): (r: Result<Update<Value>>)
    requires Valid(v)
    ensures r.Ok? <==> v.data.Null? || v.data.Object?
    ensures r.Ok? ==> r.value.self.data.Object? && Valid(r.value.self)
    ensures r.Ok? ==> Member(r.value.self, name) == Some(r.value.out)
    ensures r.Ok? ==> r.value.out == OrNull(Member(v, name))
    ensures r.Ok? ==> forall n :: n != name ==> Member(r.value.self, n) == Member(v, n)
    ensures r.Ok? ==> Size(r.value.self) == Size(v) + (if Member(v, name).Some? then 0 else 1)
    ensures r.Ok? ==> r.value.self.comments == if v.data.Null? then NoComments else v.comments
  {
    if !(v.data.Null? || v.data.Object?) then
      Fail("in Json::Value::resolveReference(key, end): requires objectValue")
    else
      var recv := ObjectReceiver(v);
      var ms := recv.data.members;
      LookupSpec(ms, Name(name));
      match Lookup(ms, Name(name))
      case Some(x) => Ok(Update(recv, x))
      case None =>
        ObjectAssign(ms, name, NullValueV);
        AssignSpec(ms, Name(name), NullValueV);
        Ok(Update(recv.(data := Object(Assign(ms, Name(name), NullValueV))), NullValueV))
  }

  /** `find(begin, end)`: asserts on anything but null or an object; null
      finds nothing; an object yields the value of the entry carrying the
      name, if there is one. */
  function Find(v: Value, name: bytes): (r: Result<Option<Value>>)
    requires Valid(v)
    ensures r.Ok? <==> v.data.Null? || v.data.Object?
    ensures v.data.Null? ==> r == Ok(None)
    ensures r.Ok? && v.data.Object? ==> (r.value.Some? <==> Listed(v, name))
    ensures r.Ok? && r.value.Some? ==>
      exists i :: 0 <= i < |v.data.members| && v.data.members[i] == Entry(Name(name), r.value.value)
  {
    if v.data.Null? then Ok(None)
    else if !v.data.Object? then
      Fail("in Json::Value::find(begin, end): requires objectValue or nullValue")
    else
      LookupSpec(v.data.members, Name(name));
      var found := Lookup(v.data.members, Name(name));
      if found.Some? then
        var i :| 0 <= i < |v.data.members| && v.data.members[i].key == Name(name);
        assert v.data.members[i] == Entry(Name(name), found.value);
        Ok(found)
      else
        Ok(found)
  }

  /** Const `operator[](String)`: the found member, or null. */
  function ConstAtName(v: Value, name: bytes): (r: Result<Value>)
    requires Valid(v)
    ensures r.Ok? <==> v.data.Null? || v.data.Object?
    ensures r.Ok? ==> r.value == OrNull(Member(v, name))
  {
    var found :- Find(v, name);
    MemberSpec(v, name);
    Ok(OrNull(found))
  }

  /** `get(key, defaultValue)`: the found member, or the default. */
  function GetByName(v: Value, name: bytes, default: Value): (r: Result<Value>)
    requires Valid(v)
    ensures r.Ok? <==> v.data.Null? || v.data.Object?
    ensures r.Ok? ==> r.value == Member(v, name).GetOr(default)
  {
    var found :- Find(v, name);
    MemberSpec(v, name);
    Ok(found.GetOr(default))
  }

  /** `isMember(key)`: whether `find` succeeds. */
  function IsMember(v: Value, name: bytes): (r: Result<bool>)
    requires Valid(v)
    ensures r.Ok? <==> v.data.Null? || v.data.Object?
    ensures r.Ok? ==> (r.value <==> Member(v, name).Some?)
  {
    var found :- Find(v, name);
    MemberSpec(v, name);
    Ok(found.Some?)
  }

  /** `removeMember(begin, end, removed)`: false (None) without asserting
      for a non-object or an absent name; otherwise the member is handed
      back and erased, and nothing else changes. */
  function RemoveMember(v: Value, name: bytes): (r: Update<Option<Value>>)
    requires Valid(v)
    ensures r.out == Member(v, name)
    ensures r.out.None? ==> r.self == v
    ensures r.out.Some? ==> r.self.data.Object? && Valid(r.self) && r.self.comments == v.comments
    ensures r.out.Some? ==> Member(r.self, name).None? && Size(r.self) + 1 == Size(v)
    ensures forall n :: n != name ==> Member(r.self, n) == Member(v, n)
  {
    if !v.data.Object? then Update(v, None)
    else
      var ms := v.data.members;
      match Lookup(ms, Name(name))
      case None => Update(v, None)
      case Some(x) =>
        LookupSpec(ms, Name(name));
        EraseSpec(ms, Name(name));
        ObjectErase(ms, name);
        Update(v.(data := Object(Erase(ms, Name(name)))), Some(x))
  }

  /** `void removeMember(key)`, and the `String` overload that passes its
      `c_str()`: the name is the C string `key`, cut at its first NUL byte.
      Asserts on anything but null or an object; a null receiver is left
      alone; otherwise that name is erased if present. */
  function DropMember(v: Value, key: bytes): (r: Result<Value>)
    requires Valid(v)
    ensures r.Ok? <==> v.data.Null? || v.data.Object?
    ensures r.Ok? ==> Valid(r.value) && TypeOf(r.value) == TypeOf(v) && r.value.comments == v.comments
    ensures r.Ok? ==> Member(r.value, CString(key)).None?
    ensures r.Ok? ==> forall n :: n != CString(key) ==> Member(r.value, n) == Member(v, n)
  {
    var name := CString(key);
    if v.data.Null? then Ok(v)
    else if !v.data.Object? then
      Fail("in Json::Value::removeMember(): requires objectValue")
    else
      EraseSpec(v.data.members, Name(name));
      ObjectErase(v.data.members, name);
      Ok(v.(data := Object(Erase(v.data.members, Name(name)))))
  }

  /** On an object, `void removeMember(key)` leaves what the range form
      leaves when given the name up to the first NUL of `key`; for a key
      without NUL that is the key itself. */
  lemma DropAgreesWithRemove(v: Value, key: bytes)
    requires Valid(v) && v.data.Object?
    ensures DropMember(v, key) == Ok(RemoveMember(v, CString(key)).self)
    ensures (forall i :: 0 <= i < |key| ==> key[i] != 0 as char) ==> DropMember(v, key) == Ok(RemoveMember(v, key).self)
  {
    var name := CString(key);
    var d := DropMember(v, key).value;
    var r := RemoveMember(v, name).self;
    assert r.data.Object?;
    forall k
      ensures Lookup(d.data.members, k) == Lookup(r.data.members, k)
    {
      if k.Name? {
        assert Member(d, k.name) == Member(r, k.name);
      } else {
        NoIndexInObject(v, k);
        NoIndexInObject(d, k);
        NoIndexInObject(r, k);
      }
    }
    LookupExtensional(d.data.members, r.data.members);
  }

  /** An object's map holds no index key. */
  lemma NoIndexInObject(v: Value, k: Key)
    requires Valid(v) && v.data.Object? && k.Index?
    ensures Lookup(v.data.members, k).None?
  {
    LookupSpec(v.data.members, k);
  }

  /** The names of an object map's entries, in map order. */
  function NamesOf(ms: seq<Entry<Value>>): (ns: seq<bytes>)
    requires forall i :: 0 <= i < |ms| ==> ms[i].key.Name?
    ensures |ns| == |ms|
    ensures forall i :: 0 <= i < |ms| ==> ms[i].key == Name(ns[i])
  {
    if |ms| == 0 then [] else [ms[0].key.name] + NamesOf(ms[1..])
  }

  /** `getMemberNames()`: asserts on anything but null or an object; the
      names of the members, each once, in increasing CZString order. */
  function GetMemberNames(v: Value): (r: Result<seq<bytes>>)
    requires Valid(v)
    ensures r.Ok? <==> v.data.Null? || v.data.Object?
    ensures r.Ok? ==> |r.value| == Size(v)
    ensures r.Ok? ==> forall n :: n in r.value <==> Member(v, n).Some?
    ensures r.Ok? ==> forall i, j :: 0 <= i < j < |r.value| ==> BytesLess(r.value[i], r.value[j])
  {
    if v.data.Null? then Ok([])
    else if !v.data.Object? then
      Fail("in Json::Value::getMemberNames(), value must be objectValue")
    else
      var ns := NamesOf(v.data.members);
      forall n
        ensures n in ns <==> Member(v, n).Some?
      {
        MemberSpec(v, n);
        if n in ns {
          var i :| 0 <= i < |ns| && ns[i] == n;
          assert v.data.members[i].key == Name(n);
        }
      }
      Ok(ns)
  }

  /** `v[name] = x`: resolve the member, then copy-assign `x` into it, which
      replaces the member's payload and comments alike. */
  function SetMember(v: Value, name: bytes, x: Value): (r: Result<Value>)
    requires Valid(v) && Valid(x)
    ensures r.Ok? <==> v.data.Null? || v.data.Object?
    ensures r.Ok? ==> r.value.data.Object? && Valid(r.value)
    ensures r.Ok? ==> Member(r.value, name) == Some(x)
    ensures r.Ok? ==> forall n :: n != name ==> Member(r.value, n) == Member(v, n)
    ensures r.Ok? ==> Size(r.value) == Size(v) + (if Member(v, name).Some? then 0 else 1)
    ensures r.Ok? ==> r.value.comments == if v.data.Null? then NoComments else v.comments
  {
    var u :- AtName(v, name);
    var ms := u.self.data.members;
    ObjectAssign(ms, name, x);
    AssignSpec(ms, Name(name), x);
    LookupSpec(ms, Name(name));
    Ok(u.self.(data := Object(Assign(ms, Name(name), x))))
  }

  /** Two objects whose members agree name by name are the same value. */
  lemma SameMembers(a: Value, b: Value)
    requires Valid(a) && Valid(b) && a.data.Object? && b.data.Object? && a.comments == b.comments
    requires forall n :: Member(a, n) == Member(b, n)
    ensures a == b
  {
    forall k
      ensures Lookup(a.data.members, k) == Lookup(b.data.members, k)
    {
      if k.Name? {
        assert Member(a, k.name) == Member(b, k.name);
      } else {
        NoIndexInObject(a, k);
        NoIndexInObject(b, k);
      }
    }
    LookupExtensional(a.data.members, b.data.members);
  }

  /** Assigning a member, then removing it, hands back what was assigned
      and leaves every other member as it was before. */
  lemma SetThenRemove(v: Value, name: bytes, x: Value)
    requires Valid(v) && Valid(x) && (v.data.Null? || v.data.Object?)
    ensures var s := SetMember(v, name, x).value;
      var r := RemoveMember(s, name);
      && r.out == Some(x)
      && forall n :: Member(r.self, n) == if n == name then None else Member(v, n)
  {
  }

  /** Removing a member and assigning it back restores the object exactly. */
  lemma {:induction false} RemoveThenSet(v: Value, name: bytes)
    requires Valid(v) && Member(v, name).Some?
    ensures SetMember(RemoveMember(v, name).self, name, Member(v, name).value) == Ok(v)
  {
    var y := Member(v, name).value;
    var r := RemoveMember(v, name).self;
    var t := SetMember(r, name, y);
    SameMembers(t.value, v);
  }

  /** Assigning the same member twice is the same as assigning it once. */
  lemma SetMemberIdempotent(v: Value, name: bytes, x: Value)
    requires Valid(v) && Valid(x) && (v.data.Null? || v.data.Object?)
    ensures SetMember(SetMember(v, name, x).value, name, x) == SetMember(v, name, x)
  {
    var s := SetMember(v, name, x).value;
    SameMembers(SetMember(s, name, x).value, s);
  }

  /** `v[index] = x`: resolve the element, then copy-assign `x` into it. */
  function SetIndex(v: Value, index: nat, x: Value): (r: Result<Value>)
    requires Valid(v) && Valid(x)
    ensures r.Ok? <==> v.data.Null? || v.data.Array?
    ensures r.Ok? ==> r.value.data.Array? && Valid(r.value)
    ensures r.Ok? ==> At(r.value, index) == Some(x)
    ensures r.Ok? ==> forall j: nat :: j != index ==> At(r.value, j) == At(v, j)
    ensures r.Ok? ==> Size(r.value) == if index < Size(v) then Size(v) else index + 1
    ensures r.Ok? ==> r.value.comments == if v.data.Null? then NoComments else v.comments
  {
    var u :- AtIndex(v, index);
    var es := u.self.data.elems;
    AssignSpec(es, Index(index), x);
    ArrayAssign(es, index, x);
    var w := u.self.(data := Array(Assign(es, Index(index), x)));
    SetIndexSize(v, index, w);
    Ok(w)
  }

  lemma SetIndexSize(v: Value, index: nat, w: Value)
    requires Valid(v) && Valid(w) && w.data.Array? && At(w, index).Some?
    requires v.data.Null? || v.data.Array?
    requires forall j: nat :: j != index ==> At(w, j) == At(v, j)
    ensures Size(w) == if index < Size(v) then Size(v) else index + 1
  {
    var recv := ArrayReceiver(v);
    SizeBounds(recv);
    assert Size(recv) == Size(v);
    assert forall j: nat :: At(recv, j) == At(v, j);
    var n := if index < Size(v) then Size(v) else index + 1;
    SizeFromElements(w, n);
  }
}
