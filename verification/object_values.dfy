/** The container behind array and object values: `Value::ObjectValues`, a
    `std::map<CZString, Value>`, modelled as a sequence of entries kept
    strictly sorted by the CZString order. */
module ObjectValues {
  import opened Wrappers
  import opened Bytes

  /** CZString: an array index (null `cstr_`) or a member name. */
  datatype Key = Index(index: nat) | Name(name: bytes)

  /** CZString::operator<. Index keys compare by index, names by `memcmp`
      over the common prefix and then by length. The source never compares an
      index key with a name inside one map; the model puts indices first. */
  predicate KeyLess(a: Key, b: Key) {
    match (a, b)
    case (Index(i), Index(j)) => i < j
    case (Name(x), Name(y)) => BytesLess(x, y)
    case (Index(_), Name(_)) => true
    case (Name(_), Index(_)) => false
  }

  /** KeyLess is a strict total order, as std::map requires. */
  lemma KeyLessTotal(a: Key, b: Key)
    ensures KeyLess(a, b) || a == b || KeyLess(b, a)
    ensures !(KeyLess(a, b) && KeyLess(b, a))
    ensures !KeyLess(a, a)
  {
    if a.Name? && b.Name? {
      BytesLessTrichotomy(a.name, b.name);
    }
    if a.Name? {
      BytesLessIrreflexive(a.name);
    }
  }

  lemma KeyLessTransitive(a: Key, b: Key, c: Key)
    requires KeyLess(a, b) && KeyLess(b, c)
    ensures KeyLess(a, c)
  {
    if a.Name? && b.Name? && c.Name? {
      BytesLessTransitive(a.name, b.name, c.name);
    }
  }

  datatype Entry<V> = Entry(key: Key, val: V)

  predicate Sorted<V>(m: seq<Entry<V>>) {
    forall i, j :: 0 <= i < j < |m| ==> KeyLess(m[i].key, m[j].key)
  }

  predicate HasKey<V>(m: seq<Entry<V>>, k: Key) {
    exists i :: 0 <= i < |m| && m[i].key == k
  }

  function KeysOf<V>(m: seq<Entry<V>>): (ks: seq<Key>)
    ensures |ks| == |m|
    ensures forall i :: 0 <= i < |m| ==> ks[i] == m[i].key
  {
    if |m| == 0 then [] else [m[0].key] + KeysOf(m[1..])
  }

  /** Every key of `m` lies above `k`. */
  predicate Above<V>(k: Key, m: seq<Entry<V>>) {
    forall j :: 0 <= j < |m| ==> KeyLess(k, m[j].key)
  }

  /** Putting a key below all of a sorted map's keys in front keeps it sorted. */
  lemma SortedCons<V>(e: Entry<V>, m: seq<Entry<V>>)
    requires Sorted(m) && Above(e.key, m)
    ensures Sorted([e] + m)
  {
    var r := [e] + m;
    forall a, b | 0 <= a < b < |r|
      ensures KeyLess(r[a].key, r[b].key)
    {
      assert r[b] == m[b - 1];
      if a > 0 { assert r[a] == m[a - 1]; }
    }
  }

  /** The first key of a sorted map lies below all the others, and no
      other entry repeats it. */
  lemma SortedHead<V>(m: seq<Entry<V>>)
    requires Sorted(m) && |m| > 0
    ensures Sorted(m[1..]) && Above(m[0].key, m[1..])
    ensures !HasKey(m[1..], m[0].key)
  {
    forall j | 0 <= j < |m| - 1
      ensures KeyLess(m[0].key, m[1..][j].key) && m[1..][j].key != m[0].key
    {
      assert m[1..][j] == m[j + 1];
      KeyLessTotal(m[0].key, m[j + 1].key);
    }
  }

  /** A key below every key of a sorted map is not in it. */
  lemma BelowAll<V>(m: seq<Entry<V>>, k: Key)
    requires Sorted(m) && |m| > 0 && KeyLess(k, m[0].key)
    ensures Above(k, m) && !HasKey(m, k)
  {
    forall j | 0 <= j < |m|
      ensures KeyLess(k, m[j].key) && m[j].key != k
    {
      if j > 0 { KeyLessTransitive(k, m[0].key, m[j].key); }
      KeyLessTotal(k, m[j].key);
    }
  }

  /** A key other than the head is in the map iff it is in the tail. */
  lemma HasKeyTail<V>(m: seq<Entry<V>>, k: Key)
    requires |m| > 0 && m[0].key != k
    ensures HasKey(m, k) <==> HasKey(m[1..], k)
  {
    if HasKey(m, k) {
      var j :| 0 <= j < |m| && m[j].key == k;
      assert m[1..][j - 1] == m[j];
    }
    if HasKey(m[1..], k) {
      var j :| 0 <= j < |m[1..]| && m[1..][j].key == k;
      assert m[j + 1] == m[1..][j];
    }
  }

  /** std::map::find: the value bound to `k`, if any. The map holds each key
      at most once, so the scan meets the only candidate. */
  function Lookup<V>(m: seq<Entry<V>>, k: Key): Option<V> {
    if |m| == 0 then None
    else if m[0].key == k then Some(m[0].val)
    else Lookup(m[1..], k)
  }

  /** In a sorted map, `find` yields the value of the unique entry with that key. */
  lemma {:induction false} LookupSpec<V>(m: seq<Entry<V>>, k: Key)
    requires Sorted(m)
    ensures Lookup(m, k).Some? <==> HasKey(m, k)
    ensures forall j :: 0 <= j < |m| && m[j].key == k ==> Lookup(m, k) == Some(m[j].val)
  {
    if |m| > 0 {
      SortedHead(m);
      if m[0].key == k {
        forall j | 0 < j < |m|
          ensures m[j].key != k
        {
          assert m[j] == m[1..][j - 1];
        }
      } else {
        LookupSpec(m[1..], k);
        HasKeyTail(m, k);
        forall j | 0 < j < |m| && m[j].key == k
          ensures Lookup(m, k) == Some(m[j].val)
        {
          assert m[j] == m[1..][j - 1];
        }
      }
    }
  }

  /** `map[k] = v`: overwrite the entry for `k` or insert one in key order. */
  function Assign<V>(m: seq<Entry<V>>, k: Key, v: V): (r: seq<Entry<V>>)
    ensures |r| == |m| || |r| == |m| + 1
  {
    if |m| == 0 then [Entry(k, v)]
    else if m[0].key == k then [Entry(k, v)] + m[1..]
    else if KeyLess(k, m[0].key) then [Entry(k, v)] + m
    else [m[0]] + Assign(m[1..], k, v)
  }

  /** Every entry after `map[k] = v` is the new binding or an old entry. */
  lemma {:induction false} AssignEntries<V>(m: seq<Entry<V>>, k: Key, v: V)
    ensures forall j :: 0 <= j < |Assign(m, k, v)| ==> Assign(m, k, v)[j] == Entry(k, v) || Assign(m, k, v)[j] in m
  {
    var r := Assign(m, k, v);
    if |m| > 0 && m[0].key != k && !KeyLess(k, m[0].key) {
      AssignEntries(m[1..], k, v);
      forall j | 0 < j < |r|
        ensures r[j] == Entry(k, v) || r[j] in m
      {
        assert r[j] == Assign(m[1..], k, v)[j - 1];
        if r[j] in m[1..] {
          var t :| 0 <= t < |m[1..]| && m[1..][t] == r[j];
          assert m[t + 1] == r[j];
        }
      }
    } else if |m| > 0 {
      forall j | 0 < j < |r|
        ensures r[j] in m
      {
        if m[0].key == k { assert r[j] == m[j]; } else { assert r[j] == m[j - 1]; }
      }
    }
  }

  /** Assign keeps the map sorted, binds `k` to `v`, grows only for a new
      key, and changes no other binding. */
  lemma {:induction false} AssignSpec<V>(m: seq<Entry<V>>, k: Key, v: V)
    requires Sorted(m)
    ensures Sorted(Assign(m, k, v))
    ensures |Assign(m, k, v)| == if HasKey(m, k) then |m| else |m| + 1
    ensures Lookup(Assign(m, k, v), k) == Some(v)
    ensures forall k' :: k' != k ==> Lookup(Assign(m, k, v), k') == Lookup(m, k')
  {
    var e := Entry(k, v);
    var r := Assign(m, k, v);
    if |m| == 0 {
    } else if m[0].key == k {
      SortedHead(m);
      SortedCons(e, m[1..]);
      assert r[1..] == m[1..];
    } else if KeyLess(k, m[0].key) {
      BelowAll(m, k);
      SortedCons(e, m);
      assert r[1..] == m;
    } else {
      SortedHead(m);
      AssignSpec(m[1..], k, v);
      AssignEntries(m[1..], k, v);
      HasKeyTail(m, k);
      var rest := Assign(m[1..], k, v);
      KeyLessTotal(k, m[0].key);
      forall j | 0 <= j < |rest|
        ensures KeyLess(m[0].key, rest[j].key)
      {
        if rest[j] != e {
          var t :| 0 <= t < |m[1..]| && m[1..][t] == rest[j];
        }
      }
      SortedCons(m[0], rest);
      assert r[1..] == rest;
    }
  }

  /** std::map::erase(key). */
  function Erase<V>(m: seq<Entry<V>>, k: Key): (r: seq<Entry<V>>)
    ensures |r| == if HasKey(m, k) then |m| - 1 else |m|
  {
    if |m| == 0 then m
    else if m[0].key == k then m[1..]
    else [m[0]] + Erase(m[1..], k)
  }

  /** Erasing adds no entry. */
  lemma {:induction false} EraseEntries<V>(m: seq<Entry<V>>, k: Key)
    ensures forall j :: 0 <= j < |Erase(m, k)| ==> Erase(m, k)[j] in m
  {
    var r := Erase(m, k);
    if |m| > 0 && m[0].key != k {
      EraseEntries(m[1..], k);
      forall j | 0 < j < |r|
        ensures r[j] in m
      {
        assert r[j] == Erase(m[1..], k)[j - 1];
        var t :| 0 <= t < |m[1..]| && m[1..][t] == r[j];
        assert m[t + 1] == r[j];
      }
    } else if |m| > 0 {
      forall j | 0 <= j < |r|
        ensures r[j] in m
      {
        assert r[j] == m[j + 1];
      }
    }
  }

  /** Erase keeps the map sorted, drops the binding of `k` and no other. */
  lemma {:induction false} EraseSpec<V>(m: seq<Entry<V>>, k: Key)
    requires Sorted(m)
    ensures Sorted(Erase(m, k))
    ensures |Erase(m, k)| == if HasKey(m, k) then |m| - 1 else |m|
    ensures Lookup(Erase(m, k), k) == None
    ensures forall k' :: k' != k ==> Lookup(Erase(m, k), k') == Lookup(m, k')
  {
    var r := Erase(m, k);
    if |m| > 0 {
      SortedHead(m);
      if m[0].key == k {
        LookupSpec(m[1..], k);
      } else {
        EraseSpec(m[1..], k);
        EraseEntries(m[1..], k);
        HasKeyTail(m, k);
        var rest := Erase(m[1..], k);
        forall j | 0 <= j < |rest|
          ensures KeyLess(m[0].key, rest[j].key)
        {
          var t :| 0 <= t < |m[1..]| && m[1..][t] == rest[j];
        }
        SortedCons(m[0], rest);
        assert r[1..] == rest;
      }
    }
  }

  /** Two sorted maps that bind every key alike are the same sequence: the
      order fixes the layout. */
  lemma {:induction false} LookupExtensional<V>(a: seq<Entry<V>>, b: seq<Entry<V>>)
    requires Sorted(a) && Sorted(b)
    requires forall k :: Lookup(a, k) == Lookup(b, k)
    ensures a == b
  {
    if |a| > 0 {
      FirstKeyFound(a, b);
    }
    if |b| > 0 {
      FirstKeyFound(b, a);
    }
    if |a| > 0 && |b| > 0 {
      KeyLessTotal(a[0].key, b[0].key);
      if a[0].key == b[0].key {
        assert Lookup(a, a[0].key) == Some(a[0].val);
        SortedHead(a);
        SortedHead(b);
        forall k
          ensures Lookup(a[1..], k) == Lookup(b[1..], k)
        {
          if k == a[0].key {
            LookupSpec(a[1..], k);
            LookupSpec(b[1..], k);
          } else {
            assert Lookup(a, k) == Lookup(b, k);
          }
        }
        LookupExtensional(a[1..], b[1..]);
        assert a == [a[0]] + a[1..] && b == [b[0]] + b[1..];
      }
    }
  }

  /** The first key of a non-empty sorted map, where another sorted map
      binds every key alike, is in that map and not below its first key. */
  lemma FirstKeyFound<V>(a: seq<Entry<V>>, b: seq<Entry<V>>)
    requires Sorted(a) && Sorted(b) && |a| > 0
    requires forall k :: Lookup(a, k) == Lookup(b, k)
    ensures |b| > 0 && !KeyLess(a[0].key, b[0].key)
  {
    var k := a[0].key;
    assert Lookup(a, k).Some?;
    assert Lookup(b, k).Some?;
    LookupSpec(b, k);
    var j :| 0 <= j < |b| && b[j].key == k;
    KeyLessTotal(k, b[0].key);
  }
}
