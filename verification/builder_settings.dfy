/** The settings object shared by CharReaderBuilder (src/lib_json/json_reader.cpp)
    and StreamWriterBuilder (src/lib_json/json_writer.cpp): a Json::Value
    object read through the const `operator[]` and converted with asBool,
    asUInt or asString; presets that assign literals member by member; and
    `validate`, which reports the names outside a builder's known set. */
module BuilderSettings {
  import opened Wrappers
  import opened Bytes
  import opened ObjectValues
  import opened Values
  import opened ValueMembers
  import opened ValueConvert

  /** `settings_[key]` on the const settings, then `.asBool()`. */
  function Flag(settings: Value, key: bytes): (r: Result<bool>)
    requires Valid(settings)
    ensures r.Ok? <==> (settings.data.Null? || settings.data.Object?) && AsBool(OrNull(Member(settings, key))).Ok?
    ensures r.Ok? ==> Ok(r.value) == AsBool(OrNull(Member(settings, key)))
  {
    var v :- ConstAtName(settings, key);
    AsBool(v)
  }

  /** `settings_[key]` on the const settings, then `.asUInt()`. */
  function UIntSetting(settings: Value, key: bytes): (r: Result<nat>)
    requires Valid(settings)
    ensures r.Ok? <==> (settings.data.Null? || settings.data.Object?) && AsUInt(OrNull(Member(settings, key))).Ok?
    ensures r.Ok? ==> r.value <= MaxUInt && Ok(r.value as int) == AsUInt(OrNull(Member(settings, key)))
  {
    var v :- ConstAtName(settings, key);
    var n :- AsUInt(v);
    Ok(n)
  }

  /** `settings_[key]` on the const settings, then `.asString()`; the text
      of a double comes from `realText`. */
  function StringSetting(settings: Value, key: bytes, realText: Double -> bytes): (r: Result<bytes>)
    requires Valid(settings)
    ensures r.Ok? <==> (settings.data.Null? || settings.data.Object?) && AsString(OrNull(Member(settings, key)), realText).Ok?
    ensures r.Ok? ==> Ok(r.value) == AsString(OrNull(Member(settings, key)), realText)
  {
    var v :- ConstAtName(settings, key);
    AsString(v, realText)
  }

  /** The right-hand sides of the presets: booleans, integers and strings. */
  datatype Literal = BoolLit(b: bool) | IntLit(i: LargestInt) | StrLit(s: bytes)

  function ToData(l: Literal): (d: Data)
    ensures l.BoolLit? ==> d == Bool(l.b)
    ensures l.IntLit? ==> d == Int(l.i)
    ensures l.StrLit? ==> d == Str(l.s)
  {
    match l
    case BoolLit(b) => Bool(b)
    case IntLit(i) => Int(i)
    case StrLit(s) => Str(s)
  }

  /** One `(*settings)[key] = value` of a preset. */
  datatype Assignment = Assignment(key: bytes, val: Literal)

  /** A preset's assignments in order: each one vivifies the member (which
      asserts that the settings are null or an object) and replaces it. */
  function Apply(settings: Value, assignments: seq<Assignment>): (r: Result<Value>)
    requires Valid(settings) && |assignments| > 0
    ensures r.Ok? <==> settings.data.Null? || settings.data.Object?
    ensures r.Ok? ==> Valid(r.value) && r.value.data.Object?
    decreases |assignments|
  {
    var a := assignments[0];
    var s :- SetMember(settings, a.key, Of(ToData(a.val)));
    if |assignments| == 1 then Ok(s) else Apply(s, assignments[1..])
  }

  /** The value a sequence of assignments leaves under `key`, if any
      assigns it: the last one wins. */
  function LastAssigned(assignments: seq<Assignment>, key: bytes): Option<Literal>
    decreases |assignments|
  {
    if |assignments| == 0 then None
    else
      var rest := LastAssigned(assignments[1..], key);
      if rest.Some? then rest
      else if assignments[0].key == key then Some(assignments[0].val)
      else None
  }

  /** After the assignments, a key holds the value last assigned to it, and
      every other member is as before. */
  lemma {:induction false} ApplySpec(settings: Value, assignments: seq<Assignment>, key: bytes)
    requires Valid(settings) && (settings.data.Null? || settings.data.Object?) && |assignments| > 0
    ensures Apply(settings, assignments).Ok?
    ensures Member(Apply(settings, assignments).value, key)
         == match LastAssigned(assignments, key)
            case Some(l) => Some(Of(ToData(l)))
            case None => Member(settings, key)
    decreases |assignments|
  {
    var a := assignments[0];
    var s := SetMember(settings, a.key, Of(ToData(a.val))).value;
    if |assignments| > 1 {
      ApplySpec(s, assignments[1..], key);
    } else {
      assert LastAssigned(assignments[1..], key) == None;
    }
  }

  /** No key is assigned twice. */
  predicate DistinctKeys(assignments: seq<Assignment>) {
    forall i, j :: 0 <= i < j < |assignments| ==> assignments[i].key != assignments[j].key
  }

  lemma {:induction false} LastAssignedAt(assignments: seq<Assignment>, i: nat)
    requires DistinctKeys(assignments) && i < |assignments|
    ensures LastAssigned(assignments, assignments[i].key) == Some(assignments[i].val)
    decreases |assignments|
  {
    var rest := assignments[1..];
    if i > 0 {
      assert rest[i - 1] == assignments[i];
      LastAssignedAt(rest, i - 1);
    } else {
      forall a | a in rest
        ensures a.key != assignments[0].key
      {
        var j :| 0 <= j < |rest| && rest[j] == a;
        assert assignments[j + 1] == a;
      }
      LastAssignedAbsent(rest, assignments[0].key);
    }
  }

  lemma {:induction false} LastAssignedAbsent(assignments: seq<Assignment>, key: bytes)
    requires forall a | a in assignments :: a.key != key
    ensures LastAssigned(assignments, key) == None
    decreases |assignments|
  {
    if |assignments| > 0 {
      assert forall a | a in assignments[1..] :: a in assignments;
      LastAssignedAbsent(assignments[1..], key);
    }
  }

  /** A flag a preset assigns reads back as the assigned boolean. */
  lemma AssignedFlag(settings: Value, assignments: seq<Assignment>, key: bytes, b: bool)
    requires Valid(settings) && (settings.data.Null? || settings.data.Object?) && |assignments| > 0
    requires LastAssigned(assignments, key) == Some(BoolLit(b))
    ensures Apply(settings, assignments).Ok?
    ensures Flag(Apply(settings, assignments).value, key) == Ok(b)
  {
    ApplySpec(settings, assignments, key);
  }

  /** A flag a preset leaves alone reads as it did before. */
  lemma UnassignedFlag(settings: Value, assignments: seq<Assignment>, key: bytes)
    requires Valid(settings) && (settings.data.Null? || settings.data.Object?) && |assignments| > 0
    requires LastAssigned(assignments, key) == None
    ensures Apply(settings, assignments).Ok?
    ensures Flag(Apply(settings, assignments).value, key) == Flag(settings, key)
  {
    ApplySpec(settings, assignments, key);
  }

  /** A number a preset assigns reads back through asUInt. */
  lemma AssignedUInt(settings: Value, assignments: seq<Assignment>, key: bytes, n: nat)
    requires Valid(settings) && (settings.data.Null? || settings.data.Object?) && |assignments| > 0
    requires n <= MaxUInt && LastAssigned(assignments, key) == Some(IntLit(n))
    ensures Apply(settings, assignments).Ok?
    ensures UIntSetting(Apply(settings, assignments).value, key) == Ok(n)
  {
    ApplySpec(settings, assignments, key);
    var s := Apply(settings, assignments).value;
    assert OrNull(Member(s, key)) == Of(Int(n));
    assert AsUInt(Of(Int(n))) == Ok(n);
  }

  /** A string a preset assigns reads back through asString. */
  lemma AssignedString(settings: Value, assignments: seq<Assignment>, key: bytes, text: bytes,
                       realText: Double -> bytes)
    requires Valid(settings) && (settings.data.Null? || settings.data.Object?) && |assignments| > 0
    requires LastAssigned(assignments, key) == Some(StrLit(text))
    ensures Apply(settings, assignments).Ok?
    ensures StringSetting(Apply(settings, assignments).value, key, realText) == Ok(text)
  {
    ApplySpec(settings, assignments, key);
    var s := Apply(settings, assignments).value;
    assert OrNull(Member(s, key)) == Of(Str(text));
  }

  /** The entries an iteration of the settings visits: none for a scalar. */
  function Entries(settings: Value): seq<Entry<Value>> {
    if IsContainer(settings) then Items(settings) else []
  }

  /** `si.name()`: the member name, or "" for an array element. */
  function EntryName(e: Entry<Value>): (n: bytes)
    ensures e.key.Name? ==> e.key == Name(n)
    ensures e.key.Index? ==> n == []
  {
    match e.key
    case Index(_) => []
    case Name(n) => n
  }

  /** A name an iteration of the settings visits that validate rejects. */
  ghost predicate Unknown(known: set<bytes>, settings: Value, name: bytes) {
    UnknownAmong(known, Entries(settings), |Entries(settings)|, name)
  }

  /** A rejected name among the first `n` entries. */
  ghost predicate UnknownAmong(known: set<bytes>, es: seq<Entry<Value>>, n: nat, name: bytes)
    requires n <= |es|
  {
    name !in known && exists j :: 0 <= j < n && EntryName(es[j]) == name
  }

  /** `validate(nullptr)`: false at the first unknown name. */
  method ValidateNames(known: set<bytes>, settings: Value) returns (ok: bool)
    ensures ok <==> forall name :: !Unknown(known, settings, name)
  {
    var es := Entries(settings);
    var i := 0;
    while i < |es|
      invariant i <= |es|
      invariant forall j :: 0 <= j < i ==> EntryName(es[j]) in known
    {
      if EntryName(es[i]) !in known {
        assert Unknown(known, settings, EntryName(es[i]));
        return false;
      }
      i := i + 1;
    }
    return true;
  }

  /** What `validate(&invalid)` leaves: its answer and the report value. */
  datatype Report = Report(ok: bool, invalid: Value)

  /** The first `i` entries hold only accepted names. */
  predicate KnownUpTo(known: set<bytes>, es: seq<Entry<Value>>, i: nat)
    requires i <= |es|
  {
    forall j :: 0 <= j < i ==> EntryName(es[j]) in known
  }

  /** The report after the first `i` entries of the settings: the members
      it had plus the rejected names so far, each under the settings'
      own member when the settings are an object. */
  ghost predicate Collected(known: set<bytes>, settings: Value, invalid: Value, i: nat, report: Value)
    requires i <= |Entries(settings)|
  {
    && (forall name :: Member(report, name).Some? <==>
          Member(invalid, name).Some? || UnknownAmong(known, Entries(settings), i, name))
    && (settings.data.Object? ==> forall name ::
          UnknownAmong(known, Entries(settings), i, name) ==> Member(report, name) == Member(settings, name))
  }

  /** One more entry adds its name to the rejected ones, if it is rejected. */
  lemma UnknownAmongStep(known: set<bytes>, es: seq<Entry<Value>>, i: nat, name: bytes)
    requires i < |es|
    ensures UnknownAmong(known, es, i + 1, name)
        <==> UnknownAmong(known, es, i, name) || (name == EntryName(es[i]) && name !in known)
  {
    if UnknownAmong(known, es, i + 1, name) {
      var j :| 0 <= j < i + 1 && EntryName(es[j]) == name;
    }
  }

  lemma SkipStep(known: set<bytes>, settings: Value, invalid: Value, i: nat, report: Value)
    requires i < |Entries(settings)| && EntryName(Entries(settings)[i]) in known
    requires Collected(known, settings, invalid, i, report)
    ensures Collected(known, settings, invalid, i + 1, report)
  {
    forall name
      ensures UnknownAmong(known, Entries(settings), i + 1, name) <==> UnknownAmong(known, Entries(settings), i, name)
    {
      UnknownAmongStep(known, Entries(settings), i, name);
    }
  }

  lemma StoreStep(known: set<bytes>, settings: Value, invalid: Value, i: nat, report: Value)
    requires Valid(settings) && Valid(report)
    requires i < |Entries(settings)| && EntryName(Entries(settings)[i]) !in known
    requires Valid(Entries(settings)[i].val)
    requires SetMember(report, EntryName(Entries(settings)[i]), Entries(settings)[i].val).Ok?
    requires Collected(known, settings, invalid, i, report)
    ensures Collected(known, settings, invalid, i + 1,
                      SetMember(report, EntryName(Entries(settings)[i]), Entries(settings)[i].val).value)
  {
    var es := Entries(settings);
    var name := EntryName(es[i]);
    if settings.data.Object? {
      MemberSpec(settings, name);
      assert es[i] == settings.data.members[i];
    }
    forall n
      ensures UnknownAmong(known, es, i + 1, n) <==> UnknownAmong(known, es, i, n) || n == name
    {
      UnknownAmongStep(known, es, i, n);
    }
  }

  /** `validate(&invalid)`: every unknown entry is copied into `invalid`
      under its name (an array element under ""), and the answer is whether
      `invalid` is empty afterwards, so a report that was not empty before
      makes it false. Storing into an `invalid` that is neither null nor an
      object fails. */
  method ValidateInto(known: set<bytes>, settings: Value, invalid: Value) returns (r: Result<Report>)
    requires Valid(settings) && Valid(invalid)
    ensures (invalid.data.Null? || invalid.data.Object?) ==> r.Ok?
    ensures r.Ok? ==> Valid(r.value.invalid)
    ensures r.Ok? ==> (r.value.ok <==> Empty(invalid) && forall name :: !Unknown(known, settings, name))
    ensures r.Ok? ==> forall name :: Member(r.value.invalid, name).Some?
                       <==> Member(invalid, name).Some? || Unknown(known, settings, name)
    ensures r.Ok? && settings.data.Object? ==>
      forall name :: Unknown(known, settings, name) ==> Member(r.value.invalid, name) == Member(settings, name)
  {
    var es := Entries(settings);
    var report := invalid;
    var i := 0;
    while i < |es|
      invariant i <= |es| && Valid(report)
      invariant forall j :: 0 <= j < |es| ==> Valid(es[j].val)
      invariant invalid.data.Null? || invalid.data.Object? ==> report.data.Null? || report.data.Object?
      invariant report.data.Null? ==> invalid.data.Null? && KnownUpTo(known, es, i)
      invariant !(invalid.data.Null? || invalid.data.Object?) ==> report == invalid && KnownUpTo(known, es, i)
      invariant Collected(known, settings, invalid, i, report)
    {
      var name := EntryName(es[i]);
      if name !in known {
        var stored := SetMember(report, name, es[i].val);
        if stored.Fail? {
          return Fail(stored.message);
        }
        StoreStep(known, settings, invalid, i, report);
        report := stored.value;
      } else {
        SkipStep(known, settings, invalid, i, report);
      }
      i := i + 1;
    }
    if invalid.data.Null? || invalid.data.Object? {
      EmptyReport(known, settings, invalid, report);
    }
    r := Ok(Report(Empty(report), report));
  }

  lemma EmptyReport(known: set<bytes>, settings: Value, invalid: Value, report: Value)
    requires Valid(invalid) && Valid(report)
    requires (invalid.data.Null? || invalid.data.Object?) && (report.data.Null? || report.data.Object?)
    requires forall name :: Member(report, name).Some? <==> Member(invalid, name).Some? || Unknown(known, settings, name)
    ensures Empty(report) <==> Empty(invalid) && forall name :: !Unknown(known, settings, name)
  {
    EmptyIffNoMember(invalid);
    EmptyIffNoMember(report);
  }

  /** A null or object value is empty exactly when no name finds a member. */
  lemma EmptyIffNoMember(v: Value)
    requires Valid(v) && (v.data.Null? || v.data.Object?)
    ensures Empty(v) <==> forall name :: Member(v, name).None?
  {
    if v.data.Object? && |v.data.members| > 0 {
      var name := v.data.members[0].key.name;
      MemberSpec(v, name);
    }
  }

  lemma {:induction false} LastAssignedKey(assignments: seq<Assignment>, key: bytes)
    requires LastAssigned(assignments, key).Some?
    ensures exists a :: a in assignments && a.key == key
    decreases |assignments|
  {
    if LastAssigned(assignments[1..], key).Some? {
      LastAssignedKey(assignments[1..], key);
      var a :| a in assignments[1..] && a.key == key;
      assert a in assignments;
    } else {
      assert assignments[0] in assignments;
    }
  }

  /** In an object, the names an iteration visits are the names that find
      a member. */
  lemma VisitedNames(v: Value, name: bytes)
    requires Valid(v) && v.data.Object?
    ensures Member(v, name).Some? <==> exists j :: 0 <= j < |Entries(v)| && EntryName(Entries(v)[j]) == name
  {
    MemberSpec(v, name);
    if Member(v, name).Some? {
      var j :| 0 <= j < |v.data.members| && v.data.members[j].key == Name(name);
      assert EntryName(Entries(v)[j]) == name;
    }
  }

  /** Writing a preset of known names into settings that validate leaves
      settings that validate. */
  lemma PresetValidates(known: set<bytes>, settings: Value, assignments: seq<Assignment>)
    requires Valid(settings) && (settings.data.Null? || settings.data.Object?) && |assignments| > 0
    requires forall a | a in assignments :: a.key in known
    requires forall name :: !Unknown(known, settings, name)
    ensures Apply(settings, assignments).Ok?
    ensures forall name :: !Unknown(known, Apply(settings, assignments).value, name)
  {
    forall name
      ensures !Unknown(known, Apply(settings, assignments).value, name)
    {
      PresetNameKnown(known, settings, assignments, name);
    }
  }

  lemma PresetNameKnown(known: set<bytes>, settings: Value, assignments: seq<Assignment>, name: bytes)
    requires Valid(settings) && (settings.data.Null? || settings.data.Object?) && |assignments| > 0
    requires forall a | a in assignments :: a.key in known
    requires !Unknown(known, settings, name)
    ensures Apply(settings, assignments).Ok?
    ensures !Unknown(known, Apply(settings, assignments).value, name)
  {
    var s := Apply(settings, assignments).value;
    VisitedNames(s, name);
    ApplySpec(settings, assignments, name);
    if LastAssigned(assignments, name).Some? {
      LastAssignedKey(assignments, name);
    } else if settings.data.Object? {
      VisitedNames(settings, name);
    }
  }

}
