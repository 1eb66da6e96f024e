/** CharReaderBuilder of src/lib_json/json_reader.cpp: its settings are a
    Json::Value object; newCharReader turns them into the parser's
    features, validate reports the keys it does not know, and strictMode,
    setDefaults and ecma404Mode write the three presets. */
module ReaderBuilder {
  import opened Wrappers
  import opened Bytes
  import opened ObjectValues
  import opened Values
  import opened ValueMembers
  import opened ValueConvert
  import opened BuilderSettings
  import opened Scanner

  /* The setting names. */
  const CollectCommentsKey: bytes := "collectComments"
  const AllowCommentsKey: bytes := "allowComments"
  const AllowTrailingCommasKey: bytes := "allowTrailingCommas"
  const StrictRootKey: bytes := "strictRoot"
  const AllowDroppedNullPlaceholdersKey: bytes := "allowDroppedNullPlaceholders"
  const AllowNumericKeysKey: bytes := "allowNumericKeys"
  const AllowSingleQuotesKey: bytes := "allowSingleQuotes"
  const StackLimitKey: bytes := "stackLimit"
  const FailIfExtraKey: bytes := "failIfExtra"
  const RejectDupKeysKey: bytes := "rejectDupKeys"
  const AllowSpecialFloatsKey: bytes := "allowSpecialFloats"
  const SkipBomKey: bytes := "skipBom"

  /** What newCharReader hands to the reader it creates. */
  datatype ReaderConfig = ReaderConfig(collectComments: bool, features: Features)

  /** Every setting newCharReader reads converts to its type. */
  predicate AllConvert(settings: Value)
    requires Valid(settings)
  {
    && Flag(settings, CollectCommentsKey).Ok? && Flag(settings, AllowCommentsKey).Ok?
    && Flag(settings, AllowTrailingCommasKey).Ok? && Flag(settings, StrictRootKey).Ok?
    && Flag(settings, AllowDroppedNullPlaceholdersKey).Ok? && Flag(settings, AllowNumericKeysKey).Ok?
    && Flag(settings, AllowSingleQuotesKey).Ok? && UIntSetting(settings, StackLimitKey).Ok?
    && Flag(settings, FailIfExtraKey).Ok? && Flag(settings, RejectDupKeysKey).Ok?
    && Flag(settings, AllowSpecialFloatsKey).Ok? && Flag(settings, SkipBomKey).Ok?
  }

  /** newCharReader: the settings are read in the source's order; the first
      one that does not convert throws. */
  function NewCharReader(settings: Value): (r: Result<ReaderConfig>)
    requires Valid(settings)
    ensures r.Ok? <==> AllConvert(settings)
    ensures r.Ok? ==> !r.value.features.legacy && r.value.features.stackLimit <= MaxUInt
    ensures r.Ok? ==> Flag(settings, CollectCommentsKey) == Ok(r.value.collectComments)
    ensures r.Ok? ==> Flag(settings, AllowCommentsKey) == Ok(r.value.features.allowComments)
    ensures r.Ok? ==> Flag(settings, AllowTrailingCommasKey) == Ok(r.value.features.allowTrailingCommas)
    ensures r.Ok? ==> Flag(settings, StrictRootKey) == Ok(r.value.features.strictRoot)
    ensures r.Ok? ==> Flag(settings, AllowDroppedNullPlaceholdersKey) == Ok(r.value.features.allowDroppedNullPlaceholders)
    ensures r.Ok? ==> Flag(settings, AllowNumericKeysKey) == Ok(r.value.features.allowNumericKeys)
    ensures r.Ok? ==> Flag(settings, AllowSingleQuotesKey) == Ok(r.value.features.allowSingleQuotes)
    ensures r.Ok? ==> UIntSetting(settings, StackLimitKey) == Ok(r.value.features.stackLimit)
    ensures r.Ok? ==> Flag(settings, FailIfExtraKey) == Ok(r.value.features.failIfExtra)
    ensures r.Ok? ==> Flag(settings, RejectDupKeysKey) == Ok(r.value.features.rejectDupKeys)
    ensures r.Ok? ==> Flag(settings, AllowSpecialFloatsKey) == Ok(r.value.features.allowSpecialFloats)
    ensures r.Ok? ==> Flag(settings, SkipBomKey) == Ok(r.value.features.skipBom)
    ensures Flag(settings, CollectCommentsKey).Fail? ==> r == Fail(Flag(settings, CollectCommentsKey).message)
  {
    var collectComments :- Flag(settings, CollectCommentsKey);
    var allowComments :- Flag(settings, AllowCommentsKey);
    var allowTrailingCommas :- Flag(settings, AllowTrailingCommasKey);
    var strictRoot :- Flag(settings, StrictRootKey);
    var allowDroppedNullPlaceholders :- Flag(settings, AllowDroppedNullPlaceholdersKey);
    var allowNumericKeys :- Flag(settings, AllowNumericKeysKey);
    var allowSingleQuotes :- Flag(settings, AllowSingleQuotesKey);
    var stackLimit :- UIntSetting(settings, StackLimitKey);
    var failIfExtra :- Flag(settings, FailIfExtraKey);
    var rejectDupKeys :- Flag(settings, RejectDupKeysKey);
    var allowSpecialFloats :- Flag(settings, AllowSpecialFloatsKey);
    var skipBom :- Flag(settings, SkipBomKey);
    Ok(ReaderConfig(collectComments,
      Features(allowComments, allowTrailingCommas, strictRoot, allowDroppedNullPlaceholders,
               allowNumericKeys, allowSingleQuotes, failIfExtra, rejectDupKeys,
               allowSpecialFloats, skipBom, stackLimit, false)))
  }

  /** The setting names are twelve different strings. */
  lemma KeysDiffer()
    ensures |CollectCommentsKey| == 15 && |AllowCommentsKey| == 13 && |AllowTrailingCommasKey| == 19
    ensures |StrictRootKey| == 10 && |AllowDroppedNullPlaceholdersKey| == 28 && |AllowNumericKeysKey| == 16
    ensures |AllowSingleQuotesKey| == 17 && |StackLimitKey| == 10 && |FailIfExtraKey| == 11
    ensures |RejectDupKeysKey| == 13 && |AllowSpecialFloatsKey| == 18 && |SkipBomKey| == 7
    ensures StrictRootKey != StackLimitKey && AllowCommentsKey != RejectDupKeysKey
  {
    assert StrictRootKey[2] != StackLimitKey[2];
    assert AllowCommentsKey[0] != RejectDupKeysKey[0];
  }

  /** CharReaderBuilder::strictMode. */
  const StrictModeAssignments: seq<Assignment> := [
    Assignment(AllowCommentsKey, BoolLit(false)),
    Assignment(AllowTrailingCommasKey, BoolLit(false)),
    Assignment(StrictRootKey, BoolLit(true)),
    Assignment(AllowDroppedNullPlaceholdersKey, BoolLit(false)),
    Assignment(AllowNumericKeysKey, BoolLit(false)),
    Assignment(AllowSingleQuotesKey, BoolLit(false)),
    Assignment(StackLimitKey, IntLit(1000)),
    Assignment(FailIfExtraKey, BoolLit(true)),
    Assignment(RejectDupKeysKey, BoolLit(true)),
    Assignment(AllowSpecialFloatsKey, BoolLit(false)),
    Assignment(SkipBomKey, BoolLit(true))]

  /** CharReaderBuilder::setDefaults. */
  const DefaultAssignments: seq<Assignment> := [
    Assignment(CollectCommentsKey, BoolLit(true)),
    Assignment(AllowCommentsKey, BoolLit(true)),
    Assignment(AllowTrailingCommasKey, BoolLit(true)),
    Assignment(StrictRootKey, BoolLit(false)),
    Assignment(AllowDroppedNullPlaceholdersKey, BoolLit(false)),
    Assignment(AllowNumericKeysKey, BoolLit(false)),
    Assignment(AllowSingleQuotesKey, BoolLit(false)),
    Assignment(StackLimitKey, IntLit(1000)),
    Assignment(FailIfExtraKey, BoolLit(false)),
    Assignment(RejectDupKeysKey, BoolLit(false)),
    Assignment(AllowSpecialFloatsKey, BoolLit(false)),
    Assignment(SkipBomKey, BoolLit(true))]

  /** CharReaderBuilder::ecma404Mode. */
  const Ecma404Assignments: seq<Assignment> := [
    Assignment(AllowCommentsKey, BoolLit(false)),
    Assignment(AllowTrailingCommasKey, BoolLit(false)),
    Assignment(StrictRootKey, BoolLit(false)),
    Assignment(AllowDroppedNullPlaceholdersKey, BoolLit(false)),
    Assignment(AllowNumericKeysKey, BoolLit(false)),
    Assignment(AllowSingleQuotesKey, BoolLit(false)),
    Assignment(StackLimitKey, IntLit(1000)),
    Assignment(FailIfExtraKey, BoolLit(true)),
    Assignment(RejectDupKeysKey, BoolLit(false)),
    Assignment(AllowSpecialFloatsKey, BoolLit(false)),
    Assignment(SkipBomKey, BoolLit(false))]

  function StrictMode(settings: Value): (r: Result<Value>)
    requires Valid(settings)
    ensures r.Ok? <==> settings.data.Null? || settings.data.Object?
  {
    Apply(settings, StrictModeAssignments)
  }

  function SetDefaults(settings: Value): (r: Result<Value>)
    requires Valid(settings)
    ensures r.Ok? <==> settings.data.Null? || settings.data.Object?
  {
    Apply(settings, DefaultAssignments)
  }

  function Ecma404Mode(settings: Value): (r: Result<Value>)
    requires Valid(settings)
    ensures r.Ok? <==> settings.data.Null? || settings.data.Object?
  {
    Apply(settings, Ecma404Assignments)
  }

  /** The features each preset stands for. */
  const StrictFeatures: Features :=
    Features(false, false, true, false, false, false, true, true, false, true, 1000, false)
  const DefaultFeatures: Features :=
    Features(true, true, false, false, false, false, false, false, false, true, 1000, false)
  const Ecma404Features: Features :=
    Features(false, false, false, false, false, false, true, false, false, false, 1000, false)

  /** strictMode assigns each setting at most once. */
  lemma StrictKeysDistinct()
    ensures DistinctKeys(StrictModeAssignments)
  {
    KeysDiffer();
  }

  /** What strictMode assigns to each setting: everything but collectComments. */
  lemma StrictModeTable()
    ensures LastAssigned(StrictModeAssignments, CollectCommentsKey) == None
    ensures LastAssigned(StrictModeAssignments, AllowCommentsKey) == Some(BoolLit(StrictFeatures.allowComments))
    ensures LastAssigned(StrictModeAssignments, AllowTrailingCommasKey) == Some(BoolLit(StrictFeatures.allowTrailingCommas))
    ensures LastAssigned(StrictModeAssignments, StrictRootKey) == Some(BoolLit(StrictFeatures.strictRoot))
    ensures LastAssigned(StrictModeAssignments, AllowDroppedNullPlaceholdersKey) == Some(BoolLit(StrictFeatures.allowDroppedNullPlaceholders))
    ensures LastAssigned(StrictModeAssignments, AllowNumericKeysKey) == Some(BoolLit(StrictFeatures.allowNumericKeys))
    ensures LastAssigned(StrictModeAssignments, AllowSingleQuotesKey) == Some(BoolLit(StrictFeatures.allowSingleQuotes))
    ensures LastAssigned(StrictModeAssignments, StackLimitKey) == Some(IntLit(StrictFeatures.stackLimit))
    ensures LastAssigned(StrictModeAssignments, FailIfExtraKey) == Some(BoolLit(StrictFeatures.failIfExtra))
    ensures LastAssigned(StrictModeAssignments, RejectDupKeysKey) == Some(BoolLit(StrictFeatures.rejectDupKeys))
    ensures LastAssigned(StrictModeAssignments, AllowSpecialFloatsKey) == Some(BoolLit(StrictFeatures.allowSpecialFloats))
    ensures LastAssigned(StrictModeAssignments, SkipBomKey) == Some(BoolLit(StrictFeatures.skipBom))
  {
    StrictKeysDistinct();
    var p := StrictModeAssignments;
    LastAssignedAbsent(p, CollectCommentsKey);
    LastAssignedAt(p, 0);
    LastAssignedAt(p, 1);
    LastAssignedAt(p, 2);
    LastAssignedAt(p, 3);
    LastAssignedAt(p, 4);
    LastAssignedAt(p, 5);
    LastAssignedAt(p, 6);
    LastAssignedAt(p, 7);
    LastAssignedAt(p, 8);
    LastAssignedAt(p, 9);
    LastAssignedAt(p, 10);
  }

  /** setDefaults assigns each setting once. */
  lemma DefaultKeysDistinct()
    ensures DistinctKeys(DefaultAssignments)
  {
    KeysDiffer();
  }

  /** What setDefaults assigns to each setting: all twelve. */
  lemma DefaultTable()
    ensures LastAssigned(DefaultAssignments, CollectCommentsKey) == Some(BoolLit(true))
    ensures LastAssigned(DefaultAssignments, AllowCommentsKey) == Some(BoolLit(DefaultFeatures.allowComments))
    ensures LastAssigned(DefaultAssignments, AllowTrailingCommasKey) == Some(BoolLit(DefaultFeatures.allowTrailingCommas))
    ensures LastAssigned(DefaultAssignments, StrictRootKey) == Some(BoolLit(DefaultFeatures.strictRoot))
    ensures LastAssigned(DefaultAssignments, AllowDroppedNullPlaceholdersKey) == Some(BoolLit(DefaultFeatures.allowDroppedNullPlaceholders))
    ensures LastAssigned(DefaultAssignments, AllowNumericKeysKey) == Some(BoolLit(DefaultFeatures.allowNumericKeys))
    ensures LastAssigned(DefaultAssignments, AllowSingleQuotesKey) == Some(BoolLit(DefaultFeatures.allowSingleQuotes))
    ensures LastAssigned(DefaultAssignments, StackLimitKey) == Some(IntLit(DefaultFeatures.stackLimit))
    ensures LastAssigned(DefaultAssignments, FailIfExtraKey) == Some(BoolLit(DefaultFeatures.failIfExtra))
    ensures LastAssigned(DefaultAssignments, RejectDupKeysKey) == Some(BoolLit(DefaultFeatures.rejectDupKeys))
    ensures LastAssigned(DefaultAssignments, AllowSpecialFloatsKey) == Some(BoolLit(DefaultFeatures.allowSpecialFloats))
    ensures LastAssigned(DefaultAssignments, SkipBomKey) == Some(BoolLit(DefaultFeatures.skipBom))
  {
    DefaultKeysDistinct();
    var p := DefaultAssignments;
    LastAssignedAt(p, 0);
    LastAssignedAt(p, 1);
    LastAssignedAt(p, 2);
    LastAssignedAt(p, 3);
    LastAssignedAt(p, 4);
    LastAssignedAt(p, 5);
    LastAssignedAt(p, 6);
    LastAssignedAt(p, 7);
    LastAssignedAt(p, 8);
    LastAssignedAt(p, 9);
    LastAssignedAt(p, 10);
    LastAssignedAt(p, 11);
  }

  /** ecma404Mode assigns each setting at most once. */
  lemma Ecma404KeysDistinct()
    ensures DistinctKeys(Ecma404Assignments)
  {
    KeysDiffer();
  }

  /** What ecma404Mode assigns to each setting: everything but collectComments. */
  lemma Ecma404Table()
    ensures LastAssigned(Ecma404Assignments, CollectCommentsKey) == None
    ensures LastAssigned(Ecma404Assignments, AllowCommentsKey) == Some(BoolLit(Ecma404Features.allowComments))
    ensures LastAssigned(Ecma404Assignments, AllowTrailingCommasKey) == Some(BoolLit(Ecma404Features.allowTrailingCommas))
    ensures LastAssigned(Ecma404Assignments, StrictRootKey) == Some(BoolLit(Ecma404Features.strictRoot))
    ensures LastAssigned(Ecma404Assignments, AllowDroppedNullPlaceholdersKey) == Some(BoolLit(Ecma404Features.allowDroppedNullPlaceholders))
    ensures LastAssigned(Ecma404Assignments, AllowNumericKeysKey) == Some(BoolLit(Ecma404Features.allowNumericKeys))
    ensures LastAssigned(Ecma404Assignments, AllowSingleQuotesKey) == Some(BoolLit(Ecma404Features.allowSingleQuotes))
    ensures LastAssigned(Ecma404Assignments, StackLimitKey) == Some(IntLit(Ecma404Features.stackLimit))
    ensures LastAssigned(Ecma404Assignments, FailIfExtraKey) == Some(BoolLit(Ecma404Features.failIfExtra))
    ensures LastAssigned(Ecma404Assignments, RejectDupKeysKey) == Some(BoolLit(Ecma404Features.rejectDupKeys))
    ensures LastAssigned(Ecma404Assignments, AllowSpecialFloatsKey) == Some(BoolLit(Ecma404Features.allowSpecialFloats))
    ensures LastAssigned(Ecma404Assignments, SkipBomKey) == Some(BoolLit(Ecma404Features.skipBom))
  {
    Ecma404KeysDistinct();
    var p := Ecma404Assignments;
    LastAssignedAbsent(p, CollectCommentsKey);
    LastAssignedAt(p, 0);
    LastAssignedAt(p, 1);
    LastAssignedAt(p, 2);
    LastAssignedAt(p, 3);
    LastAssignedAt(p, 4);
    LastAssignedAt(p, 5);
    LastAssignedAt(p, 6);
    LastAssignedAt(p, 7);
    LastAssignedAt(p, 8);
    LastAssignedAt(p, 9);
    LastAssignedAt(p, 10);
  }

  /** newCharReader on settings whose every entry converts. */
  lemma ReaderOfFlags(s: Value, collect: bool, f: Features)
    requires Valid(s) && !f.legacy
    requires Flag(s, CollectCommentsKey) == Ok(collect)
    requires Flag(s, AllowCommentsKey) == Ok(f.allowComments)
    requires Flag(s, AllowTrailingCommasKey) == Ok(f.allowTrailingCommas)
    requires Flag(s, StrictRootKey) == Ok(f.strictRoot)
    requires Flag(s, AllowDroppedNullPlaceholdersKey) == Ok(f.allowDroppedNullPlaceholders)
    requires Flag(s, AllowNumericKeysKey) == Ok(f.allowNumericKeys)
    requires Flag(s, AllowSingleQuotesKey) == Ok(f.allowSingleQuotes)
    requires UIntSetting(s, StackLimitKey) == Ok(f.stackLimit)
    requires Flag(s, FailIfExtraKey) == Ok(f.failIfExtra)
    requires Flag(s, RejectDupKeysKey) == Ok(f.rejectDupKeys)
    requires Flag(s, AllowSpecialFloatsKey) == Ok(f.allowSpecialFloats)
    requires Flag(s, SkipBomKey) == Ok(f.skipBom)
    ensures NewCharReader(s) == Ok(ReaderConfig(collect, f))
  {
  }

  /** strictMode decides every feature; collectComments, which it does not
      set, is read from the settings as they were. */
  lemma StrictModeReader(settings: Value)
    requires Valid(settings) && (settings.data.Null? || settings.data.Object?)
    ensures StrictMode(settings).Ok?
    ensures var before := Flag(settings, CollectCommentsKey);
      NewCharReader(StrictMode(settings).value)
        == if before.Fail? then Fail(before.message) else Ok(ReaderConfig(before.value, StrictFeatures))
  {
    var p := StrictModeAssignments;
    var f := StrictFeatures;
    StrictModeTable();
    var s := Apply(settings, p).value;
    UnassignedFlag(settings, p, CollectCommentsKey);
    AssignedFlag(settings, p, AllowCommentsKey, f.allowComments);
    AssignedFlag(settings, p, AllowTrailingCommasKey, f.allowTrailingCommas);
    AssignedFlag(settings, p, StrictRootKey, f.strictRoot);
    AssignedFlag(settings, p, AllowDroppedNullPlaceholdersKey, f.allowDroppedNullPlaceholders);
    AssignedFlag(settings, p, AllowNumericKeysKey, f.allowNumericKeys);
    AssignedFlag(settings, p, AllowSingleQuotesKey, f.allowSingleQuotes);
    AssignedUInt(settings, p, StackLimitKey, f.stackLimit);
    AssignedFlag(settings, p, FailIfExtraKey, f.failIfExtra);
    AssignedFlag(settings, p, RejectDupKeysKey, f.rejectDupKeys);
    AssignedFlag(settings, p, AllowSpecialFloatsKey, f.allowSpecialFloats);
    AssignedFlag(settings, p, SkipBomKey, f.skipBom);
    if Flag(settings, CollectCommentsKey).Ok? {
      ReaderOfFlags(s, Flag(settings, CollectCommentsKey).value, f);
    }
  }

  /** setDefaults decides everything, whatever the settings held before. */
  lemma SetDefaultsReader(settings: Value)
    requires Valid(settings) && (settings.data.Null? || settings.data.Object?)
    ensures SetDefaults(settings).Ok?
    ensures NewCharReader(SetDefaults(settings).value) == Ok(ReaderConfig(true, DefaultFeatures))
  {
    var p := DefaultAssignments;
    var f := DefaultFeatures;
    DefaultTable();
    var s := Apply(settings, p).value;
    AssignedFlag(settings, p, CollectCommentsKey, true);
    AssignedFlag(settings, p, AllowCommentsKey, f.allowComments);
    AssignedFlag(settings, p, AllowTrailingCommasKey, f.allowTrailingCommas);
    AssignedFlag(settings, p, StrictRootKey, f.strictRoot);
    AssignedFlag(settings, p, AllowDroppedNullPlaceholdersKey, f.allowDroppedNullPlaceholders);
    AssignedFlag(settings, p, AllowNumericKeysKey, f.allowNumericKeys);
    AssignedFlag(settings, p, AllowSingleQuotesKey, f.allowSingleQuotes);
    AssignedUInt(settings, p, StackLimitKey, f.stackLimit);
    AssignedFlag(settings, p, FailIfExtraKey, f.failIfExtra);
    AssignedFlag(settings, p, RejectDupKeysKey, f.rejectDupKeys);
    AssignedFlag(settings, p, AllowSpecialFloatsKey, f.allowSpecialFloats);
    AssignedFlag(settings, p, SkipBomKey, f.skipBom);
    ReaderOfFlags(s, true, f);
  }

  /** ecma404Mode decides every feature, like strictMode but with strictRoot,
      rejectDupKeys and skipBom off. */
  lemma Ecma404Reader(settings: Value)
    requires Valid(settings) && (settings.data.Null? || settings.data.Object?)
    ensures Ecma404Mode(settings).Ok?
    ensures var before := Flag(settings, CollectCommentsKey);
      NewCharReader(Ecma404Mode(settings).value)
        == if before.Fail? then Fail(before.message) else Ok(ReaderConfig(before.value, Ecma404Features))
  {
    var p := Ecma404Assignments;
    var f := Ecma404Features;
    Ecma404Table();
    var s := Apply(settings, p).value;
    UnassignedFlag(settings, p, CollectCommentsKey);
    AssignedFlag(settings, p, AllowCommentsKey, f.allowComments);
    AssignedFlag(settings, p, AllowTrailingCommasKey, f.allowTrailingCommas);
    AssignedFlag(settings, p, StrictRootKey, f.strictRoot);
    AssignedFlag(settings, p, AllowDroppedNullPlaceholdersKey, f.allowDroppedNullPlaceholders);
    AssignedFlag(settings, p, AllowNumericKeysKey, f.allowNumericKeys);
    AssignedFlag(settings, p, AllowSingleQuotesKey, f.allowSingleQuotes);
    AssignedUInt(settings, p, StackLimitKey, f.stackLimit);
    AssignedFlag(settings, p, FailIfExtraKey, f.failIfExtra);
    AssignedFlag(settings, p, RejectDupKeysKey, f.rejectDupKeys);
    AssignedFlag(settings, p, AllowSpecialFloatsKey, f.allowSpecialFloats);
    AssignedFlag(settings, p, SkipBomKey, f.skipBom);
    if Flag(settings, CollectCommentsKey).Ok? {
      ReaderOfFlags(s, Flag(settings, CollectCommentsKey).value, f);
    }
  }

  /** A default-constructed CharReaderBuilder: setDefaults on null settings. */
  lemma DefaultBuilderReader()
    ensures SetDefaults(NullValueV).Ok?
    ensures NewCharReader(SetDefaults(NullValueV).value) == Ok(ReaderConfig(true, DefaultFeatures))
  {
    SetDefaultsReader(NullValueV);
  }

  /** The twelve names validate accepts. */
  const ValidKeys: set<bytes> := {
    CollectCommentsKey, AllowCommentsKey, AllowTrailingCommasKey, StrictRootKey,
    AllowDroppedNullPlaceholdersKey, AllowNumericKeysKey, AllowSingleQuotesKey, StackLimitKey,
    FailIfExtraKey, RejectDupKeysKey, AllowSpecialFloatsKey, SkipBomKey}

  /** CharReaderBuilder::validate(invalid): without a report (`invalid` is
      a null pointer) the answer is whether every name is known; with one,
      every unknown entry is copied into it and the answer is whether it
      ends up empty. */
  method Validate(settings: Value, invalid: Option<Value>) returns (r: Result<Report>)
    requires Valid(settings) && (invalid.Some? ==> Valid(invalid.value))
    ensures invalid.None? ==> r.Ok? && (r.value.ok <==> forall name :: !Unknown(ValidKeys, settings, name))
    ensures invalid.Some? && (invalid.value.data.Null? || invalid.value.data.Object?) ==> r.Ok?
    ensures invalid.Some? && r.Ok? ==>
      && (r.value.ok <==> Empty(invalid.value) && forall name :: !Unknown(ValidKeys, settings, name))
      && (forall name :: Member(r.value.invalid, name).Some?
                         <==> Member(invalid.value, name).Some? || Unknown(ValidKeys, settings, name))
  {
    if invalid.None? {
      var ok := ValidateNames(ValidKeys, settings);
      return Ok(Report(ok, NullValueV));
    }
    r := ValidateInto(ValidKeys, settings, invalid.value);
  }

  /** The settings of a default-constructed builder pass validate. */
  lemma DefaultBuilderValidates()
    ensures SetDefaults(NullValueV).Ok?
    ensures forall name :: !Unknown(ValidKeys, SetDefaults(NullValueV).value, name)
  {
    PresetValidates(ValidKeys, NullValueV, DefaultAssignments);
  }
}

