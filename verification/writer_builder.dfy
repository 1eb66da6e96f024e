/** StreamWriterBuilder of src/lib_json/json_writer.cpp: its settings are a
    Json::Value object; newStreamWriter turns them into the constructor
    arguments of BuiltStyledStreamWriter, validate reports the keys it does
    not know, and setDefaults writes the default preset. */
module WriterBuilder {
  import opened Wrappers
  import opened Bytes
  import opened ObjectValues
  import opened Values
  import opened ValueMembers
  import opened BuilderSettings
  import opened StyledWriter

  /* The setting names. */
  const IndentationKey: bytes := "indentation"
  const CommentStyleKey: bytes := "commentStyle"
  const PrecisionTypeKey: bytes := "precisionType"
  const EnableYamlKey: bytes := "enableYAMLCompatibility"
  const DropNullKey: bytes := "dropNullPlaceholders"
  const UseSpecialFloatsKey: bytes := "useSpecialFloats"
  const EmitUtf8Key: bytes := "emitUTF8"
  const PrecisionKey: bytes := "precision"

  /** The largest precision newStreamWriter passes on. */
  const MaxPrecision: nat := 17

  const CommentStyleMessage: string := "commentStyle must be 'All' or 'None'"
  const PrecisionTypeMessage: string := "precisionType must be 'significant' or 'decimal'"

  /** Every setting newStreamWriter reads converts to the type it wants. */
  predicate SettingsConvert(settings: Value, realText: Double -> bytes)
    requires Valid(settings)
  {
    && StringSetting(settings, IndentationKey, realText).Ok?
    && StringSetting(settings, CommentStyleKey, realText).Ok?
    && StringSetting(settings, PrecisionTypeKey, realText).Ok?
    && Flag(settings, EnableYamlKey).Ok?
    && Flag(settings, DropNullKey).Ok?
    && Flag(settings, UseSpecialFloatsKey).Ok?
    && Flag(settings, EmitUtf8Key).Ok?
    && UIntSetting(settings, PrecisionKey).Ok?
  }

  function ParseCommentStyle(text: bytes): (r: Result<CommentStyle>)
    ensures r == Ok(CommentsAll) <==> text == "All"
    ensures r == Ok(CommentsNone) <==> text == "None"
    ensures r.Fail? ==> r.message == CommentStyleMessage
  {
    if text == "All" then Ok(CommentsAll)
    else if text == "None" then Ok(CommentsNone)
    else Fail(CommentStyleMessage)
  }

  function ParsePrecisionType(text: bytes): (r: Result<PrecisionType>)
    ensures r == Ok(SignificantDigits) <==> text == "significant"
    ensures r == Ok(DecimalPlaces) <==> text == "decimal"
    ensures r.Fail? ==> r.message == PrecisionTypeMessage
  {
    if text == "significant" then Ok(SignificantDigits)
    else if text == "decimal" then Ok(DecimalPlaces)
    else Fail(PrecisionTypeMessage)
  }

  /** The eight settings as newStreamWriter converts them. */
  datatype RawSettings = RawSettings(
    indentation: bytes, commentStyle: bytes, precisionType: bytes, yaml: bool, dropNull: bool,
    specialFloats: bool, emitUtf8: bool, precision: nat)

  /** The conversions, in the source's order; the first that fails throws. */
  function ReadSettings(settings: Value, realText: Double -> bytes): (r: Result<RawSettings>)
    requires Valid(settings)
    ensures r.Ok? <==> SettingsConvert(settings, realText)
    ensures r.Ok? ==>
      && StringSetting(settings, IndentationKey, realText) == Ok(r.value.indentation)
      && StringSetting(settings, CommentStyleKey, realText) == Ok(r.value.commentStyle)
      && StringSetting(settings, PrecisionTypeKey, realText) == Ok(r.value.precisionType)
      && Flag(settings, EnableYamlKey) == Ok(r.value.yaml)
      && Flag(settings, DropNullKey) == Ok(r.value.dropNull)
      && Flag(settings, UseSpecialFloatsKey) == Ok(r.value.specialFloats)
      && Flag(settings, EmitUtf8Key) == Ok(r.value.emitUtf8)
      && UIntSetting(settings, PrecisionKey) == Ok(r.value.precision)
  {
    var indentation :- StringSetting(settings, IndentationKey, realText);
    var csText :- StringSetting(settings, CommentStyleKey, realText);
    var ptText :- StringSetting(settings, PrecisionTypeKey, realText);
    var eyc :- Flag(settings, EnableYamlKey);
    var dnp :- Flag(settings, DropNullKey);
    var usf :- Flag(settings, UseSpecialFloatsKey);
    var emitUtf8 :- Flag(settings, EmitUtf8Key);
    var pre :- UIntSetting(settings, PrecisionKey);
    Ok(RawSettings(indentation, csText, ptText, eyc, dnp, usf, emitUtf8, pre))
  }

  /** The checks and choices after the conversions: the comment style,
      then the precision type, must be one of the two names each; the
      colon is ": " for YAML, ":" without indentation and " : " otherwise;
      null is dropped with dropNullPlaceholders; the precision is capped at
      17; there is no ending line feed. */
  function Configure(raw: RawSettings): (r: Result<WriterConfig>)
    ensures r == Fail(CommentStyleMessage) <==> ParseCommentStyle(raw.commentStyle).Fail?
    ensures r == Fail(PrecisionTypeMessage) <==>
      ParseCommentStyle(raw.commentStyle).Ok? && ParsePrecisionType(raw.precisionType).Fail?
    ensures r.Ok? || r == Fail(CommentStyleMessage) || r == Fail(PrecisionTypeMessage)
    ensures r.Ok? ==> r.value.indentation == raw.indentation
    ensures r.Ok? ==>
      && (r.value.commentStyle == CommentsAll <==> raw.commentStyle == "All")
      && (r.value.commentStyle == CommentsNone <==> raw.commentStyle == "None")
    ensures r.Ok? ==>
      && (r.value.precisionType == SignificantDigits <==> raw.precisionType == "significant")
      && (r.value.precisionType == DecimalPlaces <==> raw.precisionType == "decimal")
    ensures r.Ok? ==>
      && (r.value.colonSymbol == ": " <==> raw.yaml)
      && (r.value.colonSymbol == ":" <==> !raw.yaml && raw.indentation == [])
      && (r.value.colonSymbol == " : " <==> !raw.yaml && raw.indentation != [])
    ensures r.Ok? ==>
      && (r.value.nullSymbol == [] <==> raw.dropNull)
      && (r.value.nullSymbol == "null" <==> !raw.dropNull)
    ensures r.Ok? ==> r.value.useSpecialFloats == raw.specialFloats && r.value.emitUtf8 == raw.emitUtf8
    ensures r.Ok? ==> r.value.precision <= MaxPrecision && r.value.precision <= raw.precision
    ensures r.Ok? ==> (r.value.precision == MaxPrecision || r.value.precision == raw.precision)
    ensures r.Ok? ==> r.value.endingLineFeedSymbol == []
  {
    var cs :- ParseCommentStyle(raw.commentStyle);
    var pt :- ParsePrecisionType(raw.precisionType);
    var colon: bytes := if raw.yaml then ": " else if raw.indentation == [] then ":" else " : ";
    var nullSymbol: bytes := if raw.dropNull then [] else "null";
    Ok(WriterConfig(raw.indentation, cs, colon, nullSymbol, [], raw.specialFloats, raw.emitUtf8,
                    if raw.precision > MaxPrecision then MaxPrecision else raw.precision, pt))
  }

  /** newStreamWriter: the settings are converted, then checked. */
  function NewStreamWriter(settings: Value, realText: Double -> bytes): (r: Result<WriterConfig>)
    requires Valid(settings)
    ensures !SettingsConvert(settings, realText) ==> r.Fail?
    ensures r.Ok? ==> Ok(r.value.indentation) == StringSetting(settings, IndentationKey, realText)
    ensures r.Ok? ==>
      && (r.value.commentStyle == CommentsAll <==> StringSetting(settings, CommentStyleKey, realText) == Ok("All"))
      && (r.value.commentStyle == CommentsNone <==> StringSetting(settings, CommentStyleKey, realText) == Ok("None"))
    ensures r.Ok? ==>
      && (r.value.precisionType == SignificantDigits <==> StringSetting(settings, PrecisionTypeKey, realText) == Ok("significant"))
      && (r.value.precisionType == DecimalPlaces <==> StringSetting(settings, PrecisionTypeKey, realText) == Ok("decimal"))
    ensures r.Ok? ==>
      && (r.value.colonSymbol == ": " <==> Flag(settings, EnableYamlKey) == Ok(true))
      && (r.value.colonSymbol == ":" <==> Flag(settings, EnableYamlKey) == Ok(false) && r.value.indentation == [])
      && (r.value.colonSymbol == " : " <==> Flag(settings, EnableYamlKey) == Ok(false) && r.value.indentation != [])
    ensures r.Ok? ==>
      && (r.value.nullSymbol == [] <==> Flag(settings, DropNullKey) == Ok(true))
      && (r.value.nullSymbol == "null" <==> Flag(settings, DropNullKey) == Ok(false))
    ensures r.Ok? ==> Ok(r.value.useSpecialFloats) == Flag(settings, UseSpecialFloatsKey)
    ensures r.Ok? ==> Ok(r.value.emitUtf8) == Flag(settings, EmitUtf8Key)
    ensures r.Ok? ==> r.value.precision <= MaxPrecision
    ensures r.Ok? ==> (r.value.precision == MaxPrecision || UIntSetting(settings, PrecisionKey) == Ok(r.value.precision))
    ensures r.Ok? ==> UIntSetting(settings, PrecisionKey).value >= r.value.precision
    ensures r.Ok? ==> r.value.endingLineFeedSymbol == []
    ensures SettingsConvert(settings, realText) ==>
      && (r == Fail(CommentStyleMessage) <==> ParseCommentStyle(StringSetting(settings, CommentStyleKey, realText).value).Fail?)
      && (r == Fail(PrecisionTypeMessage) <==>
            ParseCommentStyle(StringSetting(settings, CommentStyleKey, realText).value).Ok?
            && ParsePrecisionType(StringSetting(settings, PrecisionTypeKey, realText).value).Fail?)
      && (r.Ok? || r == Fail(CommentStyleMessage) || r == Fail(PrecisionTypeMessage))
  {
    var raw :- ReadSettings(settings, realText);
    Configure(raw)
  }

  /** The setting names are eight different strings. */
  lemma KeysDiffer()
    ensures |IndentationKey| == 11 && |CommentStyleKey| == 12 && |PrecisionTypeKey| == 13
    ensures |EnableYamlKey| == 23 && |DropNullKey| == 20 && |UseSpecialFloatsKey| == 16
    ensures |EmitUtf8Key| == 8 && |PrecisionKey| == 9
  {
  }

  /** StreamWriterBuilder::setDefaults. */
  const DefaultAssignments: seq<Assignment> := [
    Assignment(CommentStyleKey, StrLit("All")),
    Assignment(IndentationKey, StrLit("\t")),
    Assignment(EnableYamlKey, BoolLit(false)),
    Assignment(DropNullKey, BoolLit(false)),
    Assignment(UseSpecialFloatsKey, BoolLit(false)),
    Assignment(EmitUtf8Key, BoolLit(false)),
    Assignment(PrecisionKey, IntLit(17)),
    Assignment(PrecisionTypeKey, StrLit("significant"))]

  function SetDefaults(settings: Value): (r: Result<Value>)
    requires Valid(settings)
    ensures r.Ok? <==> settings.data.Null? || settings.data.Object?
  {
    Apply(settings, DefaultAssignments)
  }

  /** The writer the defaults stand for: tab indentation, comments, " : ",
      "null", 17 significant digits. */
  const DefaultWriter: WriterConfig :=
    WriterConfig("\t", CommentsAll, " : ", "null", [], false, false, 17, SignificantDigits)

  lemma DefaultKeysDistinct()
    ensures DistinctKeys(DefaultAssignments)
  {
    KeysDiffer();
  }

  /** What setDefaults assigns to each setting: all eight. */
  lemma DefaultTable()
    ensures LastAssigned(DefaultAssignments, CommentStyleKey) == Some(StrLit("All"))
    ensures LastAssigned(DefaultAssignments, IndentationKey) == Some(StrLit(DefaultWriter.indentation))
    ensures LastAssigned(DefaultAssignments, EnableYamlKey) == Some(BoolLit(false))
    ensures LastAssigned(DefaultAssignments, DropNullKey) == Some(BoolLit(false))
    ensures LastAssigned(DefaultAssignments, UseSpecialFloatsKey) == Some(BoolLit(DefaultWriter.useSpecialFloats))
    ensures LastAssigned(DefaultAssignments, EmitUtf8Key) == Some(BoolLit(DefaultWriter.emitUtf8))
    ensures LastAssigned(DefaultAssignments, PrecisionKey) == Some(IntLit(DefaultWriter.precision))
    ensures LastAssigned(DefaultAssignments, PrecisionTypeKey) == Some(StrLit("significant"))
  {
    DefaultKeysDistinct();
    var p := DefaultAssignments;
    LastAssignedAt(p, 0);
    LastAssignedAt(p, 1);
    LastAssignedAt(p, 2);
    LastAssignedAt(p, 3);
    LastAssignedAt(p, 4);
    LastAssignedAt(p, 5);
    LastAssignedAt(p, 6);
    LastAssignedAt(p, 7);
  }

  /** setDefaults decides everything newStreamWriter reads, whatever the
      settings held before. */
  lemma SetDefaultsWriter(settings: Value, realText: Double -> bytes)
    requires Valid(settings) && (settings.data.Null? || settings.data.Object?)
    ensures SetDefaults(settings).Ok?
    ensures NewStreamWriter(SetDefaults(settings).value, realText) == Ok(DefaultWriter)
  {
    var p := DefaultAssignments;
    DefaultTable();
    var s := Apply(settings, p).value;
    AssignedString(settings, p, IndentationKey, "\t", realText);
    AssignedString(settings, p, CommentStyleKey, "All", realText);
    AssignedString(settings, p, PrecisionTypeKey, "significant", realText);
    AssignedFlag(settings, p, EnableYamlKey, false);
    AssignedFlag(settings, p, DropNullKey, false);
    AssignedFlag(settings, p, UseSpecialFloatsKey, false);
    AssignedFlag(settings, p, EmitUtf8Key, false);
    AssignedUInt(settings, p, PrecisionKey, 17);
  }

  /** A default-constructed StreamWriterBuilder: setDefaults on null
      settings. Its writer puts every non-empty array on several lines. */
  lemma DefaultBuilderWriter(realText: Double -> bytes, v: Value)
    requires Valid(v) && v.data.Array? && Size(v) > 0
    ensures SetDefaults(NullValueV).Ok?
    ensures NewStreamWriter(SetDefaults(NullValueV).value, realText) == Ok(DefaultWriter)
    ensures WriteArrayValue(DefaultWriter, v, realText) == MultiLine
  {
    SetDefaultsWriter(NullValueV, realText);
  }

  /** The eight names validate accepts. */
  const WriterKeys: set<bytes> := {
    IndentationKey, CommentStyleKey, EnableYamlKey, DropNullKey, UseSpecialFloatsKey,
    EmitUtf8Key, PrecisionKey, PrecisionTypeKey}

  /** StreamWriterBuilder::validate(invalid): without a report (`invalid`
      is a null pointer) the answer is whether every name is known; with
      one, every unknown entry is copied into it and the answer is whether
      it ends up empty. */
  method Validate(settings: Value, invalid: Option<Value>) returns (r: Result<Report>)
    requires Valid(settings) && (invalid.Some? ==> Valid(invalid.value))
    ensures invalid.None? ==> r.Ok? && (r.value.ok <==> forall name :: !Unknown(WriterKeys, settings, name))
    ensures invalid.Some? && (invalid.value.data.Null? || invalid.value.data.Object?) ==> r.Ok?
    ensures invalid.Some? && r.Ok? ==>
      && (r.value.ok <==> Empty(invalid.value) && forall name :: !Unknown(WriterKeys, settings, name))
      && (forall name :: Member(r.value.invalid, name).Some?
                         <==> Member(invalid.value, name).Some? || Unknown(WriterKeys, settings, name))
  {
    if invalid.None? {
      var ok := ValidateNames(WriterKeys, settings);
      return Ok(Report(ok, NullValueV));
    }
    r := ValidateInto(WriterKeys, settings, invalid.value);
  }

  /** The settings of a default-constructed builder pass validate. */
  lemma DefaultBuilderValidates()
    ensures SetDefaults(NullValueV).Ok?
    ensures forall name :: !Unknown(WriterKeys, SetDefaults(NullValueV).value, name)
  {
    PresetValidates(WriterKeys, NullValueV, DefaultAssignments);
  }
}
