# A verified model of the jsoncpp core

This project models, in Dafny, the sequential core of jsoncpp, the C++ JSON
library, and proves properties of it. The model covers four parts.

- **Value data model** (`values.dfy`, `object_values.dfy`,
  `value_access.dfy`, `value_members.dfy`, `value_iterator.dfy`,
  `value_path.dfy`, `value_compare.dfy`, `value_convert.dfy`).
  - A `Value` is a payload plus three comment slots.
  - Arrays and objects share one strictly sorted map keyed by
    `Key = Index(n) | Name(bytes)`. This is the `CZString` ordering of the
    `std::map` behind `ObjectValues`.
  - Array size is the last index plus one, so holes count.
  - The mutating members (auto-vivifying `operator[]`, `resize`,
    `append`, `insert`, `removeIndex`, `removeMember`, `clear`,
    `setComment`) are pure functions that return the new value. Where
    the method also returns something, it comes back as an `Update(self,
    out)` pair.
  - A `JSON_ASSERT` or a `throwRuntimeError` becomes a `Fail` result.
- **Scanner and recursive-descent parser** (`reader_text.dfy`,
  `number_reader.dfy`, `scanner.dfy`, `parser.dfy`, `parser_facts.dfy`).
  - `OurReader` works over a byte sequence with an explicit cursor, a
    token record `(kind, start, end)`, a depth counter and an error list.
  - The legacy `Reader` is the same parser under the `legacy` feature
    flag. That flag selects:
    - the 32-bit int/uint cut-off in `decodeNumber`;
    - its token set (no '+', no special floats, no single quotes);
    - its comment placement rule;
    - no BOM skip.
- **Builders** (`builder_settings.dfy`, `reader_builder.dfy`,
  `writer_builder.dfy`). These cover `CharReaderBuilder` and
  `StreamWriterBuilder`:
  - the settings `Value` and its presets;
  - the conversion of settings into a reader or writer configuration;
  - `validate`.
- **Serialisation helpers and writers** (`tool.dfy`, `string_writer.dfy`,
  `string_round_trip.dfy`, `fast_writer.dfy`, `styled_writer.dfy`).
  These cover:
  - integer printing;
  - UTF-8 encoding and decoding (section 3 of RFC 3629);
  - string quoting with `\u` escapes and surrogate pairs (section 2.1 of
    RFC 2781);
  - `FastWriter`;
  - the single-line/multi-line decision for arrays in
    `BuiltStyledStreamWriter`.

Bytes are `char`s below 256 (`bytes.dfy`); integers are unbounded, and the
64-bit and 32-bit ranges of the source are subset types or explicit range
checks. Floating point is opaque: a `Double` is a finite real, NaN or an
infinity, and the two places that format or parse doubles (`decodeDouble`
and `valueToString(double)`) are function parameters (`DoubleParser`,
`realText`). `wrappers.dfy` holds the `Option` and `Result` types.

## Model

All source paths are relative to the repository root.

| member | source | states |
|---|---|---|
| Tool.CodePointToUtf8 | src/lib_json/json_tool.h:44-68 | 1, 2, 3 or 4 bytes exactly for code points up to 0x7F, 0x7FF, 0xFFFF and 0x10FFFF, none above; a 1-byte result is the code point itself; the lead byte has the 110/1110/11110 prefix of its length and every later byte is a 10xxxxxx continuation byte |
| Tool.CodePointToUtf8Payload | src/lib_json/json_tool.h:44-68 | every code point up to U+10FFFF is recovered from the payload bits of its encoding |
| Tool.DigitsValue | src/lib_json/json_tool.h:84-90 | the decimal digits written for a value read back as that value, start with '0' only for 0, and are "0" for 0 |
| Tool.UIntToStringFits | src/lib_json/json_tool.h:70-72 | a 64-bit value has at most 20 digits, so the digits and the NUL fit the 25-byte buffer |
| Tool.UIntToString | src/lib_json/json_tool.h:84-90 | the digits are stored right to left and end just before a NUL at the initial cursor; the cursor ends just before the first digit; no byte outside that span changes |
| Tool.FixNumericLocale | src/lib_json/json_tool.h:103-110 | each ',' becomes '.', every other byte and the length are kept, and no ',' remains |
| Tool.TrimmedLength | src/lib_json/json_tool.h:146-159 | the cut-off point after which every byte is '0' and before which the last byte is not '0' |
| Tool.FixZerosInTheEnd | src/lib_json/json_tool.h:133-159 | the new end lies within the buffer and only '0' bytes are cut (plus the '.' itself when the end falls on it); when the trailing zeros follow a '.' that is not the first byte, ".0" is kept with a nonzero precision and the '.' goes too with precision 0; otherwise the end is just after the last non-'0' byte |
| Bytes.BytesLessIrreflexive | src/lib_json/json_value.cpp:340-353 | no byte string is below itself |
| Bytes.BytesLessTrichotomy | src/lib_json/json_value.cpp:340-353 | the byte-string order (bytewise over the common prefix, shorter first) is total and asymmetric |
| Bytes.BytesLessTransitive | src/lib_json/json_value.cpp:340-353 | the byte-string order is transitive |
| Bytes.CString | src/lib_json/json_value.cpp:1445-1453 | the bytes `strlen` sees: a prefix free of NUL that ends just before the first NUL, and the whole string when it holds none |
| ObjectValues.KeyLessTotal | src/lib_json/json_value.cpp:340-365 | the `CZString` order is irreflexive, asymmetric and total, with `==` as its equality |
| ObjectValues.KeyLessTransitive | src/lib_json/json_value.cpp:340-353 | the `CZString` order is transitive, as `std::map` requires |
| ObjectValues.LookupSpec | src/lib_json/json_value.cpp:1285-1297 | in a sorted map, the lookup succeeds exactly when some entry has the key, and yields that entry's value |
| ObjectValues.AssignSpec | src/lib_json/json_value.cpp:1249-1265 | storing under a key keeps the map sorted, grows it by one only for a new key, binds the key to the value and leaves every other binding |
| ObjectValues.EraseSpec | src/lib_json/json_value.cpp:1412-1425 | erasing a key keeps the map sorted, shrinks it by one only when the key was present, removes that binding and no other |
| ObjectValues.Assign | src/lib_json/json_value.cpp:1249-1265 | storing under a key grows the map by at most one entry |
| ObjectValues.Erase | src/lib_json/json_value.cpp:1412-1425 | erasing shrinks the map by exactly one entry when the key is present and keeps its size otherwise |
| ObjectValues.LookupExtensional | src/lib_json/json_value.cpp:1285-1297 | two sorted maps that answer every lookup alike are equal |
| Values.Ordinal | include/json/value.h:126-135 | the type tags are numbered below 8, with null at 0 and object at 7 |
| Values.Size | src/lib_json/json_value.cpp:1019-1040 | 0 for every non-container; the entry count of an object; for an array, 0 exactly when it has no entries, otherwise above every stored index |
| Values.SizeBounds | src/lib_json/json_value.cpp:1019-1040 | every stored array index lies below size(), and a non-empty array stores an element at size() - 1 |
| Values.SizeFromElements | include/json/value.h:750-764 | an array whose indices all lie below n and which stores an element at n - 1 has size n |
| Values.Empty | src/lib_json/json_value.cpp:1046-1050 | true exactly for null and for an array or object with no entries |
| Values.SetCommentSlot | src/lib_json/json_value.cpp:1744-1750 | a slot of 3 or more changes nothing; otherwise that slot reads back the text and the other two slots are kept |
| Values.SetComment | src/lib_json/json_value.cpp:1756-1764 | one trailing '\n' is removed; it succeeds exactly when the rest is empty or starts with '/', and then only the chosen slot changes |
| Values.SetCommentThenGet | include/json/value.h:1117-1125 | a comment starting with '/' and ending in '\n' is stored, and reads back without the '\n' |
| ValueAccess.AtIndex | src/lib_json/json_value.cpp:1097-1111 | works on null and arrays only; null becomes an array; the result is the element at the index, a null now stored there if it was absent; every other index is kept |
| ValueAccess.AtInt | src/lib_json/json_value.cpp:1113-1118 | a negative index fails; any other index behaves as the unsigned access |
| ValueAccess.ConstAtIndex | src/lib_json/json_value.cpp:1120-1131 | works on null and arrays only, never changes the value, and yields the element or null when it is absent |
| ValueAccess.AtIndexAgreesWithConst | src/lib_json/json_value.cpp:1097-1131 | the mutable access yields what the const access yields, and afterwards the const access sees the same elements as before |
| ValueAccess.AtIndexIdempotent | src/lib_json/json_value.cpp:1097-1111 | a second access at the same index changes nothing and yields the same element |
| ValueAccess.GetIndex | src/lib_json/json_value.cpp:1271-1274 | works on null and arrays only, and yields the element or the default when it is absent |
| ValueAccess.IsValidIndexSpec | src/lib_json/json_value.cpp:1279 | an index is valid for an array exactly when some element is stored at or above it, for an object exactly when it is below the member count, and never for a scalar |
| ValueAccess.Append | src/lib_json/json_value.cpp:1349-1356 | works on null and arrays only; the value lands at the old size(), size() grows by exactly one and no other index changes |
| ValueAccess.Insert | src/lib_json/json_value.cpp:1370-1382 | returns false exactly when the index exceeds size(), and then changes nothing; otherwise elements at and above the index move up one, the new value sits at the index and size() grows by one |
| ValueAccess.RemoveIndex | src/lib_json/json_value.cpp:1464-1484 | fails for a non-array or an absent index and then changes nothing; otherwise yields the old element, moves every later element down one and erases the last index |
| ValueAccess.RemoveIndexSize | src/lib_json/json_value.cpp:1464-1484 | removal always shrinks size(), and by exactly one unless the element before the last is a hole |
| ValueAccess.AppendThenRemoveLast | src/lib_json/json_value.cpp:1349-1484 | removing the element just appended gives it back and restores every index |
| ValueAccess.InsertThenRemove | include/json/value.h:866-879 | removing the element just inserted gives it back and restores every index, with former holes read as null |
| ValueAccess.Resize | src/lib_json/json_value.cpp:1078-1095 | works on null and arrays, and succeeds exactly when the final size assertion holds (n is 0, n grows the array, or an element is stored at n - 1); then size() is n, old elements below n are kept, new indices hold null and indices at or above n are gone; a failure carries the source's message, "in Json::Value::resize(): requires arrayValue" for another type and JSON_ASSERT's "assert json failed" for a failed shrink |
| ValueAccess.ResizeToOwnSize | src/lib_json/json_value.cpp:1078-1095 | resizing an array to its own size returns it unchanged |
| ValueAccess.Clear | src/lib_json/json_value.cpp:1058-1072 | works on null, arrays and objects; keeps the type and the comments and leaves the value empty with size 0 |
| ValueAccess.FrontBackOfArray | include/json/value.h:2050-2071 | in a non-empty array, back() is the element at size() - 1 and front() is the first stored element in index order |
| ValueMembers.MemberSpec | src/lib_json/json_value.cpp:1285-1297 | the member lookup succeeds exactly when the object map holds the name, and yields its value |
| ValueMembers.Member | src/lib_json/json_value.cpp:1285-1297 | a member found in a well-formed value is itself well formed |
| ValueMembers.AtName | src/lib_json/json_value.cpp:1249-1265 | works on null and objects only; null becomes an object; yields the member or a null now stored under the name; other members are kept; size() grows only when the name was absent |
| ValueMembers.Find | src/lib_json/json_value.cpp:1285-1297 | works on null and objects only; null finds nothing; an object finds exactly the listed names, with their stored values |
| ValueMembers.ConstAtName | src/lib_json/json_value.cpp:1314-1325 | works on null and objects only, and yields the member or null |
| ValueMembers.GetByName | src/lib_json/json_value.cpp:1388-1392 | works on null and objects only, and yields the member or the default |
| ValueMembers.IsMember | src/lib_json/json_value.cpp:1490-1493 | works on null and objects only, and is true exactly when the member exists |
| ValueMembers.RemoveMember | src/lib_json/json_value.cpp:1412-1425 | yields the removed member if there was one; only then does the value change, losing that name and one from size(); every other name is kept |
| ValueMembers.DropMember | src/lib_json/json_value.cpp:1445-1453 | works on null and objects only; keeps the type and the comments; the name as `strlen` reads it (cut at its first NUL) is gone and every other name is kept |
| ValueMembers.DropAgreesWithRemove | src/lib_json/json_value.cpp:1412-1453 | on an object, removeMember(key) leaves what removeMember(begin, end) leaves for the key cut at its first NUL, and for a key without NUL the same value |
| ValueMembers.GetMemberNames | src/lib_json/json_value.cpp:1512-1526 | works on null and objects only; yields size() names, exactly the member names, in strictly increasing byte order |
| ValueMembers.SetMember | src/lib_json/json_value.cpp:1249-1265 | assignment through `operator[]` works on null and objects only; the name then maps to the value, the other names are kept, and size() grows only for a new name |
| ValueMembers.SameMembers | src/lib_json/json_value.cpp:1285-1297 | two objects with the same comments whose members agree name by name are equal |
| ValueMembers.SetThenRemove | src/lib_json/json_value.cpp:1412-1425 | assigning a member and then removing it gives back the assigned value and leaves every other name as it was |
| ValueMembers.RemoveThenSet | src/lib_json/json_value.cpp:1249-1265 | removing an existing member and assigning it back restores the object exactly |
| ValueMembers.SetMemberIdempotent | src/lib_json/json_value.cpp:1249-1265 | assigning the same member twice equals assigning it once |
| ValueMembers.SetIndex | src/lib_json/json_value.cpp:1097-1111 | assignment through the index access works on null and arrays only; the index then holds the value, other indices are kept, and size() becomes index + 1 when that is larger |
| ValueMembers.SetIndexSize | src/lib_json/json_value.cpp:1019-1040 | an array that differs from another only at one stored index has the size that index implies |
| ValueIterator.Begin | src/lib_json/json_value.cpp:1825-1888 | a scalar gives a null iterator; a container gives its first entry |
| ValueIterator.End | src/lib_json/json_value.cpp:1825-1888 | a scalar gives a null iterator; a container gives one past its last entry |
| ValueIterator.KeyValue | src/lib_json/json_valueiterator.inl:43-51 | an index key gives an unsigned value equal to the index; a name key gives a string value with the same bytes |
| ValueIterator.IndexOf | src/lib_json/json_valueiterator.inl:53-58 | the index for an index key, UInt(-1) for a name key |
| ValueIterator.MemberNameRange | src/lib_json/json_valueiterator.inl:74-82 | a name exactly for a name key, and then the key's bytes |
| ValueIterator.NameOf | src/lib_json/json_valueiterator.inl:60-67 | "" for an index key and exactly the key's bytes for a name key |
| ValueIterator.MemberNameOf | src/lib_json/json_valueiterator.inl:69-72 | "" for an index key and the key's bytes for a name key |
| ValueIterator.NameAgreesWithMemberName | src/lib_json/json_valueiterator.inl:60-72 | name() and memberName() give the same bytes |
| ValueIterator.IsEqual | src/lib_json/json_valueiterator.inl:31-36 | a null iterator equals only a null iterator; two positioned iterators are equal when their positions are |
| ValueIterator.IsEqualIsIdentity | src/lib_json/json_valueiterator.inl:31-36 | iterator equality is exactly identity, hence symmetric |
| ValueIterator.ComputeDistance | src/lib_json/json_valueiterator.inl:17-29 | 0 for two null iterators; otherwise the number of increments from the first to the second |
| ValueIterator.DistanceBeginEnd | src/lib_json/json_valueiterator.inl:17-29 | from begin to end there are size() steps for an object, the number of stored elements (at most size()) for an array, and 0 for a scalar |
| ValueIterator.ToMutable | src/lib_json/json_valueiterator.inl:106-109 | converting a const iterator always fails with the source's message |
| ValueIterator.NameFindsValue | src/lib_json/json_valueiterator.inl:60-67 | looking up an object iterator's name finds the value it points to |
| ValueIterator.IndexFindsValue | src/lib_json/json_valueiterator.inl:53-58 | an array iterator's key is an index, and that index holds the value it points to |
| ValueIterator.NamesInIterationOrder | src/lib_json/json_value.cpp:1512-1526 | getMemberNames lists the iterator names in iteration order |
| ValuePath.AddInArg | src/lib_json/json_value.cpp:1966-1978 | the next argument is taken exactly when one remains and has the wanted kind; otherwise nothing changes |
| ValuePath.ScanIndex | src/lib_json/json_value.cpp:1931-1964 | the digit loop stops at the first non-digit, and the index wraps below 2^32 |
| ValuePath.NameEnd | src/lib_json/json_value.cpp:1931-1964 | a name runs to the first '[' or '.' (or, in the source's loop, NUL), or to the end |
| ValuePath.Step | src/lib_json/json_value.cpp:1931-1964 | one turn of makePath appends at most one argument and, unless a NUL can end a name, always advances |
| ValuePath.MakePathFrom | src/lib_json/json_value.cpp:1931-1964 | makePath's loop consumes the whole path and only appends arguments |
| ValuePath.StepWithoutNul | src/lib_json/json_value.cpp:1931-1964 | on a path without NUL bytes, a turn of the loop as written and a turn of the corrected loop take the same step |
| ValuePath.MakePath | src/lib_json/json_value.cpp:1914-1925 | arguments within range give path steps within range |
| ValuePath.ScanDigits | src/lib_json/json_value.cpp:1931-1964 | the digit loop reads a digit run below 2^32 as its decimal value |
| ValuePath.NameEndAt | src/lib_json/json_value.cpp:1931-1964 | the name loop stops exactly at the first byte that ends a name |
| ValuePath.ReadBack | src/lib_json/json_value.cpp:1931-1964 | the loop reads the printed text of printable arguments (indices, and names that are non-empty and free of '[', '.' and NUL) back as those arguments |
| ValuePath.MakePathOfText | src/lib_json/json_value.cpp:1914-1925 | parsing the printed path of printable arguments (names free of '[', '.' and NUL) yields exactly those arguments |
| ValuePath.Element | src/lib_json/json_value.cpp:1120-1131 | the element at an index, or null when absent |
| ValuePath.Resolve | src/lib_json/json_value.cpp:1986-2005 | a resolved value is well formed (absent when a step does not apply) |
| ValuePath.ResolveOr | src/lib_json/json_value.cpp:2011-2027 | with a well-formed default the result is well formed |
| ValuePath.ResolveOrAgrees | src/lib_json/json_value.cpp:2011-2027 | resolve-with-default equals resolve, with the default where resolve fails |
| ValuePath.Make | src/lib_json/json_value.cpp:2033-2047 | make yields a well-formed root and node |
| ValuePath.MakeThenResolve | src/lib_json/json_value.cpp:1986-2047 | after make, resolve along the same path finds the node make returned |
| ValuePath.ResolveThenMake | src/lib_json/json_value.cpp:1986-2047 | where resolve finds a value, make succeeds and returns that same value |
| ValuePath.IndexAtBelowSize | src/lib_json/json_value.cpp:1986-2005 | an element that is present passes the isValidIndex test of resolve |
| ValuePath.NulByteStallsMakePath | src/lib_json/json_value.cpp:1931-1964 | on a path holding a NUL byte, the loop as written appends an empty name and does not advance, while the corrected loop advances |
| ValueCompare.Compare | src/lib_json/json_value.cpp:582-588 | -1 exactly when a < b, 1 exactly when b < a, 0 when neither |
| ValueCompare.Less | src/lib_json/json_value.cpp:590-638 | a < b only when the type tag of a is numbered no higher than that of b |
| ValueCompare.Equal | src/lib_json/json_value.cpp:646-686 | equal values have the same type |
| ValueCompare.TypeOrderDrivesLess | src/lib_json/json_value.cpp:590-593 | values of different types are ordered by the numbers of their type tags, in both directions, so one of them is below the other |
| ValueCompare.NaNBreaksTransitivity | src/lib_json/json_value.cpp:590-638 | [NaN, 0] < [5.0, 1] and [5.0, 1] < [6.0, -1], yet not [NaN, 0] < [6.0, -1]: with NaN elements `<` is not transitive |
| ValueCompare.DoubleLessOrder | src/lib_json/json_value.cpp:590-638 | `<` on doubles is a strict partial order, total away from NaN |
| ValueCompare.LessIrreflexive | src/lib_json/json_value.cpp:590-638 | no value is below itself, NaN included |
| ValueCompare.LessAsymmetric | src/lib_json/json_value.cpp:590-638 | a < b excludes b < a |
| ValueCompare.EqualSymmetric | src/lib_json/json_value.cpp:646-686 | `==` is symmetric |
| ValueCompare.EqualReflexive | src/lib_json/json_value.cpp:646-686 | a value equals itself exactly when it holds no NaN |
| ValueCompare.NaNSelfCompare | src/lib_json/json_value.cpp:582-686 | a NaN is unequal to itself, yet compare answers 0 for it |
| ValueCompare.EqualNotLess | src/lib_json/json_value.cpp:590-686 | equal values are unordered in both directions |
| ValueCompare.LessTrichotomy | src/lib_json/json_value.cpp:590-686 | without NaN, at least one of a < b, a == b, b < a holds |
| ValueCompare.CompareZeroIffEqual | src/lib_json/json_value.cpp:582-686 | without NaN, compare answers 0 exactly for equal values |
| ValueConvert.IntegerRangeChecks | src/lib_json/json_value.cpp:1557-1667 | for int and uint tags, isInt/isUInt/isInt64/isUInt64 are exact range checks; every int passes isInt64, every uint isUInt64, and both are integral |
| ValueConvert.IsInt | src/lib_json/json_value.cpp:1557-1574 | a value that fits an Int also fits an Int64 |
| ValueConvert.IsUInt | src/lib_json/json_value.cpp:1580-1600 | a value that fits a UInt also fits an Int64 and a UInt64 |
| ValueConvert.IsInt64 | src/lib_json/json_value.cpp:1608-1623 | every int passes, and only numbers pass |
| ValueConvert.IsUInt64 | src/lib_json/json_value.cpp:1629-1644 | every uint passes, and only numbers pass |
| ValueConvert.IsIntegralValue | src/lib_json/json_value.cpp:1650-1667 | integral exactly when the value fits an Int64 or a UInt64 |
| ValueConvert.IsNumeric | src/lib_json/json_value.cpp:1673-1681 | numeric exactly for the int, uint and real tags |
| ValueConvert.IsConvertibleTo | src/lib_json/json_value.cpp:982-1013 | null converts to every type; only null or a value of that type converts to array or object; every number converts to real, boolean and string |
| ValueConvert.AsInt | src/lib_json/json_value.cpp:772-792 | a result lies in the 32-bit signed range; for an integer tag it succeeds exactly when isInt holds, and yields the integer |
| ValueConvert.AsUInt | src/lib_json/json_value.cpp:799-819 | a result lies in the 32-bit unsigned range; for an integer tag it succeeds exactly when isUInt holds, and yields the integer |
| ValueConvert.AsInt64 | src/lib_json/json_value.cpp:828-850 | a result lies in the 64-bit signed range; for an integer tag it succeeds exactly when isInt64 holds, and yields the integer |
| ValueConvert.AsUInt64 | src/lib_json/json_value.cpp:856-875 | a result lies in the 64-bit unsigned range; for an integer tag it succeeds exactly when isUInt64 holds, and yields the integer |
| ValueConvert.AsBool | src/lib_json/json_value.cpp:958-976 | fails exactly for strings, arrays and objects; an integer is true exactly when nonzero |
| ValueConvert.AsString | src/lib_json/json_value.cpp:741-765 | fails exactly for arrays and objects; a string is itself, null is "", a boolean is "true" or "false"; an int gives a '-' exactly when negative followed by the decimal digits of its magnitude; a uint gives the decimal digits of the number; a real gives valueToString's text |
| ValueConvert.ConvertibleIffConversionSucceeds | src/lib_json/json_value.cpp:982-1013 | isConvertibleTo(int, uint, boolean, string) holds exactly when the matching conversion succeeds |
| ValueConvert.ConvertibleToIntIff | src/lib_json/json_value.cpp:982-1013 | isConvertibleTo(intValue) holds exactly when asInt succeeds |
| ValueConvert.ConvertibleToUIntIff | src/lib_json/json_value.cpp:982-1013 | isConvertibleTo(uintValue) holds exactly when asUInt succeeds |
| ValueConvert.ConvertibleToOwnType | src/lib_json/json_value.cpp:982-1013 | null converts to every type; a value converts to its own type except an integer outside the 32-bit range of its signedness |
| ValueConvert.AsUIntRejectsProperFractions | src/lib_json/json_value.cpp:799-819 | asUInt(0.5) fails while asInt(0.5) gives 0 and asUInt(1.5) gives 1 |
| StringWriter.UIntText | src/lib_json/json_writer.cpp:111-117 | decimal digits without leading zeros whose value is the number |
| StringWriter.IntText | src/lib_json/json_writer.cpp:91-105 | a leading '-' exactly for negatives, followed by the digits of the magnitude, minLargestInt included |
| StringWriter.DoesAnyCharRequireEscaping | src/lib_json/json_writer.cpp:213-219 | true exactly when some byte is '"', '\\', below 0x20 or above 0x7F |
| StringWriter.Utf8ToCodepointAsWritten | src/lib_json/json_writer.cpp:232-276 | the decoder as written reads 1 to 4 bytes within the input and yields a number below 2^21, with no check that the result is a Unicode scalar value |
| StringWriter.Utf8ToCodepoint | src/lib_json/json_writer.cpp:232-276 | reads 1 to 4 bytes within the input, yields a Unicode scalar value, and any result other than U+FFFD re-encodes to exactly the bytes it read |
| StringWriter.TwoByteInverse | src/lib_json/json_writer.cpp:232-276 | a well-formed 2-byte sequence decodes to a code point whose encoding is that sequence |
| StringWriter.ThreeByteInverse | src/lib_json/json_writer.cpp:232-276 | a well-formed 3-byte sequence decodes to a code point whose encoding is that sequence |
| StringWriter.FourByteInverse | src/lib_json/json_writer.cpp:232-276 | a 4-byte sequence with a payload in 0x10000-0x10FFFF decodes to a code point whose encoding is that sequence |
| StringWriter.EncodingShape | src/lib_json/json_tool.h:44-68 | an encoded scalar's lead byte and length match its range, and the payload bits give the scalar back |
| StringWriter.Utf8RoundTripAsWritten | src/lib_json/json_writer.cpp:232-276 | the decoder as written reads every encoded scalar back, consuming the whole encoding |
| StringWriter.Utf8RoundTrip | src/lib_json/json_writer.cpp:232-276 | the corrected decoder reads every encoded scalar back, consuming the whole encoding |
| StringWriter.Utf8AsWrittenAcceptsIllFormed | src/lib_json/json_writer.cpp:263-273 | the decoder as written turns F4 90 80 80 into 0x110000, above the Unicode range, and C2 41 into 0x81; the corrected decoder gives U+FFFD for both |
| StringWriter.Utf8DecodersAgree | src/lib_json/json_writer.cpp:232-276 | wherever the corrected decoder yields a code point other than U+FFFD, the decoder as written yields the same code point and length |
| StringWriter.ToHex16Bit | src/lib_json/json_writer.cpp:305-314 | four lower-case hex digits whose value is the low 16 bits of the input |
| StringWriter.HexEscape | src/lib_json/json_writer.cpp:338-340 | "\u" followed by the four hex digits |
| StringWriter.CodePointText | src/lib_json/json_writer.cpp:397-409 | one raw byte exactly for printable ASCII, and a twelve-byte surrogate pair exactly above the Basic Multilingual Plane |
| StringWriter.HexEscapeAscii | src/lib_json/json_writer.cpp:338-340 | every byte of a `\u` escape is ASCII |
| StringWriter.CodePointTextAscii | src/lib_json/json_writer.cpp:397-409 | the text written for a decoded code point is ASCII |
| StringWriter.EscapeFromAscii | src/lib_json/json_writer.cpp:354-416 | without emitUTF8 every byte of the escaped body is ASCII, whatever the input bytes |
| StringWriter.ValueToQuotedStringN | src/lib_json/json_writer.cpp:354-416 | the output starts and ends with '"', and is the input between quotes when no byte needs escaping |
| StringRoundTrip.ShortEscapeInverse | src/lib_json/json_reader.cpp:2222-2273 | each two-byte escape the writer emits is read back as the original byte |
| StringRoundTrip.HexEscapeRoundTrip | src/lib_json/json_reader.cpp:2307-2331 | the four hex digits the writer emits read back as the low 16 bits, with the rest untouched |
| StringRoundTrip.BmpEscapeDecodes | src/lib_json/json_reader.cpp:2279-2301 | a "\uXXXX" escape of a non-surrogate BMP code point decodes to its UTF-8 encoding |
| StringRoundTrip.SurrogateSplit | src/lib_json/json_writer.cpp:389-410 | the surrogate pair computed for a supplementary code point lies in D800-DBFF and DC00-DFFF, combines back to that code point, and is what the writer emits as two `\u` escapes |
| StringRoundTrip.PairEscapeDecodes | src/lib_json/json_reader.cpp:2279-2301 | the surrogate-pair escape of a supplementary code point decodes to its UTF-8 encoding |
| StringRoundTrip.RawByteDecodes | src/lib_json/json_reader.cpp:2222-2273 | a byte other than '"' and '\\' is copied verbatim |
| StringRoundTrip.ShortEscapeDecodes | src/lib_json/json_reader.cpp:2222-2273 | a two-byte escape decodes to the byte it stands for |
| StringRoundTrip.EscapeRoundTripUtf8 | src/lib_json/json_writer.cpp:354-416 | with emitUTF8, decoding the escaped body gives back every input byte |
| StringRoundTrip.EscapeRoundTripAscii | src/lib_json/json_writer.cpp:354-416 | without emitUTF8, decoding the escaped body of well-formed UTF-8 gives back the input bytes |
| StringRoundTrip.QuotedStringRoundTrip | src/lib_json/json_writer.cpp:354-416 | the reader's decodeString applied to valueToQuotedStringN's output gives back the string, with emitUTF8 or for well-formed UTF-8 input |
| StringRoundTrip.UnescapedReadsVerbatim | src/lib_json/json_writer.cpp:354-360 | a string needing no escape decodes to itself |
| ReaderText.FirstNonHex | src/lib_json/json_reader.cpp:2307-2331 | the position of the first non-hex byte among the four, or 4 |
| ReaderText.UnicodeEscape | src/lib_json/json_reader.cpp:2307-2331 | succeeds exactly when four hex digits (either case) follow, yields their value below 0x10000 and consumes those four |
| ReaderText.CombineSurrogates | src/lib_json/json_reader.cpp:2279-2301 | a combined pair lies in 0x10000-0x10FFFF |
| ReaderText.UnicodeCodePoint | src/lib_json/json_reader.cpp:2279-2301 | a decoded escape (or pair of escapes) is at most 0x10FFFF and consumes at least four bytes |
| ReaderText.DecodeChars | src/lib_json/json_reader.cpp:2222-2273 | an error location lies within the string body |
| ReaderText.PlainTextDecodes | src/lib_json/json_reader.cpp:2222-2273 | a body with no '"' and no '\\' decodes to itself |
| ReaderText.DecodeString | src/lib_json/json_reader.cpp:2222-2273 | decodeString fails exactly when the body between the quotes has a bad escape, and then with that escape's message |
| ReaderText.DecodeStringErrorAt | src/lib_json/json_reader.cpp:2222-2273 | a decodeString error points inside the token, between its quotes |
| ReaderText.ContainsNewLine | src/lib_json/json_reader.cpp:1500-1503 | true exactly when some byte is '\n' or '\r' |
| ReaderText.LineStart | src/lib_json/json_reader.cpp:2392-2411 | the start of the last line lies within the text |
| ReaderText.NormalizeEol | src/lib_json/json_reader.cpp:1864-1880 | the output is no longer than the input |
| ReaderText.NormalizeEolSpec | src/lib_json/json_reader.cpp:1864-1880 | the output holds no '\r', one '\n' per line break of the input (CRLF counted once), and every other byte in order |
| ReaderText.NormalizeEolIdempotent | src/lib_json/json_reader.cpp:1864-1880 | text without '\r' is kept as is, so normalising twice equals normalising once |
| ReaderText.CrFreeFixed | src/lib_json/json_reader.cpp:1864-1880 | text without '\r' is unchanged |
| ReaderText.LineColumnLoop | src/lib_json/json_reader.cpp:2392-2411 | from any location on the line grid, the loop reaches line = 1 + breaks before the location and column = 1 + bytes since the last line start |
| ReaderText.LineColumnReaches | src/lib_json/json_reader.cpp:2392-2411 | from one point on the line grid the loop reaches any later one with that point's line count and line start |
| ReaderText.LineAndColumnSpec | src/lib_json/json_reader.cpp:2392-2411 | line = 1 + number of line breaks before the location (CRLF counted once); column = 1 + bytes since the last line start |
| ReaderText.LocationInsideCrLf | src/lib_json/json_reader.cpp:2392-2411 | a location between a CR and its LF reports column 0, on the line after that break |
| NumberReader.DecodeDouble | src/lib_json/json_reader.cpp:2187-2201 | succeeds exactly when the double parser accepts the token, and then yields its real; otherwise fails with "'…' is not a number." |
| NumberReader.GuardLimits | src/lib_json/json_reader.cpp:2109-2166 | the overflow guard's threshold and last digit give exactly maxLargestUInt and 2^63 |
| NumberReader.Accumulate | src/lib_json/json_reader.cpp:2140-2152 | the digit loop succeeds only when every remaining byte is a digit, and never lowers the value |
| NumberReader.AccumulateExact | src/lib_json/json_reader.cpp:2109-2166 | the digit loop with the overflow guard yields the decimal value exactly when it stays within the limit |
| NumberReader.MagnitudeLimit | include/json/value.h:227-238 | 2^63 for a negative token, maxLargestUInt otherwise |
| NumberReader.IntegerData | src/lib_json/json_reader.cpp:2109-2166 | a negative number becomes an int; a positive one becomes an int up to the cut-off (maxLargestInt, or maxInt for the legacy reader) and a uint above it |
| NumberReader.DecodeNumber | src/lib_json/json_reader.cpp:2109-2166 | the result is an int, a uint or a real |
| NumberReader.DecodeNumberSpec | src/lib_json/json_reader.cpp:2109-2166 | an optional '-' and at least one digit within the sign's range is read exactly as that integer; every other token goes to the double parser |
| NumberReader.DecodeNumberAsWritten | src/lib_json/json_reader.cpp:2109-2166 | as written, the result is an int, a uint or a real |
| NumberReader.DecodeNumberAgrees | src/lib_json/json_reader.cpp:2109-2166 | the decoder as written and the corrected one agree on every token other than a lone '-' |
| NumberReader.IntTextRoundTrip | src/lib_json/json_writer.cpp:91-105 | what the writer prints for a signed integer reads back as that int (with the legacy reader, when it fits in 32 bits) |
| NumberReader.UIntTextRoundTrip | src/lib_json/json_writer.cpp:111-117 | what the writer prints for an unsigned integer reads back as that number, as an int or a uint by the cut-off |
| NumberReader.LoneMinusReadsAsZero | src/lib_json/json_reader.cpp:2109-2166 | the token "-" is read as Int(0) as written; the corrected reader hands it to the double parser |
| Scanner.LegacyFeatures | src/lib_json/json_reader.cpp:39-70 | the legacy preset: no trailing commas, single quotes, extra-text check, duplicate-key check, special floats or BOM skip, and a stack limit of 1000 |
| Scanner.SkipSpaces | src/lib_json/json_reader.cpp:1783-1791 | skips exactly the run of ' ', '\t', '\r', '\n' |
| Scanner.SkipBom | src/lib_json/json_reader.cpp:1797-1804 | the document starts at 3 exactly when skipping is on and the text starts with EF BB BF, else at 0 |
| Scanner.Match | src/lib_json/json_reader.cpp:1810-1819 | succeeds exactly when the pattern follows the cursor, and moves past it |
| Scanner.SkipDigits | src/lib_json/json_reader.cpp:1938-1960 | skips exactly the run of decimal digits |
| Scanner.NumberEnd | src/lib_json/json_reader.cpp:1938-1960 | a number token ends within the text, at or after its start |
| Scanner.NumberEndSpec | src/lib_json/json_reader.cpp:1938-1960 | every byte of a number token is a digit, sign, '.', 'e' or 'E', in the integer-fraction-exponent shape |
| Scanner.ReadString | src/lib_json/json_reader.cpp:1965-1991 | succeeds exactly when an unescaped closing quote follows, and stops right after it; otherwise runs to the end |
| Scanner.ReadCStyleComment | src/lib_json/json_reader.cpp:1902-1914 | an accepted comment ends with "*/" within the text |
| Scanner.ReadCStyleCommentAsWritten | src/lib_json/json_reader.cpp:1902-1914 | the scan as written ends within the text, and an accepted comment ends in '/' after its start |
| Scanner.CStyleCommentAgrees | src/lib_json/json_reader.cpp:1902-1914 | the scan as written and the corrected scan agree on every comment that a closing star-slash ends |
| Scanner.CStyleCommentSpec | src/lib_json/json_reader.cpp:1902-1914 | the comment is accepted exactly when a closing "*/" follows, and ends at the first one |
| Scanner.UnterminatedCommentAccepted | src/lib_json/json_reader.cpp:1902-1914 | the document `{}` followed by an unterminated comment (slash, star, slash) is accepted by the scan as written, though no star-slash closes it, and rejected by the corrected scan |
| Scanner.ReadCppStyleComment | src/lib_json/json_reader.cpp:1920-1932 | a line comment ends at the end of the text or right after a '\r' or '\n' |
| Scanner.CppCommentSpansOneLine | src/lib_json/json_reader.cpp:1920-1932 | a line comment holds no line break before its last byte, and a CRLF ends it after the LF |
| Scanner.ReadComment | src/lib_json/json_reader.cpp:1826-1858 | a comment ends within the text and an accepted one is non-empty |
| Scanner.ReadToken | src/lib_json/json_reader.cpp:1670-1778 | a token starts after the skipped spaces and ends within the text; only end-of-stream is empty, and only at a NUL or the end; a string token holds at least its two quotes |
| Scanner.ReadTokenSkippingComments | src/lib_json/json_reader.cpp:1656-1664 | with comments allowed, the token returned is never a comment |
| Scanner.EndOfStreamOnlyAtEnd | src/lib_json/json_reader.cpp:1670-1778 | end-of-stream is read exactly at the end of the text or at a NUL byte |
| Scanner.OurPlacement | src/lib_json/json_reader.cpp:1826-1858 | a comment goes after the last value on the same line exactly when that value has no such comment yet, no line break lies between, and a C-style comment holds none; the flag records it |
| Scanner.LegacyPlacement | src/lib_json/json_reader.cpp:350-371 | a comment goes after the last value on the same line exactly when no line break lies between and a C-style comment holds none |
| Scanner.OneSameLineCommentPerValue | src/lib_json/json_reader.cpp:1826-1858 | once a value has a same-line comment, any further comment goes before the next value |
| Parser.TokenText | src/lib_json/json_reader.cpp:1965-1975 | the token's bytes, as long as the token |
| Parser.StringTokenError | src/lib_json/json_reader.cpp:2222-2273 | the error names the string token and decodeString's message, and points strictly inside the token |
| Parser.NumberToken | src/lib_json/json_reader.cpp:2109-2166 | a decoded number token is an int, a uint or a real |
| Parser.Recover | src/lib_json/json_reader.cpp:2350-2361 | recovery moves the cursor forward within the text |
| Parser.AddErrorAndRecover | src/lib_json/json_reader.cpp:2367-2371 | exactly one error is added, on the given token, the value is kept, the read fails, and the cursor moves past the token |
| Parser.Put | src/lib_json/json_reader.cpp:1563-1650 | a scalar payload replaces the node's payload and keeps its comments |
| Parser.Adopt | src/lib_json/json_reader.cpp:1563-1650 | a parsed container replaces the target's payload and keeps its comments; a throw passes through |
| Parser.ReadValue | src/lib_json/json_reader.cpp:1563-1650 | the cursor only moves forward, errors are only appended and point inside the text, and the read succeeds exactly when it added no error |
| Parser.ReadObject | src/lib_json/json_reader.cpp:1997-2049 | as ReadValue, and the result is an object with the node's comments |
| Parser.ReadMember | src/lib_json/json_reader.cpp:2003-2031 | as ReadValue, and the result is an object with the node's comments |
| Parser.MemberValue | src/lib_json/json_reader.cpp:2025-2045 | as ReadValue, and the result is an object with the node's comments |
| Parser.ReadArray | src/lib_json/json_reader.cpp:2056-2089 | as ReadValue, and the result is an array with the node's comments |
| Parser.RootRead | src/lib_json/json_reader.cpp:1515-1532 | the root read from the document start obeys the same cursor and error rules |
| Parser.RootErrorToken | src/lib_json/json_reader.cpp:1533-1555 | the token of the root error lies within the document, from its start |
| Parser.RootErrorTokenAsWritten | src/lib_json/json_reader.cpp:1533-1555 | the root error token as written ends at the end of the text |
| Parser.Parse | src/lib_json/json_reader.cpp:1515-1556 | it aborts exactly when the root read throws; otherwise it succeeds exactly when no error was recorded, every error points into the document, and with strictRoot a success is an array or object |
| Parser.ExtraTextRejected | src/lib_json/json_reader.cpp:1533-1555 | with failIfExtra, any token after the root other than end-of-stream fails the parse with exactly one more error, on that token |
| Parser.ScalarRootRejected | src/lib_json/json_reader.cpp:1533-1555 | with strictRoot, a scalar root fails the parse with exactly one more error, even when the scalar read cleanly |
| Parser.StructuredErrors | src/lib_json/json_reader.cpp:2447-2457 | one structured error per error, in order, with the same message and with offsets measured from the document start; offsets lie inside the document whenever the errors point into it |
| Parser.RootErrorBeforeDocument | src/lib_json/json_reader.cpp:2447-2457 | after a BOM, the root error as written gets offset -3, the corrected one offset 0 |
| Parser.ParseErrorsInsideDocument | src/lib_json/json_reader.cpp:2447-2457 | every structured error of a finished parse lies inside the document |
| Parser.AppendPointed | src/lib_json/json_reader.cpp:1533-1555 | an error inside the document can be appended to errors that are all inside it |
| ParserFacts.SuccessfulReadReplacesPayload | src/lib_json/json_reader.cpp:2003-2031 | a successful read replaces the node's payload whatever it held, which is how a repeated name overwrites the earlier value |
| ParserFacts.EmptyNameClosesObject | src/lib_json/json_reader.cpp:1997-2049 | as written, '}' where a name is expected closes the object after an empty name even without allowTrailingCommas; the corrected test refuses it; no non-empty name allows it |
| ParserFacts.ObjectMayEndAgrees | src/lib_json/json_reader.cpp:2004-2006 | the end test as written and the corrected one agree whenever "no member read yet" coincides with "previous name empty", that is, unless a member named "" was read |
| ParserFacts.DuplicateKeyRejected | src/lib_json/json_reader.cpp:2003-2031 | with rejectDupKeys, a repeated name fails the read with exactly one error on the name's token, leaving the object as it was |
| ParserFacts.DuplicateKeyOverwrites | src/lib_json/json_reader.cpp:2003-2031 | without rejectDupKeys, a repeated name takes the new value, keeps the member count and every other member |
| ParserFacts.Nested | src/lib_json/json_reader.cpp:1563-1650 | the text of n opening brackets followed by n closing ones |
| ParserFacts.NestedRead | src/lib_json/json_reader.cpp:1563-1650 | reading nested arrays throws exactly when the innermost level exceeds the stack limit; otherwise it reads them all and stops after the matching bracket |
| ParserFacts.NestedReadWithin | src/lib_json/json_reader.cpp:1563-1650 | the same, for an array within the stack limit |
| ParserFacts.NestedStep | src/lib_json/json_reader.cpp:2056-2089 | one level of nesting holds exactly the array the next bracket reads |
| ParserFacts.WholeDocument | src/lib_json/json_reader.cpp:1515-1556 | a container root read without error up to the end parses successfully |
| ParserFacts.RootReadNested | src/lib_json/json_reader.cpp:1515-1532 | the root read of n nested arrays throws exactly when n exceeds the stack limit |
| ParserFacts.NestedDocument | src/lib_json/json_reader.cpp:1515-1556 | a document of n nested arrays parses without error when n is at most the stack limit and aborts otherwise |
| BuilderSettings.Flag | src/lib_json/json_reader.cpp:2557-2574 | reading a flag setting succeeds exactly when the settings are null or an object and asBool of the member (null when missing) succeeds, and yields it |
| BuilderSettings.UIntSetting | src/lib_json/json_reader.cpp:2557-2574 | reading a numeric setting succeeds exactly when asUInt of the member succeeds, and yields a 32-bit value |
| BuilderSettings.StringSetting | src/lib_json/json_writer.cpp:1505-1546 | reading a string setting succeeds exactly when asString of the member succeeds, and yields it |
| BuilderSettings.ToData | src/lib_json/json_reader.cpp:2614-2626 | a preset literal becomes the payload of its kind |
| BuilderSettings.Apply | src/lib_json/json_reader.cpp:2614-2626 | a preset applies exactly to null or object settings and leaves an object |
| BuilderSettings.ApplySpec | src/lib_json/json_reader.cpp:2614-2626 | after a preset, each setting holds its last assigned value, or its old value when the preset leaves it alone |
| BuilderSettings.AssignedFlag | src/lib_json/json_reader.cpp:2614-2626 | a flag a preset assigns reads back as the assigned value |
| BuilderSettings.UnassignedFlag | src/lib_json/json_reader.cpp:2614-2626 | a flag a preset leaves alone reads as it did before |
| BuilderSettings.AssignedUInt | src/lib_json/json_reader.cpp:2614-2626 | a number a preset assigns reads back through asUInt |
| BuilderSettings.AssignedString | src/lib_json/json_writer.cpp:1582-1591 | a string a preset assigns reads back through asString |
| BuilderSettings.EntryName | src/lib_json/json_valueiterator.inl:60-67 | the member name of a settings entry, or "" for an index |
| BuilderSettings.ValidateNames | src/lib_json/json_reader.cpp:2580-2605 | without a report object, validate is true exactly when every setting name is known |
| BuilderSettings.ValidateInto | src/lib_json/json_reader.cpp:2580-2605 | with a null or object report, the report gains exactly the unknown names, with their values; validate is true exactly when the report is empty |
| BuilderSettings.EmptyReport | src/lib_json/json_reader.cpp:2580-2605 | the report is empty exactly when it started empty and no name is unknown |
| BuilderSettings.EmptyIffNoMember | src/lib_json/json_value.cpp:1046-1050 | a null or object value is empty exactly when it has no member |
| BuilderSettings.PresetValidates | src/lib_json/json_reader.cpp:2631-2644 | a preset of known names keeps valid settings valid |
| BuilderSettings.PresetNameKnown | src/lib_json/json_reader.cpp:2631-2644 | a preset of known names adds no unknown name |
| ReaderBuilder.NewCharReader | src/lib_json/json_reader.cpp:2557-2574 | a reader is built exactly when every setting converts; it is not the legacy one, each of its features and collectComments equals the converted setting, and its stack limit is a 32-bit value |
| ReaderBuilder.KeysDiffer | src/lib_json/json_reader.cpp:2580-2605 | the twelve setting names have the lengths of their spellings, so names of different lengths differ, and the two pairs of equal length differ too |
| ReaderBuilder.StrictMode | src/lib_json/json_reader.cpp:2614-2626 | the preset applies exactly to null or object settings |
| ReaderBuilder.SetDefaults | src/lib_json/json_reader.cpp:2631-2644 | the preset applies exactly to null or object settings |
| ReaderBuilder.Ecma404Mode | src/lib_json/json_reader.cpp:2649-2661 | the preset applies exactly to null or object settings |
| ReaderBuilder.StrictModeTable | src/lib_json/json_reader.cpp:2614-2626 | strictMode assigns every setting but collectComments, each to the strict value |
| ReaderBuilder.DefaultTable | src/lib_json/json_reader.cpp:2631-2644 | setDefaults assigns all twelve settings, each to its default |
| ReaderBuilder.Ecma404Table | src/lib_json/json_reader.cpp:2649-2661 | ecma404Mode assigns every setting but collectComments, each to the ECMA-404 value |
| ReaderBuilder.ReaderOfFlags | src/lib_json/json_reader.cpp:2557-2574 | settings whose every entry converts build the reader with exactly those features |
| ReaderBuilder.StrictModeReader | src/lib_json/json_reader.cpp:2614-2626 | after strictMode, the reader has the strict features and keeps the earlier collectComments choice |
| ReaderBuilder.SetDefaultsReader | src/lib_json/json_reader.cpp:2631-2644 | after setDefaults, the reader has the default features and collects comments, whatever the settings held |
| ReaderBuilder.Ecma404Reader | src/lib_json/json_reader.cpp:2649-2661 | after ecma404Mode, the reader has the ECMA-404 features and keeps the earlier collectComments choice |
| ReaderBuilder.DefaultBuilderReader | src/lib_json/json_reader.cpp:2551 | a default-constructed builder yields the default reader |
| ReaderBuilder.Validate | src/lib_json/json_reader.cpp:2580-2605 | validate reports exactly the names outside the twelve known ones, and is true exactly when there are none (and the report started empty) |
| ReaderBuilder.DefaultBuilderValidates | src/lib_json/json_reader.cpp:2551 | the settings of a default-constructed builder validate |
| FastWriter.NullText | src/lib_json/json_writer.cpp:471-521 | null is written as nothing exactly with dropNullPlaceholders |
| FastWriter.Colon | src/lib_json/json_writer.cpp:471-521 | the name separator is ":" or, exactly under YAML compatibility, ": " |
| FastWriter.Child | src/lib_json/json_writer.cpp:471-521 | the element at an index, or null for a hole |
| FastWriter.WriteValue | src/lib_json/json_writer.cpp:471-521 | null is written as nothing exactly with dropNullPlaceholders |
| FastWriter.WriteElements | src/lib_json/json_writer.cpp:497-506 | the array loop writes nothing at size(), and every turn after the first starts with ',' |
| FastWriter.WriteMembers | src/lib_json/json_writer.cpp:507-520 | the member loop writes nothing exactly after the last member; the first member starts with its quoted name, every later one with ',' |
| FastWriter.Write | src/lib_json/json_writer.cpp:459-465 | the value's text, followed by '\n' exactly unless omitEndingLineFeed |
| FastWriter.ElementTexts | src/lib_json/json_writer.cpp:471-521 | one text per index from the start to size(), each the text of that element (null for a hole) |
| FastWriter.MemberTexts | src/lib_json/json_writer.cpp:471-521 | one text per listed name |
| FastWriter.ElementsFrom | src/lib_json/json_writer.cpp:471-521 | the array loop from a later index writes each element's text preceded by ',' |
| FastWriter.ElementsFromZero | src/lib_json/json_writer.cpp:471-521 | the array loop writes the element texts joined by ',' |
| FastWriter.ArrayText | src/lib_json/json_writer.cpp:471-521 | an array is written as '[', the element texts for every index below size() joined by ',', and ']' |
| FastWriter.MembersStep | src/lib_json/json_writer.cpp:471-521 | one turn of the member loop writes the quoted name, the separator and the member's text |
| FastWriter.MembersFrom | src/lib_json/json_writer.cpp:471-521 | the member loop from a later member writes each member's text preceded by ',' |
| FastWriter.MembersFromZero | src/lib_json/json_writer.cpp:471-521 | the member loop writes the member texts joined by ',' |
| FastWriter.ObjectText | src/lib_json/json_writer.cpp:471-521 | an object is written as '{', the members in getMemberNames order, each as quoted name, separator and value, joined by ',', and '}' |
| StyledWriter.AnyNonEmptyContainer | src/lib_json/json_writer.cpp:1365-1389 | true exactly when some element from the index on is a non-empty array or object |
| StyledWriter.AnyComment | src/lib_json/json_writer.cpp:1365-1389 | true exactly when some element from the index on has a comment |
| StyledWriter.IsMultilineArray | src/lib_json/json_writer.cpp:1365-1389 | true exactly when size * 3 reaches the right margin, some element is a non-empty container, some element has a comment, or the one-line length reaches the margin |
| StyledWriter.IsMultilineArrayAsWritten | src/lib_json/json_writer.cpp:1365-1389 | the same test with the two length sums taken modulo 2^32, as the source's unsigned arithmetic does |
| StyledWriter.MultilineTestAgrees | src/lib_json/json_writer.cpp:1365-1389 | the test as written and the unbounded test agree whenever size * 3 and the one-line length stay below 2^32 |
| StyledWriter.ChildText | src/lib_json/json_writer.cpp:1245-1310 | a string child is written between '"' and '"', an empty array or object as two bytes |
| StyledWriter.WriteArrayValue | src/lib_json/json_writer.cpp:1312-1359 | an array is empty exactly when size() is 0; with commentStyle All every non-empty array is multi-line; a non-empty array is multi-line exactly when commentStyle is All or the multi-line test holds; otherwise it is one line, shorter than the right margin, holding no non-empty container, whose text is the children's texts joined by ", " between "[ " and " ]", or by "," between bare brackets when there is no indentation |
| StyledWriter.PrefixedLength | src/lib_json/json_writer.cpp:1365-1389 | the joined texts are as long as the texts plus one separator each |
| StyledWriter.SingleLineLength | src/lib_json/json_writer.cpp:1365-1389 | the single line is at most 4 + 2·(n - 1) + the total child length, the bound the test uses |
| StyledWriter.SingleLineWithoutIndent | src/lib_json/json_writer.cpp:1344-1356 | without indentation the single line is '[', the texts joined by ',', and ']' |
| StyledWriter.SingleLineMatchesFast | src/lib_json/json_writer.cpp:1312-1359 | without indentation, with FastWriter's choices for null and without emitUTF8, a single-line array is exactly FastWriter's text for it |
| StyledWriter.SingleLineTexts | src/lib_json/json_writer.cpp:1312-1359 | the single line holds exactly the texts the multi-line test collected |
| StyledWriter.ChildTextsAreFast | src/lib_json/json_writer.cpp:1365-1389 | the collected texts are FastWriter's element texts under matching settings |
| StyledWriter.ChildTextIsFastText | src/lib_json/json_writer.cpp:1365-1389 | a scalar or empty container is written as FastWriter writes it under matching settings |
| StyledWriter.FourByteTexts | src/lib_json/json_writer.cpp:1365-1389 | texts that all have four bytes add up to four bytes each, as lineLength sums them |
| StyledWriter.WrapArrayShape | src/lib_json/json_writer.cpp:1365-1389 | the counterexample array has 0x5555_5556 elements, none a container or commented, each four bytes long |
| StyledWriter.MultilineTestWraps | src/lib_json/json_writer.cpp:1365-1389 | for that array the test as written says single line, while the intended test says multi-line |
| WriterBuilder.ParseCommentStyle | src/lib_json/json_writer.cpp:1505-1546 | "All" and "None" are the only accepted styles; anything else fails with the source's message |
| WriterBuilder.ParsePrecisionType | src/lib_json/json_writer.cpp:1505-1546 | "significant" and "decimal" are the only accepted types; anything else fails with the source's message |
| WriterBuilder.ReadSettings | src/lib_json/json_writer.cpp:1505-1546 | succeeds exactly when every setting converts, and yields each converted value |
| WriterBuilder.Configure | src/lib_json/json_writer.cpp:1505-1546 | an unknown comment style or precision type fails, in that order; otherwise the colon is ": " under YAML, ":" without indentation and " : " with it; null prints as "" exactly with dropNullPlaceholders; precision is the setting capped at 17 |
| WriterBuilder.NewStreamWriter | src/lib_json/json_writer.cpp:1505-1546 | a writer is built only when every setting converts, and then its configuration follows the settings by Configure's rules |
| WriterBuilder.KeysDiffer | src/lib_json/json_writer.cpp:1552-1573 | the eight setting names have the lengths of their spellings, all different, so no two names coincide |
| WriterBuilder.SetDefaults | src/lib_json/json_writer.cpp:1582-1591 | the preset applies exactly to null or object settings |
| WriterBuilder.DefaultTable | src/lib_json/json_writer.cpp:1582-1591 | setDefaults assigns all eight settings, each to its default |
| WriterBuilder.SetDefaultsWriter | src/lib_json/json_writer.cpp:1582-1591 | after setDefaults, the writer has the default configuration, whatever the settings held |
| WriterBuilder.DefaultBuilderWriter | src/lib_json/json_writer.cpp:1498 | a default-constructed builder yields the default writer, which writes every non-empty array multi-line |
| WriterBuilder.Validate | src/lib_json/json_writer.cpp:1552-1573 | validate reports exactly the names outside the eight known ones, and is true exactly when there are none (and the report started empty) |
| WriterBuilder.DefaultBuilderValidates | src/lib_json/json_writer.cpp:1498 | the settings of a default-constructed builder validate |

## Left out

- ValueAccess.Resize: a failed shrink reports only the exception; the truncated array the source's receiver keeps after the erase loop is not returned, because every failing operation of the model yields a message and no receiver state.
- Floating point: `decodeDouble` and `valueToString(double)` are function parameters; `asDouble`, `asFloat` and the `fpclassify` test in `asBool` are not modelled. The real branches of `is*`/`as*` use exact real arithmetic with the double-rounded limits written out.
- Streams: `Reader::parse(istream)`, `parseFromStream`, `operator>>`/`operator<<` and `writeString` are not modelled; output is a byte sequence.
- Locale: `getDecimalPoint` and `fixNumericLocaleInput` (src/lib_json/json_tool.h:25-32, 121-131) depend on the C locale.
- Memory representation: string duplication, `StaticString`, the `CZString` duplication policy, the secure allocator and move semantics; a copy is a value.
- The null singleton: absence is an `Option` rather than a reference to a shared null value.
- The "Line %d, Column %d" message text: only the numeric line and column are modelled.
- Parser: comments are not collected into the values (the placement decision is modelled on its own), and the `start`/`limit` offsets stored in each value are not modelled.
- The multi-line layout of `BuiltStyledStreamWriter` (indentation and comment emission) and the older `StyledWriter`/`StyledStreamWriter` classes are not modelled; only the single-line/multi-line decision and the single-line text are.
- Values.Size: the array size is an unbounded number, not a 32-bit `ArrayIndex` that wraps.
- Key storage: `OurReader`'s check that a name is shorter than 2^30 bytes is modelled; the 30-bit length field of `CZString` is not.
- ValueIterator.MemberNameOf: yields every byte of the key; a caller reading the returned C string stops at the first NUL byte.
- Error locations: the `Location` pointers of the source are offsets into the text.
- ReaderText.DecodeChars: states only the bound on the error location; what it decodes is stated by the round-trip lemmas of `StringRoundTrip`.
- ReaderText.NormalizeEol: its own contract states only the length bound; what it computes is stated by NormalizeEolSpec.
- Scanner.ReadComment: uses the corrected C-style comment scan, so an unterminated comment at the end of the text (`{}` followed by slash, star, slash) is rejected where the source accepts it; CStyleCommentAgrees shows the two scans agree on every comment that closes.
- Scanner.ReadToken: uses the corrected C-style comment scan, so an unterminated comment at the end of the text (`{}` followed by slash, star, slash) is rejected where the source accepts it; CStyleCommentAgrees shows the two scans agree on every comment that closes.
- Scanner.ReadTokenSkippingComments: inherits the corrected comment scan through ReadComment.
- Parser.NumberToken: uses the corrected decodeNumber, so a lone '-' goes to the double parser where the source reads it as 0; DecodeNumberAgrees shows the two agree on every other token.
- Parser.ReadObject: uses the corrected end test, so '}' after a member named "" and a ',' is an error without allowTrailingCommas where the source accepts it; ObjectMayEndAgrees shows the two tests agree unless a member named "" was read.
- Parser.ReadValue: inherits the three corrections above (comment scan, lone '-', end test after an empty name).
- Parser.ReadMember: inherits the three corrections above (comment scan, lone '-', end test after an empty name).
- Parser.ReadArray: inherits the three corrections above (comment scan, lone '-', end test after an empty name).
- Parser.MemberValue: inherits the three corrections above (comment scan, lone '-', end test after an empty name).
- Parser.RootRead: inherits the three corrections above (comment scan, lone '-', end test after an empty name).
- Parser.ScalarRootRejected: inherits those corrections, and reports the strictRoot error on the corrected token, at offset 0 after a byte order mark where the source reports offset -3 (RootErrorBeforeDocument states both).
- Parser.Parse: inherits those corrections, and reports the strictRoot error on the corrected token, at offset 0 after a byte order mark where the source reports offset -3 (RootErrorBeforeDocument states both).
- StringWriter.ValueToQuotedStringN: without emitUTF8 decodes with the checked UTF-8 decoder, so an ill-formed sequence such as C2 41 is written as U+FFFD's escape where the source writes `\u0081`; Utf8DecodersAgree shows the decoders agree wherever the checked one yields a code point other than U+FFFD.
- StringWriter.EscapeFrom: without emitUTF8 decodes with the checked UTF-8 decoder, so an ill-formed sequence such as C2 41 is written as U+FFFD's escape where the source writes `\u0081`; Utf8DecodersAgree shows the decoders agree wherever the checked one yields a code point other than U+FFFD.
- FastWriter.Write: writes strings through ValueToQuotedStringN and inherits its checked decoding.
- FastWriter.WriteValue: writes strings through ValueToQuotedStringN and inherits its checked decoding.
- StyledWriter.ChildText: writes strings through ValueToQuotedStringN and inherits its checked decoding.
- StyledWriter.WriteArrayValue: decides with the unbounded multi-line test, so an array of more than 0x5555_5555 elements is multi-line where the source's 32-bit sums can wrap; MultilineTestAgrees shows the two tests agree while the sums stay below 2^32.
- ValuePath.MakePath: composes the corrected loop, which consumes a NUL byte as part of a name; on a path holding NUL the source's loop never ends (NulByteStallsMakePath), and StepWithoutNul shows the two loops take the same steps on every path without NUL.
- ValueCompare.Less: no transitivity lemma, because with NaN elements `<` is not transitive (NaNBreaksTransitivity).
- ObjectValues.Lookup: carries no contract of its own; LookupSpec states what it yields.
- FastWriter.WriteValue: its own contract states only the null case; ArrayText and ObjectText state the container texts.
- StringWriter.EscapeFrom: carries no contract of its own; the round-trip lemmas of StringRoundTrip and EscapeFromAscii state what it yields.

## Findings

| source | as written | input that shows it | evidently intended | confidence | as-written member | corrected member |
|---|---|---|---|---|---|---|
| src/lib_json/json_writer.cpp:263-273 | a 4-byte sequence with lead F4 and a payload above 0x10FFFF is decoded as that payload | bytes F4 90 80 80 decode to 0x110000 | invalid encodings give U+FFFD, as the comment above the function promises | not executed | StringWriter.Utf8ToCodepointAsWritten | StringWriter.Utf8ToCodepoint |
| src/lib_json/json_reader.cpp:2109-2166 | a token that is a lone '-' passes the all-digits loop with no digits and reads as 0 | the document `[-]` reads as `[0]` | a '-' without digits is not a number and goes to the double parser, which rejects it | not executed | NumberReader.DecodeNumberAsWritten | NumberReader.DecodeNumber |
| src/lib_json/json_reader.cpp:1902-1914 | the end test accepts a comment that hits the end of the text without "*/" | `{}/*/` | an unterminated comment is an error | not executed | Scanner.ReadCStyleCommentAsWritten | Scanner.ReadCStyleComment |
| src/lib_json/json_reader.cpp:1997-2049 | '}' where a name is expected closes the object when the previous name was empty | `{"":1,}` without allowTrailingCommas | only allowTrailingCommas (or an empty object) lets '}' follow a ',' | not executed | Parser.ObjectMayEndAsWritten | Parser.ObjectMayEnd |
| src/lib_json/json_reader.cpp:1533-1555 | the strictRoot error token starts at the first byte of the input, before the skipped BOM, while error offsets are measured from just after the BOM | a BOM followed by `1` with strictRoot gives offset -3 | the error token starts where the document starts after the BOM, offset 0 | not executed | Parser.RootErrorTokenAsWritten | Parser.RootErrorToken |
| src/lib_json/json_writer.cpp:1365-1389 | size * 3 and the one-line length are summed in 32-bit unsigned arithmetic and can wrap | an array of 0x5555_5556 four-byte elements is judged single-line | any array that long is multi-line | not executed | StyledWriter.IsMultilineArrayAsWritten | StyledWriter.IsMultilineArray |
| src/lib_json/json_value.cpp:1931-1964 | a NUL byte ends a name without being consumed, so the loop never advances | a path holding a NUL byte | each turn of the loop consumes at least one byte | not executed | ValuePath.Step | ValuePath.MakePathFrom |
