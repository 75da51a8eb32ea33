# AsyncSerializer: a verified model of the data-contract XML writer

AsyncSerializer is a Unity project. It rewrites .NET's `DataContractSerializer` as nested
`IEnumerable` methods, meant to be driven as a coroutine, and it uses an `XmlSpy` writer to check
that the output matches the framework serializer's output call for call. No method yields an item
of its own: every `yield return` forwards an item of a nested enumeration. So the enumeration of
`WriteObject` yields nothing, and the whole document is written during its first `MoveNext`. This project models the two parts that carry the
logic and proves properties about them.

- **The serializer** (`DataContractSerializer.cs`). The model replaces reflection with a finite
  type descriptor (`Types.TypeDesc`). It replaces object graphs with a `Types.Value` tree and the
  `XmlWriter` with an append-only trace of writer events (`XmlEvents.Event`). The writer's
  `LookupPrefix` answers from a fixed map, and each call is recorded in the trace.
  - The pure parts are functions with lemmas: type-name formatting, element-type extraction, and
    the sorted member list.
  - The stateful parts are methods of the class `Serializer.Serializer`. They work on the trace,
    `depth`, `prefixes`, the reference `id` counter and the namespace stack.
  - The methods prove four things about `WriteField`:
    - it succeeds exactly when the value is `Serializer.Writable`, a predicate that follows the
      branches the value's runtime type selects;
    - every call that succeeds writes exactly one element, balanced and correctly nested;
    - the namespace stack and `depth` come back unchanged;
    - the `z:Id` values it writes are the next ones in sequence.
  - Exceptions the serializer's own code would raise are returned as `ok == false`, with the
    trace kept as far as it got. "Succeeds" means that this code runs to its end; the checks
    the real `XmlWriter` makes on the names it is given are not part of the model. These are
    the exceptions the serializer's code raises:
    - a null value where a field's runtime type is asked for, such as a null item of a collection
      that is not a data contract;
    - a null dictionary value;
    - a collection without an element type;
    - a property with a public setter and no public getter on the walk over an object's type and
      base types (`GetGetMethod()` returns null there).
- **The spy** (`XmlSpy.cs`). The class `Spy.XmlSpy` holds the log, the comparison list, the
  position and the `verified` flag. `LogLine` and `CheckLog` are proved against the pure
  `Spy.Step` and `Spy.Reset`. The lemmas prove:
  - recording only appends to the log;
  - comparing only appends to the comparison list and counts positions;
  - a failure stays recorded until the next `CheckLog`;
  - replaying a recorded run verifies exactly when the compared lines are a prefix of the
    recorded ones.

  Each logging override is a `Spy.WriterCall`, and `Spy.Line` gives the line it logs.

Integers are unbounded. The counters `depth`, `prefixes`, `id` and `position` never come near
32 bits in the runs the model describes.

Where this code differs from the framework's `DataContractSerializer`, the model follows the code:
- Members are collected derived type first, and one global name order is used. A name already
  taken by a derived type is skipped for its bases.
- A type whose FullName contains its Namespace is named by its simple Name. This includes nested
  types.
- The `Id` counter is not reset between `WriteObject` calls.

## Model

| member | source | states |
|---|---|---|
| Types.PrimitiveName | Assets/DataContractSerializerAsync/DataContractSerializer.cs:38-43 | A type has a fixed schema name exactly when it is string, int, bool, float or object. |
| Types.IsDictionary | Assets/DataContractSerializerAsync/DataContractSerializer.cs:296-299 | Every dictionary is also an array, so the dictionary test must come first. |
| Types.IsArray | Assets/DataContractSerializerAsync/DataContractSerializer.cs:301-304 | A type is an array exactly when it is a dictionary or a collection: enumerable, and not a string. |
| Types.GetArrayType | Assets/DataContractSerializerAsync/DataContractSerializer.cs:56-62 | The result is null exactly when the type has neither generic arguments nor an element type. Otherwise it is one of the generic arguments or the element type, and so strictly smaller than the type. |
| TypeNames.Contains | Assets/DataContractSerializerAsync/DataContractSerializer.cs:343 | Ordinal `string.Contains` is true exactly when the substring occurs at some offset. |
| TypeNames.ReplacePlus | Assets/DataContractSerializerAsync/DataContractSerializer.cs:349 | The length is kept, every '+' becomes '.', and every other character is unchanged. |
| TypeNames.GetTypeString | Assets/DataContractSerializerAsync/DataContractSerializer.cs:315-353 | A dictionary is named "" exactly when it does not have two generic arguments, and otherwise its name starts with "KeyValueOf". A collection is named "" exactly when it has no element type, and otherwise its name starts with "ArrayOf". The table's types get their schema names. A type whose FullName contains its Namespace gets its Name. |
| TypeNames.NestedTypeName | Assets/DataContractSerializerAsync/DataContractSerializer.cs:343-351 | Any other type is named by its FullName: same length, no '+' left, and every other character kept. |
| TypeNames.EntryTypeString | Assets/DataContractSerializerAsync/DataContractSerializer.cs:306-313 | An entry's element name starts with "KeyValueOf". |
| TypeNames.EntryNameMatchesDictionary | Assets/DataContractSerializerAsync/DataContractSerializer.cs:306-327 | An entry whose key and value have the declared generic types gets the same name as its dictionary type. |
| TypeNames.NestedArrayName | Assets/DataContractSerializerAsync/DataContractSerializer.cs:328-336 | n nested enumerables around T format as "ArrayOf" repeated n times, then T's name. |
| TypeNames.DictionaryNamesCollide | Assets/DataContractSerializerAsync/DataContractSerializer.cs:318-327 | There is no separator between the key's and the value's names, so Dictionary<A, BC> and Dictionary<AB, C> get the same element name although they are different types. |
| TypeNames.EndsWithSuffix | Assets/DataContractSerializerAsync/DataContractSerializer.cs:256 | `ns.EndsWith(x)` holds exactly when `ns` is some string followed by `x`. |
| Members.LessIrreflexive | Assets/DataContractSerializerAsync/DataContractSerializer.cs:460 | The key order of the member list is irreflexive. |
| Members.LessTransitive | Assets/DataContractSerializerAsync/DataContractSerializer.cs:460 | The key order is transitive. |
| Members.LessTotal | Assets/DataContractSerializerAsync/DataContractSerializer.cs:460 | The key order is total on distinct names. |
| Members.SortedOrdered | Assets/DataContractSerializerAsync/DataContractSerializer.cs:460 | A list sorted by adjacent keys is strictly ordered for every pair of positions, so no name appears twice. |
| Members.Insert | Assets/DataContractSerializerAsync/DataContractSerializer.cs:435 | Insertion adds exactly one entry, the new one. |
| Members.InsertSorted | Assets/DataContractSerializerAsync/DataContractSerializer.cs:435 | Inserting a name that is not yet present keeps the list sorted. |
| Members.AddIfAbsent | Assets/DataContractSerializerAsync/DataContractSerializer.cs:433-436 | Afterwards the name is in the list, and no other name is added. An entry is added only when its name was absent, so an existing name keeps its entry. A sorted list stays sorted. |
| Members.MemberList.constructor | Assets/DataContractSerializerAsync/DataContractSerializer.cs:460 | A new sorted list is empty. |
| Members.MemberList.Add | Assets/DataContractSerializerAsync/DataContractSerializer.cs:435 | Adding an absent name inserts it at its sorted place, and the list stays sorted. |
| Members.MemberList.Offer | Assets/DataContractSerializerAsync/DataContractSerializer.cs:433-436 | The entry is added only when its name is absent, and the list stays sorted. |
| Members.InsertAllSorted | Assets/DataContractSerializerAsync/DataContractSerializer.cs:433-448 | Offering any candidates one by one keeps the list sorted. |
| Members.InsertAllConcat | Assets/DataContractSerializerAsync/DataContractSerializer.cs:451-454 | Offering one level and then its base equals offering the levels concatenated. |
| Members.DedupNames | Assets/DataContractSerializerAsync/DataContractSerializer.cs:433-448 | Keeping the first entry per name loses no name. |
| Members.InsertAllDedup | Assets/DataContractSerializerAsync/DataContractSerializer.cs:433-448 | Offering all candidates to an empty list gives exactly the first candidate of each name. |
| Members.DerivedWins | Assets/DataContractSerializerAsync/DataContractSerializer.cs:451-454 | When a derived level declares a name, the kept entry for that name comes from the derived level, never from a base. |
| Members.PropertyStep | Assets/DataContractSerializerAsync/DataContractSerializer.cs:422-439 | One property step offers the property exactly when it has a public setter and a public getter, has no getter or index parameters, and passes the filter. Otherwise it changes nothing. |
| Members.FieldStep | Assets/DataContractSerializerAsync/DataContractSerializer.cs:440-450 | One field step offers the field exactly when it passes the filter. |
| Members.PropertiesOffered | Assets/DataContractSerializerAsync/DataContractSerializer.cs:422-439 | The property loop, step by step, equals offering the included properties in declaration order. |
| Members.FieldsOffered | Assets/DataContractSerializerAsync/DataContractSerializer.cs:440-450 | The field loop, step by step, equals offering the included fields in declaration order. |
| Members.OwnOffered | Assets/DataContractSerializerAsync/DataContractSerializer.cs:422-450 | One level offers its properties first, then its fields. |
| Members.WalkOffered | Assets/DataContractSerializerAsync/DataContractSerializer.cs:420-455 | The walk up the base types equals offering the candidates of the runtime type, then those of each base in turn. |
| Members.PropertyValues | Assets/DataContractSerializerAsync/DataContractSerializer.cs:432 | Every offered property value is read from the object. |
| Members.FieldValues | Assets/DataContractSerializerAsync/DataContractSerializer.cs:444 | Every offered field value is read from the object. |
| Members.CandidateValues | Assets/DataContractSerializerAsync/DataContractSerializer.cs:420-455 | Every candidate's value is one of the object's member values. |
| Members.DedupSubset | Assets/DataContractSerializerAsync/DataContractSerializer.cs:433-448 | Every kept entry is one of the candidates. |
| Members.AddProperties | Assets/DataContractSerializerAsync/DataContractSerializer.cs:422-439 | The loop fails exactly when a property has a public setter and no public getter. Otherwise it leaves the list sorted, with the included properties offered in order. |
| Members.AddFields | Assets/DataContractSerializerAsync/DataContractSerializer.cs:440-450 | The field loop leaves the list sorted, with the included fields offered. |
| Members.AddSorterMembers | Assets/DataContractSerializerAsync/DataContractSerializer.cs:420-455 | The walk fails exactly when some level has a property with a public setter and no public getter. Otherwise the list holds the walk's offers: own properties, own fields, then the base type's. The list stays sorted either way. |
| Members.GetSortedMembers | Assets/DataContractSerializerAsync/DataContractSerializer.cs:457-463 | The method fails exactly when the walk meets a property with a public setter and no public getter. Otherwise the result is strictly ordered by name, so it has no duplicates. It holds exactly the most-derived included member of each name, and every value comes from the object. |
| XmlEvents.NatToStringInjective | Assets/DataContractSerializerAsync/DataContractSerializer.cs:374 | Different counters print differently, so every z:Id value is distinct. |
| XmlEvents.TokenInjective | Assets/DataContractSerializerAsync/DataContractSerializer.cs:374 | Different ids give different z:Id values "i1", "i2", and so on. |
| XmlEvents.NilIsElement | Assets/DataContractSerializerAsync/DataContractSerializer.cs:75-80 | A nil element is one balanced element named after the field, in the default namespace. |
| XmlEvents.IdRangeDistinct | Assets/DataContractSerializerAsync/DataContractSerializer.cs:373-374 | Ids handed out by successive increments are pairwise distinct. |
| XmlEvents.ElementBalanced | Assets/DataContractSerializerAsync/DataContractSerializer.cs:117 | A start element, balanced content and an end element form one balanced element. |
| Serializer.GeneratedPrefixInjective | Assets/DataContractSerializerAsync/DataContractSerializer.cs:91-92 | Generated prefixes `d{depth}p{n}` differ whenever the depth or the count differs. |
| Serializer.Serializer.constructor | Assets/DataContractSerializerAsync/DataContractSerializer.cs:33-44 | The root element type is GetArrayType of the type. The trace, the counters and the namespace stack start empty. |
| Serializer.Serializer.WriteNull | Assets/DataContractSerializerAsync/DataContractSerializer.cs:75-80 | The method appends exactly a nil element in the default namespace and changes nothing else. |
| Serializer.Serializer.WritePrefix | Assets/DataContractSerializerAsync/DataContractSerializer.cs:82-97 | The prefix is the given one, else the looked-up one, else `d{depth}p{prefixes+1}`, and `prefixes` grows only in the last case. An xmlns attribute is written only when the type has a namespace. |
| Serializer.Serializer.WriteTypeNamespace | Assets/DataContractSerializerAsync/DataContractSerializer.cs:99-111 | The method returns true exactly when `ns` was not on the stack. Then it writes an xsi:type attribute with the type's name and pushes `ns`. Otherwise it writes nothing. |
| Serializer.Serializer.WriteField | Assets/DataContractSerializerAsync/DataContractSerializer.cs:113-294 | The method succeeds exactly when the value is Writable, so a null value fails. On success it writes one balanced element with the given name and namespace, and depth and the namespace stack come back unchanged. |
| Serializer.Serializer.WriteTypeDeclaration | Assets/DataContractSerializerAsync/DataContractSerializer.cs:127-138 | The method writes exactly the prefix lookup, an xmlns attribute when the prefix type has a namespace, and an xsi:type attribute when the namespace was absent. The prefix is the looked-up one, else a generated one, and `prefixes` grows only then. It reports a push exactly when the namespace was absent, and pushes only then. |
| Serializer.Serializer.WriteValue | Assets/DataContractSerializerAsync/DataContractSerializer.cs:118-287 | The method succeeds exactly when the value is Writable. The element content is balanced, and the flag says whether exactly one namespace was pushed. |
| Serializer.Serializer.WriteContractValue | Assets/DataContractSerializerAsync/DataContractSerializer.cs:121-157 | The data-contract branch succeeds exactly when its body can be written (ContractBodyOk). Its namespace is `ns` extended by the element type's namespace (ContractNamespace). It reports a push exactly when that namespace was not on the stack, and on success the stack is the old one plus that namespace. The content is balanced. |
| Serializer.Serializer.WriteContractBody | Assets/DataContractSerializerAsync/DataContractSerializer.cs:139-156 | The body succeeds exactly when ContractBodyOk holds: the items can be written, or the value is an enum, or its data members can be written. Its content is balanced and the stack unchanged. |
| Serializer.Serializer.WriteEnumerableValue | Assets/DataContractSerializerAsync/DataContractSerializer.cs:158-208 | The collection and dictionary branch succeeds exactly when EnumerableOk holds. It writes balanced content and pushes at most one namespace. |
| Serializer.Serializer.WriteItemsValue | Assets/DataContractSerializerAsync/DataContractSerializer.cs:186-206 | The method succeeds exactly when the collection is empty or has an element type and only writable items. It reports a push exactly when the collection is not empty, `ns` was not on the stack and the declared type is a different type from the `System` namespace. On success the stack is the old one, plus `ns` when it reports a push. The content is balanced. |
| Serializer.Serializer.WritePlainValue | Assets/DataContractSerializerAsync/DataContractSerializer.cs:209-287 | A scalar always succeeds, and its events are exactly its declaration (ScalarDeclaration) followed by its text (ScalarText). An object succeeds exactly when its members can be written (MembersOk). |
| Serializer.Serializer.WriteScalarValue | Assets/DataContractSerializerAsync/DataContractSerializer.cs:211-253 | The method writes exactly the scalar's declaration, then one text event: a string for booleans and enums, a typed value for numbers and strings. The content is balanced and takes no id. |
| Serializer.Serializer.WriteScalarDeclaration | Assets/DataContractSerializerAsync/DataContractSerializer.cs:211-253 | The method writes exactly WriteTypeDeclaration's events where the source declares a type, and nothing otherwise. An enum declares its type in `ns` when `ns` is not on the stack. A boolean or string whose declared type is object declares its schema type. |
| Serializer.Serializer.WritePlainObject | Assets/DataContractSerializerAsync/DataContractSerializer.cs:254-286 | The method succeeds exactly when MembersOk holds for the public members: every property can be read, and every member is null or writable. The content is balanced, with at most one push. |
| Serializer.Serializer.IsEmpty | Assets/DataContractSerializerAsync/DataContractSerializer.cs:64-73 | The result is true exactly when the enumeration has no item. |
| Serializer.Serializer.WriteDataContractEnumerable | Assets/DataContractSerializerAsync/DataContractSerializer.cs:355-388 | The method succeeds exactly when there is an element type and every non-null item's data members can be written, so it fails without an element type. Its content is balanced, and depth and the stack come back unchanged. |
| Serializer.Serializer.WriteEntryElements | Assets/DataContractSerializerAsync/DataContractSerializer.cs:360-384 | For a dictionary, the method writes exactly one empty element per entry, named after the element type, and takes no id. Depth and the stack are unchanged. |
| Serializer.Serializer.WriteContractItems | Assets/DataContractSerializerAsync/DataContractSerializer.cs:360-384 | The item loop succeeds exactly when every item is null or its data members can be written. |
| Serializer.Serializer.WriteReference | Assets/DataContractSerializerAsync/DataContractSerializer.cs:371-379 | The method takes the next id and writes exactly z:Id, the prefix lookup and the xsi:type attribute. |
| Serializer.Serializer.WriteContractItem | Assets/DataContractSerializerAsync/DataContractSerializer.cs:366-385 | A non-null item succeeds exactly when its data members can be written. It becomes one balanced element named after the element type. |
| Serializer.Serializer.WriteDictionary | Assets/DataContractSerializerAsync/DataContractSerializer.cs:390-405 | The method succeeds exactly when no value is null and every key and value is writable (EntriesOk). The entries form balanced content. |
| Serializer.Serializer.WriteEntry | Assets/DataContractSerializerAsync/DataContractSerializer.cs:392-404 | The entry succeeds exactly when its key and its value are writable. It becomes one balanced element named KeyValueOf + key type + value type. |
| Serializer.Serializer.WritePrimitiveEnumerable | Assets/DataContractSerializerAsync/DataContractSerializer.cs:407-418 | The method succeeds exactly when the collection is empty, or has an element type and only writable items, so a null item fails. The items form balanced content. |
| Serializer.Serializer.WriteDataContractObjectContents | Assets/DataContractSerializerAsync/DataContractSerializer.cs:465-482 | The method succeeds exactly when MembersOk holds for the data members. The members are the deduplicated data members in strict name order. Each becomes its own part: a nil element when null, else one element with its name. |
| Serializer.Serializer.WriteMembers | Assets/DataContractSerializerAsync/DataContractSerializer.cs:468-481 | The loop succeeds exactly when every member is null or writable. The trace gains the concatenation of one part per member, in order. |
| Serializer.Serializer.WriteMember | Assets/DataContractSerializerAsync/DataContractSerializer.cs:470-480 | A null member always succeeds and writes exactly a nil element; it is never omitted. Any other member succeeds exactly when it is writable, and gives one element with its name. |
| Serializer.MembersOkFromList | Assets/DataContractSerializerAsync/DataContractSerializer.cs:465-482 | The members GetSortedMembers returns can all be written exactly when MembersOk holds for the object. |
| Serializer.ScalarWritable | Assets/DataContractSerializerAsync/DataContractSerializer.cs:209-253 | A bool, number, string or enum that is not a data contract is always written. |
| Serializer.NullItem | Assets/DataContractSerializerAsync/DataContractSerializer.cs:360-416 | A null item makes a collection that is not a data contract, and holds none, fail. A data-contract collection succeeds exactly when it has an element type and every non-null item's data members can be written, so a null item there is harmless. |
| Serializer.Serializer.WriteObject | Assets/DataContractSerializerAsync/DataContractSerializer.cs:46-54 | The method succeeds exactly when the graph is Writable. A null graph fails with nothing written. Otherwise the method writes one balanced element named after the runtime type, in the default namespace. |
| Spy.Escape | Assets/DataContractSerializerAsync/XmlSpy.cs:66 | The escaped line holds no newline and is at least as long as the input. |
| Spy.EscapeConcat | Assets/DataContractSerializerAsync/XmlSpy.cs:66 | Escaping distributes over concatenation. |
| Spy.EscapeIdentity | Assets/DataContractSerializerAsync/XmlSpy.cs:66 | A line without a newline is logged unchanged. |
| Spy.EscapeCollision | Assets/DataContractSerializerAsync/XmlSpy.cs:66 | A newline and the two characters backslash-n escape alike, so the log cannot tell them apart. |
| Spy.PrintString | Assets/DataContractSerializerAsync/XmlSpy.cs:59-62 | Null prints "null". Any other string prints between double quotes. |
| Spy.PrintStringInjective | Assets/DataContractSerializerAsync/XmlSpy.cs:59-62 | Different arguments print differently, and null differs from the string "null". |
| Spy.IntToString | Assets/DataContractSerializerAsync/XmlSpy.cs:116 | The result is non-empty and starts with '-' exactly for negative numbers. |
| Spy.Line | Assets/DataContractSerializerAsync/XmlSpy.cs:53-231 | Every override logs a line except WriteQualifiedName. |
| Spy.WriteStringCollision | Assets/DataContractSerializerAsync/XmlSpy.cs:215-219 | Two different WriteString calls reach the log as the same line. |
| Spy.Reset | Assets/DataContractSerializerAsync/XmlSpy.cs:43-49 | CheckLog keeps the log and enters compare mode with nothing compared yet and verified, so the comparison invariant holds whatever came before. |
| Spy.Step | Assets/DataContractSerializerAsync/XmlSpy.cs:64-93 | Before CheckLog a call appends the escaped line to the log and leaves the flag alone. After it the log is unchanged, the line joins the compared ones and the position moves on. The flag never turns from false to true. |
| Spy.StepValid | Assets/DataContractSerializerAsync/XmlSpy.cs:64-93 | LogLine keeps the invariant: position equals the comparison count, and `verified` holds exactly when the comparison list is a prefix of the log. Once false, `verified` stays false. |
| Spy.RecordSteps | Assets/DataContractSerializerAsync/XmlSpy.cs:89-92 | In record mode the log gains exactly the escaped lines, and nothing else changes. |
| Spy.CompareSteps | Assets/DataContractSerializerAsync/XmlSpy.cs:67-88 | In compare mode the log is unchanged, the comparison list gains the escaped lines, and the position grows by their number. |
| Spy.RecordThenReset | Assets/DataContractSerializerAsync/XmlSpy.cs:43-49 | CheckLog after recording keeps the escaped log, with an empty comparison list, position 0 and verified. |
| Spy.RecordThenCompare | Assets/DataContractSerializerAsync/XmlSpy.cs:64-93 | A compared run verifies exactly when its escaped lines are the first recorded ones. |
| Spy.ReplayVerifies | Assets/DataContractSerializerAsync/XmlSpy.cs:64-93 | Replaying the recorded calls always verifies. |
| Spy.XmlSpy.constructor | Assets/DataContractSerializerAsync/XmlSpy.cs:8-17 | A new spy is in record mode with an empty log, position 0 and verified. |
| Spy.XmlSpy.CheckLog | Assets/DataContractSerializerAsync/XmlSpy.cs:43-49 | The comparison list becomes empty, verified becomes true and position becomes 0, and the log is kept. |
| Spy.XmlSpy.LogLine | Assets/DataContractSerializerAsync/XmlSpy.cs:64-93 | The new state is one Step of the old one. The invariant is kept, and a failure is sticky. |
| Spy.XmlSpy.Forward | Assets/DataContractSerializerAsync/XmlSpy.cs:53-231 | An override logs its line through LogLine. WriteQualifiedName leaves the state unchanged. |

## Left out

- Reflection is replaced by `Types.TypeDesc`. This covers `GetProperties`, `GetFields`, `IsDefined`, `GetCustomAttribute` and `GetInterface`.
  - A runtime category (`Kind`) stands for the `is` tests.
  - Boolean, Int32, Single, String, Double and Byte each stand for that one System type.
  - Structural equality stands for `Type` identity.
- Types and values are finite trees. A type whose members refer to the type itself cannot be described, and neither can a cyclic object graph.
- Values are typed (`Types.Typed`). Only enums may be data-contract scalars, and non-object types declare no members.
- Dictionary keys are never null, because .NET dictionaries reject null keys.
- The text of booleans, numbers and enums is an opaque string (`Scalar.text`). `XmlConvert`, `WriteValue` and floating-point formatting are not modelled.
- `SortedList` uses the culture-sensitive default string comparer. The model orders names ordinally (`Members.Less`), character by character. Dafny characters are Unicode scalar values, not UTF-16 code units, so names outside the Basic Multilingual Plane may order differently.
- TypeNames.EndsWith: `string.EndsWith(string)` in the source compares under the current culture. The model compares character by character.
- Spy.IntToString: string interpolation formats under the current culture. The model always writes '-' and decimal digits.
- The real `XmlWriter`'s own checks are not modelled. It rejects an empty local name, which GetTypeString returns for a collection without an element type, so serializing an empty non-generic collection such as an `ArrayList` as the root object throws in .NET, where the model writes an element with an empty name.
- The real `XmlWriter` is not modelled. Its `LookupPrefix` answers from a fixed map given at construction, and the prefix scopes that `WriteAttributeString` creates do not change that map.
- The `IEnumerable` plumbing is not modelled. No writer yields an item of its own, so each writer's enumeration writes its whole trace before yielding anything, and the model writes it in one call.
- `AsyncSerializer.cs` is not part of this model. It is the Unity driver and test fixtures, calls the framework serializer, writes files and logs with `Debug.Log`.
- `XmlSpy.WriteOriginalLog` and `XmlSpy.WriteComparisonLog` write files, and `Debug.LogError` prints messages. None of these is modelled.
- `XmlSpy` forwards every call to the inner writer, and `WriteState` passes through. Neither is modelled. The inner writer argument of `CheckLog` is dropped.
- Spy.Line: a buffer argument prints as its type name (`System.Byte[]`, `System.Char[]`). A null buffer, which C# interpolation prints as an empty string, is not modelled.
- Serializer.Serializer.WriteField: says nothing about `prefixes` after the call. Nested fields reset it, and the source does not restore it.
- Serializer.Serializer.WriteValue: promises balanced content, the id sequence and the stack discipline, not the exact event list.
- Serializer.Serializer.WriteContractValue: promises balanced content, the id sequence and the stack discipline, and which namespace it pushes, not the exact event list.
- Serializer.Serializer.WriteContractBody: promises balanced content, the id sequence and the stack discipline, not the exact event list.
- Serializer.Serializer.WriteEnumerableValue: promises balanced content, the id sequence and the stack discipline, not the exact event list.
- Serializer.Serializer.WriteItemsValue: promises balanced content, the id sequence and the stack discipline, not the exact event list. The temporary push of `ns` while the items are written is not stated, since it is undone before the method returns.
- Serializer.Serializer.WritePlainValue: for an object it promises balanced content, the id sequence and the stack discipline, not the exact event list. The exact events are stated for scalars.
- Serializer.Serializer.WritePlainObject: promises balanced content, the id sequence and the stack discipline, not the exact event list.
- Serializer.Serializer.WriteDataContractEnumerable: promises balanced content, the id sequence and the stack discipline, not the exact event list.
- Serializer.Serializer.WriteContractItems: promises balanced content, the id sequence and the stack discipline, not the exact event list.
- Serializer.Serializer.WriteDictionary: promises balanced content, the id sequence and the stack discipline, not the exact event list.
- Serializer.Serializer.WritePrimitiveEnumerable: promises balanced content, the id sequence and the stack discipline, not the exact event list.
- Serializer.Serializer.WriteField: promises one balanced element with fresh ids, not the exact event list. Exact events are stated for WriteNull, WritePrefix, WriteTypeNamespace, WriteTypeDeclaration, WriteReference and the member parts.
- Serializer.Serializer.WriteField: when the call fails (an exception in the source), only the fact that the trace grew is stated. `depth` and the namespace stack are left as the exception found them.
- Serializer.Serializer.WriteDataContractObjectContents: when a property cannot be read, the member list is reported empty. The source throws there, so there is no list to speak of.
- Exceptions raised inside a property getter (`GetValue`) are not modelled: property values are given in `Value.slots`.
- The integer counters are unbounded. The source's 32-bit `int` would wrap only after 2^31 elements or ids.
