# Telstra.Twins core in Dafny

Telstra.Twins lets a .NET program describe Azure Digital Twins in code: a twin
is a C# class deriving from `TwinBase`, decorated with `DigitalTwin`,
`TwinProperty`, `TwinRelationship` and `TwinComponent` attributes. This project
models three parts of the library and proves properties of them.

- `ObjectToTwinConverter<T>` (module `TwinConverter`).
  - `Write` emits one JSON object: the reserved properties (`$dtId`, `$etag`,
    `$metadata`), then the normal properties, then the components.
  - `Read` fills a new instance by dispatching on each property's declared type.
- The twin base class (`TwinBase.Serializable.cs`), in two modules.
  - `TwinGraph` covers the instance graph reached through relationship
    properties: `TraverseTwin`, `Flatten` and `GetRelationships`. It also
    covers the types a graph depends on: `GetInheritance` and `GetDependentTypes`.
  - `TwinContents` covers the twin's state: the `ModelId` setter that keeps
    the metadata in step, `ReadAttributeInfo`, and the `Contents` dictionary.
    `RefreshContents` rebuilds it, `ToTwinComponent` turns a nested twin into
    a component, and `CleanupDigitalTwinContents` with
    `RemoveNullPropertiesFromObject` drops nulls and flattens nested objects.
- `ModelLibrary` (module `Services`), the registry of twin types.
  - `Init` discovers and registers the attributed types by full model id and
    merges each type's ancestors' relationships into its twin model.
  - The queries `GetById`, `GetTypeFromJson` and `GetTwinModel` look a type
    or model up.
  - `GetDerivedTypes`, `GetRelatedTypes` and `GetDependendentTypes` walk the
    type graph; `TraverseRelationships` does the walk behind `GetRelatedTypes`.

Reflection becomes explicit data.
- A `TypeTable` (module `TypeSystem`) describes each CLR type once:
  - its base type, whether it is an interface, and its `DigitalTwinAttribute`
    with the full model id;
  - its properties, its model property type, its components, its interfaces
    and the relationships `TwinModelFactory` would give it.
- A converter carries the property lists the reflection helpers report
  (`PropertyTable`).
- The JSON text is a sequence of tokens.
  - `JsonWriter` models `Utf8JsonWriter`, and `JsonReader` models
    `Utf8JsonReader` with the getters and the exceptions they throw (module
    `JsonIO`).
  - Values and tokens live in `TwinData`.

What the source does step by step stays imperative:
- the writer and reader are classes whose methods update a token list or a
  cursor;
- `ModelLibrary`, the twin and `List<Type>` are classes;
- the `foreach` loops of `Write`, `TraverseTwin`, `GetRelationships`,
  `GetDependentTypes` and `RemoveNullPropertiesFromObject` are `for` loops;
- the reading loop of `Read` (`while (reader.Read())`), the loop over the
  targets in `TraverseRelationships`, the registration and extension loops of
  `Init`, the merge loop of `AddToExtending` and the cleanup loop over the pending entries are `while` loops.

Each method is proved against a function on the old state and the inputs.
The properties the library promises are then proved about those functions:
- a written twin reads back;
- reserved keys come first;
- the registry is a bijection between registered types and their model ids;
- the flattened graph holds each reachable twin once;
- dependent types are sorted with ancestors first;
- cleaned contents hold no nulls, and cleaning them again changes nothing.

Some behaviour of the code that a reader might not expect:
- `Read` creates the instance with `Activator.CreateInstance(type, nonPublic: true)`,
  which runs the constructor. The values the constructor leaves are the
  parameter `initial`.
- `Read` builds its property map from the unfiltered lists (no exclusion
  list). So `@context` and `displayName` are read but never written.
- `Read` does not skip the value of an unknown key. A key inside that value
  that matches a property is read as that property; see
  `ReadDescendsIntoUnknownValue`.
- An enum value goes through `Enum.Parse` (module `Enums`). The text is
  trimmed of white space. A leading digit or sign makes it a number, which
  must fit the enum's underlying type. Otherwise it is a comma-separated
  list of member names, whose values are ORed together.
- `TraverseTwin` lists each target before the twins it reaches (pre-order).
- `TraverseTwin` keeps no record of the twins it has met. On a graph where
  twins refer to each other, `Flatten` recurses without end (see Findings).
  `GetRelationships` makes no recursive call and works on any graph.
- `RemoveNullPropertiesFromObject` removes nulls one level deep only.
- `Init` leaves out interfaces only. Abstract types are registered.
- Merging an ancestor's relationships uses `Dictionary.Add`. A relationship
  name met twice along the chain raises an exception; the first entry does
  not win.
- `GetInheritance(t, types)` adds the shared list to itself. With n ancestors
  below `TwinBase` the list has 2^n - 1 entries; `GetDependentTypes` removes
  the repeats.
- The example-provider lookup (lines 70-72 of `ModelLibrary.cs`) calls
  `GetTypes()` without a handler. Only the first assembly is asked, so a
  type-load failure there ends `Init`.
- Types may refer to each other through relationships (`MutualTypesValid`).
  `Init`, the lookups, `GetDerivedTypes` and the base-chain walks accept
  such types. Only `TraverseRelationships` and the queries built on it need
  the relationship graph of types to have no cycle other than a type
  referring to itself (`RankedTable`); on such a cycle `TraverseRelationships`
  recurses without end (see Findings).

The reflection helpers are not in the modelled files, so they become
parameters or table fields:
- `ToCamelCase` becomes the parameter `camel`;
- `GetTwinProperties*` become the property lists of `PropertyTable` and the
  `twinProps` of a `Twin`;
- `GetModelPropertyType` becomes the field `modelPropertyType`;
- `GetFullModelId` becomes the field `fullModelId`;
- `TypeDerivationComparer` becomes a stable sort by the field `depth`.

## Model

| member | source | states |
|---|---|---|
| TwinConverter.GetTwinOnlyProperties | Telstra.Twins/Serialization/ObjectToTwinConverter.cs:298-313 | a property is returned exactly when it is a basic or twin-only property whose wire name is requested and, when an exclusion list is given, not excluded; the result keeps the declaration order |
| TwinConverter.GetNormalTwinProperties | Telstra.Twins/Serialization/ObjectToTwinConverter.cs:315-330 | telemetry properties come before the marked twin properties; with an exclusion list both are filtered by wire name; membership is exactly that, in declaration order |
| TwinConverter.DefaultReservedNames | Telstra.Twins/Serialization/ObjectToTwinConverter.cs:19-31 | with the default name lists the reserved section can only hold `$dtId`, `$etag` and `$metadata`, because `@context` and `displayName` are also excluded |
| TwinConverter.TrimQuotesSpec | Telstra.Twins/Serialization/ObjectToTwinConverter.cs:54-55 | trimming leaves no quote at either end and removes only quotes, from the two ends |
| TwinConverter.TrimQuotesKeeps | Telstra.Twins/Serialization/ObjectToTwinConverter.cs:54-55 | a tag without an edge quote is written unchanged |
| TwinConverter.WriteETagTrimmed | Telstra.Twins/Serialization/ObjectToTwinConverter.cs:54-55 | a reserved ETag is written as a string with its edge quotes trimmed |
| TwinConverter.WriteReservedEntry | Telstra.Twins/Serialization/ObjectToTwinConverter.cs:33-62 | one reserved member: a string, int, decimal, bool or trimmed ETag as its literal, anything else through the serializer (null as the null literal) |
| TwinConverter.WriteNormalEntry | Telstra.Twins/Serialization/ObjectToTwinConverter.cs:71-97 | one normal member: the same dispatch without the ETag case |
| TwinConverter.WriteComponentEntry | Telstra.Twins/Serialization/ObjectToTwinConverter.cs:105-125 | one component member: its name, then null or the component converter's JSON |
| TwinConverter.WriteReserved | Telstra.Twins/Serialization/ObjectToTwinConverter.cs:30-63 | the reserved loop appends one member per property, in order |
| TwinConverter.WriteNormal | Telstra.Twins/Serialization/ObjectToTwinConverter.cs:68-97 | the normal loop appends one member per property, in order |
| TwinConverter.WriteComponents | Telstra.Twins/Serialization/ObjectToTwinConverter.cs:103-126 | the component loop appends one member per property, in order |
| TwinConverter.Write | Telstra.Twins/Serialization/ObjectToTwinConverter.cs:23-129 | the writer gains exactly one object whose members are the reserved, then normal, then component entries of the instance |
| TwinConverter.WriteKeyOrder | Telstra.Twins/Serialization/ObjectToTwinConverter.cs:23-129 | the keys written are the reserved wire names, then the normal ones, then the component ones |
| TwinConverter.WriteReservedKeys | Telstra.Twins/Serialization/ObjectToTwinConverter.cs:30-31 | every reserved key is a special name and none is excluded |
| TwinConverter.WriteSingleObject | Telstra.Twins/Serialization/ObjectToTwinConverter.cs:23-129 | the output is one object: start, then alternating names and single values, then end |
| TwinConverter.NullComponentAsWrittenMalformed | Telstra.Twins/Serialization/ObjectToTwinConverter.cs:108-111 | the tokens the source emits for a null component are not a member (a name follows a name), while name-then-null is |
| TwinConverter.PropMapSpec | Telstra.Twins/Serialization/ObjectToTwinConverter.cs:136-146 | the property map is built iff the wire names are distinct; its keys are exactly the wire names and each maps to its property |
| TwinConverter.WrittenAreRead | Telstra.Twins/Serialization/ObjectToTwinConverter.cs:133-146 | every property Write emits is in the map Read builds |
| TwinConverter.ConvertScalarTyped | Telstra.Twins/Serialization/ObjectToTwinConverter.cs:162-269 | the dispatch only hands SetValue a value of the property's own type, an enum value within its underlying type, and skips SetValue exactly for a null string, char or enum, or a type it does not handle |
| TwinConverter.EnumFromNumber | Telstra.Twins/Serialization/ObjectToTwinConverter.cs:260-268 | a number token outside Int32 is a format error; inside it, it becomes that value, member or not, when it fits the enum's underlying type, and the overflow error otherwise |
| TwinConverter.EnumFromName | Telstra.Twins/Serialization/ObjectToTwinConverter.cs:260-268 | a string token holding one member name with white space around it succeeds iff a member has that name, with that member's value, and otherwise fails with the parse error |
| TwinConverter.EnumFromNames | Telstra.Twins/Serialization/ObjectToTwinConverter.cs:260-268 | a string token holding a comma-separated list of padded names succeeds iff every name is a member, and then holds the OR of their values |
| TwinConverter.Convert | Telstra.Twins/Serialization/ObjectToTwinConverter.cs:162-282 | a scalar type reads exactly one token; a class type succeeds iff one whole value can be consumed, and its value is the nested converter's reading of exactly those tokens |
| TwinConverter.TwinObject.SetValue | Telstra.Twins/Serialization/ObjectToTwinConverter.cs:169 | the one property is set and every other keeps its value |
| TwinConverter.Read | Telstra.Twins/Serialization/ObjectToTwinConverter.cs:131-289 | the outcome and the new instance's values are those of `ReadSpec`: map construction, then the member loop from the constructor's values |
| TwinConverter.ReadMembers | Telstra.Twins/Serialization/ObjectToTwinConverter.cs:148-285 | the loop succeeds iff `ReadFrom` does, with the same error or the same final values |
| TwinConverter.ReadTurn | Telstra.Twins/Serialization/ObjectToTwinConverter.cs:148-285 | one turn either finishes with `ReadFrom`'s outcome or advances the cursor with `ReadFrom` of the rest unchanged |
| TwinConverter.MemberStep | Telstra.Twins/Serialization/ObjectToTwinConverter.cs:159-283 | a null value, an unknown name or a read-only property leaves cursor and instance alone and cannot fail; only the named property's member can change, and the cursor never moves back or out of the text |
| TwinConverter.ReadMemberValue | Telstra.Twins/Serialization/ObjectToTwinConverter.cs:159-283 | the member's value is converted and set, skipped when null, unknown or read-only, or the error returned |
| TwinConverter.ReadPropertyValue | Telstra.Twins/Serialization/ObjectToTwinConverter.cs:162-282 | the reader's getters give the conversion's value and cursor, or its error |
| TwinConverter.ReadFromLayout | Telstra.Twins/Serialization/ObjectToTwinConverter.cs:148-285 | reading a run of flat members is applying them left to right, stopping at the first failure |
| TwinConverter.ReadFlatDocument | Telstra.Twins/Serialization/ObjectToTwinConverter.cs:148-285 | reading a whole object of flat members is applying its members in order |
| TwinConverter.ReadTruncated | Telstra.Twins/Serialization/ObjectToTwinConverter.cs:150-156 | text ending just after a property name fails, and with the JSON exception when the members before it read |
| TwinConverter.ReadLeavesUntouched | Telstra.Twins/Serialization/ObjectToTwinConverter.cs:159 | a property keeps the constructor's value unless a non-null member under its wire name is read and it is writable |
| TwinConverter.ReadDistinctMembers | Telstra.Twins/Serialization/ObjectToTwinConverter.cs:148-285 | when members target different properties and all convert, each property ends with its own member's effect |
| TwinConverter.ReadDescendsIntoUnknownValue | Telstra.Twins/Serialization/ObjectToTwinConverter.cs:148-159 | a key nested in the value of an unknown key is read as a top-level property |
| TwinConverter.ScalarRoundTrip | Telstra.Twins/Serialization/ObjectToTwinConverter.cs:162-269 | for a string, int, decimal, bool or unquoted ETag of the declared type, reading the written token gives the value back |
| TwinConverter.ETagEdgeQuoteLost | Telstra.Twins/Serialization/ObjectToTwinConverter.cs:54-55 | the weak ETag `W/"x"` is written with its closing quote trimmed and reads back as `W/"x`, so an ETag with an edge quote does not round-trip |
| TwinConverter.TokenNull | Telstra.Twins/Serialization/ObjectToTwinConverter.cs:58-61 | each section writes the null literal exactly for a null value |
| TwinConverter.RoundTrip | Telstra.Twins/Serialization/ObjectToTwinConverter.cs:23-289 | for a twin whose written properties have distinct wire names and whose non-null written values are strings, Int32s, decimals, bools or ETags without an edge quote: reading what Write emits succeeds; each written property gets its value back, or keeps the constructor's value when it was null or read-only; a component gets the nested converter's reading of its JSON |
| TwinConverter.ApplyWritten | Telstra.Twins/Serialization/ObjectToTwinConverter.cs:148-285 | for the same twins (string, Int32, decimal, bool and unquoted-ETag values), applying the written members to the constructor's values gives every written property its round-trip value |
| JsonIO.GetString | Telstra.Twins/Serialization/ObjectToTwinConverter.cs:164-171 | null only for the null token, and an invalid-operation error for any token that is not a string, a name or null |
| JsonIO.GetInteger | Telstra.Twins/Serialization/ObjectToTwinConverter.cs:172-186 | an integer literal within the getter's width is returned; any other number is a format error and a non-number an invalid-operation error |
| JsonIO.GetDecimal | Telstra.Twins/Serialization/ObjectToTwinConverter.cs:205-209 | succeeds exactly on number tokens |
| JsonIO.GetBoolean | Telstra.Twins/Serialization/ObjectToTwinConverter.cs:235-239 | succeeds exactly on a boolean token, with its value |
| Enums.LookupMember | Telstra.Twins/Serialization/ObjectToTwinConverter.cs:267 | a name resolves exactly when the enum has a member with that name, and then to the value of such a member |
| Enums.TrimPadded | Telstra.Twins/Serialization/ObjectToTwinConverter.cs:267 | a member name with white space on either side trims to the name |
| Enums.NumberOfIntToString | Telstra.Twins/Serialization/ObjectToTwinConverter.cs:262-267 | any printed integer, followed by trailing white space, parses back as a number to the same value |
| Enums.FromStorage | Telstra.Twins/Serialization/ObjectToTwinConverter.cs:267 | the bits of the storage type read as a value of the underlying type, always in its range |
| Enums.StorageRoundTrip | Telstra.Twins/Serialization/ObjectToTwinConverter.cs:267 | a value in the underlying type's range survives conversion to its bits and back |
| Enums.ParseEnum | Telstra.Twins/Serialization/ObjectToTwinConverter.cs:267 | a parsed value is always within the underlying type, and a failure is either the parse error or the overflow error |
| Enums.ParseNumberText | Telstra.Twins/Serialization/ObjectToTwinConverter.cs:267 | a padded number is that value when it fits the underlying type and the overflow error otherwise, whatever the members |
| Enums.ParseOneName | Telstra.Twins/Serialization/ObjectToTwinConverter.cs:267 | a padded single name succeeds iff some member has that name, and then, when the member values fit the type, gives that member's value; otherwise the parse error |
| Enums.ParseNameList | Telstra.Twins/Serialization/ObjectToTwinConverter.cs:267 | a comma-separated list of padded names succeeds iff every name is a member, with the OR of their values read back in the underlying type; otherwise the parse error |
| Enums.OrNamesDefined | Telstra.Twins/Serialization/ObjectToTwinConverter.cs:267 | the values of a list of names OR together exactly when every trimmed name is a member name |
| Enums.EnumParseExamples | Telstra.Twins/Serialization/ObjectToTwinConverter.cs:267 | `" A"` gives A; `"A, B"` gives A or B; `"A,"` is the parse error; 2147483648 overflows Int32 and 256 overflows Byte |
| JsonIO.JsonReader.Read | Telstra.Twins/Serialization/ObjectToTwinConverter.cs:148-156 | advances by one token, and reports false without moving at the end of the text |
| JsonIO.JsonReader.ConsumeValue | Telstra.Twins/Serialization/ObjectToTwinConverter.cs:279-281 | a nested read takes exactly the tokens of one value and leaves the cursor on its last token; an unclosed container is an error |
| TypeSystem.AncestorChainSpec | Telstra.Twins/TwinBase.Serializable.cs:57-79 | the chain below `TwinBase` holds proper ancestors only, each once |
| TypeSystem.AncestorShallower | Telstra.Twins/TwinBase.Serializable.cs:50-52 | a proper ancestor sorts strictly before its descendant |
| TypeSystem.MutualTypesValid | Telstra.Twins/Services/ModelLibrary.cs:113-135 | a room type and a floor type that relate to each other form a valid table, but no relationship ranks make it one `TraverseRelationships` can walk |
| TypeSystem.TypeList.AddRange | Telstra.Twins/TwinBase.Serializable.cs:74 | the list gains the other list's old items, so a list added to itself doubles |
| TwinGraph.TraverseTwin | Telstra.Twins/TwinBase.Serializable.cs:105-133 | the list is the pre-order traversal: each target, then the twins reachable from it, for each relationship in order |
| TwinGraph.TraverseCollection | Telstra.Twins/TwinBase.Serializable.cs:113-128 | the targets of one relationship value are appended, each followed by its own traversal |
| TwinGraph.TraverseBelow | Telstra.Twins/TwinBase.Serializable.cs:105-133 | every twin listed lies strictly below the start in the acyclic graph |
| TwinGraph.TraverseReachable | Telstra.Twins/TwinBase.Serializable.cs:105-133 | a twin is listed iff it is reachable through relationships |
| TwinGraph.FlattenSpec | Telstra.Twins/TwinBase.Serializable.cs:29-34 | the root comes first, no twin is listed twice, the order is that of first sighting, and the twins are exactly the root and those reachable from it |
| TwinGraph.FlattenRootOnce | Telstra.Twins/TwinBase.Serializable.cs:29-34 | the root is listed once, followed by the traversal without repeats |
| TwinGraph.DepthAgrees | Telstra.Twins/TwinBase.Serializable.cs:105-133 | on an acyclic graph the recursion as written returns once the stack is deeper than the start's rank, with the pre-order traversal |
| TwinGraph.CycleNeverReturns | Telstra.Twins/TwinBase.Serializable.cs:105-133 | the recursion as written from a twin on a cycle never returns, whatever the stack depth |
| TwinGraph.RevisitNeverReturns | Telstra.Twins/TwinBase.Serializable.cs:105-133 | when a walk from the start meets a twin twice, the recursion as written from the start never returns |
| TwinGraph.AsWrittenReturns | Telstra.Twins/TwinBase.Serializable.cs:29-34 | the recursion behind Flatten returns for some stack depth iff no chain from the root meets a twin twice, and then gives the checked traversal |
| TwinGraph.RoomAndFloorNeverReturns | Telstra.Twins/TwinBase.Serializable.cs:29-34 | a room and a floor that refer to each other form a closed, cyclic graph on which Flatten as written never returns, while the visited-list Flatten gives the room then the floor |
| TwinGraph.FlattenVisitedSpec | Telstra.Twins/TwinBase.Serializable.cs:29-34 | on any closed graph, cyclic or not, the intended Flatten lists the root first, no twin twice, and exactly the twins a walk from the root reaches |
| TwinGraph.VisitAgrees | Telstra.Twins/TwinBase.Serializable.cs:105-133 | on an acyclic graph, the walk with a visited list gives the list so far followed by the traversal as written, without repeats |
| TwinGraph.FlattenVisitedAcyclic | Telstra.Twins/TwinBase.Serializable.cs:29-34 | on an acyclic graph the intended Flatten equals Flatten as written |
| TwinGraph.GetRelationships | Telstra.Twins/TwinBase.Serializable.cs:81-103 | on any graph, cyclic or not, the edges are those of `Relationships`, relationship by relationship |
| TwinGraph.AddSlotEdges | Telstra.Twins/TwinBase.Serializable.cs:88-100 | a collection gives one edge per target, a single twin one edge, null none |
| TwinGraph.EdgesFollowTargets | Telstra.Twins/TwinBase.Serializable.cs:81-103 | there is one edge per target, in order, from the source's Id to the target's Id |
| TwinGraph.RelationshipsSpec | Telstra.Twins/TwinBase.Serializable.cs:81-103 | on any graph, a twin's edges correspond one to one, in order, to its relationship targets, from its Id to theirs |
| TwinGraph.GetInheritanceInto | Telstra.Twins/TwinBase.Serializable.cs:70-79 | returns the list it was given, now holding `InheritFrom` of its old items |
| TwinGraph.GetInheritance | Telstra.Twins/TwinBase.Serializable.cs:57-68 | a new list holding `Inheritance` |
| TwinGraph.InheritanceElems | Telstra.Twins/TwinBase.Serializable.cs:57-79 | the list holds exactly the ancestors below `TwinBase` |
| TwinGraph.InheritanceEnds | Telstra.Twins/TwinBase.Serializable.cs:57-79 | the list is empty iff there are no such ancestors; it starts with the farthest and ends with the immediate base |
| TwinGraph.InheritanceLength | Telstra.Twins/TwinBase.Serializable.cs:57-79 | with n ancestors the list has 2^n - 1 entries |
| TwinGraph.InheritanceDistinct | Telstra.Twins/TwinBase.Serializable.cs:57-79 | removing repeats gives the ancestor chain, farthest first |
| TwinGraph.InheritanceRepeats | Telstra.Twins/TwinBase.Serializable.cs:57-79 | with two or more ancestors the list repeats a type |
| TwinGraph.GetDependentTypes | Telstra.Twins/TwinBase.Serializable.cs:36-55 | the result is `DependentTypes`: graph types, their ancestors and component types, without repeats, sorted by depth |
| TwinGraph.DerivedOfElems | Telstra.Twins/TwinBase.Serializable.cs:42-47 | the derived list holds exactly the ancestors and model component types of the graph's types |
| TwinGraph.DependentTypesSorted | Telstra.Twins/TwinBase.Serializable.cs:49-52 | the result has no repeats and is ordered by derivation depth |
| TwinGraph.DependentTypesElems | Telstra.Twins/TwinBase.Serializable.cs:36-55 | a type is listed iff it is the type of a twin in the graph, or an ancestor or component type of one |
| TwinGraph.DependentTypesAncestorsFirst | Telstra.Twins/TwinBase.Serializable.cs:36-55 | no type is listed after one of its descendants |
| TwinContents.BuildContentsSpec | Telstra.Twins/TwinBase.Serializable.cs:188-191 | the dictionary is built iff the camel-cased names are distinct and every nested twin converts; its keys are the camel-cased names, each holding its value or the value's component |
| TwinContents.ToTwinComponentKeys | Telstra.Twins/TwinBase.Serializable.cs:195-208 | a twin becomes a component whose contents' keys are its camel-cased twin property names |
| TwinContents.RemoveNullPropertiesFromObject | Telstra.Twins/TwinBase.Serializable.cs:229-242 | the loop's result is `RemoveNulls`, or the duplicate-key error |
| TwinContents.NullsErrIsDuplicate | Telstra.Twins/TwinBase.Serializable.cs:238 | the only way null removal fails is a camel-cased name met twice |
| TwinContents.NullsErrStays | Telstra.Twins/TwinBase.Serializable.cs:233-240 | once a prefix of the properties fails, the whole loop fails with the duplicate-key error |
| TwinContents.AddNonNullSpec | Telstra.Twins/TwinBase.Serializable.cs:229-242 | null removal succeeds iff no two non-null properties share a camel-cased name |
| TwinContents.AddNonNullContents | Telstra.Twins/TwinBase.Serializable.cs:229-242 | the Expando holds exactly the non-null properties under their camel-cased names, and no null |
| TwinContents.NestedPropsExample | Tests/Telstra.Twins.Test/SerializationTests.cs:131-156 | a nested object with a null value keeps its two other properties |
| TwinContents.CleanupDigitalTwinContents | Telstra.Twins/TwinBase.Serializable.cs:211-227 | the loop's result is `Cleanup`, or the duplicate-key error |
| TwinContents.FlattenEntry | Telstra.Twins/TwinBase.Serializable.cs:224 | a nested object fails exactly when its null removal does; otherwise it becomes its cleaned form |
| TwinContents.CleanupSpec | Telstra.Twins/TwinBase.Serializable.cs:211-227 | the keys kept are exactly those with a non-null value; system values stay as they were; other class values become Expandos without nulls |
| TwinContents.CleanupIdempotent | Telstra.Twins/TwinBase.Serializable.cs:211-227 | cleaning cleaned contents again gives the same contents |
| TwinContents.CleanedEntriesFinal | Telstra.Twins/TwinBase.Serializable.cs:220-225 | after cleanup no entry is null and none still needs flattening |
| TwinContents.RefreshedSpec | Telstra.Twins/TwinBase.Serializable.cs:184-193 | after a refresh no entry is null, every non-null twin property has an entry, and every key is a camel-cased twin property name |
| TwinContents.NestedObjectExample | Tests/Telstra.Twins.Test/SerializationTests.cs:131-156 | a twin with one nested object gets one entry, an Expando with the object's two non-null properties |
| TwinContents.ExtendsOfNewTwin | Telstra.Twins/TwinBase.Serializable.cs:172-180 | a new twin extends a model iff its attribute names one or its base type has an attribute; in the second case it extends the base's full model id |
| TwinContents.ChosenExtendsIdempotent | Telstra.Twins/TwinBase.Serializable.cs:162-182 | reading the attribute information a second time leaves the extended model id as it is |
| TwinContents.Twin.constructor | Telstra.Twins/TwinBase.Serializable.cs:17-22 | a new twin has the defaults `Interface` and `dtmi:dtdl:context;2`, or its attribute's model id, model type and display name, and its metadata in step |
| TwinContents.Twin.SetModelId | Telstra.Twins/TwinBase.Serializable.cs:136-148 | sets the model id and copies it into the metadata when there is one; nothing else changes |
| TwinContents.Twin.ReadAttributeInfo | Telstra.Twins/TwinBase.Serializable.cs:162-182 | without an attribute nothing changes; with one the display name, model id and model type are the attribute's and the metadata follows; the extended id is chosen by the attribute, then the base |
| TwinContents.Twin.RefreshContents | Telstra.Twins/TwinBase.Serializable.cs:184-193 | success iff building and cleaning succeed, and then Contents is the cleaned dictionary; a failed build leaves Contents, a failed cleanup leaves the built one; nothing else changes |
| Services.Discovered | Telstra.Twins/Services/ModelLibrary.cs:43-58 | only attributed types are discovered |
| Services.DiscoveredElems | Telstra.Twins/Services/ModelLibrary.cs:45-56 | a type is discovered iff it declares the attribute and an assembly whose listing does not throw contains it |
| Services.Candidates | Telstra.Twins/Services/ModelLibrary.cs:45-58 | the sorted candidates are all attributed |
| Services.Registered | Telstra.Twins/Services/ModelLibrary.cs:60-68 | only types that are not interfaces are registered |
| Services.RegisteredElems | Telstra.Twins/Services/ModelLibrary.cs:43-68 | a type is registered iff it is not an interface, declares the attribute and is listed by an assembly that does not throw |
| Services.RegisterShape | Telstra.Twins/Services/ModelLibrary.cs:60-68 | after registration every registered type has a twin model with its own relationships and none extending, and no type is listed twice |
| Services.RegisterContents | Telstra.Twins/Services/ModelLibrary.cs:60-68 | the registry lists the non-interface candidates in order and maps model ids to them one to one, each type under its own full model id |
| Services.RegisterSpec | Telstra.Twins/Services/ModelLibrary.cs:60-68 | registration succeeds iff the full model ids of the registered types are distinct, and otherwise fails on a duplicate model id |
| Services.RegisterStep | Telstra.Twins/Services/ModelLibrary.cs:62-66 | one more type registers iff its model id is new |
| Services.AddRelationshipsSpec | Telstra.Twins/Services/ModelLibrary.cs:89-92 | adding relationships succeeds iff all names stay distinct, giving the old ones followed by the new, and otherwise fails on a duplicate name |
| Services.ExtendingSpec | Telstra.Twins/Services/ModelLibrary.cs:82-95 | the recursion gives the relationships of the registered ancestors, nearest first, iff their names are distinct |
| Services.ChainRelsFromAncestors | Telstra.Twins/Services/ModelLibrary.cs:82-95 | every merged relationship belongs to a registered proper ancestor |
| Services.ExtendAll | Telstra.Twins/Services/ModelLibrary.cs:76-79 | the extension pass changes neither the model-id map nor the registered list nor the set of twin models |
| Services.ExtendAllSpec | Telstra.Twins/Services/ModelLibrary.cs:76-79 | the pass succeeds iff every type's ancestor chain has distinct relationship names; each twin model then holds its own relationships and its ancestors' |
| Services.InitShape | Telstra.Twins/Services/ModelLibrary.cs:32-68 | after registration the twin models are keyed by exactly the registered types |
| Services.InitOutcome | Telstra.Twins/Services/ModelLibrary.cs:32-80 | Init succeeds iff model ids are distinct, the first assembly's types load, and every ancestor chain has distinct relationship names; its error is one of those three |
| Services.InitIndex | Telstra.Twins/Services/ModelLibrary.cs:32-80 | after Init the registry is a bijection between registered types and their model ids, and each twin model is its own relationships plus its ancestors' |
| Services.GetByIdAfterInit | Telstra.Twins/Services/ModelLibrary.cs:99-105 | an id gives a type iff that registered type has it as its full model id, and null iff no registered type has it |
| Services.GetTypeFromJsonAfterInit | Telstra.Twins/Services/ModelLibrary.cs:148-156 | the JSON's model id gives a type iff that registered type has it as its full model id |
| Services.GetTwinModelAfterInit | Telstra.Twins/Services/ModelLibrary.cs:158-162 | a twin model exists iff the type is registered, and is then its merged model; otherwise the lookup throws |
| Services.ProperAncestorAssignable | Telstra.Twins/Services/ModelLibrary.cs:107-109 | a type is assignable to each of its proper ancestors |
| Services.GetDerivedTypesSpec | Telstra.Twins/Services/ModelLibrary.cs:107-109 | the derived types are the registered types, in order, that are assignable to the model type and differ from it; this includes subclasses and implementers |
| Services.RelatedReach | Telstra.Twins/Services/ModelLibrary.cs:113-135 | the traversal lists exactly the types reachable through declared relationships and components |
| Services.RelatedListReach | Telstra.Twins/Services/ModelLibrary.cs:125-132 | the loop over the targets lists exactly the targets, other than the type itself, and what they reach |
| Services.RelatedPostOrdered | Telstra.Twins/Services/ModelLibrary.cs:113-135 | every type is listed after its own traversal: dependencies first |
| Services.RelatedListPostOrdered | Telstra.Twins/Services/ModelLibrary.cs:125-132 | the loop's list is post-ordered in the same way |
| Services.GetRelatedTypesSpec | Telstra.Twins/Services/ModelLibrary.cs:137-138 | the related types are the registered types, in order, whose traversal reaches the type |
| Services.GetDependendentTypesSpec | Telstra.Twins/Services/ModelLibrary.cs:140-146 | the result is the derived types followed by the related types; a type in both appears twice |
| Services.TraverseRelationships | Telstra.Twins/Services/ModelLibrary.cs:113-135 | returns the given list, or a new one, extended by `Related` |
| Services.RelatedDepthAgrees | Telstra.Twins/Services/ModelLibrary.cs:113-135 | on a ranked table the recursion as written, given a stack deeper than the model type's rank, returns with the traversal `Related` defines |
| Services.RelatedListDepthAgrees | Telstra.Twins/Services/ModelLibrary.cs:125-132 | the same for the loop over one type's targets |
| Services.MutualTypesNeverReturn | Telstra.Twins/Services/ModelLibrary.cs:113-135 | on a room type and a floor type that relate to each other, the recursion as written, from either type, needs more nested calls than any stack depth |
| Services.RelatedVisitedSpec | Telstra.Twins/Services/ModelLibrary.cs:113-135 | on any valid table, mutually related types included, the traversal with a visited list lists no type twice, leaves out the model type, and lists exactly the other types reached through declared relationships and components |
| Services.RelatedVisitedRanked | Telstra.Twins/Services/ModelLibrary.cs:113-135 | on a ranked table the traversal with a visited list lists the same types as `Related` |
| Services.ReachesWalk | Telstra.Twins/Services/ModelLibrary.cs:125-132 | on a ranked table a type reached by the recursion is at the end of a walk along declared targets |
| Services.WalkReaches | Telstra.Twins/Services/ModelLibrary.cs:125-132 | on a ranked table the end of such a walk is the starting type or is reached by the recursion |
| Services.ReachesLower | Telstra.Twins/Services/ModelLibrary.cs:125-132 | a type the recursion reaches has a smaller relationship rank, so the model type is never among them |
| Services.VisitTypeNoDup | Telstra.Twins/Services/ModelLibrary.cs:113-135 | the visited-list walk adds no type twice |
| Services.VisitTypeCovers | Telstra.Twins/Services/ModelLibrary.cs:125-132 | the visited-list walk lists every target of every type it adds |
| Services.VisitTypeFrom | Telstra.Twins/Services/ModelLibrary.cs:125-132 | every type the visited-list walk adds is reached from the type it entered |
| Services.TraverseInto | Telstra.Twins/Services/ModelLibrary.cs:117-134 | the list gains the traversal of the type's model type |
| Services.TraverseTargets | Telstra.Twins/Services/ModelLibrary.cs:125-132 | the list gains each target's traversal followed by the target, skipping the type itself |
| Services.TraverseTarget | Telstra.Twins/Services/ModelLibrary.cs:127-131 | one target adds its traversal and then itself, or nothing when it is the type itself |
| Services.ModelLibrary.constructor | Telstra.Twins/Services/ModelLibrary.cs:26-30 | a new library starts with empty tables |
| Services.ModelLibrary.New | Telstra.Twins/Services/ModelLibrary.cs:26-30 | the constructor followed by Init: a library exactly when Init succeeds, in the state it specifies |
| Services.ModelLibrary.Init | Telstra.Twins/Services/ModelLibrary.cs:32-80 | succeeds iff `InitSpec` does, and then holds its tables; otherwise returns its error |
| Services.ModelLibrary.RegisterTypes | Telstra.Twins/Services/ModelLibrary.cs:60-68 | the registration loop reaches `Register`'s tables or its error |
| Services.ModelLibrary.ExtendRegistered | Telstra.Twins/Services/ModelLibrary.cs:76-79 | the extension loop reaches `ExtendAll`'s tables or its error |
| Services.ModelLibrary.InitializeExtendingRelationships | Telstra.Twins/Services/ModelLibrary.cs:82-95 | only the target's extending relationships change, to the recursion's result, or the recursion's error is returned |
| Services.ModelLibrary.AddToExtending | Telstra.Twins/Services/ModelLibrary.cs:89-92 | only the target's extending relationships change, by adding the relationships in turn, or the duplicate is reported |

## Left out

- Reflection: type metadata is a descriptor table, so attribute lookup, `GetProperties` and `IsAssignableFrom` are table fields and predicates over them.
- The helpers `GetTwinProperties*`, `ToCamelCase`, `GetModelPropertyType`, `GetFullModelId`, `TwinModelFactory.CreateTwinModel` and `JsonHelpers.GetModelId`: their files are not part of this model. They are parameters (`camel`, `modelIdOf`) or table fields.
- `TypeDerivationComparer` is not part of this model. The sort is a stable sort by the table's `depth`, an ancestor having a smaller depth.
- GetComponentTwinProperties: the component list is the field `components` of the property table, with no contract of its own.
- `ToNameValueDictionary`: the pairs are kept as a list in property order. A repeated wire name in one section is not an error in the model.
- Dictionary enumeration order is insertion order. This holds for `Dictionary<,>` without removals, which the core never does.
- The overwrite in `CleanupDigitalTwinContents` during enumeration is taken to be allowed, as it is on .NET Core 3.0 and later.
- Floating point, `Guid` and dates: a `double`, `float`, `Guid`, `DateTimeOffset` or `DateTime` read by the platform is the opaque `Platform` value of its token. The model does not capture `TryGet*` yielding a default value for unparsable text.
- JsonIO.GetDecimal: decimal range and precision are not modelled, so the getter's overflow error is absent.
- The general `JsonSerializer` is not modelled: non-scalar values are written as one opaque `Serialized` token.
- TwinConverter.RoundTrip: proved only for string, Int32, decimal, bool and ETag values. A `long`, `short`, `byte` or other integer width, enum, `char`, `double`, `float`, `Guid`, date, list, dictionary or nested-object value is written through the serializer or read through a platform parser, both opaque here, so nothing is promised for it. An ETag with a quote at either end is excluded because the source does not round-trip it: lines 54-55 trim the quotes on writing (`ETagEdgeQuoteLost`). TwinConverter.ApplyWritten carries the same restriction.
- The component converter `ObjectToTwinComponentConverter` is not part of this model. Writing gives one opaque `Embedded` token, and reading gives a `Nested` value holding the tokens of the consumed value.
- The example provider: `Activator.CreateInstance` of the provider type and the `ExampleProvider` property are not modelled, only the type-load exception of the lookup.
- Assembly loading: the loaded assemblies are a parameter, each with its type list or a load failure.
- Services.ModelLibrary.New: when Init throws, the partly filled tables are not observable, because the constructor throws too. So an Init failure yields no library.
- TwinModels are values in a map, not shared objects; the recursion updates the one model it is given.
- The `ExtendingRelationships` of a new twin model start empty.
- Cycles: `TraverseTwin`, `Flatten` and `GetDependentTypes` take an acyclic instance graph (`ValidGraph`, a rank on twins), because on a cycle the source recurses without end; `TraverseDepth` and `RoomAndFloorNeverReturns` show that recursion, and `FlattenVisited` is the intended Flatten on any graph. `GetRelationships` and everything outside these take any graph closed under its relationships.
- Services.TraverseRelationships: types that relate to each other, other than a type referring to itself, make the source recurse without end. `TraverseRelationships`, `GetRelatedTypes` and `GetDependendentTypes` therefore take a `RankedTable`, which rules such types out. `RelatedDepth` and `MutualTypesNeverReturn` show that recursion, and `RelatedVisited` is the intended traversal on any valid table (see "## Findings"). `Init`, the lookups and `GetDerivedTypes` take any `ValidTable`.
- TwinGraph.TraverseTwin: a null element inside a relationship collection is not modelled (`Many` holds references only). The source adds it and then throws a NullReferenceException at line 108 of `TwinBase.Serializable.cs`, and `GetRelationships` throws one at line 94.
- Services.GetById: a null model id is not modelled (ids are strings). The source's dictionary lookup throws an ArgumentNullException at line 101 of `ModelLibrary.cs`, and at line 152 when `GetModelId` returns null in `GetTypeFromJson`.
- TwinConverter.EnumFromNumber: line 263 prints the number with the current culture's `ToString()`; the model prints it as the invariant culture does, so a culture with another negative sign is not modelled.
- Enums.ParseEnum: follows `Enum.Parse` as on .NET Core 3.0 and later; the older .NET Framework parser is not modelled.
- TwinGraph.IdOf: a reference outside the graph has the empty Id. Valid graphs never reach that case.
- Case-insensitive comparison in `CleanupDigitalTwinContents` folds ASCII letters only.
- The `ArgumentNullException` of `CleanupDigitalTwinContents` cannot occur: contents are a map value, never null.
- Integer widths are range checks (`InRange`) on unbounded integers.
- `IDigitalTwinSerializer`, `GenericTwin` and `AggregateTwinsResponse` are not part of this model.

## Findings

| source | as written | input that shows it | evidently intended | confidence | as-written member | corrected member |
|---|---|---|---|---|---|---|
| Telstra.Twins/Serialization/ObjectToTwinConverter.cs:108-111 | for a null component `WritePropertyName(name)` is followed by `WriteNull(name)`, which writes the name a second time and then null | any twin whose component property is null | the name once, then the null literal (`WriteNullValue`) | not executed | TwinConverter.NullComponentAsWrittenMalformed | TwinConverter.WriteSingleObject |
| Telstra.Twins/TwinBase.Serializable.cs:29-34 | `Flatten` calls `TraverseTwin(this)`, which recurses into every target without remembering the twins already visited, so on a relationship cycle it never returns | a room whose floor lists the room among its rooms (`RoomAndFloor`) | list each reachable twin once, even on a cyclic graph; on an acyclic graph this is what Flatten gives (`FlattenVisitedAcyclic`) | not executed | TwinGraph.RoomAndFloorNeverReturns | TwinGraph.FlattenVisitedSpec |
| Telstra.Twins/Services/ModelLibrary.cs:113-135 | `TraverseRelationships` recurses into every target other than the model type itself without remembering the types it is traversing, so two types that relate to each other never return | a room type whose `Floor` relationship targets a floor type whose `Rooms` relationship targets the room type (`RoomFloorTypes`) | list each related type once, even when types relate to each other; on a ranked table these are the types the source lists (`RelatedVisitedRanked`) | not executed | Services.MutualTypesNeverReturn | Services.RelatedVisitedSpec |
