# json-formatter, modelled in Dafny

This project models the core of `JsonFormatter`, an `IFormatter` that turns a .NET object
graph into JSON and back.

- **The encoder** (`JsonSerializerWorker`) walks the graph depth-first. It keeps a stack of
  path frames, each naming one step of the path (`"root"`, `".member"`, `"[i]"`). It writes:
  - a bare scalar, or an *envelope* object `{@@info@@, @@type@@, …, @@value@@}` when the
    runtime type differs from the expected one;
  - a `{@@info@@, @@reference@@}` object when it meets a reference object a second time;
  - special layouts for dictionaries, lists, arrays with lower bounds, custom-protocol
    (`ISerializable` or surrogate) objects and plain member objects.
- **The decoder** (`JsonDeserializerWorker`) reads the tree back under the expected types:
  - it resolves `@@type@@` through the binder or `Type.GetType`;
  - it commits every value into its frame and records nulls and reference objects under
    their path, so that `@@reference@@` can link back to them;
  - it collects the objects that asked for a deserialization callback and calls them at
    the end.

Modules:

| File | Module | What it holds |
|---|---|---|
| `wrappers.dfy` | `Wrappers` | `Option`, `Result`, `Outcome`, and the failures the source throws |
| `json.dfy` | `Json` | The JSON tree and the insertion-ordered object operations the walkers use |
| `strings.dfy` | `Strings` | Ordinal `IndexOf`, `Split`, a `Trim` over four white-space characters, and `int.ToString` (see Left out) |
| `typemodel.dfy` | `TypeModel` | Type descriptors, the heap of graph objects, `IsElementary`, the simple and full type identifiers |
| `formatter.dfy` | `Formatter` | The formatter's settings, `GetSurrogate`, `GetTypeConverter`, `NormalizeMemberName` |
| `paths.dfy` | `Paths` | The encoder's single-shot `StackEntry`, and path construction (`GetPath`) |
| `arrays.dfy` | `Arrays` | Multi-dimensional grids, lower bounds, and the reading of array lengths from nested JSON |
| `typetags.dfy` | `TypeTags` | How a `@@type@@` string is resolved to a type |
| `serializer.dfy` | `Serializer` | The encoder worker, a class whose stack and processed-object map change as it walks |
| `deserializer.dfy` | `Deserializer` | The decoder worker, a class whose heap, stack, path registry and callback list change as it walks |
| `roundtrip.dfy` | `RoundTrip` | Lemmas connecting what the encoder writes to what the decoder reads |

How the model is shaped:

- **Encoder recursion** is bounded by a `fuel` argument, which stands in for the call stack.
- **Decoder recursion** decreases on the size of the JSON tree.
- **Frames and delegates.** The delegate a source frame carries (`jsArray.Add`,
  `jsObject[name] = …`, `info.AddValue`, `array.SetValue`) is replaced by the value being
  handed back to the code that pushed the frame. That code then puts the value in the same
  place.
- **Calls into .NET.** Reflection, `TypeConverter`, `Convert.ChangeType`, surrogates,
  `Type.GetType` and `IObjectReference.GetRealObject` are function-valued parameters
  (`Foreign`, `Binder`, `SurrogateSelector`).
- **Registration order.** Both walkers record an object before they walk into it. The
  encoder's `Enter` records a reference object at its path. The decoder's `Registered` and
  `Anchored` state that the object is committed at its path before its children are read.
  Contracts state this order in two ways: as a precondition of the loops that read children,
  and by the registry the children are read against (`Outside(Record(…))`).

## Model

| member | source | states |
|---|---|---|
| Formatter.NormalizePlain | JsonFormatter.cs:122-132 | A name without `+`, `>k__BackingField` or `__Field` is its own JSON name |
| Formatter.NormalizeBackingField | JsonFormatter.cs:126-127 | The compiler-generated backing field `<X>k__BackingField` is named `X` |
| Formatter.NormalizeJsonField | JsonFormatter.cs:128-129 | A member `X__Field` is named `X` |
| Formatter.NormalizeQualified | JsonFormatter.cs:124-125 | Of a `+`-qualified name, only the second segment is kept, however many segments follow |
| Formatter.SubstringRangeBackingField | JsonFormatter.cs:126-127 | The guard of the backing-field branch makes `Substring(1, Length - 17)` legal: the name is at least 17 characters long |
| Formatter.SubstringRangeJsonField | JsonFormatter.cs:128-129 | The guard of the `__Field` branch makes `Substring(0, Length - 7)` legal |
| Formatter.MemberNamesAt | JsonFormatter.cs:122-132 | The JSON name list of a type holds, at each position, the normalised name of that member |
| Formatter.Settings.GetSurrogate | JsonFormatter.cs:100-107 | No selector gives no surrogate; otherwise the selector's answer |
| Formatter.Settings.GetTypeConverter | JsonFormatter.cs:109-116 | A custom converter registered for the type wins; otherwise the type's default converter |
| Formatter.JsonFormatter.constructor | JsonFormatter.cs:15-52 | A new formatter has no binder, no selector, no custom converters, and the simple assembly style |
| Strings.IndexOfSpec | JsonFormatter.cs:126-128 | `IndexOf` gives the first position of the substring, and -1 exactly when it does not occur |
| Strings.SplitJoin | JsonFormatter.cs:124 | Joining the segments of `Split` gives the string back, and no segment holds the separator |
| Strings.SplitSingle | JsonFormatter.cs:125 | `Split` gives one segment exactly when the separator does not occur, and that segment is the whole string |
| Strings.TrimLeadingBlank | JsonDeserializerWorker.cs:100 | `Trim` drops the blank after the comma of a type tag and leaves a name without outer white space as it is |
| Strings.IntToStringInjective | JsonSerializerWorker.cs:104 | Different integers are printed differently |
| Paths.StackEntry.constructor | JsonSerializerWorker.cs:23-27 | A new frame carries its fragment and has nothing committed |
| Paths.StackEntry.SetValue | JsonSerializerWorker.cs:29-36 | The first commit stores the value; a second one fails with "Value already set" and changes nothing |
| Paths.GetPath | JsonSerializerWorker.cs:423-432 | Walking the stack from top to root and prepending each fragment gives the fragments joined, root first |
| Paths.ConcatPush | JsonDeserializerWorker.cs:412-419 | Pushing a frame extends the path by exactly that frame's fragment |
| Paths.PathStartsWithRoot | JsonSerializerWorker.cs:77 | Every path of a walk starts with `root` |
| Paths.EnvelopeKeepsPath | JsonSerializerWorker.cs:223 | The empty fragment of an envelope frame leaves the path unchanged |
| Paths.IndexFragment | JsonSerializerWorker.cs:104 | An index fragment is bracketed |
| Paths.SiblingFragments | JsonDeserializerWorker.cs:407-408 | Sibling frames get distinct paths, so the registry keyed by path never merges two of them: equal member fragments name the same member, equal index fragments the same index, and no member fragment is an index fragment |
| Arrays.GetAfterSet | JsonDeserializerWorker.cs:376 | An array cell read after `SetValue` at the same indices yields the value set |
| Arrays.GetAfterSetOther | JsonDeserializerWorker.cs:376 | `SetValue` at some indices leaves every other cell unchanged |
| Arrays.FillGet | JsonDeserializerWorker.cs:292 | Every cell of a freshly created array holds the default value |
| Arrays.LowerBoundsInfo | JsonSerializerWorker.cs:269-281 | The lower bounds are collected as one JSON number per dimension; the flag is set exactly when some bound is not 0 |
| Arrays.GetArrayLengths | JsonDeserializerWorker.cs:421-435 | The lengths are read along element 0 of each nesting level; an empty level ends the read |
| Arrays.InferLengthsOfShape | JsonDeserializerWorker.cs:421-435 | On a nest with no empty level whose first leaf is not an array, the lengths found are exactly the nest's |
| Arrays.JaggedArrayMisread | JsonDeserializerWorker.cs:421-435 | The bare JSON of a jagged `int[][]` `{{1,2},{3}}` is read as lengths `[2, 2]`, one level too many |
| Arrays.GetArrayLengthsForRank | JsonDeserializerWorker.cs:421-435 | The corrected read follows exactly the declared rank; a non-array above it is a rank mismatch |
| Arrays.LengthsForRankOfShape | JsonDeserializerWorker.cs:264-265 | Any nest of the declared rank whose levels above the last are not empty has its lengths recovered exactly, whatever its leaves |
| Arrays.JaggedArrayRead | JsonDeserializerWorker.cs:264-265 | The corrected read gives the jagged array above the single length `[2]` |
| Arrays.LengthsForRankOne | JsonDeserializerWorker.cs:349 | For a one-dimensional array, the length is the number of JSON items |
| TypeTags.SplitAtFirstComma | JsonDeserializerWorker.cs:98-100 | The binder's split, as written: the name ends at the first comma and contains none; the assembly is the trimmed rest; no comma is a malformed tag |
| TypeTags.SplitAtFirstCommaOf | JsonDeserializerWorker.cs:98-100 | A tag whose head has no comma splits at the end of the head |
| TypeTags.SampleGenericTag | JsonSerializerWorker.cs:440-452 | The simple-style identifier of `N.L`1` over `I` is `N.L`1[[I, a]], a` |
| TypeTags.FirstCommaSplitsGenericTag | JsonDeserializerWorker.cs:98-100 | That identifier is split inside its argument list: the binder is asked for `N.L`1[[I` in assembly `a]], a` |
| TypeTags.FirstCommaSplitsArrayTag | JsonDeserializerWorker.cs:98-100 | The identifier `System.Int32[,], mscorlib` of a rank-2 array is split inside its brackets, as `System.Int32[` and `], mscorlib` |
| TypeTags.SplitAtTopComma | JsonDeserializerWorker.cs:98-100 | The corrected split cuts at the first comma outside brackets: the head ends there, the assembly is the trimmed rest, and no such comma is an error |
| TypeTags.ArrayTagSplits | JsonDeserializerWorker.cs:98-100 | The corrected split reads `System.Int32[,], mscorlib` as `System.Int32[,]` in `mscorlib` |
| TypeTags.SplitJoined | JsonDeserializerWorker.cs:98-100 | A bracket-balanced head and a blank-free assembly joined by `", "` split back into the two |
| TypeTags.SplitQualifiedSimple | JsonSerializerWorker.cs:434-459 | Every simple-style identifier `GetTypeName` writes splits back into its head and its assembly name. This covers generic types with their arguments, and array types and other full names with balanced brackets |
| TypeTags.FirstCommaIsTop | JsonDeserializerWorker.cs:98-100 | When no bracket precedes the first comma, that comma is the first one outside brackets |
| TypeTags.SplitsAgree | JsonDeserializerWorker.cs:98-100 | In that case, the corrected split and the split as written agree |
| TypeTags.ResolveTypeTag | JsonDeserializerWorker.cs:92-104 | Without a binder, the tag resolves exactly when `Type.GetType` finds it, and otherwise is not-found. With a binder, a tag with no comma outside brackets is malformed; otherwise the binder's answer for the head and trimmed assembly is the type, and no answer is "could not find the type" with the head. A non-string tag is malformed |
| TypeTags.ResolveWrittenTag | JsonDeserializerWorker.cs:96-103 | With a binder, a written tag reaches the binder as its type's head and assembly name. So the binder's answer, or not-found, is what is read |
| Serializer.GetTypeName | JsonSerializerWorker.cs:434-459 | The identifier built piece by piece equals the type's qualified name in the chosen style |
| Serializer.FirstOccurrencesSpec | JsonSerializerWorker.cs:245-264 | The member names written are distinct, and they are exactly the names of the members |
| Serializer.FirstOccurrencesStep | JsonSerializerWorker.cs:257-263 | A member whose name was already written is skipped, and a new name is appended, so the first member of each name wins |
| Serializer.AddMember | JsonSerializerWorker.cs:257-262 | Writing a name not yet written keeps every written name a key. With no reserved name, the keys stay the head's followed by the names in the order written |
| Serializer.OneDimensional | JsonSerializerWorker.cs:358-361 | `ToArray` gives a one-dimensional array with lower bound 0 and one cell per value |
| Serializer.JsonSerializerWorker.constructor | JsonSerializerWorker.cs:65-73 | A new worker has an empty stack and no processed objects |
| Serializer.JsonSerializerWorker.Run | JsonSerializerWorker.cs:75-90 | The stack is empty again, and the result is the JSON committed under `root`. A root needing no walk gives its leaf JSON: a null or a scalar bare or enveloped. A walked root gives its branch's JSON (`BranchJson`) at path `root`, or `NotSerializable` for a type that cannot be serialized |
| Serializer.JsonSerializerWorker.LeafGrows | JsonSerializerWorker.cs:156 | The JSON of a value that needs no walk does not change as more objects are recorded |
| Serializer.JsonSerializerWorker.BackReference | JsonSerializerWorker.cs:145-154 | A recorded reference object is written as a back-reference to the path recorded for it, whatever type is expected |
| Serializer.JsonSerializerWorker.SerializeValue | JsonSerializerWorker.cs:123-265 | Null and scalars become their bare or enveloped JSON, with the envelope present exactly when the type must be recorded. A reference object met again becomes a reference to the path where it was first met. Any other value is recorded at the current path (reference objects) and written as its branch writes it (`BranchJson`): a type that is not serializable fails with its full name, and the converter branch always succeeds. Processed paths are never lost |
| Serializer.JsonSerializerWorker.SerializeObject | JsonSerializerWorker.cs:131-157 | A reference object already recorded is written as a back-reference and records nothing. Any other object is recorded at the current path before anything below it is written, and what is written is its branch's JSON under that record |
| Serializer.JsonSerializerWorker.SerializeWalked | JsonSerializerWorker.cs:159-264 | The branch is chosen in the source's order (`BranchOf`): dictionary, list, custom protocol, not serializable, array, converter, then members. What is written meets that branch's `BranchJson`; the converter branch writes the converter's string, bare or in an envelope |
| Serializer.JsonSerializerWorker.SerializeElementary | JsonSerializerWorker.cs:390-421 | Writes the bare value, or an envelope with the current path and type when the type must be recorded |
| Serializer.JsonSerializerWorker.SerializeArray | JsonSerializerWorker.cs:267-297 | Writes a nest of JSON arrays of the array's lengths, in an envelope carrying `@@lower_bounds@@` when a bound is not 0 or the type must be recorded |
| Serializer.JsonSerializerWorker.SerializeArrayEnvelope | JsonSerializerWorker.cs:282-296 | The envelope holds the path, the type, the lower-bounds field, then the nest under `@@value@@` |
| Serializer.JsonSerializerWorker.SerializeArrayWalk | JsonSerializerWorker.cs:92-116 | Below given leading indices, the walk writes a nest with the remaining lengths; at full depth it is an internal error |
| Serializer.JsonSerializerWorker.SerializeArrayItem | JsonSerializerWorker.cs:100-113 | Each index gives a sub-nest of the remaining lengths, or an element under its own frame |
| Serializer.JsonSerializerWorker.SerializeChild | JsonSerializerWorker.cs:194-198 | A child that needs no walk is written as its own JSON at the current path extended by its fragment, with the expected type given, and with fuel to spare it succeeds. On success, the stack is restored |
| Serializer.JsonSerializerWorker.SerializeDictionary | JsonSerializerWorker.cs:299-366 | Writes one record per pair as a one-dimensional nest. The nest sits in an envelope when the type must be recorded or the comparer is not the default. The envelope's keys are path, type, an optional `comparer` holding the comparer's JSON, then value |
| Serializer.JsonSerializerWorker.SerializeDictionaryEnvelope | JsonSerializerWorker.cs:317-365 | The envelope holds path, type, the comparer's field when it is not the default one, then the nest of records |
| Serializer.JsonSerializerWorker.SerializeComparer | JsonSerializerWorker.cs:324-329 | A default comparer adds no field; any other comparer adds one `comparer` field holding its JSON at `.comparer` |
| Serializer.JsonSerializerWorker.DictionaryEnvelope | JsonSerializerWorker.cs:317-332 | Assembling path, type, comparer field and records gives the dictionary layout, with the comparer's JSON third |
| Serializer.JsonSerializerWorker.SerializeList | JsonSerializerWorker.cs:368-388 | Writes the items as a one-dimensional nest, in an envelope when the type must be recorded |
| Serializer.JsonSerializerWorker.SerializeBag | JsonSerializerWorker.cs:173-201 | Writes path and type, then one key per entry in order, each holding that entry's JSON at `.name` as an `object`. The keys are distinct, and a repeated entry name fails |
| Serializer.JsonSerializerWorker.SerializeMembers | JsonSerializerWorker.cs:234-264 | Every member name is a key, and under each name is the JSON of the first member of that name, written at `.name` with its declared type. With no reserved name, the keys are path, the optional type, then each name once in order of first occurrence |
| Serializer.JsonSerializerWorker.SerializeMemberFields | JsonSerializerWorker.cs:245-264 | The member loop keeps the written names, in first-occurrence order, as the keys after the head, each holding its first member's JSON |
| Serializer.JsonSerializerWorker.SerializeMember | JsonSerializerWorker.cs:246-263 | One turn of the member loop: a new name is written once, under its own frame, with that member's JSON; a name already written is skipped |
| Serializer.JsonSerializerWorker.MemberStep | JsonSerializerWorker.cs:257-262 | Writing the first member of a name keeps the JSON of every earlier first member under its name, and adds this one's |
| Serializer.JsonSerializerWorker.MemberSkip | JsonSerializerWorker.cs:257 | Skipping a later member of a taken name leaves the JSON of every first member in place |
| Serializer.JsonSerializerWorker.SelfMember | JsonSerializerWorker.cs:144-157 | A reference object holding itself in a member is written, under that member's name, as a back-reference from `path.name` to `path`: it is recorded before its members are walked |
| Serializer.Serialize | JsonFormatter.cs:90-93 | Serializing a null graph gives null, or its envelope when no type is expected |
| Deserializer.PayloadOf | JsonDeserializerWorker.cs:107-108 | The payload is never larger than the value, and strictly smaller when taken from `@@value@@` |
| Deserializer.ReaderType | JsonDeserializerWorker.cs:389 | Exactly strings, numbers and booleans have a reader type |
| Deserializer.PopulateOther | JsonDeserializerWorker.cs:255 | A member not chosen keeps its value |
| Deserializer.PopulateChosen | JsonDeserializerWorker.cs:255 | A chosen member gets its decoded value when no later entry chooses it again |
| Deserializer.EntryKept | JsonDeserializerWorker.cs:407-408 | A walk that changes only paths below the current one leaves the entry of every enclosing path alone |
| Deserializer.OutsideKept | JsonDeserializerWorker.cs:407-408 | Such a walk leaves every entry outside the current path as it was |
| Deserializer.JsonDeserializerWorker.constructor | JsonDeserializerWorker.cs:46-52 | A new worker has an empty heap, stack, registry and callback list |
| Deserializer.JsonDeserializerWorker.ObjectType | JsonDeserializerWorker.cs:85-105 | Without `@@type@@` the expected type is used; with one, a resolved tag always names a type |
| Deserializer.JsonDeserializerWorker.Push | JsonDeserializerWorker.cs:179 | Pushing a frame extends the path by its fragment and changes nothing else |
| Deserializer.JsonDeserializerWorker.Pop | JsonDeserializerWorker.cs:181 | Popping drops the top frame and changes nothing else |
| Deserializer.JsonDeserializerWorker.Allocate | JsonDeserializerWorker.cs:167-168 | A new object gets a fresh identity not in the heap, and no other object changes |
| Deserializer.JsonDeserializerWorker.SetStackValue | JsonDeserializerWorker.cs:398-410 | Commits the real object, queues it when it needs a callback, and records it under the current path unless it is a value-type instance |
| Deserializer.JsonDeserializerWorker.RecordedRegisters | JsonDeserializerWorker.cs:407-408 | Once a value is recorded at a path, it is what is registered there |
| Deserializer.JsonDeserializerWorker.AnchoredPush | JsonDeserializerWorker.cs:376 | An object registered at an enclosing path stays the anchor of every frame pushed below it |
| Deserializer.JsonDeserializerWorker.AnchoredKept | JsonDeserializerWorker.cs:378-381 | A child walk below the current path keeps the enclosing object registered at its path |
| Deserializer.JsonDeserializerWorker.CommitBefore | JsonDeserializerWorker.cs:169-170 | A reference object recorded before its children are read is what is registered at its path afterwards |
| Deserializer.JsonDeserializerWorker.CommitAfter | JsonDeserializerWorker.cs:202-203 | A value-type instance committed after its children leaves its path's entry as the children left it |
| Deserializer.JsonDeserializerWorker.Run | JsonDeserializerWorker.cs:59-74 | The root value is registered at `root` and every queued object is called back, in order. The result is what was committed for the root: a root that needs no walk (null, scalar, back-reference) is read as `LeafRead` says, and any other root is read by the branch its type selects (`WalkRead` at `root`). A root with no type is "cannot deduce" |
| Deserializer.JsonDeserializerWorker.InvokeCallbacks | JsonDeserializerWorker.cs:72-73 | Calls back every queued object, in the order queued |
| Deserializer.JsonDeserializerWorker.LeafReadKept | JsonDeserializerWorker.cs:121-143 | What a null, scalar or back-reference is read as does not change as more is registered and more objects are built |
| Deserializer.JsonDeserializerWorker.DeserializeValue | JsonDeserializerWorker.cs:76-259 | Whatever is read is registered at the current path, and children change only paths below it. The null, unresolvable-tag, "cannot deduce", scalar and back-reference outcomes are exact (`LeafRead`). Any other value is what the branch its type selects reads (`WalkRead`) |
| Deserializer.JsonDeserializerWorker.DeserializeWalked | JsonDeserializerWorker.cs:146-258 | Branches in the source's order (`ReadingOf`): dictionary, list, custom protocol, array, converter (a string payload with a converter from string), then members. The result is that branch's reading; a bag or member type read from a non-object, or a list or array type read from a non-array, is an error |
| Deserializer.JsonDeserializerWorker.ReadChild | JsonDeserializerWorker.cs:312-314 | A child read under its own non-empty fragment changes only paths strictly below the current one, and a child that needs no walk is read as `LeafRead` says |
| Deserializer.JsonDeserializerWorker.DeserializeElementary | JsonDeserializerWorker.cs:387-396 | A scalar already of the wanted type is committed as it is; otherwise `ChangeType`'s result, or a conversion failure |
| Deserializer.JsonDeserializerWorker.DeserializeReference | JsonDeserializerWorker.cs:129-144 | A back-reference commits what was registered at the path it names; an unknown path or a value type is an error |
| Deserializer.JsonDeserializerWorker.DeserializeBag | JsonDeserializerWorker.cs:160-205 | A non-object is an error, and so is a missing constructor. A reference object is allocated and registered at the path before its entries are read, and the entries are read against that registration. A value-type instance is not registered. Either way the object absorbs the entries read from every key except `@@info@@` and `@@type@@` (`BagValueRead`) |
| Deserializer.JsonDeserializerWorker.BagReadReference | JsonDeserializerWorker.cs:167-200 | A reference object that absorbed the entries read against its own registration is what the bag branch reads |
| Deserializer.JsonDeserializerWorker.BagReadInline | JsonDeserializerWorker.cs:185-203 | A value-type instance built from the entries read is what the bag branch reads |
| Deserializer.JsonDeserializerWorker.ReadBagEntries | JsonDeserializerWorker.cs:175-183 | Every key but the envelope's gives an entry of that name, in order. An entry whose JSON needs no walk holds what it is read as, as an `object` |
| Deserializer.JsonDeserializerWorker.EntriesAdd | JsonDeserializerWorker.cs:177-181 | A key other than `@@info@@` and `@@type@@` adds the entry read from its value |
| Deserializer.JsonDeserializerWorker.EntriesSkip | JsonDeserializerWorker.cs:177 | An envelope key adds no entry |
| Deserializer.JsonDeserializerWorker.EntriesReadTyped | JsonDeserializerWorker.cs:175-183 | Entries read stay read so while objects of the same types are built |
| Deserializer.JsonDeserializerWorker.DeserializeMembers | JsonDeserializerWorker.cs:222-258 | A non-object is an error. A reference object is allocated and registered at the path before its members are read, and the members are read against that registration. A value-type instance is not registered. The object has one value per member, as `MembersRead` states (`MembersValueRead`) |
| Deserializer.JsonDeserializerWorker.ReadMembers | JsonDeserializerWorker.cs:231-255 | A member whose JSON name is not a key keeps its zero value. A member whose name is a key holds what that key's JSON is read as with the member's declared type, whenever that JSON needs no walk |
| Deserializer.JsonDeserializerWorker.ChosenAdd | JsonDeserializerWorker.cs:237-253 | A member whose name is a key is chosen, and its decoded value is added at the same position |
| Deserializer.JsonDeserializerWorker.ChosenSkip | JsonDeserializerWorker.cs:237-239 | A member whose name is not a key is skipped |
| Deserializer.JsonDeserializerWorker.PopulateRead | JsonDeserializerWorker.cs:255 | Populating the zero-valued object with the chosen members and their values gives every member the value `MembersRead` states |
| Deserializer.JsonDeserializerWorker.MembersReadTyped | JsonDeserializerWorker.cs:233-255 | Members read stay read so while objects of the same types are built |
| Deserializer.JsonDeserializerWorker.DeserializeArray | JsonDeserializerWorker.cs:261-295 | A non-array is an error. The new array has the lengths read from the nesting for its rank and one lower bound per dimension. The bounds are 0 without `@@lower_bounds@@`, and the numbers it holds when they read as `int`s (`ArrayRead`) |
| Deserializer.JsonDeserializerWorker.ReadLowerBounds | JsonDeserializerWorker.cs:272-289 | One bound per dimension, all 0 without `@@lower_bounds@@`. When that key holds an array whose first items read as `int`s, the bounds are those `int`s (`GivenBounds`). A key that is not an array, or an array too short, is an error |
| Deserializer.JsonDeserializerWorker.ReadBoundItems | JsonDeserializerWorker.cs:281-287 | The loop stores in the bounds array, in order, the `int` each item is read as |
| Deserializer.JsonDeserializerWorker.ReadBound | JsonDeserializerWorker.cs:283-286 | A bound whose JSON needs no walk is the `int` it is read as |
| Deserializer.JsonDeserializerWorker.DeserializeArrayWalk | JsonDeserializerWorker.cs:364-385 | Requires the array to be registered at an enclosing path before the walk, and keeps it so. Walks every index of a dimension; the JSON must cover the remaining lengths; only the target array changes. At full depth it is an internal error |
| Deserializer.JsonDeserializerWorker.DeserializeArrayItem | JsonDeserializerWorker.cs:372-384 | Each index is either a sub-walk or an element decoded under its frame and stored in the array, with the array's registration kept |
| Deserializer.JsonDeserializerWorker.DeserializeList | JsonDeserializerWorker.cs:342-357 | A non-array is an error. The new list is the object allocated first. When the item array type is not an object reference (so the decoded array is not replaced), the list holds one item per JSON item |
| Deserializer.JsonDeserializerWorker.DeserializeDictionary | JsonDeserializerWorker.cs:297-340 | The new dictionary uses the default comparer when none is given. When the pair array type is not an object reference, it holds one pair per JSON record |
| Deserializer.JsonDeserializerWorker.CreateDictionary | JsonDeserializerWorker.cs:318-339 | The dictionary is a new object created with the comparer read. When the pair array type is not an object reference, it holds one pair per record |
| Deserializer.JsonDeserializerWorker.ReadComparer | JsonDeserializerWorker.cs:304-316 | No `comparer` key gives a null comparer |
| Deserializer.JsonDeserializerWorker.ReadContainerArray | JsonDeserializerWorker.cs:326-332 | Requires the container to be registered at the current path before its contents are read. The contents under `@@` are a one-dimensional array with one element per JSON item; a non-array is an error |
| Deserializer.JsonDeserializerWorker.ReadPairs | JsonDeserializerWorker.cs:334-339 | The pairs are read from the records in order, and reading fails exactly when some record is not a key/value record |
| Deserializer.JsonDeserializerWorker.ItemCount | JsonDeserializerWorker.cs:349-356 | A one-dimensional array read from a JSON array has one element per item |
| Deserializer.Deserialize | JsonFormatter.cs:69-73 | Decoding `null` gives null; a root with neither a tag nor an expected type cannot be decoded |
| RoundTrip.EnvelopeRead | JsonDeserializerWorker.cs:88-109 | The decoder reads an envelope's `@@type@@` as the tag written, and its payload as the value written |
| RoundTrip.ElementaryRoundTrip | JsonSerializerWorker.cs:390-421 | A scalar is written bare under its expected type, or in an envelope whose tag names its type again. It is read back as the same scalar of the same type: taken as it is when the reader types it so, and through `ChangeType` otherwise, when that conversion gives it back |
| RoundTrip.NullRoundTrip | JsonSerializerWorker.cs:125-129 | A null, bare or in an envelope, is read back as null |
| RoundTrip.ReferenceJsonRead | JsonSerializerWorker.cs:149-151 | A reference object carries no tag, is its own payload, and names under `@@reference@@` the path it points to |
| RoundTrip.ReferenceRoundTrip | JsonSerializerWorker.cs:145-154 | A reference object met again is read back as what the decoder registered at the path where it was first written |
| RoundTrip.MembersRoundTrip | JsonSerializerWorker.cs:234-264 | In an object the member branch writes and reads back, every first member of a name that was written as a leaf is read from that leaf's JSON. With the types shared, it comes back as the value written: a null as null, a scalar as itself (under the `ChangeType` hypothesis), a repeated reference as the object registered at its first path (`LeafReturn`). A later member of a taken name is read from the first one's JSON with its own declared type |
| RoundTrip.LeafReturnRead | JsonDeserializerWorker.cs:121-143 | A null, a scalar or a repeated reference that `LeafReturn` covers is written as a leaf, and the decoder reads that leaf as the value `LeafReturn` gives |
| RoundTrip.LaterMemberRead | JsonDeserializerWorker.cs:233-253 | A member whose name an earlier member took is read from that earlier member's JSON, with its own declared type |
| RoundTrip.SelfMemberRoundTrip | JsonDeserializerWorker.cs:227-252 | An object holding itself in a member is written with a back-reference to its own path. The decoder, which registers the object before reading its members, gives that member the very object it builds, so the cycle survives |
| RoundTrip.BagAfterEnvelope | JsonDeserializerWorker.cs:175-177 | Behind the envelope keys, the bag branch reads exactly the entry names written, with their values |
| RoundTrip.BagRoundTrip | JsonSerializerWorker.cs:173-201 | The entries written for a custom-protocol object are read back under the same names, in the same order. Every entry written as a leaf is read from that leaf's JSON, and comes back as the value written, as `LeafReturn` says |
| RoundTrip.LowerBoundsRoundTrip | JsonSerializerWorker.cs:269-289 | Non-zero lower bounds are written as `@@lower_bounds@@` and read back as the same bounds when `ChangeType` gives each number back as an `int`. Otherwise the key is absent and every bound was 0, which is what the decoder reads |
| RoundTrip.PairRecordRoundTrip | JsonSerializerWorker.cs:348-355 | Each `JsonKeyValue` record the encoder builds from a pair is taken apart by the decoder's `Add` loop into that pair |

## Left out

- **Text input and output.** The JSON text writer and reader (Newtonsoft's `JavaScriptObject` and `JavaScriptArray`) are not modelled. The walkers start from, and end at, a JSON tree.
- **Reflection and the .NET runtime.** These are parameters of the model: `FormatterServices`, `Activator`, `TypeDescriptor`, `TypeConverter`, `Convert.ChangeType`, surrogates, `GetObjectData` and `Type.GetType`. The model states what is done with their answers, not what the answers are.
- **`StreamingContext`.** The context is passed through by the source and is not modelled.
- **Callback effects.** `IDeserializationCallback.OnDeserialization` is a foreign call. `Run` returns the objects called back, in order, instead of running them.
- **`Dictionary.Add` and `List.AddRange`.** Duplicate keys are not detected, because `Add`'s throwing is a foreign effect. A dictionary keeps its pairs in order; a list keeps its items in order.
- **Exception kinds.** Failures the runtime would raise are model failures of their own, not .NET exception kinds:
  - a lower bound that does not decode to an `int` is `ConversionFailed` (the source would raise `InvalidCastException`);
  - a `@@lower_bounds@@` that is not an array, or is too short, is `InvalidLowerBounds` (the source would raise `NullReferenceException` or `IndexOutOfRangeException`).
- Deserializer.ReaderType, TypeModel.Scalar and Json.Num: floating-point elementary values are not modelled. `IsElementary` (JsonFormatter.cs:95-98) also admits `double` and `float`, and the JSON reader types a fractional number as `Double`, which `DeserializeElementary` (JsonDeserializerWorker.cs:387-395) keeps as it is. The model's numbers are whole numbers only, every number is read as the `long` type, and the reader's 64-bit range is not enforced, because `int` is unbounded.
- **Full-style identifiers.** Type tags in the full assembly style are written but not split back. Their assembly names contain commas, and the split lemmas cover only the simple style.
- **Custom-protocol objects.** The encoder takes the bag's type from the `SerializationInfo` (`bagType`). This stands for `Type.GetType(info.FullTypeName + ", " + info.AssemblyName)`; a name that does not resolve is not modelled.
- **White space in `Trim`.** `Strings.Trim` removes only space, tab, line feed and carriage return. .NET's `String.Trim` (JsonDeserializerWorker.cs:100) removes every Unicode white-space character, so an assembly name padded with any other white space is trimmed differently.
- **Culture in `IndexOf`.** `Strings.IndexOf` compares characters ordinally. The source's `IndexOf(string)` calls (JsonFormatter.cs:126 and 128; JsonDeserializerWorker.cs:99-100) use the current culture's comparison, which may treat some character sequences as equal that ordinal comparison does not.
- **`JsonKeyValue` records.** The encoder builds each record of a dictionary (JsonKeyValue.cs:10-14) as an inline value (`PairRecords`), not as a new heap object. So the model does not record the records in `processed`, although JsonSerializerWorker.cs:145-157 records each one at its path. Each record is new and held by nothing else, so its entry in `processed` is never consulted and the JSON written is the same. On the decoding side, records go through the general member branch, which commits each at `<path>@@[k]` when the record type is described as a reference type.
- PairRecordRoundTrip: relates the records the encoder builds to the pairs the decoder's `Add` loop takes from them. It does not follow the records through the JSON: the array branch's contract states the nest's shape, not each element's JSON (see the next line).
- Serializer.JsonSerializerWorker.SerializeValue: `fuel` bounds the recursion depth. Running out of fuel is a failure the source does not have (it would overflow its stack instead).
- Serializer.JsonSerializerWorker.SerializeArray: states the nest's shape, not the JSON of each element. The same holds for the list and dictionary branches, except for the dictionary's comparer.
- Serializer.JsonSerializerWorker.SerializeMembers: a member's JSON is stated when it needs no walk (a null, a scalar, a reference object already recorded). A member that is walked is stated to be under its name, not what is written for it.
- Serializer.JsonSerializerWorker.SerializeBag: as for members, an entry's JSON is stated when it needs no walk.
- Deserializer.JsonDeserializerWorker.DeserializeValue: the state after a failure is not described. Only successful returns carry the frame and registry guarantees.
- Deserializer.JsonDeserializerWorker.ReadMembers: a member's value is stated when its JSON needs no walk (a null, a scalar, a back-reference). A member that is walked is stated only to have been read.
- Deserializer.JsonDeserializerWorker.ReadBagEntries: as for members, an entry's value is stated when its JSON needs no walk.
- Deserializer.JsonDeserializerWorker.DeserializeArrayWalk: states which array changes and the JSON coverage, not the value of each cell. `GetAfterSet` and `GetAfterSetOther` state cell contents for one store.
- Deserializer.JsonDeserializerWorker.DeserializeDictionary: a comparer given in the JSON is stated only to be passed to the constructor, not to be honoured by later lookups.
- **The `@@` fragment.** The decoder pushes `"@@"` around list and dictionary contents, where the encoder pushes `""`. So paths below a list or a dictionary differ between the two walkers. The model keeps both as written, and `RoundTrip` does not relate references across them. This is a defect of the source, not of the model: an object met first as a list item (encoder path `root.l[0]`) and again in a later member is written as `@@reference@@ "root.l[0]"`, but the decoder registered that object at `root.l@@[0]`, so reading the reference fails as an invalid object reference. It is not a row under "## Findings" because the model has no corrected walker for it.
- **Round trips below one level.** `RoundTrip` follows a member or a bag entry that is a leaf. A member that is itself walked is related only through the registry (`SelfMemberRoundTrip`), not through its own contents.
- **The corrected array read.** The decoder uses `GetArrayLengthsForRank` with the declared rank, not `GetArrayLengths` as written (see Findings).
- **The corrected binder split.** The binder branch of `ResolveTypeTag` uses `SplitAtTopComma`, not the first-comma split as written (see Findings).

## Findings

| source | as written | input that shows it | evidently intended | confidence | as-written member | corrected member |
|---|---|---|---|---|---|---|
| JsonDeserializerWorker.cs:98-100 | With a binder, the type name is cut at the first comma of the `@@type@@` string | The simple-style tag `N.L`1[[I, a]], a` that `GetTypeName` writes for a generic type: the binder is asked for type `N.L`1[[I` in assembly `a]], a`. The array tag `System.Int32[,], mscorlib` breaks the same way (`FirstCommaSplitsArrayTag`) | Cut at the first comma outside brackets, so that the tags the encoder writes reach the binder as their type name and assembly | high (not executed) | TypeTags.FirstCommaSplitsGenericTag | TypeTags.SplitQualifiedSimple |
| JsonDeserializerWorker.cs:264, 421-435 | The rank of the array to create is the nesting depth of the JSON, found by following element 0 | A jagged `int[][]` holding `{1, 2}` and `{3}`, written as `[[1,2],[3]]`: the lengths read are `[2, 2]`, so a two-dimensional array is created for a rank-1 type | Follow exactly the declared rank of the array type | high (not executed) | Arrays.JaggedArrayMisread | Arrays.LengthsForRankOfShape |
