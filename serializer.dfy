/** `JsonSerializerWorker`: walks an object graph depth-first and builds the
    JSON tree, writing each value into the frame on top of the path stack,
    recording the path of every reference object it enters and writing a
    `@@reference@@` object when it meets one again. */
module Serializer {
  import opened Wrappers
  import opened Strings
  import opened TypeModel
  import opened Paths
  import opened Arrays
  import Json
  import Formatter

  /* ---------- type identifiers ---------- */

  /** `GetTypeName`: the identifier written as `@@type@@`. */
  method GetTypeName(tn: TypeName, style: AssemblyStyle) returns (s: string)
    ensures s == QualifiedName(tn, style)
    decreases tn
  {
    if style == Full {
      return tn.fullName + ", " + tn.assemblyFullName;
    }
    if tn.isGeneric {
      var arguments := tn.genericArgs;
      var start := tn.namespace + "." + tn.name + "[";
      var typeName := start;
      for i := 0 to |arguments|
        invariant typeName + SimpleArgs(tn, i) == start + SimpleArgs(tn, 0)
      {
        var sep: string := if i != 0 then ", " else "";
        var arg := GetTypeName(arguments[i], style);
        var piece := "[" + arg + "]";
        assert SimpleArgs(tn, i) == sep + piece + SimpleArgs(tn, i + 1);
        AppendThree(typeName, sep, piece, SimpleArgs(tn, i + 1));
        if i != 0 {
          typeName := typeName + ", ";
        }
        typeName := typeName + piece;
      }
      assert SimpleArgs(tn, |arguments|) == "";
      assert typeName == start + SimpleArgs(tn, 0);
      CloseGeneric(tn.namespace + "." + tn.name, SimpleArgs(tn, 0), tn.assemblyName);
      typeName := typeName + "], " + tn.assemblyName;
      return typeName;
    }
    return tn.fullName + ", " + tn.assemblyName;
  }

  lemma AppendThree(a: string, b: string, c: string, d: string)
    ensures a + (b + c + d) == a + b + c + d
  {
  }

  lemma CloseGeneric(head: string, args: string, assembly: string)
    ensures head + "[" + args + "], " + assembly == head + ("[" + args + "]") + ", " + assembly
  {
  }

  /* ---------- the objects the walker writes ---------- */

  function InfoField(path: string): Json.Field {
    Json.Field(Json.InfoKey, Json.Str(path))
  }

  function TypeField(tag: string): Json.Field {
    Json.Field(Json.TypeKey, Json.Str(tag))
  }

  /** An envelope: the path and the type of a value, any extra fields, and
      the value itself under `@@value@@`. */
  function Envelope(path: string, tag: string, extras: seq<Json.Field>, inner: Json.Value): Json.Value {
    Json.Obj([InfoField(path), TypeField(tag)] + extras + [Json.Field(Json.ValueKey, inner)])
  }

  /** What `SerializeElementary` (and the converter branch) writes: the bare
      value, or an envelope when the type must be recorded. */
  function ElementaryJson(inner: Json.Value, needTypeInfo: bool, path: string, tag: string): Json.Value {
    if needTypeInfo then Envelope(path, tag, [], inner) else inner
  }

  /** The object written in place of a reference object met a second time. */
  function ReferenceJson(path: string, target: string): Json.Value {
    Json.Obj([InfoField(path), Json.Field(Json.ReferenceKey, Json.Str(target))])
  }

  /** The `@@lower_bounds@@` field, present only when some bound is not 0. */
  function LowerBoundsFields(lowerBounds: seq<int>): seq<Json.Field> {
    if HasNonZeroBound(lowerBounds) then
      [Json.Field(Json.LowerBoundsKey, Json.Arr(seq(|lowerBounds|, k requires 0 <= k < |lowerBounds| => Json.Num(lowerBounds[k]))))]
    else []
  }

  /* ---------- member names ---------- */

  /** No element occurs twice. */
  predicate Distinct(s: seq<string>) {
    forall i, j :: 0 <= i < j < |s| ==> s[i] != s[j]
  }

  /** The names in order of first occurrence, each once: the `alreadySerialized`
      list of the member loop. */
  function FirstOccurrences(names: seq<string>): seq<string>
    decreases |names|
  {
    if names == [] then []
    else
      var kept := FirstOccurrences(names[..|names| - 1]);
      if names[|names| - 1] in kept then kept else kept + [names[|names| - 1]]
  }

  /** The member loop keeps every name once and only names it was given. */
  lemma {:induction false} FirstOccurrencesSpec(names: seq<string>)
    ensures Distinct(FirstOccurrences(names))
    ensures forall n :: n in FirstOccurrences(names) <==> n in names
    decreases |names|
  {
    if names != [] {
      var init := names[..|names| - 1];
      FirstOccurrencesSpec(init);
      assert names == init + [names[|names| - 1]];
    }
  }

  /** One more name: kept when new, skipped when already kept, so the
      first occurrence wins. */
  lemma FirstOccurrencesStep(names: seq<string>, i: nat)
    requires i < |names|
    ensures FirstOccurrences(names[..i + 1]) ==
      if names[i] in FirstOccurrences(names[..i]) then FirstOccurrences(names[..i])
      else FirstOccurrences(names[..i]) + [names[i]]
  {
    assert names[..i + 1][..i] == names[..i];
  }

  /** Every key of `head` is one of the envelope keys. */
  predicate EnvelopeHead(head: seq<Json.Field>) {
    forall k :: 0 <= k < |head| ==> head[k].key == Json.InfoKey || head[k].key == Json.TypeKey
  }

  /** The member loop so far: every name written has a key in `fields`,
      and, when `clean`, the keys are those of `head` followed by the names
      written, with `head` itself unchanged at the front. */
  predicate MemberFieldsSoFar(head: seq<Json.Field>, fields: seq<Json.Field>, written: seq<string>, clean: bool) {
    (forall n :: n in written ==> n in Json.Keys(fields))
    && (clean ==> Json.Keys(fields) == Json.Keys(head) + written && fields[..|head|] == head)
  }

  /** A member name that is not reserved is not a key of an envelope head. */
  lemma NotInHead(head: seq<Json.Field>, names: seq<string>, i: nat)
    requires EnvelopeHead(head) && NoReservedName(names) && i < |names|
    ensures names[i] !in Json.Keys(head)
  {
  }

  /** Writing a name not yet written keeps the loop's invariant. */
  lemma AddMember(head: seq<Json.Field>, fields: seq<Json.Field>, already: seq<string>, name: string,
                  v: Json.Value, clean: bool)
    requires MemberFieldsSoFar(head, fields, already, clean)
    requires name !in already
    requires clean ==> name !in Json.Keys(head)
    ensures MemberFieldsSoFar(head, Json.Put(fields, name, v), already + [name], clean)
  {
    Json.PutKeys(fields, name, v);
    if clean {
      Json.PutFresh(fields, name, v);
      Json.KeysAppend(fields, [Json.Field(name, v)]);
    }
  }

  /** None of the names is one of the envelope keys. */
  predicate NoReservedName(names: seq<string>) {
    forall k :: 0 <= k < |names| ==> names[k] != Json.InfoKey && names[k] != Json.TypeKey
  }

  /** What the dictionary branch writes for `n` pairs: the array of the
      pair records, in an envelope carrying the path, the type and (when it
      is not the default one) the comparer when either must be recorded. */
  predicate DictionaryJson(js: Json.Value, n: nat, defaultComparer: bool, needTypeInfo: bool, path: string, tag: string) {
    if needTypeInfo || !defaultComparer then
      js.Obj? && |js.fields| >= 3
      && js.fields[..2] == [InfoField(path), TypeField(tag)]
      && Json.Keys(js.fields)[2..] == (if defaultComparer then [] else [Json.ComparerKey]) + [Json.ValueKey]
      && NestedShape(js.fields[|js.fields| - 1].val, [n])
    else NestedShape(js, [n])
  }

  /** What the list branch writes for `n` items: a JSON array of `n`
      elements, in an envelope when the type must be recorded. */
  predicate ListJson(js: Json.Value, n: nat, needTypeInfo: bool, path: string, tag: string) {
    if needTypeInfo then
      js.Obj? && |js.fields| == 3 && js == Envelope(path, tag, [], js.fields[2].val)
      && NestedShape(js.fields[2].val, [n])
    else NestedShape(js, [n])
  }

  /** What the array branch writes: nested JSON arrays of the array's
      lengths, in an envelope with the lower bounds when some bound is not
      0 or the type must be recorded. */
  predicate ArrayJson(js: Json.Value, data: ObjData, needTypeInfo: bool, path: string, tag: string)
    requires data.ArrayData?
  {
    if needTypeInfo || HasNonZeroBound(data.lowerBounds) then
      js.Obj? && js.fields != []
      && js == Envelope(path, tag, LowerBoundsFields(data.lowerBounds), js.fields[|js.fields| - 1].val)
      && NestedShape(js.fields[|js.fields| - 1].val, data.lengths)
    else NestedShape(js, data.lengths)
  }

  /** The branch `SerializeValue` takes for a value that is neither null,
      nor elementary, nor a reference object met before, in the order the
      walker tries them. */
  datatype Branch =
    | DictionaryBranch(pair: TypeId, pairArray: TypeId)
    | ListBranch(item: TypeId, itemArray: TypeId)
    | BagBranch(surrogate: Option<SurrogateId>)
    | NotSerializableBranch
    | ArrayBranch(elem: TypeId)
    | ConverterBranch(converter: Converter)
    | MembersBranch

  /** `m1` keeps every entry of `m0`. */
  predicate Grows(m0: map<ObjId, string>, m1: map<ObjId, string>) {
    forall o :: o in m0 ==> o in m1 && m1[o] == m0[o]
  }

  lemma GrowsTrans(m0: map<ObjId, string>, m1: map<ObjId, string>, m2: map<ObjId, string>)
    requires Grows(m0, m1) && Grows(m1, m2)
    ensures Grows(m0, m2)
  {
  }

  /** A one-dimensional array, lower bound 0, over the given values: what
      `ToArray` makes of a list or of the pairs of a dictionary. */
  function OneDimensional(vals: seq<Val>): (d: ObjData)
    ensures d.ArrayData? && d.lengths == [|vals|] && d.lowerBounds == [0] && Shaped(d.grid, d.lengths)
  {
    ArrayData([|vals|], [0], Row(seq(|vals|, k requires 0 <= k < |vals| => Cell(vals[k]))))
  }

  /** The `JsonKeyValue<K, V>` records built from a dictionary's pairs. */
  function PairRecords(pairType: TypeId, pairs: seq<Pair>): (recs: seq<Val>)
    ensures |recs| == |pairs|
  {
    seq(|pairs|, k requires 0 <= k < |pairs| => VInline(pairType, Fields([pairs[k].key, pairs[k].value])))
  }

  /* ---------- the worker ---------- */

  class JsonSerializerWorker {
    const settings: Formatter.Settings
    const types: TypeId -> TypeDesc
    const builtins: Builtins
    const heap: Heap
    const foreign: Foreign
    /** `stack_`, root frame first. */
    var stack: seq<StackEntry>
    /** `processedObjects_`: the path at which each reference object was first met. */
    var processed: map<ObjId, string>

    constructor (settings: Formatter.Settings, types: TypeId -> TypeDesc, builtins: Builtins, heap: Heap, foreign: Foreign)
      ensures this.settings == settings && this.types == types && this.builtins == builtins
      ensures this.heap == heap && this.foreign == foreign
      ensures stack == [] && processed == map[]
    {
      this.settings := settings;
      this.types := types;
      this.builtins := builtins;
      this.heap := heap;
      this.foreign := foreign;
      stack := [];
      processed := map[];
    }

    /** `stack_.Peek()`. */
    function Top(): StackEntry
      reads this
      requires stack != []
    {
      stack[|stack| - 1]
    }

    /** The path of the current position. */
    function Path(): string
      reads this
    {
      Concat(Fragments(stack))
    }

    /** The identifier of `t` in the configured style. */
    function TypeTag(t: TypeId): string {
      QualifiedName(types(t).typeName, settings.assemblyFormat)
    }

    /** What is written for a value that needs no walk: a null or an
        elementary value, in an envelope when its type must be recorded,
        or, for a reference object `seen` records, the back-reference to
        the path it was first met at. */
    function LeafJson(value: Val, expectedType: Option<TypeId>, path: string, seen: map<ObjId, string>): Option<Json.Value> {
      match value
      case VNull => Some(ElementaryJson(Json.Null, expectedType.None?, path, TypeTag(builtins.objectType)))
      case VPrim(t, x) =>
        if IsElementary(types(t)) then Some(ElementaryJson(ScalarJson(x), Some(t) != expectedType, path, TypeTag(t)))
        else None
      case VRef(id) =>
        if id in heap && !IsElementary(types(heap[id].t)) && !types(heap[id].t).isValueType && id in seen
        then Some(ReferenceJson(path, seen[id]))
        else None
      case _ => None
    }

    /** A value whose JSON is fixed stays so as more objects are met. */
    lemma LeafGrows(value: Val, expectedType: Option<TypeId>, path: string, m0: map<ObjId, string>, m1: map<ObjId, string>)
      requires Grows(m0, m1) && LeafJson(value, expectedType, path, m0).Some?
      ensures LeafJson(value, expectedType, path, m1) == LeafJson(value, expectedType, path, m0)
    {
    }

    /** A value the walker enters: not null, of a known type that is not
        elementary, and not a reference object `seen` records. */
    predicate Walked(value: Val, seen: map<ObjId, string>) {
      !value.VNull? && RuntimeType(heap, value).Some? && !IsElementary(types(RuntimeType(heap, value).value))
      && !(value.VRef? && !types(heap[value.id].t).isValueType && value.id in seen)
    }

    /** `seen` once a walked value is entered at `path`: a reference object
        is recorded there before anything below it is written. */
    function Enter(value: Val, seen: map<ObjId, string>, path: string): map<ObjId, string> {
      if value.VRef? && value.id in heap && !types(heap[value.id].t).isValueType then seen[value.id := path] else seen
    }

    /** The walker's records already name the current path for `value`
        when it is a reference object. */
    predicate Entered(value: Val)
      reads this
    {
      value.VRef? && value.id in heap && !types(heap[value.id].t).isValueType ==>
        value.id in processed && processed[value.id] == Path()
    }

    /** The branch taken for a walked value of type `t`. */
    function BranchOf(t: TypeId): Branch {
      var desc := types(t);
      match desc.kind
      case DictionaryOf(pair, pairArray) => DictionaryBranch(pair, pairArray)
      case ListOf(item, itemArray) => ListBranch(item, itemArray)
      case _ =>
        var surrogate := settings.GetSurrogate(t);
        if desc.isISerializable || surrogate.Some? then BagBranch(surrogate)
        else if !desc.isSerializable then NotSerializableBranch
        else if desc.kind.ArrayOf? then ArrayBranch(desc.kind.elem)
        else
          var converter := settings.GetTypeConverter(t, desc);
          if converter.canConvertToString && converter.canConvertFromString then ConverterBranch(converter)
          else MembersBranch
    }

    /** What the branch of `t` writes for `value` at `path`, once `seen`
        records the objects entered so far. */
    predicate BranchJson(js: Json.Value, value: Val, t: TypeId, needTypeInfo: bool, path: string, seen: map<ObjId, string>) {
      var data := DataOf(heap, value);
      match BranchOf(t)
      case DictionaryBranch(_, _) =>
        data.Some? && data.value.DictEntries?
        && DictionaryJson(js, |data.value.pairs|, data.value.defaultComparer, needTypeInfo, path, TypeTag(t))
        && ComparerWritten(js, data.value, path, seen)
      case ListBranch(_, _) =>
        data.Some? && data.value.ListItems? && ListJson(js, |data.value.items|, needTypeInfo, path, TypeTag(t))
      case BagBranch(surrogate) =>
        var bag := if surrogate.Some? then Some(foreign.surrogateGetObjectData(surrogate.value, value)) else data;
        bag.Some? && bag.value.Bag? && BagJson(js, bag.value.entries, path, TypeTag(bag.value.bagType), seen)
      case NotSerializableBranch => false
      case ArrayBranch(_) => data.Some? && data.value.ArrayData? && ArrayJson(js, data.value, needTypeInfo, path, TypeTag(t))
      case ConverterBranch(c) => js == ElementaryJson(Json.Str(foreign.convertToString(c, value)), needTypeInfo, path, TypeTag(t))
      case MembersBranch =>
        data.Some? && data.value.Fields?
        && MembersJson(js, types(t).members, data.value.values, needTypeInfo, path, TypeTag(t), seen)
    }

    /** A field value holds the JSON of `value` written at `path`, whenever
        that JSON needs no walk. */
    predicate WrittenAs(j: Json.Value, value: Val, expectedType: Option<TypeId>, path: string, seen: map<ObjId, string>) {
      LeafJson(value, expectedType, path, seen).Some? ==> j == LeafJson(value, expectedType, path, seen).value
    }

    /** Every member before the `i`-th whose name was not taken by an
        earlier member is found under its name with its own JSON. */
    predicate MembersWritten(fields: seq<Json.Field>, members: seq<Member>, values: seq<Val>, i: nat,
                             path: string, seen: map<ObjId, string>)
      requires i <= |members| == |values|
    {
      var names := Formatter.MemberNames(members);
      forall j :: 0 <= j < i && names[j] !in names[..j] ==> MemberWritten(fields, names[j], values[j], members[j].declared, path, seen)
    }

    /** The field named `name` holds the JSON of a member of that name. */
    predicate MemberWritten(fields: seq<Json.Field>, name: string, value: Val, declared: TypeId,
                            path: string, seen: map<ObjId, string>) {
      Json.Find(fields, name).Some?
      && WrittenAs(Json.Find(fields, name).value, value, Some(declared), path + MemberFragment(name), seen)
    }

    /** What the member branch writes: an object with a key for every
        member name, holding under each name the JSON of the first member
        of that name; when no name is reserved, its keys are `@@info@@`,
        then `@@type@@` when the type is recorded, then every name once,
        in order of first occurrence, and the first two carry the path and
        the type. */
    predicate MembersJson(js: Json.Value, members: seq<Member>, values: seq<Val>, needTypeInfo: bool,
                          path: string, tag: string, seen: map<ObjId, string>) {
      var names := Formatter.MemberNames(members);
      js.Obj? && |values| == |members|
      && (forall n :: n in names ==> n in Json.Keys(js.fields))
      && (NoReservedName(names) ==>
            Json.Keys(js.fields) == [Json.InfoKey] + (if needTypeInfo then [Json.TypeKey] else []) + FirstOccurrences(names)
            && js.fields[0] == InfoField(path)
            && (needTypeInfo ==> js.fields[1] == TypeField(tag)))
      && MembersWritten(js.fields, members, values, |members|, path, seen)
    }

    /** What the bag branch writes: the path, the bag's type, then one
        field per entry, in order, each holding that entry's JSON. */
    predicate BagJson(js: Json.Value, entries: seq<BagEntry>, path: string, tag: string, seen: map<ObjId, string>) {
      js.Obj?
      && Json.Keys(js.fields) == [Json.InfoKey, Json.TypeKey] + EntryNames(entries)
      && Distinct(Json.Keys(js.fields))
      && js.fields[..2] == [InfoField(path), TypeField(tag)]
      && forall k :: 0 <= k < |entries| ==>
           WrittenAs(js.fields[k + 2].val, entries[k].val, Some(builtins.objectType), path + MemberFragment(entries[k].name), seen)
    }

    /** `Run`: serializes the graph under the root frame and yields what was
        committed into it (writing it out as text is not modelled). */
    method Run(graph: Val, graphType: Option<TypeId>, fuel: nat) returns (r: Result<Json.Value>)
      requires stack == []
      modifies this
      ensures r.Ok? ==> stack == []
      ensures fuel > 0 && graph.VNull? ==>
        r == Ok(ElementaryJson(Json.Null, graphType.None?, RootFragment, TypeTag(builtins.objectType)))
      ensures fuel > 0 && graph.VPrim? && IsElementary(types(graph.t)) ==>
        r == Ok(ElementaryJson(ScalarJson(graph.x), Some(graph.t) != graphType, RootFragment, TypeTag(graph.t)))
      ensures fuel > 0 && LeafJson(graph, graphType, RootFragment, old(processed)).Some? ==>
        r == Ok(LeafJson(graph, graphType, RootFragment, old(processed)).value)
      ensures fuel > 0 && Walked(graph, old(processed)) ==>
        var t := RuntimeType(heap, graph).value;
        var seen := Enter(graph, old(processed), RootFragment);
        Grows(seen, processed)
        && (r.Ok? ==> BranchJson(r.value, graph, t, Some(t) != graphType, RootFragment, seen))
        && (BranchOf(t).NotSerializableBranch? ==> r == Err(NotSerializable(types(t).typeName.fullName)))
    {
      var root := new StackEntry(RootFragment);
      stack := [root];
      assert Path() == RootFragment by {
        assert Fragments(stack) == [RootFragment];
        assert Concat([RootFragment]) == RootFragment + Concat([]);
      }
      var o := SerializeValue(graph, graphType, fuel);
      if o.Fail? {
        return Err(o.error);
      }
      stack := stack[..|stack| - 1];
      r := Ok(root.value);
    }

    /** `SerializeValue`: dispatches on the runtime type of `value` and
        commits its JSON into the top frame. */
    method SerializeValue(value: Val, expectedType: Option<TypeId>, fuel: nat) returns (r: Outcome)
      requires stack != [] && !Top().valueSet
      modifies this, Top()
      ensures r.Pass? ==> stack == old(stack) && Top().valueSet
      ensures Grows(old(processed), processed)
      ensures fuel == 0 ==> r == Fail(DepthExhausted)
      ensures fuel > 0 && LeafJson(value, expectedType, old(Path()), old(processed)).Some? ==>
        r == Pass && processed == old(processed)
        && Top().value == LeafJson(value, expectedType, old(Path()), old(processed)).value
      ensures fuel > 0 && Walked(value, old(processed)) ==>
        var t := RuntimeType(heap, value).value;
        var seen := Enter(value, old(processed), old(Path()));
        Grows(seen, processed)
        && (r.Pass? ==> BranchJson(Top().value, value, t, Some(t) != expectedType, old(Path()), seen))
        && (BranchOf(t).NotSerializableBranch? ==> r == Fail(NotSerializable(types(t).typeName.fullName)))
        && (BranchOf(t).ConverterBranch? ==> r == Pass)
      decreases fuel, 5, 0
    {
      if fuel == 0 {
        return Fail(DepthExhausted);
      }
      if value.VNull? {
        r := SerializeElementary(Json.Null, builtins.objectType, expectedType.None?);
        return;
      }
      var rt := RuntimeType(heap, value);
      if rt.None? {
        return Fail(Malformed);
      }
      var objectType := rt.value;
      var desc := types(objectType);
      var needTypeInfo := Some(objectType) != expectedType;

      //elementary values
      if IsElementary(desc) {
        if !value.VPrim? {
          return Fail(Malformed);
        }
        r := SerializeElementary(ScalarJson(value.x), objectType, needTypeInfo);
        return;
      }

      r := SerializeObject(value, objectType, needTypeInfo, fuel);
    }

    /** `SerializeValue` for a value of a type that is not elementary: a
        reference object met before is written as a reference to the path it
        was first met at; otherwise it is recorded at the current path and
        walked. */
    method SerializeObject(value: Val, objectType: TypeId, needTypeInfo: bool, fuel: nat) returns (r: Outcome)
      requires RuntimeType(heap, value) == Some(objectType) && !IsElementary(types(objectType))
      requires stack != [] && !Top().valueSet && fuel > 0
      modifies this, Top()
      ensures r.Pass? ==> stack == old(stack) && Top().valueSet
      ensures Grows(old(processed), processed)
      ensures value.VRef? && !types(objectType).isValueType && value.id in old(processed) ==>
        r == Pass && processed == old(processed) && Top().value == ReferenceJson(old(Path()), old(processed)[value.id])
      ensures Walked(value, old(processed)) ==>
        var seen := Enter(value, old(processed), old(Path()));
        Grows(seen, processed)
        && (r.Pass? ==> BranchJson(Top().value, value, objectType, needTypeInfo, old(Path()), seen))
        && (BranchOf(objectType).NotSerializableBranch? ==> r == Fail(NotSerializable(types(objectType).typeName.fullName)))
        && (BranchOf(objectType).ConverterBranch? ==> r == Pass)
      decreases fuel, 4, 2
    {
      if !types(objectType).isValueType && value.VRef? {
        var path := GetPath(Fragments(stack));
        if value.id in processed {
          r := Top().SetValue(ReferenceJson(path, processed[value.id]));
          return;
        }
        processed := processed[value.id := path];
      }
      r := SerializeWalked(value, objectType, needTypeInfo, fuel);
    }

    /** The rest of `SerializeValue`, once a walked value is entered: the
        branch `BranchOf` picks for its type. */
    method SerializeWalked(value: Val, objectType: TypeId, needTypeInfo: bool, fuel: nat) returns (r: Outcome)
      requires RuntimeType(heap, value) == Some(objectType) && !IsElementary(types(objectType)) && Entered(value)
      requires stack != [] && !Top().valueSet && fuel > 0
      modifies this, Top()
      ensures r.Pass? ==> stack == old(stack) && Top().valueSet
      ensures Grows(old(processed), processed)
      ensures r.Pass? ==> BranchJson(Top().value, value, objectType, needTypeInfo, old(Path()), old(processed))
      ensures BranchOf(objectType).NotSerializableBranch? ==> r == Fail(NotSerializable(types(objectType).typeName.fullName))
      ensures BranchOf(objectType).ConverterBranch? ==> r == Pass
      decreases fuel, 4, 1
    {
      var data := DataOf(heap, value);
      match BranchOf(objectType) {
        case DictionaryBranch(pair, pairArray) =>
          if data.None? || !data.value.DictEntries? {
            r := Fail(Malformed);
          } else {
            r := SerializeDictionary(value, objectType, pair, pairArray, data.value, needTypeInfo, fuel);
          }
        case ListBranch(item, itemArray) =>
          if data.None? || !data.value.ListItems? {
            r := Fail(Malformed);
          } else {
            r := SerializeList(value, objectType, item, itemArray, data.value.items, needTypeInfo, fuel);
          }
        case BagBranch(surrogate) =>
          //ISerializable or surrogate: the entries of its SerializationInfo
          var bag := if surrogate.Some? then Some(foreign.surrogateGetObjectData(surrogate.value, value)) else data;
          if bag.None? || !bag.value.Bag? {
            r := Fail(Malformed);
          } else {
            r := SerializeBag(value, bag.value.bagType, bag.value.entries, fuel);
          }
        case NotSerializableBranch =>
          r := Fail(NotSerializable(types(objectType).typeName.fullName));
        case ArrayBranch(elem) =>
          if data.None? || !data.value.ArrayData? {
            r := Fail(Malformed);
          } else {
            r := SerializeArray(value, objectType, elem, data.value, needTypeInfo, fuel);
          }
        case ConverterBranch(converter) =>
          r := SerializeElementary(Json.Str(foreign.convertToString(converter, value)), objectType, needTypeInfo);
        case MembersBranch =>
          if data.None? || !data.value.Fields? || |data.value.values| != |types(objectType).members| {
            r := Fail(Malformed);
          } else {
            r := SerializeMembers(value, objectType, data.value.values, needTypeInfo, fuel);
          }
      }
    }

    /** `SerializeElementary`: the value itself, wrapped in an envelope with
        its path and type when the type must be recorded. */
    method SerializeElementary(inner: Json.Value, objType: TypeId, needTypeInfo: bool) returns (r: Outcome)
      requires stack != [] && !Top().valueSet
      modifies Top()
      ensures r == Pass && Top().valueSet
      ensures Top().value == ElementaryJson(inner, needTypeInfo, Path(), TypeTag(objType))
    {
      if needTypeInfo {
        var path := GetPath(Fragments(stack));
        var tag := GetTypeName(types(objType).typeName, settings.assemblyFormat);
        r := Top().SetValue(Envelope(path, tag, [], inner));
      } else {
        r := Top().SetValue(inner);
      }
    }

    /** `SerializeArray(object, Type, bool)`: the nested JSON arrays of the
        array, in an envelope carrying the lower bounds when some bound is
        not 0 or the type must be recorded. */
    method SerializeArray(value: Val, objectType: TypeId, elemType: TypeId, data: ObjData, needTypeInfo: bool, fuel: nat)
      returns (r: Outcome)
      requires data.ArrayData? && Entered(value)
      requires stack != [] && !Top().valueSet && fuel > 0
      modifies this, Top()
      ensures r.Pass? ==> stack == old(stack) && Top().valueSet
      ensures Grows(old(processed), processed)
      ensures r.Pass? ==> ArrayJson(Top().value, data, needTypeInfo, old(Path()), TypeTag(objectType))
      decreases fuel, 3, 1
    {
      if !Shaped(data.grid, data.lengths) || |data.lowerBounds| != |data.lengths| {
        return Fail(Malformed);
      }
      var needLowerBoundsInfo, lowerBoundsArray := LowerBoundsInfo(data.lowerBounds);
      if needTypeInfo || needLowerBoundsInfo {
        assert lowerBoundsArray == seq(|data.lowerBounds|, k requires 0 <= k < |data.lowerBounds| => Json.Num(data.lowerBounds[k]));
        var extras := if needLowerBoundsInfo then [Json.Field(Json.LowerBoundsKey, Json.Arr(lowerBoundsArray))] else [];
        r := SerializeArrayEnvelope(objectType, elemType, data, extras, fuel);
      } else {
        r := SerializeArrayWalk(elemType, data.lengths, data.lowerBounds, data.grid, [], fuel);
      }
    }

    /** The array's envelope: path, type, the lower bounds when some bound
        is not 0, then the nested arrays under `@@value@@`. */
    method SerializeArrayEnvelope(objectType: TypeId, elemType: TypeId, data: ObjData, extras: seq<Json.Field>, fuel: nat)
      returns (r: Outcome)
      requires data.ArrayData? && Shaped(data.grid, data.lengths) && |data.lowerBounds| == |data.lengths|
      requires extras == LowerBoundsFields(data.lowerBounds)
      requires stack != [] && !Top().valueSet && fuel > 0
      modifies this, Top()
      ensures r.Pass? ==> stack == old(stack) && Top().valueSet
      ensures Grows(old(processed), processed)
      ensures r.Pass? ==>
        var js := Top().value;
        js.Obj? && js.fields != []
        && js == Envelope(old(Path()), TypeTag(objectType), extras, js.fields[|js.fields| - 1].val)
        && NestedShape(js.fields[|js.fields| - 1].val, data.lengths)
      decreases fuel, 3, 0
    {
      var outer := Top();
      var path := GetPath(Fragments(stack));
      var tag := GetTypeName(types(objectType).typeName, settings.assemblyFormat);
      var e := new StackEntry("");
      stack := stack + [e];
      r := SerializeArrayWalk(elemType, data.lengths, data.lowerBounds, data.grid, [], fuel);
      if r.Pass? {
        assert data.lengths[0..] == data.lengths;
        ghost var inner := e.value;
        assert NestedShape(inner, data.lengths);
        stack := stack[..|stack| - 1];
        var js := Envelope(path, tag, extras, e.value);
        assert js.fields[|js.fields| - 1].val == inner;
        r := outer.SetValue(js);
      }
    }

    /** `SerializeArray(Array, List<int>)`: the JSON array of dimension
        `|indices|` below the given leading indices, elements in index order. */
    method SerializeArrayWalk(elemType: TypeId, lengths: seq<nat>, lowerBounds: seq<int>, grid: Grid,
                              indices: seq<int>, fuel: nat) returns (r: Outcome)
      requires Shaped(grid, lengths) && |lowerBounds| == |lengths| && |indices| <= |lengths|
      requires forall k :: 0 <= k < |indices| ==> lowerBounds[k] <= indices[k] < lowerBounds[k] + lengths[k]
      requires stack != [] && !Top().valueSet && fuel > 0
      modifies this, Top()
      ensures r.Pass? ==> stack == old(stack) && Top().valueSet
      ensures r.Pass? ==> |indices| < |lengths| && NestedShape(Top().value, lengths[|indices|..])
      ensures |indices| == |lengths| ==> r == Fail(InternalError)
      ensures Grows(old(processed), processed)
      decreases fuel, 2, 2 * (|lengths| - |indices|) + 1
    {
      if |indices| >= |lengths| {
        return Fail(InternalError);
      }
      var dim := |indices|;
      var lowerBound := lowerBounds[dim];
      var length := lengths[dim];
      var outer := Top();
      var items: seq<Json.Value> := [];
      for i := lowerBound to lowerBound + length
        invariant stack == old(stack) && Top() == outer && !outer.valueSet
        invariant |items| == i - lowerBound
        invariant forall k :: 0 <= k < |items| ==> NestedShape(items[k], lengths[dim + 1..])
        invariant Grows(old(processed), processed)
      {
        var item;
        r, item := SerializeArrayItem(elemType, lengths, lowerBounds, grid, indices + [i], fuel);
        if r.Fail? {
          return;
        }
        assert lengths[|indices + [i]|..] == lengths[dim + 1..];
        items := items + [item];
      }
      r := outer.SetValue(Json.Arr(items));
      assert lengths[dim..][1..] == lengths[dim + 1..];
    }

    /** One step of the walk, in a frame of its own for the last index: the
        sub-array below `indices`, or, at full depth, the element at
        `indices` serialized with the element type. */
    method SerializeArrayItem(elemType: TypeId, lengths: seq<nat>, lowerBounds: seq<int>, grid: Grid,
                              indices: seq<int>, fuel: nat) returns (r: Outcome, item: Json.Value)
      requires Shaped(grid, lengths) && |lowerBounds| == |lengths| && 0 < |indices| <= |lengths|
      requires forall k :: 0 <= k < |indices| ==> lowerBounds[k] <= indices[k] < lowerBounds[k] + lengths[k]
      requires stack != [] && fuel > 0
      modifies this
      ensures r.Pass? ==> stack == old(stack) && NestedShape(item, lengths[|indices|..])
      ensures Grows(old(processed), processed)
      decreases fuel, 2, 2 * (|lengths| - |indices|) + 2
    {
      var e := new StackEntry(IndexFragment(indices[|indices| - 1]));
      stack := stack + [e];
      if |indices| < |lengths| {
        r := SerializeArrayWalk(elemType, lengths, lowerBounds, grid, indices, fuel);
      } else {
        IndicesGiveOffsets(indices, lengths, lowerBounds);
        var element := GridGet(grid, lengths, Offsets(indices, lowerBounds));
        r := SerializeValue(element, Some(elemType), fuel - 1);
      }
      item := e.value;
      if r.Pass? {
        stack := stack[..|stack| - 1];
      }
    }

    /** A member, an entry or the comparer: serialized in a frame of its own
        that is popped again; yields what was committed into that frame. */
    method SerializeChild(fragment: string, value: Val, expectedType: Option<TypeId>, fuel: nat)
      returns (r: Outcome, child: Json.Value)
      requires fuel > 0
      modifies this
      ensures r.Pass? ==> stack == old(stack)
      ensures Grows(old(processed), processed)
      ensures r.Pass? && LeafJson(value, expectedType, old(Path()) + fragment, old(processed)).Some? ==>
        child == LeafJson(value, expectedType, old(Path()) + fragment, old(processed)).value
      ensures fuel > 1 && LeafJson(value, expectedType, old(Path()) + fragment, old(processed)).Some? ==> r == Pass
      decreases fuel, 1, 0
    {
      var e := new StackEntry(fragment);
      ConcatPush(Fragments(stack), fragment);
      assert Fragments(stack + [e]) == Fragments(stack) + [fragment];
      stack := stack + [e];
      r := SerializeValue(value, expectedType, fuel - 1);
      child := e.value;
      if r.Pass? {
        stack := stack[..|stack| - 1];
      }
    }

    /** `SerializeDictionary`: the pairs as an array of `JsonKeyValue`
        records, in an envelope (with the comparer when it is not the
        default one) when the type must be recorded. */
    method SerializeDictionary(value: Val, objectType: TypeId, pair: TypeId, pairArray: TypeId, data: ObjData,
                               needTypeInfo: bool, fuel: nat) returns (r: Outcome)
      requires data.DictEntries? && Entered(value)
      requires stack != [] && !Top().valueSet && fuel > 0
      modifies this, Top()
      ensures r.Pass? ==> stack == old(stack) && Top().valueSet
      ensures Grows(old(processed), processed)
      ensures r.Pass? ==>
        DictionaryJson(Top().value, |data.pairs|, data.defaultComparer, needTypeInfo, old(Path()), TypeTag(objectType))
        && ComparerWritten(Top().value, data, old(Path()), old(processed))
      decreases fuel, 4, 0
    {
      var pairsData := OneDimensional(PairRecords(pair, data.pairs));
      assert !HasNonZeroBound(pairsData.lowerBounds);
      if needTypeInfo || !data.defaultComparer {
        r := SerializeDictionaryEnvelope(objectType, pair, pairArray, data, pairsData, fuel);
      } else {
        r := SerializeArray(VInline(pairArray, pairsData), pairArray, pair, pairsData, false, fuel);
      }
    }

    /** The comparer, when it is not the default one, is written under
        `comparer` as a value of static type `object`. */
    predicate ComparerWritten(js: Json.Value, data: ObjData, path: string, seen: map<ObjId, string>)
      requires data.DictEntries?
    {
      !data.defaultComparer ==>
        js.Obj? && |js.fields| >= 3
        && WrittenAs(js.fields[2].val, data.comparer, Some(builtins.objectType), path + MemberFragment(Json.ComparerKey), seen)
    }

    /** The dictionary's envelope: path, type, the comparer when it is not
        the default one, then the pair records under `@@value@@`. */
    method SerializeDictionaryEnvelope(objectType: TypeId, pair: TypeId, pairArray: TypeId, data: ObjData,
                                       pairsData: ObjData, fuel: nat) returns (r: Outcome)
      requires data.DictEntries? && pairsData == OneDimensional(PairRecords(pair, data.pairs))
      requires stack != [] && !Top().valueSet && fuel > 0
      modifies this, Top()
      ensures r.Pass? ==> stack == old(stack) && Top().valueSet
      ensures Grows(old(processed), processed)
      ensures r.Pass? ==>
        DictionaryJson(Top().value, |data.pairs|, data.defaultComparer, true, old(Path()), TypeTag(objectType))
        && ComparerWritten(Top().value, data, old(Path()), old(processed))
      decreases fuel, 3, 2
    {
      var outer := Top();
      var path := GetPath(Fragments(stack));
      var tag := GetTypeName(types(objectType).typeName, settings.assemblyFormat);
      var extra;
      r, extra := SerializeComparer(data, fuel);
      if r.Pass? {
        var e := new StackEntry("");
        ghost var before := processed;
        stack := stack + [e];
        r := SerializeArray(VInline(pairArray, pairsData), pairArray, pair, pairsData, false, fuel);
        GrowsTrans(old(processed), before, processed);
        if r.Pass? {
          stack := stack[..|stack| - 1];
          var all := [InfoField(path), TypeField(tag)] + extra + [Json.Field(Json.ValueKey, e.value)];
          r := outer.SetValue(Json.Obj(all));
          DictionaryEnvelope(path, tag, extra, e.value, data, old(processed));
        }
      }
    }

    /** The `comparer` field of a dictionary's envelope: none for the
        default comparer, otherwise the comparer's JSON in a frame of its
        own. */
    method SerializeComparer(data: ObjData, fuel: nat) returns (r: Outcome, extra: seq<Json.Field>)
      requires data.DictEntries? && stack != [] && fuel > 0
      modifies this
      ensures r.Pass? ==> stack == old(stack)
      ensures Grows(old(processed), processed)
      ensures r.Pass? ==> ComparerField(extra, data, old(Path()), old(processed))
      decreases fuel, 2, 0
    {
      extra := [];
      r := Pass;
      if !data.defaultComparer {
        var comparer;
        r, comparer := SerializeChild(MemberFragment(Json.ComparerKey), data.comparer, Some(builtins.objectType), fuel);
        extra := [Json.Field(Json.ComparerKey, comparer)];
      }
    }

    /** The fields between the envelope head and `@@value@@`. */
    predicate ComparerField(extra: seq<Json.Field>, data: ObjData, path: string, seen: map<ObjId, string>)
      requires data.DictEntries?
    {
      if data.defaultComparer then extra == []
      else
        |extra| == 1 && extra[0].key == Json.ComparerKey
        && WrittenAs(extra[0].val, data.comparer, Some(builtins.objectType), path + MemberFragment(Json.ComparerKey), seen)
    }

    lemma DictionaryEnvelope(path: string, tag: string, extra: seq<Json.Field>, inner: Json.Value,
                             data: ObjData, seen: map<ObjId, string>)
      requires data.DictEntries? && ComparerField(extra, data, path, seen) && NestedShape(inner, [|data.pairs|])
      ensures var js := Json.Obj([InfoField(path), TypeField(tag)] + extra + [Json.Field(Json.ValueKey, inner)]);
        DictionaryJson(js, |data.pairs|, data.defaultComparer, true, path, tag)
        && ComparerWritten(js, data, path, seen)
    {
      var all := [InfoField(path), TypeField(tag)] + extra + [Json.Field(Json.ValueKey, inner)];
      assert Json.Keys(all)[2..] == (if data.defaultComparer then [] else [Json.ComparerKey]) + [Json.ValueKey];
    }

    /** `SerializeList`: the items as a one-dimensional array, in an
        envelope when the type must be recorded. */
    method SerializeList(value: Val, objectType: TypeId, item: TypeId, itemArray: TypeId, items: seq<Val>,
                         needTypeInfo: bool, fuel: nat) returns (r: Outcome)
      requires stack != [] && !Top().valueSet && fuel > 0 && Entered(value)
      modifies this, Top()
      ensures r.Pass? ==> stack == old(stack) && Top().valueSet
      ensures Grows(old(processed), processed)
      ensures r.Pass? ==> ListJson(Top().value, |items|, needTypeInfo, old(Path()), TypeTag(objectType))
      decreases fuel, 4, 0
    {
      var asArray := OneDimensional(items);
      assert !HasNonZeroBound(asArray.lowerBounds);
      if needTypeInfo {
        var outer := Top();
        var path := GetPath(Fragments(stack));
        var tag := GetTypeName(types(objectType).typeName, settings.assemblyFormat);
        var e := new StackEntry("");
        stack := stack + [e];
        r := SerializeArray(VInline(itemArray, asArray), itemArray, item, asArray, false, fuel);
        if r.Fail? {
          return;
        }
        stack := stack[..|stack| - 1];
        r := outer.SetValue(Envelope(path, tag, [], e.value));
      } else {
        r := SerializeArray(VInline(itemArray, asArray), itemArray, item, asArray, false, fuel);
      }
    }

    /** The `ISerializable` / surrogate branch: the path, the type the
        `SerializationInfo` names, then one field per entry; an entry whose
        name is already a key of the object is an error. */
    method SerializeBag(value: Val, bagType: TypeId, entries: seq<BagEntry>, fuel: nat) returns (r: Outcome)
      requires stack != [] && !Top().valueSet && fuel > 0 && Entered(value)
      modifies this, Top()
      ensures r.Pass? ==> stack == old(stack) && Top().valueSet
      ensures Grows(old(processed), processed)
      ensures r.Pass? ==> BagJson(Top().value, entries, old(Path()), TypeTag(bagType), old(processed))
      decreases fuel, 4, 0
    {
      var outer := Top();
      var path := GetPath(Fragments(stack));
      var tag := GetTypeName(types(bagType).typeName, settings.assemblyFormat);
      var fields := [InfoField(path), TypeField(tag)];
      ghost var names := EntryNames(entries);
      ghost var seen := processed;
      for i := 0 to |entries|
        invariant stack == old(stack) && Top() == outer && !outer.valueSet
        invariant |fields| == i + 2 && fields[..2] == [InfoField(path), TypeField(tag)]
        invariant Json.Keys(fields) == [Json.InfoKey, Json.TypeKey] + names[..i]
        invariant Distinct(Json.Keys(fields))
        invariant Grows(seen, processed)
        invariant forall k :: 0 <= k < i ==>
          WrittenAs(fields[k + 2].val, entries[k].val, Some(builtins.objectType), path + MemberFragment(entries[k].name), seen)
      {
        var name := entries[i].name;
        if name in Json.Keys(fields) {
          return Fail(DuplicateBagKey(name));
        }
        var v;
        ghost var before := processed;
        r, v := SerializeChild(MemberFragment(name), entries[i].val, Some(builtins.objectType), fuel);
        if r.Fail? {
          return;
        }
        if LeafJson(entries[i].val, Some(builtins.objectType), path + MemberFragment(name), seen).Some? {
          LeafGrows(entries[i].val, Some(builtins.objectType), path + MemberFragment(name), seen, before);
        }
        Json.PutFresh(fields, name, v);
        Json.KeysAppend(fields, [Json.Field(name, v)]);
        fields := Json.Put(fields, name, v);
        assert names[..i + 1] == names[..i] + [name];
      }
      assert names[..|entries|] == names;
      r := outer.SetValue(Json.Obj(fields));
    }

    /** The member branch: the path, the type when it must be recorded, then
        one field per serializable member, a member whose JSON name was
        already written being skipped. */
    method SerializeMembers(value: Val, objectType: TypeId, values: seq<Val>, needTypeInfo: bool, fuel: nat)
      returns (r: Outcome)
      requires |values| == |types(objectType).members|
      requires stack != [] && !Top().valueSet && fuel > 0 && Entered(value)
      modifies this, Top()
      ensures r.Pass? ==> stack == old(stack) && Top().valueSet
      ensures Grows(old(processed), processed)
      ensures r.Pass? ==>
        MembersJson(Top().value, types(objectType).members, values, needTypeInfo, old(Path()), TypeTag(objectType), old(processed))
      decreases fuel, 4, 0
    {
      var outer := Top();
      var path := GetPath(Fragments(stack));
      var tag := GetTypeName(types(objectType).typeName, settings.assemblyFormat);
      var head := [InfoField(path)] + (if needTypeInfo then [TypeField(tag)] else []);
      assert Json.Keys(head) == [Json.InfoKey] + (if needTypeInfo then [Json.TypeKey] else []);
      assert EnvelopeHead(head);
      var fields;
      r, fields := SerializeMemberFields(types(objectType).members, values, head, fuel);
      if r.Fail? {
        return;
      }
      ghost var names := Formatter.MemberNames(types(objectType).members);
      FirstOccurrencesSpec(names);
      if NoReservedName(names) {
        assert fields[..|head|] == head;
        assert fields[0] == head[0] && (needTypeInfo ==> fields[1] == head[1]);
      }
      r := outer.SetValue(Json.Obj(fields));
    }

    /** The loop over the members: `head` extended with one field per
        member name not written before, holding the JSON of the first member
        of that name. */
    method SerializeMemberFields(members: seq<Member>, values: seq<Val>, head: seq<Json.Field>, fuel: nat)
      returns (r: Outcome, fields: seq<Json.Field>)
      requires |values| == |members|
      requires stack != [] && fuel > 0
      modifies this
      ensures r.Pass? ==> stack == old(stack)
      ensures Grows(old(processed), processed)
      ensures r.Pass? ==> MemberFieldsSoFar(head, fields, FirstOccurrences(Formatter.MemberNames(members)),
                                            NoReservedName(Formatter.MemberNames(members)) && EnvelopeHead(head))
      ensures r.Pass? ==> MembersWritten(fields, members, values, |members|, old(Path()), old(processed))
      decreases fuel, 3, 0
    {
      ghost var names := Formatter.MemberNames(members);
      ghost var clean := NoReservedName(names) && EnvelopeHead(head);
      ghost var path, seen := Path(), processed;
      fields := head;
      var alreadySerialized: seq<string> := [];
      for i := 0 to |members|
        invariant stack == old(stack) && Grows(seen, processed)
        invariant alreadySerialized == FirstOccurrences(names[..i])
        invariant MemberFieldsSoFar(head, fields, alreadySerialized, clean)
        invariant MembersWritten(fields, members, values, i, path, seen)
      {
        r, fields, alreadySerialized := SerializeMember(members, values, i, head, fields, alreadySerialized, seen, fuel);
        if r.Fail? {
          return;
        }
      }
      assert names[..|members|] == names;
      r := Pass;
    }

    /** One turn of the member loop: the `i`-th member is written under its
        name unless a member of that name was written before. */
    method SerializeMember(members: seq<Member>, values: seq<Val>, i: nat, head: seq<Json.Field>,
                           fields: seq<Json.Field>, alreadySerialized: seq<string>, ghost seen: map<ObjId, string>, fuel: nat)
      returns (r: Outcome, fields': seq<Json.Field>, alreadySerialized': seq<string>)
      requires i < |values| == |members|
      requires stack != [] && fuel > 0 && Grows(seen, processed)
      requires alreadySerialized == FirstOccurrences(Formatter.MemberNames(members)[..i])
      requires MemberFieldsSoFar(head, fields, alreadySerialized, NoReservedName(Formatter.MemberNames(members)) && EnvelopeHead(head))
      requires MembersWritten(fields, members, values, i, Path(), seen)
      modifies this
      ensures Grows(seen, processed)
      ensures r.Pass? ==> stack == old(stack)
      ensures r.Pass? ==> alreadySerialized' == FirstOccurrences(Formatter.MemberNames(members)[..i + 1])
      ensures r.Pass? ==> MemberFieldsSoFar(head, fields', alreadySerialized',
                                            NoReservedName(Formatter.MemberNames(members)) && EnvelopeHead(head))
      ensures r.Pass? ==> MembersWritten(fields', members, values, i + 1, old(Path()), seen)
      decreases fuel, 2, 0
    {
      ghost var names := Formatter.MemberNames(members);
      ghost var clean := NoReservedName(names) && EnvelopeHead(head);
      ghost var path := Path();
      var memberName := Formatter.NormalizeMemberName(members[i].name);
      Formatter.MemberNamesAt(members, i);
      FirstOccurrencesStep(names, i);
      fields', alreadySerialized' := fields, alreadySerialized;
      if memberName !in alreadySerialized {
        var v;
        ghost var before := processed;
        r, v := SerializeChild(MemberFragment(memberName), values[i], Some(members[i].declared), fuel);
        GrowsTrans(seen, before, processed);
        if r.Pass? {
          if LeafJson(values[i], Some(members[i].declared), path + MemberFragment(memberName), seen).Some? {
            LeafGrows(values[i], Some(members[i].declared), path + MemberFragment(memberName), seen, before);
          }
          if clean {
            NotInHead(head, names, i);
          }
          AddMember(head, fields, alreadySerialized, memberName, v, clean);
          FirstOccurrencesSpec(names[..i]);
          MemberStep(fields, members, values, i, path, seen, v);
          fields' := Json.Put(fields, memberName, v);
          alreadySerialized' := alreadySerialized + [memberName];
        }
      } else {
        MemberSkip(fields, members, values, i, path, seen);
        r := Pass;
      }
    }

    /** Writing the first member of a name keeps every earlier first member
        where it was and adds this one. */
    lemma MemberStep(fields: seq<Json.Field>, members: seq<Member>, values: seq<Val>, i: nat,
                     path: string, seen: map<ObjId, string>, v: Json.Value)
      requires i < |members| == |values|
      requires MembersWritten(fields, members, values, i, path, seen)
      requires Formatter.MemberNames(members)[i] !in Formatter.MemberNames(members)[..i]
      requires WrittenAs(v, values[i], Some(members[i].declared), path + MemberFragment(Formatter.MemberNames(members)[i]), seen)
      ensures MembersWritten(Json.Put(fields, Formatter.MemberNames(members)[i], v), members, values, i + 1, path, seen)
    {
      var names := Formatter.MemberNames(members);
      var after := Json.Put(fields, names[i], v);
      Json.PutFind(fields, names[i], v);
      forall j | 0 <= j < i + 1 && names[j] !in names[..j]
        ensures MemberWritten(after, names[j], values[j], members[j].declared, path, seen)
      {
        if j < i {
          assert names[j] in names[..i];
          Json.PutOther(fields, names[i], v, names[j]);
          assert MemberWritten(fields, names[j], values[j], members[j].declared, path, seen);
        }
      }
    }

    /** A member whose name was written before adds nothing. */
    lemma MemberSkip(fields: seq<Json.Field>, members: seq<Member>, values: seq<Val>, i: nat,
                     path: string, seen: map<ObjId, string>)
      requires i < |members| == |values|
      requires MembersWritten(fields, members, values, i, path, seen)
      requires Formatter.MemberNames(members)[i] in FirstOccurrences(Formatter.MemberNames(members)[..i])
      ensures MembersWritten(fields, members, values, i + 1, path, seen)
    {
      var names := Formatter.MemberNames(members);
      FirstOccurrencesSpec(names[..i]);
      assert names[i] in names[..i];
      forall j | 0 <= j < i + 1 && names[j] !in names[..j]
        ensures MemberWritten(fields, names[j], values[j], members[j].declared, path, seen)
      {
        assert j != i;
      }
    }

    /** A reference object that holds itself in a member is written, under
        that member's JSON name, as a back-reference from the member's path
        to the object's own path: the object is recorded before its members
        are walked. */
    lemma SelfMember(js: Json.Value, id: ObjId, needTypeInfo: bool, path: string, seen: map<ObjId, string>, k: nat)
      requires id in heap && !types(heap[id].t).isValueType && !IsElementary(types(heap[id].t))
      requires BranchOf(heap[id].t).MembersBranch? && heap[id].data.Fields?
      requires k < |heap[id].data.values| && heap[id].data.values[k] == VRef(id)
      requires BranchJson(js, VRef(id), heap[id].t, needTypeInfo, path, Enter(VRef(id), seen, path))
      requires var names := Formatter.MemberNames(types(heap[id].t).members); k < |names| && names[k] !in names[..k]
      ensures var name := Formatter.MemberNames(types(heap[id].t).members)[k];
        Json.Find(js.fields, name) == Some(ReferenceJson(path + "." + name, path))
    {
      var t := heap[id].t;
      var members := types(t).members;
      var values := heap[id].data.values;
      var names := Formatter.MemberNames(members);
      var entered := seen[id := path];
      assert Enter(VRef(id), seen, path) == entered;
      assert MembersJson(js, members, values, needTypeInfo, path, TypeTag(t), entered);
      assert MembersWritten(js.fields, members, values, |members|, path, entered);
      assert MemberWritten(js.fields, names[k], values[k], members[k].declared, path, entered);
      BackReference(id, Some(members[k].declared), path + MemberFragment(names[k]), entered);
      assert path + MemberFragment(names[k]) == path + "." + names[k];
    }

    /** A reference object `seen` records is written as a back-reference to
        the path recorded for it, whatever type was expected. */
    lemma BackReference(id: ObjId, expectedType: Option<TypeId>, path: string, seen: map<ObjId, string>)
      requires id in heap && !types(heap[id].t).isValueType && !IsElementary(types(heap[id].t)) && id in seen
      ensures LeafJson(VRef(id), expectedType, path, seen) == Some(ReferenceJson(path, seen[id]))
    {
    }
  }

  /** `JsonFormatter.Serialize(writer, graph, expectedType)`: a worker over
      the formatter's current settings, run on the graph. */
  method Serialize(formatter: Formatter.JsonFormatter, types: TypeId -> TypeDesc, builtins: Builtins,
                   heap: Heap, foreign: Foreign, graph: Val, expectedType: Option<TypeId>, fuel: nat)
    returns (r: Result<Json.Value>)
    ensures fuel > 0 && graph.VNull? ==>
      r == Ok(ElementaryJson(Json.Null, expectedType.None?, RootFragment,
                             QualifiedName(types(builtins.objectType).typeName, formatter.assemblyFormat)))
  {
    var worker := new JsonSerializerWorker(formatter.Snapshot(), types, builtins, heap, foreign);
    r := worker.Run(graph, expectedType, fuel);
  }
}
