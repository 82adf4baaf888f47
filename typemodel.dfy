/** The runtime the walkers see through reflection, made explicit: type
    descriptors, the values of an object graph and the heap of reference
    objects, and the foreign code (converters, surrogates, binders) the
    walkers call into, as opaque functions. */
module TypeModel {
  import opened Wrappers
  import Json

  /** Runtime type identity (`Type` objects compare by reference). */
  type TypeId = nat
  /** Object identity (reference equality). */
  type ObjId = nat
  /** A surrogate returned by a surrogate selector. */
  type SurrogateId = nat

  /** `FormatterAssemblyStyle`. */
  datatype AssemblyStyle = Simple | Full

  /** What `Type` tells about its own name. */
  datatype TypeName = TypeName(
    namespace: string,
    name: string,
    fullName: string,
    assemblyName: string,      // `Assembly.GetName().Name`
    assemblyFullName: string,  // `Assembly.FullName`
    isGeneric: bool,
    genericArgs: seq<TypeName>)

  /** The two questions the walkers ask a `TypeConverter`. */
  datatype Converter = Converter(id: nat, canConvertToString: bool, canConvertFromString: bool)

  /** The container kinds the walkers recognise. For a dictionary, `pair` is
      `JsonKeyValue<K, V>` and `pairArray` is `JsonKeyValue<K, V>[]`; for a
      list of `T`, `item` is `T` and `itemArray` is `T[]`. */
  datatype Kind =
    | Plain
    | DictionaryOf(pair: TypeId, pairArray: TypeId)
    | ListOf(item: TypeId, itemArray: TypeId)
    | ArrayOf(elem: TypeId, rank: nat)

  /** A serializable data member with its declared type. */
  datatype Member = Member(name: string, declared: TypeId)

  datatype TypeDesc = TypeDesc(
    typeName: TypeName,
    isPrimitive: bool,
    isString: bool,
    isValueType: bool,
    isSerializable: bool,
    isISerializable: bool,         // implements `ISerializable`
    hasSerializationCtor: bool,    // has the `(SerializationInfo, StreamingContext)` constructor
    isObjectReference: bool,       // implements `IObjectReference`
    needsCallback: bool,           // implements `IDeserializationCallback`
    kind: Kind,
    defaultConverter: Converter,   // `TypeDescriptor.GetConverter(type)`
    members: seq<Member>)          // `FormatterServices.GetSerializableMembers(type)`

  /** The scalar payloads of elementary values. */
  datatype Scalar = SBool(b: bool) | SInt(i: int) | SStr(s: string)

  /** A value of the object graph. Reference objects live in the heap and
      are denoted by their identity; value-type instances are inline. */
  datatype Val =
    | VNull
    | VPrim(t: TypeId, x: Scalar)
    | VRef(id: ObjId)
    | VInline(t: TypeId, data: ObjData)
    | VDefault                        // the zero value of a member no one assigned

  datatype BagEntry = BagEntry(name: string, val: Val)
  datatype Pair = Pair(key: Val, value: Val)

  /** The names of the entries of a bag, in order. */
  function EntryNames(entries: seq<BagEntry>): (names: seq<string>)
    ensures |names| == |entries|
    ensures forall k :: 0 <= k < |entries| ==> names[k] == entries[k].name
  {
    seq(|entries|, k requires 0 <= k < |entries| => entries[k].name)
  }

  /** A rectangular multi-dimensional array, dimension by dimension. */
  datatype Grid = Cell(v: Val) | Row(items: seq<Grid>)

  /** The state of an object, by the classification that reads or writes it. */
  datatype ObjData =
    | Fields(values: seq<Val>)                       // one value per entry of `members`
    | Bag(bagType: TypeId, entries: seq<BagEntry>)   // the `SerializationInfo` of an `ISerializable`
    | ArrayData(lengths: seq<nat>, lowerBounds: seq<int>, grid: Grid)
    | ListItems(items: seq<Val>)
    | DictEntries(pairs: seq<Pair>, comparer: Val, defaultComparer: bool)

  datatype HeapObj = HeapObj(t: TypeId, data: ObjData)
  type Heap = map<ObjId, HeapObj>

  /** The foreign code the walkers call: conversions, surrogates, the
      `IObjectReference` hook and `Type.GetType`. Nothing is known about it. */
  datatype Foreign = Foreign(
    convertToString: (Converter, Val) -> string,
    convertFromString: (Converter, TypeId, string) -> Val,
    changeType: (Json.Value, TypeId) -> Option<Val>,
    getRealObject: Val -> Val,
    surrogateGetObjectData: (SurrogateId, Val) -> ObjData,
    surrogateSetObjectData: (SurrogateId, seq<BagEntry>) -> ObjData,
    typeGetType: string -> Option<TypeId>)

  /** The fixed types the walkers name directly. */
  datatype Builtins = Builtins(
    objectType: TypeId,   // `typeof(object)`
    intType: TypeId,      // `typeof(int)`, the type of lower bounds
    longType: TypeId,     // what the JSON reader yields for numbers
    boolType: TypeId,
    stringType: TypeId)

  /** `JsonFormatter.IsElementary`: primitive types and `string`. */
  predicate IsElementary(d: TypeDesc) {
    d.isPrimitive || d.isString
  }

  /** The runtime type of a non-null value (`value.GetType()`). */
  function RuntimeType(heap: Heap, v: Val): Option<TypeId> {
    match v
    case VPrim(t, _) => Some(t)
    case VInline(t, _) => Some(t)
    case VRef(id) => if id in heap then Some(heap[id].t) else None
    case _ => None
  }

  /** The state of a value of the graph: the heap object it denotes, or its
      inline data. */
  function DataOf(heap: Heap, v: Val): Option<ObjData> {
    match v
    case VRef(id) => if id in heap then Some(heap[id].data) else None
    case VInline(_, d) => Some(d)
    case _ => None
  }

  /** The JSON scalar an elementary value is written as. */
  function ScalarJson(x: Scalar): Json.Value {
    match x
    case SBool(b) => Json.Bool(b)
    case SInt(i) => Json.Num(i)
    case SStr(s) => Json.Str(s)
  }

  /* ---------- type identifiers ---------- */

  /** The type identifier written as `@@type@@`, in the given style: in the
      simple style a generic type lists its arguments, each in brackets and
      itself in the simple style. */
  function QualifiedName(tn: TypeName, style: AssemblyStyle): string
    decreases tn, 2, 0
  {
    match style
    case Full => tn.fullName + ", " + tn.assemblyFullName
    case Simple => SimpleHead(tn) + ", " + tn.assemblyName
  }

  /** The part of a simple-style identifier before the assembly name. */
  function SimpleHead(tn: TypeName): string
    decreases tn, 1, 0
  {
    if tn.isGeneric then tn.namespace + "." + tn.name + ("[" + SimpleArgs(tn, 0) + "]")
    else tn.fullName
  }

  /** The bracketed generic arguments from the `i`-th on, separated by `", "`. */
  function SimpleArgs(tn: TypeName, i: nat): string
    requires i <= |tn.genericArgs|
    decreases tn, 0, |tn.genericArgs| - i
  {
    if i == |tn.genericArgs| then ""
    else
      (if i == 0 then "" else ", ") + ("[" + QualifiedName(tn.genericArgs[i], Simple) + "]")
      + SimpleArgs(tn, i + 1)
  }
}
