/** `JsonDeserializerWorker`: walks a JSON tree guided by the expected types
    and builds the object graph. Each value is committed into the frame on
    top of the path stack; every committed null or reference object is
    recorded under its path so that a later `@@reference@@` object can be
    linked back to it; objects that asked for a deserialization callback are
    collected and called back at the end. */
module Deserializer {
  import opened Wrappers
  import opened TypeModel
  import opened Paths
  import opened Arrays
  import opened TypeTags
  import Json
  import Formatter

  /* ---------- reading the envelope ---------- */

  /** The `@@type@@` of a JSON value, if it is an object that has one. */
  function TagOf(js: Json.Value): Option<Json.Value> {
    if js.Obj? then Json.Find(js.fields, Json.TypeKey) else None
  }

  /** The payload of a JSON value: the `@@value@@` of an object that has
      one, and the value itself otherwise. */
  function PayloadOf(js: Json.Value): (p: Json.Value)
    ensures Json.Size(p) <= Json.Size(js)
    ensures js.Obj? && Json.Find(js.fields, Json.ValueKey).Some? ==> Json.Size(p) < Json.Size(js)
  {
    if js.Obj? && Json.Find(js.fields, Json.ValueKey).Some? then
      Json.FoundSmaller(js.fields, Json.ValueKey);
      Json.Find(js.fields, Json.ValueKey).value
    else js
  }

  /** The type the JSON reader gives a scalar: strings, 64-bit integers
      and booleans. */
  function ReaderType(b: Builtins, js: Json.Value): (t: Option<TypeId>)
    ensures t.Some? <==> js.Str? || js.Num? || js.Bool?
  {
    match js
    case Str(_) => Some(b.stringType)
    case Num(_) => Some(b.longType)
    case Bool(_) => Some(b.boolType)
    case _ => None
  }

  /** The payload of a JSON scalar. */
  function ReaderScalar(js: Json.Value): Scalar
    requires js.Str? || js.Num? || js.Bool?
  {
    match js
    case Str(s) => SStr(s)
    case Num(n) => SInt(n)
    case Bool(b) => SBool(b)
  }

  /** The path a `@@reference@@` names; a non-string reads as the empty path. */
  function ReferencePath(reference: Json.Value): string {
    if reference.Str? then reference.s else ""
  }

  /** The keys of an object the bag branch reads, in order: all but
      `@@info@@` and `@@type@@`. */
  function BagKeys(fs: seq<Json.Field>): seq<string>
    decreases |fs|
  {
    if fs == [] then []
    else
      var key := fs[|fs| - 1].key;
      var rest := BagKeys(fs[..|fs| - 1]);
      if key == Json.InfoKey || key == Json.TypeKey then rest else rest + [key]
  }

  /** The values under the keys `BagKeys` lists, in the same order. */
  function BagValues(fs: seq<Json.Field>): (vs: seq<Json.Value>)
    ensures |vs| == |BagKeys(fs)|
    decreases |fs|
  {
    if fs == [] then []
    else
      var key := fs[|fs| - 1].key;
      var rest := BagValues(fs[..|fs| - 1]);
      if key == Json.InfoKey || key == Json.TypeKey then rest else rest + [fs[|fs| - 1].val]
  }

  /** The key and the value of a `JsonKeyValue<K, V>` record. */
  function RecordPair(heap: Heap, record: Val): Option<Pair> {
    match DataOf(heap, record)
    case Some(Fields(values)) => if |values| == 2 then Some(Pair(values[0], values[1])) else None
    case _ => None
  }

  /** `PopulateObjectMembers`: the `k`-th chosen member gets the `k`-th
      decoded value. */
  function Populate(values: seq<Val>, chosen: seq<nat>, objects: seq<Val>): (r: seq<Val>)
    requires |chosen| == |objects|
    requires forall k :: 0 <= k < |chosen| ==> chosen[k] < |values|
    ensures |r| == |values|
    decreases |chosen|
  {
    if chosen == [] then values
    else Populate(values[chosen[0] := objects[0]], chosen[1..], objects[1..])
  }

  /** A member that was not chosen keeps its value. */
  lemma {:induction false} PopulateOther(values: seq<Val>, chosen: seq<nat>, objects: seq<Val>, i: nat)
    requires |chosen| == |objects|
    requires forall k :: 0 <= k < |chosen| ==> chosen[k] < |values|
    requires i < |values| && i !in chosen
    ensures Populate(values, chosen, objects)[i] == values[i]
    decreases |chosen|
  {
    if chosen != [] {
      assert chosen[0] != i;
      assert forall k :: 0 <= k < |chosen| - 1 ==> chosen[1..][k] == chosen[k + 1];
      PopulateOther(values[chosen[0] := objects[0]], chosen[1..], objects[1..], i);
    }
  }

  /** A chosen member gets its decoded value when no later entry chooses it again. */
  lemma {:induction false} PopulateChosen(values: seq<Val>, chosen: seq<nat>, objects: seq<Val>, k: nat)
    requires |chosen| == |objects|
    requires forall j :: 0 <= j < |chosen| ==> chosen[j] < |values|
    requires k < |chosen| && chosen[k] !in chosen[k + 1..]
    ensures Populate(values, chosen, objects)[chosen[k]] == objects[k]
    decreases |chosen|
  {
    var values' := values[chosen[0] := objects[0]];
    if k == 0 {
      PopulateOther(values', chosen[1..], objects[1..], chosen[0]);
    } else {
      assert chosen[1..][k - 1..] == chosen[k..];
      assert chosen[1..][k - 1 + 1..] == chosen[k + 1..];
      PopulateChosen(values', chosen[1..], objects[1..], k - 1);
    }
  }

  /* ---------- how the walk changes the registry ---------- */

  /** `p` is `base` or lies below it. */
  predicate Below(base: string, p: string) {
    |base| <= |p| && p[..|base|] == base
  }

  /** Every path of `m0` stays registered, and every entry that is new or
      changed lies at or below `base`. */
  predicate ChangedBelow(m0: map<string, Val>, m1: map<string, Val>, base: string) {
    (forall p :: p in m0 ==> p in m1)
    && (forall p :: p in m1 && (p !in m0 || m1[p] != m0[p]) ==> Below(base, p))
  }

  /** The entry at `p` is the same in both maps (or absent from both). */
  predicate Untouched(m0: map<string, Val>, m1: map<string, Val>, p: string) {
    (p in m1 <==> p in m0) && (p in m0 ==> m1[p] == m0[p])
  }

  lemma ChangedBelowTrans(m0: map<string, Val>, m1: map<string, Val>, m2: map<string, Val>, base: string)
    requires ChangedBelow(m0, m1, base) && ChangedBelow(m1, m2, base)
    ensures ChangedBelow(m0, m2, base)
  {
    forall p | p in m2 && (p !in m0 || m2[p] != m0[p])
      ensures Below(base, p)
    {
      if p in m1 && (p !in m0 || m1[p] != m0[p]) {
      } else {
        assert p in m1 ==> p in m0 && m1[p] == m0[p];
      }
    }
  }

  /** What a child frame changes lies strictly below its parent's path, so
      the entry at the parent's path is untouched. */
  lemma ChildChanges(m0: map<string, Val>, m1: map<string, Val>, base: string, f: string)
    requires f != "" && ChangedBelow(m0, m1, base + f)
    ensures ChangedBelow(m0, m1, base) && Untouched(m0, m1, base)
  {
    forall p | p in m1 && (p !in m0 || m1[p] != m0[p])
      ensures Below(base, p) && p != base
    {
      assert Below(base + f, p);
      assert p[..|base|] == (base + f)[..|base|];
    }
  }

  /** A walk below `path` leaves alone the entry of every path `path`
      extends, such as the path of an array it is filling. */
  lemma EntryKept(m0: map<string, Val>, m1: map<string, Val>, base: string, path: string)
    requires Below(base, path) && ChangedBelow(m0, m1, path) && Untouched(m0, m1, path)
    ensures Untouched(m0, m1, base)
  {
    assert path[..|path|] == path;
    if base != path {
      assert !Below(path, base);
    }
  }

  /** The entries of `m` a walk below `base` cannot change: the one at
      `base` and those that do not lie below it. */
  function Outside(m: map<string, Val>, base: string): (o: map<string, Val>)
    ensures forall p :: p in o <==> p in m && (p == base || !Below(base, p))
    ensures forall p :: p in o ==> o[p] == m[p]
  {
    map p | p in m && (p == base || !Below(base, p)) :: m[p]
  }

  /** A walk that changes entries strictly below `base` leaves the entries
      outside it as they were. */
  lemma OutsideKept(m0: map<string, Val>, m1: map<string, Val>, base: string)
    requires ChangedBelow(m0, m1, base) && Untouched(m0, m1, base)
    ensures Outside(m1, base) == Outside(m0, base)
  {
    forall p | p in m1 && (p == base || !Below(base, p))
      ensures p in m0 && m1[p] == m0[p]
    {
    }
  }

  /** Every object of `h0` is in `h1` with the same runtime type. */
  predicate Typed(h0: Heap, h1: Heap) {
    forall o :: o in h0 ==> o in h1 && h1[o].t == h0[o].t
  }

  /** A value whose runtime type `h` can tell: not a reference to an
      object `h` does not hold. */
  predicate Known(h: Heap, v: Val) {
    v.VRef? ==> v.id in h
  }

  /** Every object of `h0` is still there, unchanged. */
  predicate Preserved(h0: Heap, h1: Heap) {
    forall o :: o in h0 ==> o in h1 && h1[o] == h0[o]
  }

  lemma PreservedTrans(h0: Heap, h1: Heap, h2: Heap)
    requires Preserved(h0, h1) && Preserved(h1, h2)
    ensures Preserved(h0, h2)
  {
  }

  /** An object allocated at `id` after `h0` and given its contents once its
      children are read leaves every object of `h0` alone. */
  lemma AllocatedThenSet(h0: Heap, h1: Heap, id: ObjId, x: HeapObj, y: HeapObj)
    requires id !in h0 && Preserved(h0[id := x], h1)
    ensures Preserved(h0, h1[id := y])
  {
    forall p | p in h0
      ensures p in h1[id := y] && h1[id := y][p] == h0[p]
    {
      assert p != id && p in h0[id := x];
    }
  }

  /** An array object the walk can fill below `indices`: a rectangular
      grid, one lower bound per dimension, and leading indices in range. */
  predicate Walkable(d: ObjData, indices: seq<int>) {
    d.ArrayData? && Shaped(d.grid, d.lengths) && |d.lowerBounds| == |d.lengths| && |indices| <= |d.lengths|
    && forall k :: 0 <= k < |indices| ==> d.lowerBounds[k] <= indices[k] < d.lowerBounds[k] + d.lengths[k]
  }

  /** `o1` is the array object `o0` with possibly other elements. */
  predicate SameArray(o0: HeapObj, o1: HeapObj) {
    o0.data.ArrayData? && o1.t == o0.t && o1.data.ArrayData?
    && o1.data.lengths == o0.data.lengths && o1.data.lowerBounds == o0.data.lowerBounds
    && Shaped(o1.data.grid, o1.data.lengths)
  }

  /** A filled-in array can be walked at the next index of the next dimension. */
  lemma WalkableNext(o0: HeapObj, o1: HeapObj, indices: seq<int>, i: int)
    requires Walkable(o0.data, indices) && SameArray(o0, o1) && |indices| < |o0.data.lengths|
    requires o0.data.lowerBounds[|indices|] <= i < o0.data.lowerBounds[|indices|] + o0.data.lengths[|indices|]
    ensures Walkable(o1.data, indices + [i])
  {
  }

  /** The first `n` items of `js` cover `lengths`. */
  predicate CoversPrefix(js: Json.Value, n: nat, lengths: seq<nat>) {
    n == 0 || (js.Arr? && |js.items| >= n && forall k :: 0 <= k < n ==> Covers(js.items[k], lengths))
  }

  lemma CoversNext(js: Json.Value, n: nat, lengths: seq<nat>)
    requires CoversPrefix(js, n, lengths) && js.Arr? && n < |js.items| && Covers(js.items[n], lengths)
    ensures CoversPrefix(js, n + 1, lengths)
  {
  }

  lemma CoversAll(js: Json.Value, lengths: seq<nat>)
    requires lengths != [] && CoversPrefix(js, lengths[0], lengths[1..])
    ensures Covers(js, lengths)
  {
  }

  /** From `h0` to `h1` only the elements of the array `id` changed. */
  predicate FilledOnly(h0: Heap, h1: Heap, id: ObjId) {
    id in h0 && id in h1 && SameArray(h0[id], h1[id])
    && forall o :: o in h0 && o != id ==> o in h1 && h1[o] == h0[o]
  }

  lemma FilledOnlyTrans(h0: Heap, h1: Heap, h2: Heap, id: ObjId)
    requires FilledOnly(h0, h1, id) && FilledOnly(h1, h2, id)
    ensures FilledOnly(h0, h2, id)
  {
  }

  /** A new array filled in afterwards leaves every older object alone. */
  lemma FilledNew(h0: Heap, h2: Heap, id: ObjId, o: HeapObj)
    requires id !in h0 && FilledOnly(h0[id := o], h2, id)
    ensures Preserved(h0, h2) && SameArray(o, h2[id])
  {
    forall p | p in h0
      ensures p in h2 && h2[p] == h0[p]
    {
      assert p != id && p in h0[id := o];
    }
  }

  /** `js` has, at every level, at least as many items as the array's
      length at that level (an empty level need not be an array at all). */
  predicate Covers(js: Json.Value, lengths: seq<nat>)
    decreases js
  {
    if lengths == [] || lengths[0] == 0 then true
    else
      js.Arr? && |js.items| >= lengths[0]
      && forall k :: 0 <= k < lengths[0] ==> Covers(js.items[k], lengths[1..])
  }

  /** The branches of `DeserializeValue` that walk the JSON, in the
      order they are tried. */
  datatype Reading =
    | DictionaryReading(pair: TypeId, pairArray: TypeId)
    | ListReading(item: TypeId, itemArray: TypeId)
    | BagReading(surrogate: Option<SurrogateId>)
    | ArrayReading(elem: TypeId, rank: nat)
    | ConverterReading(converter: Converter)
    | MembersReading

  /* ---------- the worker ---------- */

  class JsonDeserializerWorker {
    const settings: Formatter.Settings
    const types: TypeId -> TypeDesc
    const builtins: Builtins
    const foreign: Foreign
    /** The objects built so far. */
    var heap: Heap
    /** The identity the next allocated object gets. */
    var nextId: ObjId
    /** The fragments of `stack_`, root first. */
    var stack: seq<string>
    /** `processedValues_`: what was committed at each path. */
    var processed: map<string, Val>
    /** `needDeserializationCallback_`. */
    var callbacks: seq<Val>

    constructor (settings: Formatter.Settings, types: TypeId -> TypeDesc, builtins: Builtins, foreign: Foreign)
      ensures this.settings == settings && this.types == types && this.builtins == builtins
      ensures this.foreign == foreign
      ensures heap == map[] && nextId == 0 && stack == [] && processed == map[] && callbacks == []
    {
      this.settings := settings;
      this.types := types;
      this.builtins := builtins;
      this.foreign := foreign;
      heap := map[];
      nextId := 0;
      stack := [];
      processed := map[];
      callbacks := [];
    }

    /** Every object of the heap was allocated before `nextId`. */
    predicate Valid()
      reads this
    {
      forall o :: o in heap ==> o < nextId
    }

    /** The path of the current position. */
    function Path(): string
      reads this
    {
      Concat(stack)
    }

    /** `value.GetType().IsValueType`: reference objects live in the heap,
        instances of value types are inline. */
    predicate IsValueInstance(v: Val) {
      match v
      case VPrim(t, _) => types(t).isValueType
      case VInline(t, _) => types(t).isValueType
      case _ => false
    }

    /** What is committed in place of a value of type `t`: the real object
        of an `IObjectReference`. */
    function RealObject(t: TypeId, v: Val): Val {
      if types(t).isObjectReference then foreign.getRealObject(v) else v
    }

    /** What is committed in place of `value`, in the given heap. */
    function Resolved(h: Heap, value: Val): Val {
      var rt := RuntimeType(h, value);
      if rt.Some? then RealObject(rt.value, value) else value
    }

    /** `value is IDeserializationCallback`, in the given heap. */
    predicate NeedsCallback(h: Heap, v: Val) {
      var rt := RuntimeType(h, v);
      rt.Some? && types(rt.value).needsCallback
    }

    /** `m` with `v` recorded at `path`, unless `v` is an instance of a
        value type. */
    function Record(m: map<string, Val>, path: string, v: Val): map<string, Val> {
      if IsValueInstance(v) then m else m[path := v]
    }

    /** `owner` is what is registered at `base`, unless it is an instance
        of a value type, which is never registered. */
    predicate Registered(m: map<string, Val>, base: string, owner: Val) {
      !IsValueInstance(owner) ==> base in m && m[base] == owner
    }

    /** `owner` is registered at `base`, a path `path` extends: the frame
        of a walk inside an object committed before the walk. */
    predicate Anchored(m: map<string, Val>, path: string, base: string, owner: Val) {
      Below(base, path) && Registered(m, base, owner)
    }

    /** A walk below `path` keeps its anchor. */
    lemma AnchoredKept(m0: map<string, Val>, m1: map<string, Val>, path: string, base: string, owner: Val)
      requires Anchored(m0, path, base, owner)
      requires ChangedBelow(m0, m1, path) && Untouched(m0, m1, path)
      ensures Anchored(m1, path, base, owner)
    {
      EntryKept(m0, m1, base, path);
    }

    /** A frame pushed on top keeps the anchor. */
    lemma AnchoredPush(m: map<string, Val>, path: string, f: string, base: string, owner: Val)
      requires Anchored(m, path, base, owner)
      ensures Anchored(m, path + f, base, owner)
    {
      assert (path + f)[..|base|] == path[..|base|];
    }

    lemma RecordedRegisters(m0: map<string, Val>, m1: map<string, Val>, path: string, v: Val)
      requires Recorded(m0, m1, path, v)
      ensures Registered(m1, path, v)
    {
    }

    /** `m1` is `m0` with `v` recorded at `path`. */
    predicate Recorded(m0: map<string, Val>, m1: map<string, Val>, path: string, v: Val) {
      m1 == Record(m0, path, v)
    }

    /** After committing `v` at `path` and whatever the children changed
        below it: `v` is what is registered at `path`, unless it is an
        instance of a value type, which leaves that entry alone. */
    predicate CommittedAt(m0: map<string, Val>, m1: map<string, Val>, path: string, v: Val) {
      ChangedBelow(m0, m1, path)
      && (if IsValueInstance(v) then Untouched(m0, m1, path) else path in m1 && m1[path] == v)
    }

    lemma RecordedCommitted(m0: map<string, Val>, m1: map<string, Val>, path: string, v: Val)
      requires Recorded(m0, m1, path, v)
      ensures CommittedAt(m0, m1, path, v)
    {
      assert path[..|path|] == path;
    }

    /** A reference object is committed before its children are read. */
    lemma CommitBefore(m0: map<string, Val>, m1: map<string, Val>, m2: map<string, Val>, path: string, v: Val)
      requires Recorded(m0, m1, path, v)
      requires ChangedBelow(m1, m2, path) && Untouched(m1, m2, path)
      ensures CommittedAt(m0, m2, path, v)
    {
      RecordedCommitted(m0, m1, path, v);
      ChangedBelowTrans(m0, m1, m2, path);
    }

    /** An instance of a value type is committed after its children. */
    lemma CommitAfter(m0: map<string, Val>, m1: map<string, Val>, m2: map<string, Val>, path: string, v: Val)
      requires ChangedBelow(m0, m1, path) && Untouched(m0, m1, path)
      requires Recorded(m1, m2, path, v)
      ensures CommittedAt(m0, m2, path, v)
    {
      RecordedCommitted(m1, m2, path, v);
      ChangedBelowTrans(m0, m1, m2, path);
    }

    /** Children read before a commit leave the committed entry alone. */
    lemma ChildrenBefore(m0: map<string, Val>, m1: map<string, Val>, m2: map<string, Val>, path: string, v: Val)
      requires ChangedBelow(m0, m1, path) && Untouched(m0, m1, path)
      requires CommittedAt(m1, m2, path, v)
      ensures CommittedAt(m0, m2, path, v)
    {
      ChangedBelowTrans(m0, m1, m2, path);
    }

    /** The type a JSON value is read as: the type its `@@type@@` names,
        or else the expected type. */
    function ObjectType(js: Json.Value, expectedType: Option<TypeId>): (r: Result<Option<TypeId>>)
      ensures TagOf(js).None? ==> r == Ok(expectedType)
      ensures TagOf(js).Some? && r.Ok? ==> r.value.Some?
    {
      match TagOf(js)
      case None => Ok(expectedType)
      case Some(tag) =>
        match ResolveTypeTag(settings.binder, foreign, tag)
        case Ok(t) => Ok(Some(t))
        case Err(e) => Err(e)
    }

    /** What a value that needs no walk is read as, given the values
        registered so far by path (`seen`) and the objects built (`h`): a
        null; an elementary value, taken as it is when the JSON reader gives
        it the type expected, and otherwise what `Convert.ChangeType` makes
        of it; or, for a reference type, the value registered at the path a
        `@@reference@@` names. */
    function LeafRead(js: Json.Value, expectedType: Option<TypeId>, seen: map<string, Val>, h: Heap): Option<Val> {
      var ot := ObjectType(js, expectedType);
      var inner := PayloadOf(js);
      if ot.Err? then None
      else if inner.Null? then Some(VNull)
      else if ot.value.None? then None
      else
        var t := ot.value.value;
        if IsElementary(types(t)) then
          if ReaderType(builtins, inner) == Some(t) then Some(RealObject(t, VPrim(t, ReaderScalar(inner))))
          else
            var converted := foreign.changeType(inner, t);
            if converted.Some? && Known(h, converted.value) then Some(Resolved(h, converted.value)) else None
        else if js.Obj? && Json.Find(js.fields, Json.ReferenceKey).Some? then
          var reference := Json.Find(js.fields, Json.ReferenceKey).value;
          if !types(t).isValueType && reference.Str? && reference.s in seen && Known(h, seen[reference.s])
          then Some(Resolved(h, seen[reference.s]))
          else None
        else None
    }

    /** What a value needing no walk is read as stays so while more is
        registered and more objects are built. */
    lemma LeafReadKept(js: Json.Value, expectedType: Option<TypeId>, s: map<string, Val>, m: map<string, Val>, h0: Heap, h1: Heap)
      requires LeafRead(js, expectedType, s, h0).Some?
      requires forall p :: p in s ==> p in m && m[p] == s[p]
      requires Typed(h0, h1)
      ensures LeafRead(js, expectedType, m, h1) == LeafRead(js, expectedType, s, h0)
    {
      var ot := ObjectType(js, expectedType);
      var inner := PayloadOf(js);
      if !inner.Null? {
        var t := ot.value.value;
        if IsElementary(types(t)) {
          if ReaderType(builtins, inner) != Some(t) {
            ResolvedKept(foreign.changeType(inner, t).value, h0, h1);
          }
        } else {
          var reference := Json.Find(js.fields, Json.ReferenceKey).value;
          ResolvedKept(s[reference.s], h0, h1);
        }
      }
    }

    /** What is committed in place of a value whose type is known does not
        change as more objects are built. */
    lemma ResolvedKept(v: Val, h0: Heap, h1: Heap)
      requires Known(h0, v) && Typed(h0, h1)
      ensures Known(h1, v) && Resolved(h1, v) == Resolved(h0, v)
    {
    }

    /** The `int` a JSON value is read as, when it needs no walk. */
    function IntRead(js: Json.Value, seen: map<string, Val>, h: Heap): Option<int> {
      match LeafRead(js, Some(builtins.intType), seen, h)
      case Some(VPrim(t, SInt(i))) => if t == builtins.intType then Some(i) else None
      case _ => None
    }

    /** The lower bounds `@@lower_bounds@@` gives an array of rank `n`, when
        its first `n` items are all read as `int`s. */
    function GivenBounds(jsValue: Json.Value, n: nat, seen: map<string, Val>, h: Heap): (r: Option<seq<int>>)
      ensures r.Some? ==> |r.value| == n
    {
      if jsValue.Obj? && Json.Find(jsValue.fields, Json.LowerBoundsKey).Some? then
        BoundItems(Json.Find(jsValue.fields, Json.LowerBoundsKey).value, n, seen, h)
      else None
    }

    /** The first `n` items of a JSON array, when all are read as `int`s. */
    function BoundItems(lbs: Json.Value, n: nat, seen: map<string, Val>, h: Heap): (r: Option<seq<int>>)
      ensures r.Some? ==> |r.value| == n
    {
      if lbs.Arr? && |lbs.items| >= n && forall k :: 0 <= k < n ==> IntRead(lbs.items[k], seen, h).Some?
      then Some(seq(n, k requires 0 <= k < n => IntRead(lbs.items[k], seen, h).value))
      else None
    }

    /** The data a custom-protocol object is left with: what the surrogate
        makes of the bag, or the bag itself, which the `ISerializable`
        constructor reads. */
    function Absorbed(t: TypeId, surrogate: Option<SurrogateId>, entries: seq<BagEntry>): ObjData {
      if surrogate.Some? then foreign.surrogateSetObjectData(surrogate.value, entries) else Bag(t, entries)
    }

    /** An entry holds, when its JSON needs no walk, what that JSON is read
        as for an `object`. */
    predicate EntryRead(v: Val, j: Json.Value, seen: map<string, Val>, h: Heap) {
      LeafRead(j, Some(builtins.objectType), seen, h).Some? ==> v == LeafRead(j, Some(builtins.objectType), seen, h).value
    }

    /** The entries read from an object: named by its keys but `@@info@@`
        and `@@type@@`, in order, each read from the value under its key. */
    predicate EntriesRead(entries: seq<BagEntry>, fs: seq<Json.Field>, seen: map<string, Val>, h: Heap) {
      EntryNames(entries) == BagKeys(fs)
      && forall k :: 0 <= k < |entries| ==> EntryRead(entries[k].val, BagValues(fs)[k], seen, h)
    }

    /** An envelope key adds no entry. */
    lemma EntriesSkip(entries: seq<BagEntry>, fs: seq<Json.Field>, k: nat, seen: map<string, Val>, h: Heap)
      requires k < |fs| && EntriesRead(entries, fs[..k], seen, h)
      requires fs[k].key == Json.InfoKey || fs[k].key == Json.TypeKey
      ensures EntriesRead(entries, fs[..k + 1], seen, h)
    {
      assert fs[..k + 1][..k] == fs[..k];
    }

    /** Any other key adds the entry read from its value. */
    lemma EntriesAdd(entries: seq<BagEntry>, fs: seq<Json.Field>, k: nat, v: Val, seen: map<string, Val>, h: Heap)
      requires k < |fs| && EntriesRead(entries, fs[..k], seen, h)
      requires fs[k].key != Json.InfoKey && fs[k].key != Json.TypeKey
      requires EntryRead(v, fs[k].val, seen, h)
      ensures EntriesRead(entries + [BagEntry(fs[k].key, v)], fs[..k + 1], seen, h)
    {
      assert fs[..k + 1][..k] == fs[..k];
      var entries' := entries + [BagEntry(fs[k].key, v)];
      assert EntryNames(entries') == EntryNames(entries) + [fs[k].key];
      forall j | 0 <= j < |entries'|
        ensures EntryRead(entries'[j].val, BagValues(fs[..k + 1])[j], seen, h)
      {
        if j < |entries| {
          assert entries'[j] == entries[j];
        }
      }
    }

    /** The object a custom-protocol value was decoded into absorbed the
        entries read from the JSON object. */
    ghost predicate BagRead(d: ObjData, t: TypeId, surrogate: Option<SurrogateId>, fs: seq<Json.Field>,
                            seen: map<string, Val>, h: Heap) {
      exists entries :: EntriesRead(entries, fs, seen, h) && d == Absorbed(t, surrogate, entries)
    }

    /** Reading entries against objects of the same types gives the same values. */
    lemma EntriesReadTyped(entries: seq<BagEntry>, fs: seq<Json.Field>, seen: map<string, Val>, h0: Heap, h1: Heap)
      requires EntriesRead(entries, fs, seen, h0) && Typed(h1, h0)
      ensures EntriesRead(entries, fs, seen, h1)
    {
      forall k | 0 <= k < |entries|
        ensures EntryRead(entries[k].val, BagValues(fs)[k], seen, h1)
      {
        if LeafRead(BagValues(fs)[k], Some(builtins.objectType), seen, h1).Some? {
          LeafReadKept(BagValues(fs)[k], Some(builtins.objectType), seen, seen, h1, h0);
        }
      }
    }

    /** A member read from `fs`: its zero value when its JSON name is not a
        key, and otherwise, when that key holds a value that needs no walk,
        what that value is read as with the member's declared type. */
    predicate MemberRead(v: Val, member: Member, fs: seq<Json.Field>, seen: map<string, Val>, h: Heap) {
      match Json.Find(fs, Formatter.NormalizeMemberName(member.name))
      case None => v == VDefault
      case Some(j) =>
        LeafRead(j, Some(member.declared), seen, h).Some? ==> v == LeafRead(j, Some(member.declared), seen, h).value
    }

    /** The members of an object decoded from `fs`: one value per member,
        each read as `MemberRead` says. */
    predicate MembersRead(d: ObjData, members: seq<Member>, fs: seq<Json.Field>, seen: map<string, Val>, h: Heap) {
      d.Fields? && |d.values| == |members|
      && forall i :: 0 <= i < |members| ==> MemberRead(d.values[i], members[i], fs, seen, h)
    }

    /** Reading members against objects of the same types gives the same values. */
    lemma MembersReadTyped(d: ObjData, members: seq<Member>, fs: seq<Json.Field>, seen: map<string, Val>, h0: Heap, h1: Heap)
      requires MembersRead(d, members, fs, seen, h0) && Typed(h1, h0)
      ensures MembersRead(d, members, fs, seen, h1)
    {
      forall i | 0 <= i < |members|
        ensures MemberRead(d.values[i], members[i], fs, seen, h1)
      {
        var j := Json.Find(fs, Formatter.NormalizeMemberName(members[i].name));
        if j.Some? && LeafRead(j.value, Some(members[i].declared), seen, h1).Some? {
          LeafReadKept(j.value, Some(members[i].declared), seen, seen, h1, h0);
        }
      }
    }

    /** An array object decoded from `jsInner` with the declared rank: the
        lengths read from its nesting, one lower bound per dimension, all 0
        when the value carries no `@@lower_bounds@@`. */
    predicate ArrayRead(o: HeapObj, t: TypeId, jsValue: Json.Value, jsInner: Json.Value, rank: nat,
                        seen: map<string, Val>, h: Heap) {
      o.t == t && o.data.ArrayData?
      && LengthsForRank(jsInner, rank) == Ok(o.data.lengths)
      && |o.data.lowerBounds| == rank && Shaped(o.data.grid, o.data.lengths)
      && ((!jsValue.Obj? || Json.Find(jsValue.fields, Json.LowerBoundsKey).None?) ==>
            forall k :: 0 <= k < rank ==> o.data.lowerBounds[k] == 0)
      && (GivenBounds(jsValue, rank, seen, h).Some? ==> o.data.lowerBounds == GivenBounds(jsValue, rank, seen, h).value)
    }

    /** The elements of a one-dimensional array object (what `AddRange`
        and the dictionary's pair loop read). */
    function ArrayItems(v: Val): (r: Result<seq<Val>>)
      reads this
    {
      match DataOf(heap, v)
      case Some(ArrayData(lengths, _, Row(cells))) =>
        if |lengths| == 1 && forall k :: 0 <= k < |cells| ==> cells[k].Cell? then
          Ok(seq(|cells|, k requires 0 <= k < |cells| && cells[k].Cell? => cells[k].v))
        else Err(Malformed)
      case _ => Err(Malformed)
    }

    /** The branch taken for a value of type `t` whose payload is
        `jsInner`, once it is neither null, elementary nor a back-reference. */
    function ReadingOf(t: TypeId, jsInner: Json.Value): Reading {
      var desc := types(t);
      match desc.kind
      case DictionaryOf(pair, pairArray) => DictionaryReading(pair, pairArray)
      case ListOf(item, itemArray) => ListReading(item, itemArray)
      case _ =>
        var surrogate := settings.GetSurrogate(t);
        if desc.isISerializable || surrogate.Some? then BagReading(surrogate)
        else if desc.kind.ArrayOf? then ArrayReading(desc.kind.elem, desc.kind.rank)
        else
          var converter := settings.GetTypeConverter(t, desc);
          if jsInner.Str? && converter.canConvertFromString then ConverterReading(converter)
          else MembersReading
    }

    /** The dictionary branch yields a new dictionary of type `t`, with the
        default comparer when no `comparer` is given, and with one pair per
        item of the JSON array (unless its records are replaced on decoding). */
    ghost predicate DictionaryRead(v: Val, js: Json.Value, jsInner: Json.Value, t: TypeId, pairArray: TypeId, h0: Heap, h1: Heap) {
      exists id :: id in h1 && id !in h0 && h1[id].t == t && h1[id].data.DictEntries?
        && v == RealObject(t, VRef(id))
        && ((!js.Obj? || Json.Find(js.fields, Json.ComparerKey).None?) ==>
              h1[id].data.comparer == VNull && h1[id].data.defaultComparer)
        && (jsInner.Arr? && !types(pairArray).isObjectReference ==> |h1[id].data.pairs| == |jsInner.items|)
    }

    /** The list branch yields the list allocated first (`n0`), with one
        item per item of the JSON array (unless the array is replaced on
        decoding). */
    predicate ListRead(v: Val, jsInner: Json.Value, t: TypeId, itemArray: TypeId, n0: ObjId, h1: Heap) {
      n0 in h1 && h1[n0].t == t && h1[n0].data.ListItems? && v == RealObject(t, VRef(n0))
      && (jsInner.Arr? && !types(itemArray).isObjectReference ==> |h1[n0].data.items| == |jsInner.items|)
    }

    /** The custom-protocol branch yields an object of type `t` holding the
        entries read from the JSON object: a reference object is allocated
        first (`n0`) and registered at `path` before its entries are read,
        so they are read against it; a value-type instance is not. */
    ghost predicate BagValueRead(v: Val, js: Json.Value, t: TypeId, surrogate: Option<SurrogateId>,
                                 m0: map<string, Val>, path: string, h0: Heap, n0: ObjId, h1: Heap) {
      js.Obj?
      && if !types(t).isValueType then
           n0 in h1 && h1[n0].t == t && v == RealObject(t, VRef(n0))
           && BagRead(h1[n0].data, t, surrogate, js.fields, Outside(Record(m0, path, v), path), h0[n0 := h1[n0]])
         else
           exists d :: BagRead(d, t, surrogate, js.fields, Outside(m0, path), h0) && v == RealObject(t, VInline(t, d))
    }

    /** The array branch yields a new array read from the JSON arrays, with
        the lower bounds read before anything is registered. */
    ghost predicate ArrayValueRead(v: Val, js: Json.Value, jsInner: Json.Value, t: TypeId, rank: nat,
                                   m0: map<string, Val>, path: string, h0: Heap, h1: Heap) {
      exists id :: id in h1 && id !in h0 && ArrayRead(h1[id], t, js, jsInner, rank, Outside(m0, path), h0)
        && v == RealObject(t, VRef(id))
    }

    /** The member branch yields an object of type `t` whose members are
        read from the JSON object: a reference object is allocated first
        (`n0`) and registered at `path` before its members are read, so
        they are read against it; a value-type instance is not. */
    ghost predicate MembersValueRead(v: Val, js: Json.Value, t: TypeId,
                                     m0: map<string, Val>, path: string, h0: Heap, n0: ObjId, h1: Heap) {
      js.Obj?
      && if !types(t).isValueType then
           n0 in h1 && h1[n0].t == t && v == RealObject(t, VRef(n0))
           && MembersRead(h1[n0].data, types(t).members, js.fields, Outside(Record(m0, path, v), path), h0[n0 := h1[n0]])
         else
           exists d :: MembersRead(d, types(t).members, js.fields, Outside(m0, path), h0) && v == RealObject(t, VInline(t, d))
    }

    /** What the branch `ReadingOf` picks yields for `js` read at `path`,
        from the registrations `m0` and the objects `h0` (whose next
        identity is `n0`) to the objects `h1`. */
    ghost predicate WalkRead(v: Val, js: Json.Value, jsInner: Json.Value, t: TypeId,
                             m0: map<string, Val>, path: string, h0: Heap, n0: ObjId, h1: Heap) {
      match ReadingOf(t, jsInner)
      case DictionaryReading(_, pairArray) => DictionaryRead(v, js, jsInner, t, pairArray, h0, h1)
      case ListReading(_, itemArray) => ListRead(v, jsInner, t, itemArray, n0, h1)
      case BagReading(surrogate) => BagValueRead(v, js, t, surrogate, m0, path, h0, n0, h1)
      case ArrayReading(_, rank) => ArrayValueRead(v, js, jsInner, t, rank, m0, path, h0, h1)
      case ConverterReading(c) => jsInner.Str? && v == Resolved(h0, foreign.convertFromString(c, t, jsInner.s))
      case MembersReading => MembersValueRead(v, js, t, m0, path, h0, n0, h1)
    }

    /* ---------- stack frames and allocation ---------- */

    /** `stack_.Push`. */
    method Push(fragment: string)
      modifies this
      ensures stack == old(stack) + [fragment] && Path() == old(Path()) + fragment
      ensures heap == old(heap) && nextId == old(nextId)
      ensures processed == old(processed) && callbacks == old(callbacks)
    {
      ConcatPush(stack, fragment);
      stack := stack + [fragment];
    }

    /** `stack_.Pop`. */
    method Pop()
      requires stack != []
      modifies this
      ensures stack == old(stack[..|stack| - 1])
      ensures heap == old(heap) && nextId == old(nextId)
      ensures processed == old(processed) && callbacks == old(callbacks)
    {
      stack := stack[..|stack| - 1];
    }

    /** `FormatterServices.GetUninitializedObject` / `Activator.CreateInstance`
        / `Array.CreateInstance`: a new object of type `t`. */
    method Allocate(t: TypeId, data: ObjData) returns (id: ObjId)
      requires Valid()
      modifies this
      ensures id == old(nextId) && id !in old(heap)
      ensures heap == old(heap)[id := HeapObj(t, data)] && nextId == id + 1 && Valid()
      ensures stack == old(stack) && processed == old(processed) && callbacks == old(callbacks)
    {
      id := nextId;
      heap := heap[id := HeapObj(t, data)];
      nextId := nextId + 1;
    }

    /** `SetStackValue`: replaces an `IObjectReference` by its real object,
        queues a deserialization callback, and records nulls and reference
        objects (never value-type instances) under the current path. The
        value is handed back for the caller to place where the frame's
        delegate would. */
    method SetStackValue(value: Val) returns (v: Val)
      modifies this
      ensures v == Resolved(old(heap), value)
      ensures heap == old(heap) && nextId == old(nextId) && stack == old(stack)
      ensures callbacks == old(callbacks) + (if NeedsCallback(heap, v) then [v] else [])
      ensures Recorded(old(processed), processed, Path(), v)
    {
      v := value;
      if !v.VNull? {
        var rt := RuntimeType(heap, v);
        if rt.Some? && types(rt.value).isObjectReference {
          v := foreign.getRealObject(v);
        }
        if NeedsCallback(heap, v) {
          callbacks := callbacks + [v];
        }
      }
      if v.VNull? || !IsValueInstance(v) {
        var path := GetPath(stack);
        processed := processed[path := v];
      }
    }

    /* ---------- the walk ---------- */

    /** `Run`: decodes the JSON tree under the root frame, then calls back
        every queued object, in the order queued. */
    method Run(jsRoot: Json.Value, expectedType: Option<TypeId>) returns (r: Result<Val>, invoked: seq<Val>)
      requires stack == [] && Valid()
      modifies this
      ensures r.Ok? ==> stack == [] && invoked == callbacks
      ensures r.Ok? && !IsValueInstance(r.value) ==> RootFragment in processed && processed[RootFragment] == r.value
      ensures PayloadOf(jsRoot).Null? && ObjectType(jsRoot, expectedType).Ok? ==> r == Ok(VNull)
      ensures ObjectType(jsRoot, expectedType) == Ok(None) && !PayloadOf(jsRoot).Null? ==> r == Err(CannotDeduceType)
      // a root that needs no walk is read as `LeafRead` says
      ensures LeafRead(jsRoot, expectedType, old(processed), old(heap)).Some? ==>
        r == Ok(LeafRead(jsRoot, expectedType, old(processed), old(heap)).value)
      // any other root is read by the branch its type selects
      ensures var inner := PayloadOf(jsRoot); var ot := ObjectType(jsRoot, expectedType);
        r.Ok? && ot.Ok? && ot.value.Some? && !inner.Null? && !IsElementary(types(ot.value.value))
        && !(jsRoot.Obj? && Json.Find(jsRoot.fields, Json.ReferenceKey).Some?) ==>
          WalkRead(r.value, jsRoot, inner, ot.value.value, old(processed), RootFragment, old(heap), old(nextId), heap)
    {
      invoked := [];
      Push(RootFragment);
      assert Path() == RootFragment by {
        assert Concat([RootFragment]) == RootFragment + Concat([]);
      }
      r := DeserializeValue(jsRoot, expectedType);
      if r.Err? {
        return;
      }
      Pop();
      invoked := InvokeCallbacks();
    }

    /** The callback loop of `Run`: `OnDeserialization` on every queued
        object, in the order queued. */
    method InvokeCallbacks() returns (invoked: seq<Val>)
      ensures invoked == callbacks
    {
      invoked := [];
      for i := 0 to |callbacks|
        invariant invoked == callbacks[..i]
      {
        invoked := invoked + [callbacks[i]];
      }
      assert callbacks[..|callbacks|] == callbacks;
    }

    /** `DeserializeValue`: reads the type of the value, then dispatches on
        it (elementary, back-reference, dictionary, list, custom protocol,
        array, string conversion, members), committing the result at the
        current path. */
    method DeserializeValue(js: Json.Value, expectedType: Option<TypeId>) returns (r: Result<Val>)
      requires stack != [] && Valid()
      modifies this
      ensures r.Ok? ==> stack == old(stack) && Valid() && Preserved(old(heap), heap) && old(nextId) <= nextId
      ensures r.Ok? ==> old(callbacks) <= callbacks && CommittedAt(old(processed), processed, old(Path()), r.value)
      // a null, or an envelope around a null, commits null
      ensures PayloadOf(js).Null? && ObjectType(js, expectedType).Ok? ==>
        r == Ok(VNull) && processed == old(processed)[old(Path()) := VNull] && heap == old(heap)
      // an unresolvable `@@type@@`
      ensures ObjectType(js, expectedType).Err? ==> r == Err(ObjectType(js, expectedType).error)
      // neither a `@@type@@` nor an expected type
      ensures ObjectType(js, expectedType) == Ok(None) && !PayloadOf(js).Null? ==> r == Err(CannotDeduceType)
      // a scalar of the type it is read as is committed as it is
      ensures var inner := PayloadOf(js); var ot := ObjectType(js, expectedType);
        ot.Ok? && ot.value.Some? && IsElementary(types(ot.value.value)) && ReaderType(builtins, inner) == ot.value ==>
          r == Ok(RealObject(ot.value.value, VPrim(ot.value.value, ReaderScalar(inner))))
      // a back-reference commits what was registered at the path it names
      ensures var inner := PayloadOf(js); var ot := ObjectType(js, expectedType);
        js.Obj? && Json.Find(js.fields, Json.ReferenceKey).Some? && !inner.Null?
        && ot.Ok? && ot.value.Some? && !IsElementary(types(ot.value.value)) ==>
          var reference := Json.Find(js.fields, Json.ReferenceKey).value;
          var p := ReferencePath(reference);
          if types(ot.value.value).isValueType then r == Err(ValueTypeReference(p))
          else if reference.Str? && p in old(processed) then r == Ok(Resolved(old(heap), old(processed)[p]))
          else r == Err(InvalidReference(p))
      // a value that needs no walk is read as `LeafRead` says
      ensures LeafRead(js, expectedType, old(processed), old(heap)).Some? ==>
        r == Ok(LeafRead(js, expectedType, old(processed), old(heap)).value)
      // any other value is read by the branch its type selects
      ensures var inner := PayloadOf(js); var ot := ObjectType(js, expectedType);
        r.Ok? && ot.Ok? && ot.value.Some? && !inner.Null? && !IsElementary(types(ot.value.value))
        && !(js.Obj? && Json.Find(js.fields, Json.ReferenceKey).Some?) ==>
          WalkRead(r.value, js, inner, ot.value.value, old(processed), old(Path()), old(heap), old(nextId), heap)
      decreases Json.Size(js), 6
    {
      if js.Null? {
        var v := SetStackValue(VNull);
        RecordedCommitted(old(processed), processed, Path(), v);
        return Ok(v);
      }
      var objectType :- ObjectType(js, expectedType);
      var jsInner := PayloadOf(js);
      if jsInner.Null? {
        var v := SetStackValue(VNull);
        RecordedCommitted(old(processed), processed, Path(), v);
        return Ok(v);
      }
      if objectType.None? {
        return Err(CannotDeduceType);
      }
      var t := objectType.value;
      var desc := types(t);

      //elementary values
      if IsElementary(desc) {
        r := DeserializeElementary(jsInner, t);
        if r.Ok? {
          RecordedCommitted(old(processed), processed, Path(), r.value);
        }
        return;
      }

      //a back-reference to an object committed before
      if js.Obj? {
        var reference := Json.Find(js.fields, Json.ReferenceKey);
        if reference.Some? {
          r := DeserializeReference(reference.value, desc.isValueType);
          if r.Ok? {
            RecordedCommitted(old(processed), processed, Path(), r.value);
          }
          return;
        }
      }

      r := DeserializeWalked(js, jsInner, t);
    }

    /** The rest of `DeserializeValue`, for a value that is neither null,
        elementary nor a back-reference: the branch `ReadingOf` picks. A
        custom-protocol or member value must be a JSON object, and a list,
        a dictionary or an array a JSON array. */
    method DeserializeWalked(js: Json.Value, jsInner: Json.Value, t: TypeId) returns (r: Result<Val>)
      requires stack != [] && Valid() && Json.Size(jsInner) <= Json.Size(js)
      modifies this
      ensures r.Ok? ==> stack == old(stack) && Valid() && Preserved(old(heap), heap) && old(nextId) <= nextId
      ensures r.Ok? ==> old(callbacks) <= callbacks && CommittedAt(old(processed), processed, old(Path()), r.value)
      ensures r.Ok? ==> WalkRead(r.value, js, jsInner, t, old(processed), old(Path()), old(heap), old(nextId), heap)
      ensures (ReadingOf(t, jsInner).BagReading? || ReadingOf(t, jsInner).MembersReading?) && !js.Obj? ==>
        r == Err(NotAnObject)
      ensures (ReadingOf(t, jsInner).ListReading? || ReadingOf(t, jsInner).ArrayReading?) && !jsInner.Arr? ==>
        r == Err(InvalidInputType)
      ensures ReadingOf(t, jsInner).DictionaryReading? && !jsInner.Arr? ==> r.Err?
      decreases Json.Size(js), 5
    {
      match ReadingOf(t, jsInner) {
        case DictionaryReading(pair, pairArray) =>
          r := DeserializeDictionary(js, jsInner, t, pair, pairArray);
        case ListReading(item, itemArray) =>
          r := DeserializeList(jsInner, t, item, itemArray);
        case BagReading(surrogate) =>
          //ISerializable or surrogate
          r := DeserializeBag(js, t, surrogate);
        case ArrayReading(elem, rank) =>
          r := DeserializeArray(js, jsInner, t, elem, rank);
        case ConverterReading(converter) =>
          //convert from string
          var v := SetStackValue(foreign.convertFromString(converter, t, jsInner.s));
          RecordedCommitted(old(processed), processed, Path(), v);
          r := Ok(v);
        case MembersReading =>
          r := DeserializeMembers(js, t);
      }
    }

    /** A child of the current value: decoded under its own frame, so
        whatever it commits lies strictly below the current path. */
    method ReadChild(fragment: string, js: Json.Value, expectedType: Option<TypeId>) returns (r: Result<Val>)
      requires stack != [] && Valid() && fragment != ""
      modifies this
      ensures r.Ok? ==> stack == old(stack) && Valid() && Preserved(old(heap), heap) && old(nextId) <= nextId
      ensures r.Ok? ==> old(callbacks) <= callbacks
      ensures r.Ok? ==> ChangedBelow(old(processed), processed, old(Path())) && Untouched(old(processed), processed, old(Path()))
      ensures LeafRead(js, expectedType, old(processed), old(heap)).Some? ==>
        r == Ok(LeafRead(js, expectedType, old(processed), old(heap)).value)
      decreases Json.Size(js), 7
    {
      ghost var path := Path();
      Push(fragment);
      r := DeserializeValue(js, expectedType);
      if r.Ok? {
        ChildChanges(old(processed), processed, path, fragment);
        Pop();
      }
    }

    /** `DeserializeElementary`: a scalar whose reader type is the type
        expected is committed as it is; anything else goes through
        `Convert.ChangeType`, which may fail. */
    method DeserializeElementary(jsValue: Json.Value, objectType: TypeId) returns (r: Result<Val>)
      modifies this
      ensures heap == old(heap) && nextId == old(nextId) && stack == old(stack)
      ensures ReaderType(builtins, jsValue) == Some(objectType) ==>
        r == Ok(RealObject(objectType, VPrim(objectType, ReaderScalar(jsValue))))
      ensures ReaderType(builtins, jsValue) != Some(objectType) ==>
        match foreign.changeType(jsValue, objectType)
        case None => r == Err(ConversionFailed)
        case Some(v) => r == Ok(Resolved(old(heap), v))
      ensures r.Ok? ==> (Recorded(old(processed), processed, Path(), r.value)
        && callbacks == old(callbacks) + (if NeedsCallback(heap, r.value) then [r.value] else []))
      ensures r.Err? ==> processed == old(processed) && callbacks == old(callbacks)
    {
      if ReaderType(builtins, jsValue) == Some(objectType) {
        var v := SetStackValue(VPrim(objectType, ReaderScalar(jsValue)));
        return Ok(v);
      }
      var converted := foreign.changeType(jsValue, objectType);
      if converted.None? {
        return Err(ConversionFailed);
      }
      var v := SetStackValue(converted.value);
      return Ok(v);
    }

    /** The `@@reference@@` branch: a value type cannot be referenced, and
        the path must name a value committed before. */
    method DeserializeReference(reference: Json.Value, valueType: bool) returns (r: Result<Val>)
      modifies this
      ensures heap == old(heap) && nextId == old(nextId) && stack == old(stack)
      ensures var p := ReferencePath(reference);
        if valueType then r == Err(ValueTypeReference(p))
        else if reference.Str? && p in old(processed) then r == Ok(Resolved(old(heap), old(processed)[p]))
        else r == Err(InvalidReference(p))
      ensures r.Ok? ==> (Recorded(old(processed), processed, Path(), r.value)
        && callbacks == old(callbacks) + (if NeedsCallback(heap, r.value) then [r.value] else []))
      ensures r.Err? ==> processed == old(processed) && callbacks == old(callbacks)
    {
      var path := ReferencePath(reference);
      if valueType {
        return Err(ValueTypeReference(path));
      }
      if !reference.Str? || path !in processed {
        return Err(InvalidReference(path));
      }
      var v := SetStackValue(processed[path]);
      return Ok(v);
    }

    /** A value-type instance built from entries read from the JSON object
        was read by the custom-protocol branch. */
    lemma BagReadInline(v: Val, js: Json.Value, t: TypeId, surrogate: Option<SurrogateId>,
                        m0: map<string, Val>, path: string, h0: Heap, n0: ObjId, h1: Heap, entries: seq<BagEntry>)
      requires js.Obj? && types(t).isValueType
      requires EntriesRead(entries, js.fields, Outside(m0, path), h0)
      requires v == Resolved(h0, VInline(t, Absorbed(t, surrogate, entries)))
      ensures BagValueRead(v, js, t, surrogate, m0, path, h0, n0, h1)
    {
      assert BagRead(Absorbed(t, surrogate, entries), t, surrogate, js.fields, Outside(m0, path), h0);
    }

    /** A reference object `n0` that absorbed entries read against it was
        read by the custom-protocol branch. */
    lemma BagReadReference(v: Val, js: Json.Value, t: TypeId, surrogate: Option<SurrogateId>,
                           m0: map<string, Val>, path: string, h0: Heap, n0: ObjId, h1: Heap, entries: seq<BagEntry>)
      requires js.Obj? && !types(t).isValueType
      requires n0 in h1 && h1[n0] == HeapObj(t, Absorbed(t, surrogate, entries)) && v == RealObject(t, VRef(n0))
      requires EntriesRead(entries, js.fields, Outside(Record(m0, path, v), path), h0[n0 := h1[n0]])
      ensures BagValueRead(v, js, t, surrogate, m0, path, h0, n0, h1)
    {
      assert BagRead(h1[n0].data, t, surrogate, js.fields, Outside(Record(m0, path, v), path), h0[n0 := h1[n0]]);
    }

    /** The custom-protocol branch: an uninitialized object, committed at
        once unless it is a value type, absorbs a bag holding every key of
        the JSON object but `@@info@@` and `@@type@@`, each decoded as an
        `object`, through the surrogate or the `ISerializable` constructor.
        An entry read as a back-reference to the object's own path gets the
        object itself, since it was registered first. */
    method DeserializeBag(js: Json.Value, t: TypeId, surrogate: Option<SurrogateId>) returns (r: Result<Val>)
      requires stack != [] && Valid()
      modifies this
      ensures r.Ok? ==> stack == old(stack) && Valid() && Preserved(old(heap), heap) && old(nextId) <= nextId
      ensures r.Ok? ==> old(callbacks) <= callbacks && CommittedAt(old(processed), processed, old(Path()), r.value)
      ensures !js.Obj? ==> r == Err(NotAnObject)
      ensures js.Obj? && surrogate.None? && !types(t).hasSerializationCtor ==> r.Err?
      ensures r.Ok? ==> BagValueRead(r.value, js, t, surrogate, old(processed), old(Path()), old(heap), old(nextId), heap)
      decreases Json.Size(js), 2
    {
      if !js.Obj? {
        return Err(NotAnObject);
      }
      var desc := types(t);
      var id: ObjId := 0;
      var committed := VNull;
      if !desc.isValueType {
        id := Allocate(t, Bag(t, []));
        committed := SetStackValue(VRef(id));
      }
      ghost var processed0, heap0 := processed, heap;
      ghost var path := Path();
      var entries :- ReadBagEntries(js.fields);
      if surrogate.None? && !desc.hasSerializationCtor {
        return Err(NoSerializationConstructor(desc.typeName.fullName));
      }
      var data := Absorbed(t, surrogate, entries);
      if desc.isValueType {
        ghost var processed1 := processed;
        var v := SetStackValue(VInline(t, data));
        CommitAfter(old(processed), processed1, processed, path, v);
        BagReadInline(v, js, t, surrogate, old(processed), path, heap0, old(nextId), heap, entries);
        return Ok(v);
      }
      AllocatedThenSet(old(heap), heap, id, HeapObj(t, Bag(t, [])), HeapObj(t, data));
      heap := heap[id := HeapObj(t, data)];
      EntriesReadTyped(entries, js.fields, Outside(processed0, path), heap0, old(heap)[id := heap[id]]);
      BagReadReference(committed, js, t, surrogate, old(processed), path, old(heap), id, heap, entries);
      CommitBefore(old(processed), processed0, processed, path, committed);
      return Ok(committed);
    }

    /** The bag's loop: every key but `@@info@@` and `@@type@@`, in order,
        decoded as an `object` under its own frame and added to the bag;
        adding a key twice fails. */
    method ReadBagEntries(fields: seq<Json.Field>) returns (r: Result<seq<BagEntry>>)
      requires stack != [] && Valid()
      modifies this
      ensures r.Ok? ==> stack == old(stack) && Valid() && Preserved(old(heap), heap) && old(nextId) <= nextId
      ensures r.Ok? ==> old(callbacks) <= callbacks
      ensures r.Ok? ==> ChangedBelow(old(processed), processed, old(Path())) && Untouched(old(processed), processed, old(Path()))
      ensures r.Ok? ==> EntriesRead(r.value, fields, Outside(old(processed), old(Path())), old(heap))
      decreases Json.Size(Json.Obj(fields)), 1
    {
      ghost var path := Path();
      ghost var seen := Outside(processed, path);
      var entries: seq<BagEntry> := [];
      for k := 0 to |fields|
        invariant stack == old(stack) && Path() == path && Valid()
        invariant Preserved(old(heap), heap) && old(nextId) <= nextId
        invariant ChangedBelow(old(processed), processed, path) && Untouched(old(processed), processed, path)
        invariant old(callbacks) <= callbacks
        invariant Outside(processed, path) == seen
        invariant EntriesRead(entries, fields[..k], seen, old(heap))
      {
        var key := fields[k].key;
        if key != Json.InfoKey && key != Json.TypeKey {
          ghost var processed1 := processed;
          Json.FieldSmaller(fields, k);
          if LeafRead(fields[k].val, Some(builtins.objectType), seen, old(heap)).Some? {
            LeafReadKept(fields[k].val, Some(builtins.objectType), seen, processed, old(heap), heap);
          }
          var v :- ReadChild(MemberFragment(key), fields[k].val, Some(builtins.objectType));
          ChangedBelowTrans(old(processed), processed1, processed, path);
          OutsideKept(processed1, processed, path);
          if key in EntryNames(entries) {
            return Err(DuplicateBagKey(key));
          }
          EntriesAdd(entries, fields, k, v, seen, old(heap));
          entries := entries + [BagEntry(key, v)];
        } else {
          EntriesSkip(entries, fields, k, seen, old(heap));
        }
      }
      assert fields[..|fields|] == fields;
      return Ok(entries);
    }

    /** The member branch: an uninitialized object, committed at once unless
        it is a value type; every serializable member whose JSON name is a
        key is decoded with its declared type, and the others keep their
        zero value. A member read as a back-reference to the object's own
        path gets the object itself, since it was registered first. */
    method DeserializeMembers(js: Json.Value, t: TypeId) returns (r: Result<Val>)
      requires stack != [] && Valid()
      modifies this
      ensures r.Ok? ==> stack == old(stack) && Valid() && Preserved(old(heap), heap) && old(nextId) <= nextId
      ensures r.Ok? ==> old(callbacks) <= callbacks && CommittedAt(old(processed), processed, old(Path()), r.value)
      ensures !js.Obj? ==> r == Err(NotAnObject)
      ensures r.Ok? ==> MembersValueRead(r.value, js, t, old(processed), old(Path()), old(heap), old(nextId), heap)
      decreases Json.Size(js), 2
    {
      if !js.Obj? {
        return Err(NotAnObject);
      }
      var desc := types(t);
      var members := desc.members;
      var defaults := seq(|members|, _ => VDefault);
      var id: ObjId := 0;
      var committed := VNull;
      if !desc.isValueType {
        id := Allocate(t, Fields(defaults));
        committed := SetStackValue(VRef(id));
      }
      ghost var processed0, heap0 := processed, heap;
      ghost var path := Path();
      var values :- ReadMembers(js.fields, members);
      var data := Fields(values);
      if desc.isValueType {
        ghost var processed1 := processed;
        var v := SetStackValue(VInline(t, data));
        CommitAfter(old(processed), processed1, processed, path, v);
        return Ok(v);
      }
      AllocatedThenSet(old(heap), heap, id, HeapObj(t, Fields(defaults)), HeapObj(t, data));
      heap := heap[id := HeapObj(t, data)];
      MembersReadTyped(data, members, js.fields, Outside(processed0, path), heap0, old(heap)[id := heap[id]]);
      CommitBefore(old(processed), processed0, processed, path, committed);
      return Ok(committed);
    }

    /** The member loop: every member whose JSON name is a key is decoded
        with its declared type under its own frame; `PopulateObjectMembers`
        then sets those members, and the others keep their zero value. */
    method ReadMembers(fields: seq<Json.Field>, members: seq<Member>) returns (r: Result<seq<Val>>)
      requires stack != [] && Valid()
      modifies this
      ensures r.Ok? ==> stack == old(stack) && Valid() && Preserved(old(heap), heap) && old(nextId) <= nextId
      ensures r.Ok? ==> old(callbacks) <= callbacks
      ensures r.Ok? ==> ChangedBelow(old(processed), processed, old(Path())) && Untouched(old(processed), processed, old(Path()))
      ensures r.Ok? ==> MembersRead(Fields(r.value), members, fields, Outside(old(processed), old(Path())), old(heap))
      decreases Json.Size(Json.Obj(fields)), 1
    {
      ghost var path := Path();
      ghost var seen := Outside(processed, path);
      var defaults := seq(|members|, _ => VDefault);
      var chosen: seq<nat> := [];
      var objects: seq<Val> := [];
      for i := 0 to |members|
        invariant stack == old(stack) && Path() == path && Valid()
        invariant Preserved(old(heap), heap) && old(nextId) <= nextId
        invariant ChangedBelow(old(processed), processed, path) && Untouched(old(processed), processed, path)
        invariant old(callbacks) <= callbacks
        invariant Outside(processed, path) == seen
        invariant Chosen(chosen, objects, members, fields, i, seen, old(heap))
      {
        var memberName := Formatter.NormalizeMemberName(members[i].name);
        var jsMember := Json.Find(fields, memberName);
        if jsMember.None? {
          ChosenSkip(chosen, objects, members, fields, i, seen, old(heap));
          continue;
        }
        ghost var processed1 := processed;
        Json.FoundSmaller(fields, memberName);
        if LeafRead(jsMember.value, Some(members[i].declared), seen, old(heap)).Some? {
          LeafReadKept(jsMember.value, Some(members[i].declared), seen, processed, old(heap), heap);
        }
        var v :- ReadChild(MemberFragment(memberName), jsMember.value, Some(members[i].declared));
        ChangedBelowTrans(old(processed), processed1, processed, path);
        OutsideKept(processed1, processed, path);
        ChosenAdd(chosen, objects, members, fields, i, seen, old(heap), v);
        chosen := chosen + [i];
        objects := objects + [v];
      }
      var values := Populate(defaults, chosen, objects);
      PopulateRead(chosen, objects, members, fields, seen, old(heap));
      return Ok(values);
    }

    /** The members before the `i`-th whose JSON name is a key are the
        `chosen` ones, in order, and `objects` holds what each was read as. */
    predicate Chosen(chosen: seq<nat>, objects: seq<Val>, members: seq<Member>, fields: seq<Json.Field>, i: nat,
                     seen: map<string, Val>, h: Heap) {
      |chosen| == |objects| && i <= |members|
      && (forall a, b :: 0 <= a < b < |chosen| ==> chosen[a] < chosen[b])
      && (forall k :: 0 <= k < |chosen| ==> chosen[k] < i)
      && (forall j :: 0 <= j < i && Json.Find(fields, Formatter.NormalizeMemberName(members[j].name)).Some? ==> j in chosen)
      && (forall k :: 0 <= k < |chosen| ==>
            Json.Find(fields, Formatter.NormalizeMemberName(members[chosen[k]].name)).Some?
            && MemberRead(objects[k], members[chosen[k]], fields, seen, h))
    }

    /** A member whose JSON name is not a key is skipped. */
    lemma ChosenSkip(chosen: seq<nat>, objects: seq<Val>, members: seq<Member>, fields: seq<Json.Field>, i: nat,
                     seen: map<string, Val>, h: Heap)
      requires Chosen(chosen, objects, members, fields, i, seen, h) && i < |members|
      requires Json.Find(fields, Formatter.NormalizeMemberName(members[i].name)).None?
      ensures Chosen(chosen, objects, members, fields, i + 1, seen, h)
    {
    }

    /** A member whose JSON name is a key is chosen with what it was read as. */
    lemma ChosenAdd(chosen: seq<nat>, objects: seq<Val>, members: seq<Member>, fields: seq<Json.Field>, i: nat,
                    seen: map<string, Val>, h: Heap, v: Val)
      requires Chosen(chosen, objects, members, fields, i, seen, h) && i < |members|
      requires Json.Find(fields, Formatter.NormalizeMemberName(members[i].name)).Some?
      requires MemberRead(v, members[i], fields, seen, h)
      ensures Chosen(chosen + [i], objects + [v], members, fields, i + 1, seen, h)
    {
      var chosen', objects' := chosen + [i], objects + [v];
      forall k | 0 <= k < |chosen'|
        ensures Json.Find(fields, Formatter.NormalizeMemberName(members[chosen'[k]].name)).Some?
          && MemberRead(objects'[k], members[chosen'[k]], fields, seen, h)
      {
        if k < |chosen| {
          assert chosen'[k] == chosen[k] && objects'[k] == objects[k];
        }
      }
      forall j | 0 <= j < i + 1 && Json.Find(fields, Formatter.NormalizeMemberName(members[j].name)).Some?
        ensures j in chosen'
      {
        if j < i {
          assert j in chosen;
        } else {
          assert chosen'[|chosen|] == j;
        }
      }
    }

    /** `PopulateObjectMembers` over the chosen members gives every member
        what `MemberRead` says. */
    lemma PopulateRead(chosen: seq<nat>, objects: seq<Val>, members: seq<Member>, fields: seq<Json.Field>,
                       seen: map<string, Val>, h: Heap)
      requires Chosen(chosen, objects, members, fields, |members|, seen, h)
      ensures var values := Populate(seq(|members|, _ => VDefault), chosen, objects);
        MembersRead(Fields(values), members, fields, seen, h)
    {
      var defaults := seq(|members|, _ => VDefault);
      var values := Populate(defaults, chosen, objects);
      forall j | 0 <= j < |members|
        ensures MemberRead(values[j], members[j], fields, seen, h)
      {
        if Json.Find(fields, Formatter.NormalizeMemberName(members[j].name)).None? {
          PopulateOther(defaults, chosen, objects, j);
        } else {
          var k :| 0 <= k < |chosen| && chosen[k] == j;
          assert chosen[k] !in chosen[k + 1..];
          PopulateChosen(defaults, chosen, objects, k);
        }
      }
    }

    /** `DeserializeArray(object, object, Type)`: an array of the declared
        rank whose lengths are read from the nesting of the JSON arrays and
        whose lower bounds are 0 unless `@@lower_bounds@@` gives them, read
        before anything is committed; it is committed before its elements
        are read. */
    method DeserializeArray(jsValue: Json.Value, jsInner: Json.Value, t: TypeId, elem: TypeId, rank: nat)
      returns (r: Result<Val>)
      requires stack != [] && Valid() && Json.Size(jsInner) <= Json.Size(jsValue)
      modifies this
      ensures r.Ok? ==> stack == old(stack) && Valid() && Preserved(old(heap), heap) && old(nextId) <= nextId
      ensures r.Ok? ==> old(callbacks) <= callbacks && CommittedAt(old(processed), processed, old(Path()), r.value)
      ensures !jsInner.Arr? ==> r == Err(InvalidInputType)
      ensures jsInner.Arr? && LengthsForRank(jsInner, rank).Err? ==> r == Err(RankMismatch)
      ensures r.Ok? ==> ArrayValueRead(r.value, jsValue, jsInner, t, rank, old(processed), old(Path()), old(heap), heap)
      decreases Json.Size(jsValue), 1
    {
      if !jsInner.Arr? {
        return Err(InvalidInputType);
      }
      var lengths :- GetArrayLengthsForRank(jsInner, rank);
      ghost var path := Path();
      var lowerBounds :- ReadLowerBounds(jsValue, |lengths|);

      //create the array, commit it, then read its elements
      ghost var processed0, heap0 := processed, heap;
      var obj := HeapObj(t, ArrayData(lengths, lowerBounds, Fill(lengths, VDefault)));
      var id := Allocate(obj.t, obj.data);
      var committed := SetStackValue(VRef(id));
      ghost var processed1 := processed;
      RecordedRegisters(processed0, processed, path, committed);
      assert path[..|path|] == path;
      var o := DeserializeArrayWalk(id, jsInner, [], elem, path, committed);
      if o.Fail? {
        return Err(o.error);
      }
      FilledNew(heap0, heap, id, obj);
      CommitBefore(processed0, processed1, processed, path, committed);
      ChildrenBefore(old(processed), processed0, processed, path, committed);
      assert ArrayRead(heap[id], t, jsValue, jsInner, rank, Outside(old(processed), path), old(heap));
      return Ok(committed);
    }

    /** The lower bounds of an array of rank `n`: all 0, unless the value
        carries `@@lower_bounds@@`, whose items are then decoded as `int`,
        one per dimension, each under the frame of its index. */
    method ReadLowerBounds(jsValue: Json.Value, n: nat) returns (r: Result<seq<int>>)
      requires stack != [] && Valid()
      modifies this
      ensures r.Ok? ==> stack == old(stack) && Valid() && Preserved(old(heap), heap) && old(nextId) <= nextId
      ensures r.Ok? ==> old(callbacks) <= callbacks
      ensures r.Ok? ==> ChangedBelow(old(processed), processed, old(Path())) && Untouched(old(processed), processed, old(Path()))
      ensures r.Ok? ==> |r.value| == n
      ensures (!jsValue.Obj? || Json.Find(jsValue.fields, Json.LowerBoundsKey).None?) ==>
        r.Ok? && forall k :: 0 <= k < n ==> r.value[k] == 0
      ensures (jsValue.Obj? && n > 0 && Json.Find(jsValue.fields, Json.LowerBoundsKey).Some?
               && !Json.Find(jsValue.fields, Json.LowerBoundsKey).value.Arr?) ==> r == Err(InvalidLowerBounds)
      ensures (jsValue.Obj? && Json.Find(jsValue.fields, Json.LowerBoundsKey).Some?
               && Json.Find(jsValue.fields, Json.LowerBoundsKey).value.Arr?
               && |Json.Find(jsValue.fields, Json.LowerBoundsKey).value.items| < n) ==> r.Err?
      ensures GivenBounds(jsValue, n, Outside(old(processed), old(Path())), old(heap)).Some? ==>
        r == Ok(GivenBounds(jsValue, n, Outside(old(processed), old(Path())), old(heap)).value)
      decreases Json.Size(jsValue), 0
    {
      var lowerBounds := new int[n];
      for i := 0 to lowerBounds.Length
        modifies lowerBounds
        invariant forall k :: 0 <= k < i ==> lowerBounds[k] == 0
      {
        lowerBounds[i] := 0;
      }
      if jsValue.Obj? {
        var lowerBoundsObj := Json.Find(jsValue.fields, Json.LowerBoundsKey);
        if lowerBoundsObj.Some? {
          Json.FoundSmaller(jsValue.fields, Json.LowerBoundsKey);
          var o := ReadBoundItems(lowerBoundsObj.value, lowerBounds);
          if o.Fail? {
            return Err(o.error);
          }
        }
      }
      return Ok(lowerBounds[..]);
    }

    /** The loop over `@@lower_bounds@@`: its `i`-th item decoded as an
        `int` under the frame of its index and stored in `lowerBounds[i]`. */
    method ReadBoundItems(lbArray: Json.Value, lowerBounds: array<int>) returns (r: Outcome)
      requires stack != [] && Valid()
      modifies this, lowerBounds
      ensures r.Pass? ==> stack == old(stack) && Valid() && Preserved(old(heap), heap) && old(nextId) <= nextId
      ensures r.Pass? ==> old(callbacks) <= callbacks
      ensures r.Pass? ==> ChangedBelow(old(processed), processed, old(Path())) && Untouched(old(processed), processed, old(Path()))
      ensures lowerBounds.Length > 0 && !lbArray.Arr? ==> r == Fail(InvalidLowerBounds)
      ensures lbArray.Arr? && |lbArray.items| < lowerBounds.Length ==> r.Fail?
      ensures BoundItems(lbArray, lowerBounds.Length, Outside(old(processed), old(Path())), old(heap)).Some? ==>
        r == Pass && lowerBounds[..] == BoundItems(lbArray, lowerBounds.Length, Outside(old(processed), old(Path())), old(heap)).value
      decreases Json.Size(lbArray), 0
    {
      ghost var path := Path();
      ghost var seen := Outside(processed, path);
      ghost var given := BoundItems(lbArray, lowerBounds.Length, seen, old(heap));
      for i := 0 to lowerBounds.Length
        invariant stack == old(stack) && Path() == path && Valid()
        invariant Preserved(old(heap), heap) && old(nextId) <= nextId
        invariant ChangedBelow(old(processed), processed, path) && Untouched(old(processed), processed, path)
        invariant old(callbacks) <= callbacks
        invariant Outside(processed, path) == seen
        invariant i > 0 ==> lbArray.Arr? && i <= |lbArray.items|
        invariant given.Some? ==> lowerBounds[..i] == given.value[..i]
      {
        if !lbArray.Arr? || i >= |lbArray.items| {
          return Fail(InvalidLowerBounds);
        }
        ghost var processed1 := processed;
        Json.ItemSmaller(lbArray.items, i);
        assert given.Some? ==> IntRead(lbArray.items[i], seen, old(heap)).Some?;
        var b := ReadBound(i, lbArray.items[i], seen, old(heap));
        if b.Err? {
          return Fail(b.error);
        }
        ChangedBelowTrans(old(processed), processed1, processed, path);
        OutsideKept(processed1, processed, path);
        lowerBounds[i] := b.value;
        assert given.Some? ==> lowerBounds[..i + 1] == lowerBounds[..i] + [b.value];
      }
      assert lowerBounds[..] == lowerBounds[..lowerBounds.Length];
      return Pass;
    }

    /** One item of `@@lower_bounds@@`, read as an `int` at index `i`; an
        item that needs no walk is read as `IntRead` says, whatever the
        objects built since `h0`. */
    method ReadBound(i: nat, item: Json.Value, ghost seen: map<string, Val>, ghost h0: Heap) returns (r: Result<int>)
      requires stack != [] && Valid() && Outside(processed, Path()) == seen && Preserved(h0, heap)
      modifies this
      ensures r.Ok? ==> stack == old(stack) && Valid() && Preserved(old(heap), heap) && old(nextId) <= nextId
      ensures r.Ok? ==> old(callbacks) <= callbacks
      ensures r.Ok? ==> ChangedBelow(old(processed), processed, old(Path())) && Untouched(old(processed), processed, old(Path()))
      ensures IntRead(item, seen, h0).Some? ==> r == Ok(IntRead(item, seen, h0).value)
      decreases Json.Size(item), 8
    {
      if IntRead(item, seen, h0).Some? {
        LeafReadKept(item, Some(builtins.intType), seen, processed, h0, heap);
      }
      var v := ReadChild(IndexFragment(i), item, Some(builtins.intType));
      if v.Err? {
        return Err(v.error);
      }
      if !(v.value.VPrim? && v.value.t == builtins.intType && v.value.x.SInt?) {
        return Err(ConversionFailed);
      }
      return Ok(v.value.x.i);
    }

    /** `DeserializeArray(Array, JavaScriptArray, List<int>)`: reads the
        elements of the dimension `|indices|` below the given leading
        indices, in index order, from the JSON array at that position; a
        JSON array too short for the array's lengths fails, and items past
        those lengths are not read. */
    method DeserializeArrayWalk(id: ObjId, jsArray: Json.Value, indices: seq<int>, elem: TypeId,
                                ghost base: string, ghost owner: Val) returns (r: Outcome)
      requires stack != [] && Valid() && id in heap && Walkable(heap[id].data, indices)
      // the array was committed at `base`, at or above the current path, before its walk
      requires Anchored(processed, Path(), base, owner)
      modifies this
      ensures r.Pass? ==> stack == old(stack) && Valid() && old(nextId) <= nextId && old(callbacks) <= callbacks
      ensures r.Pass? ==> ChangedBelow(old(processed), processed, old(Path())) && Untouched(old(processed), processed, old(Path()))
      ensures r.Pass? ==> FilledOnly(old(heap), heap, id)
      ensures r.Pass? ==> Covers(jsArray, old(heap[id].data.lengths)[|indices|..])
      ensures r.Pass? ==> Anchored(processed, old(Path()), base, owner)
      ensures |indices| == |old(heap[id].data.lengths)| ==> r == Fail(InternalError)
      decreases Json.Size(jsArray), 0
    {
      var d := heap[id].data;
      if |indices| >= |d.lengths| {
        return Fail(InternalError);
      }
      var dim := |indices|;
      var lowerBound := d.lowerBounds[dim];
      var length := d.lengths[dim];
      ghost var path := Path();
      for k := 0 to length
        invariant stack == old(stack) && Path() == path && Valid() && old(nextId) <= nextId
        invariant ChangedBelow(old(processed), processed, path) && Untouched(old(processed), processed, path)
        invariant old(callbacks) <= callbacks
        invariant FilledOnly(old(heap), heap, id)
        invariant CoversPrefix(jsArray, k, d.lengths[dim + 1..])
        invariant Anchored(processed, path, base, owner)
      {
        if !jsArray.Arr? || k >= |jsArray.items| {
          return Fail(RaggedArray);
        }
        var i := lowerBound + k;
        Json.ItemSmaller(jsArray.items, k);
        ghost var processed1, heap1 := processed, heap;
        WalkableNext(old(heap)[id], heap[id], indices, i);
        r := DeserializeArrayItem(id, jsArray.items[k], indices + [i], elem, base, owner);
        if r.Fail? {
          return;
        }
        assert d.lengths[|indices + [i]|..] == d.lengths[dim + 1..];
        CoversNext(jsArray, k, d.lengths[dim + 1..]);
        ChangedBelowTrans(old(processed), processed1, processed, path);
        FilledOnlyTrans(old(heap), heap1, heap, id);
      }
      assert d.lengths[dim..][1..] == d.lengths[dim + 1..];
      CoversAll(jsArray, d.lengths[dim..]);
      return Pass;
    }

    /** One step of the walk, under the frame of the last index: the
        sub-array below `indices`, or, at full depth, the element at
        `indices`, decoded with the element type and set in the array. */
    method DeserializeArrayItem(id: ObjId, item: Json.Value, indices: seq<int>, elem: TypeId,
                                ghost base: string, ghost owner: Val) returns (r: Outcome)
      requires stack != [] && Valid() && id in heap && Walkable(heap[id].data, indices) && indices != []
      requires Anchored(processed, Path(), base, owner)
      modifies this
      ensures r.Pass? ==> stack == old(stack) && Valid() && old(nextId) <= nextId && old(callbacks) <= callbacks
      ensures r.Pass? ==> ChangedBelow(old(processed), processed, old(Path())) && Untouched(old(processed), processed, old(Path()))
      ensures r.Pass? ==> FilledOnly(old(heap), heap, id)
      ensures r.Pass? ==> Covers(item, old(heap[id].data.lengths)[|indices|..])
      ensures r.Pass? ==> Anchored(processed, old(Path()), base, owner)
      decreases Json.Size(item), 8
    {
      ghost var path := Path();
      var fragment := IndexFragment(indices[|indices| - 1]);
      if |indices| < |heap[id].data.lengths| {
        AnchoredPush(processed, path, fragment, base, owner);
        Push(fragment);
        r := DeserializeArrayWalk(id, item, indices, elem, base, owner);
        if r.Fail? {
          return;
        }
        ChildChanges(old(processed), processed, path, fragment);
        Pop();
      } else {
        var v := ReadChild(fragment, item, Some(elem));
        if v.Err? {
          return Fail(v.error);
        }
        var cur := heap[id];
        IndicesGiveOffsets(indices, cur.data.lengths, cur.data.lowerBounds);
        var grid := GridSet(cur.data.grid, cur.data.lengths, Offsets(indices, cur.data.lowerBounds), v.value);
        heap := heap[id := cur.(data := cur.data.(grid := grid))];
        AnchoredKept(old(processed), processed, path, base, owner);
        r := Pass;
      }
    }

    /** `DeserializeList`: the list is created and committed, then filled
        with the elements of a one-dimensional array of its item type read
        from the same JSON, under the `"@@"` frame. */
    method DeserializeList(jsInner: Json.Value, t: TypeId, item: TypeId, itemArray: TypeId) returns (r: Result<Val>)
      requires stack != [] && Valid()
      modifies this
      ensures r.Ok? ==> stack == old(stack) && Valid() && Preserved(old(heap), heap) && old(nextId) <= nextId
      ensures r.Ok? ==> old(callbacks) <= callbacks && CommittedAt(old(processed), processed, old(Path()), r.value)
      ensures !jsInner.Arr? ==> r == Err(InvalidInputType)
      ensures r.Ok? ==> ListRead(r.value, jsInner, t, itemArray, old(nextId), heap)
      decreases Json.Size(jsInner), 3
    {
      var id := Allocate(t, ListItems([]));
      var committed := SetStackValue(VRef(id));
      ghost var processed1 := processed;
      ghost var path := Path();
      RecordedRegisters(old(processed), processed, path, committed);
      var items :- ReadContainerArray(jsInner, itemArray, item, committed);
      AllocatedThenSet(old(heap), heap, id, HeapObj(t, ListItems([])), HeapObj(t, ListItems(items)));
      heap := heap[id := HeapObj(t, ListItems(items))];
      CommitBefore(old(processed), processed1, processed, path, committed);
      return Ok(committed);
    }

    /** `DeserializeDictionary`: the comparer, when given, is read first;
        then the dictionary is created with it (or the default comparer) and
        committed, and its pairs are added from a one-dimensional array of
        `JsonKeyValue<K, V>` records read from the same JSON, under the
        `"@@"` frame. */
    method DeserializeDictionary(js: Json.Value, jsInner: Json.Value, t: TypeId, pair: TypeId, pairArray: TypeId)
      returns (r: Result<Val>)
      requires stack != [] && Valid() && Json.Size(jsInner) <= Json.Size(js)
      modifies this
      ensures r.Ok? ==> stack == old(stack) && Valid() && Preserved(old(heap), heap) && old(nextId) <= nextId
      ensures r.Ok? ==> old(callbacks) <= callbacks && CommittedAt(old(processed), processed, old(Path()), r.value)
      ensures !jsInner.Arr? ==> r.Err?
      ensures r.Ok? ==> DictionaryRead(r.value, js, jsInner, t, pairArray, old(heap), heap)
      decreases Json.Size(js), 4
    {
      ghost var path := Path();
      var comparerObject :- ReadComparer(js);
      ghost var processed0, heap0 := processed, heap;
      r := CreateDictionary(jsInner, t, pair, pairArray, comparerObject);
      if r.Ok? {
        ChildrenBefore(old(processed), processed0, processed, path, r.value);
        PreservedTrans(old(heap), heap0, heap);
      }
    }

    /** The dictionary itself, once its comparer is known: created with that
        comparer (the default one when it is null), committed, and then
        given the pairs read under the `"@@"` frame. */
    method CreateDictionary(jsInner: Json.Value, t: TypeId, pair: TypeId, pairArray: TypeId, comparer: Val)
      returns (r: Result<Val>)
      requires stack != [] && Valid()
      modifies this
      ensures r.Ok? ==> stack == old(stack) && Valid() && Preserved(old(heap), heap) && old(nextId) <= nextId
      ensures r.Ok? ==> old(callbacks) <= callbacks && CommittedAt(old(processed), processed, old(Path()), r.value)
      ensures !jsInner.Arr? ==> r.Err?
      ensures r.Ok? ==> exists id, pairs :: (id in heap && id !in old(heap)
        && heap[id] == HeapObj(t, DictEntries(pairs, comparer, comparer.VNull?))
        && r.value == RealObject(t, VRef(id))
        && (jsInner.Arr? && !types(pairArray).isObjectReference ==> |pairs| == |jsInner.items|))
      decreases Json.Size(jsInner), 3
    {
      ghost var path := Path();
      var id := Allocate(t, DictEntries([], comparer, comparer.VNull?));
      var committed := SetStackValue(VRef(id));
      ghost var processed1 := processed;
      RecordedRegisters(old(processed), processed, path, committed);
      var records :- ReadContainerArray(jsInner, pairArray, pair, committed);
      var pairs :- ReadPairs(records);
      AllocatedThenSet(old(heap), heap, id, HeapObj(t, DictEntries([], comparer, comparer.VNull?)),
                       HeapObj(t, DictEntries(pairs, comparer, comparer.VNull?)));
      heap := heap[id := HeapObj(t, DictEntries(pairs, comparer, comparer.VNull?))];
      CommitBefore(old(processed), processed1, processed, path, committed);
      return Ok(committed);
    }

    /** The dictionary's comparer: the `comparer` key decoded as an
        `object` under its own frame, or null when there is none. */
    method ReadComparer(js: Json.Value) returns (r: Result<Val>)
      requires stack != [] && Valid()
      modifies this
      ensures r.Ok? ==> stack == old(stack) && Valid() && Preserved(old(heap), heap) && old(nextId) <= nextId
      ensures r.Ok? ==> old(callbacks) <= callbacks
      ensures r.Ok? ==> ChangedBelow(old(processed), processed, old(Path())) && Untouched(old(processed), processed, old(Path()))
      ensures (!js.Obj? || Json.Find(js.fields, Json.ComparerKey).None?) ==> r == Ok(VNull)
      decreases Json.Size(js), 2
    {
      if js.Obj? {
        var comparer := Json.Find(js.fields, Json.ComparerKey);
        if comparer.Some? {
          Json.FoundSmaller(js.fields, Json.ComparerKey);
          r := ReadChild(MemberFragment(Json.ComparerKey), comparer.value, Some(builtins.objectType));
          return;
        }
      }
      return Ok(VNull);
    }

    /** The contents of a list or a dictionary: a one-dimensional array of
        `arrayType` read from the same JSON under the `"@@"` frame; a null
        array fails. */
    method ReadContainerArray(jsInner: Json.Value, arrayType: TypeId, elem: TypeId, ghost owner: Val)
      returns (r: Result<seq<Val>>)
      requires stack != [] && Valid()
      // the container was committed at the current path before its items are read
      requires Registered(processed, Path(), owner)
      modifies this
      ensures r.Ok? ==> stack == old(stack) && Valid() && Preserved(old(heap), heap) && old(nextId) <= nextId
      ensures r.Ok? ==> old(callbacks) <= callbacks
      ensures r.Ok? ==> ChangedBelow(old(processed), processed, old(Path())) && Untouched(old(processed), processed, old(Path()))
      ensures !jsInner.Arr? ==> r == Err(InvalidInputType)
      ensures r.Ok? && !types(arrayType).isObjectReference ==> jsInner.Arr? && |r.value| == |jsInner.items|
      decreases Json.Size(jsInner), 2
    {
      ghost var path := Path();
      Push(ContainerFragment);
      ghost var seen, heap0 := Outside(processed, Path()), heap;
      var arrayData :- DeserializeArray(jsInner, jsInner, arrayType, elem, 1);
      ChildChanges(old(processed), processed, path, ContainerFragment);
      Pop();
      if arrayData.VNull? {
        return Err(InternalError);
      }
      if jsInner.Arr? && !types(arrayType).isObjectReference {
        ItemCount(arrayData, jsInner, arrayType, elem, seen, heap0);
      }
      var items :- ArrayItems(arrayData);
      return Ok(items);
    }

    /** The dictionary's `Add` loop: the key and the value of every record,
        in order; a record that is not a `JsonKeyValue` fails. */
    method ReadPairs(records: seq<Val>) returns (r: Result<seq<Pair>>)
      ensures r.Ok? <==> forall k :: 0 <= k < |records| ==> RecordPair(heap, records[k]).Some?
      ensures r.Ok? ==> (|r.value| == |records|
        && forall k :: 0 <= k < |records| ==> RecordPair(heap, records[k]) == Some(r.value[k]))
    {
      var pairs: seq<Pair> := [];
      for k := 0 to |records|
        invariant |pairs| == k
        invariant forall j :: 0 <= j < k ==> RecordPair(heap, records[j]) == Some(pairs[j])
      {
        var p := RecordPair(heap, records[k]);
        if p.None? {
          return Err(Malformed);
        }
        pairs := pairs + [p.value];
      }
      return Ok(pairs);
    }

    /** The one-dimensional array read for a list or a dictionary has one
        element per item of the JSON array. */
    lemma ItemCount(arrayData: Val, jsInner: Json.Value, t: TypeId, elem: TypeId, seen: map<string, Val>, h: Heap)
      requires jsInner.Arr? && !types(t).isObjectReference
      requires exists id :: id in heap && ArrayRead(heap[id], t, jsInner, jsInner, 1, seen, h) && arrayData == RealObject(t, VRef(id))
      ensures ArrayItems(arrayData).Ok? && |ArrayItems(arrayData).value| == |jsInner.items|
    {
      var id :| id in heap && ArrayRead(heap[id], t, jsInner, jsInner, 1, seen, h) && arrayData == RealObject(t, VRef(id));
      assert arrayData == VRef(id);
      LengthsForRankOne(jsInner);
      var g := heap[id].data.grid;
      assert Shaped(g, [|jsInner.items|]);
      assert forall k :: 0 <= k < |g.items| ==> Shaped(g.items[k], []);
    }
  }

  /** `JsonFormatter.Deserialize`: a worker over the formatter's current
      settings decodes the JSON tree; the result, the objects built and the
      callbacks made are returned. */
  method Deserialize(formatter: Formatter.JsonFormatter, types: TypeId -> TypeDesc, builtins: Builtins,
                     foreign: Foreign, jsRoot: Json.Value, expectedType: Option<TypeId>)
    returns (r: Result<Val>, heap: Heap, invoked: seq<Val>)
    ensures jsRoot.Null? ==> r == Ok(VNull)
    ensures expectedType.None? && TagOf(jsRoot).None? && !PayloadOf(jsRoot).Null? ==> r == Err(CannotDeduceType)
  {
    var worker := new JsonDeserializerWorker(formatter.Snapshot(), types, builtins, foreign);
    r, invoked := worker.Run(jsRoot, expectedType);
    heap := worker.heap;
  }
}
