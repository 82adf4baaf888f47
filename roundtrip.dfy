/** How the two walkers fit together: what the encoder writes for a value
    is read by the decoder as that value. The leaf lemmas take a value that
    needs no walk (a scalar, a null, a reference object met again) and show
    that the decoder's `LeafRead` of the encoder's `LeafJson` is that value;
    the one-level lemmas take the object written by the member or the bag
    branch and show that every member or entry written as a leaf is read
    back from its own JSON, and so as the value written, including a
    member that holds the object itself. Both workers are taken over the same type descriptions. */
module RoundTrip {
  import opened Wrappers
  import opened TypeModel
  import opened Arrays
  import opened TypeTags
  import Json
  import Paths
  import Formatter
  import Serializer
  import Deserializer

  /** Looking a key up in two runs of fields: the first run wins. */
  lemma {:induction false} FindAppend(a: seq<Json.Field>, b: seq<Json.Field>, k: string)
    ensures Json.Find(a + b, k) == if k in Json.Keys(a) then Json.Find(a, k) else Json.Find(b, k)
    decreases |a|
  {
    if a != [] {
      assert (a + b)[0] == a[0];
      assert (a + b)[1..] == a[1..] + b;
      Json.KeysTail(a);
      FindAppend(a[1..], b, k);
    } else {
      assert a + b == b;
    }
  }

  /** An envelope is read as its `@@type@@` and its `@@value@@`, provided
      its extra fields do not shadow `@@value@@`. */
  lemma EnvelopeRead(path: string, tag: string, extras: seq<Json.Field>, inner: Json.Value)
    requires Json.ValueKey !in Json.Keys(extras)
    ensures Deserializer.TagOf(Serializer.Envelope(path, tag, extras, inner)) == Some(Json.Str(tag))
    ensures Deserializer.PayloadOf(Serializer.Envelope(path, tag, extras, inner)) == inner
  {
    var head := [Serializer.InfoField(path), Serializer.TypeField(tag)];
    var tail := [Json.Field(Json.ValueKey, inner)];
    assert Json.Keys(head) == [Json.InfoKey, Json.TypeKey];
    FindAppend(head + extras, tail, Json.TypeKey);
    FindAppend(head, extras, Json.TypeKey);
    assert Json.Find(head, Json.TypeKey) == Some(Json.Str(tag)) by {
      assert head[1..] == [Serializer.TypeField(tag)];
    }
    FindAppend(head + extras, tail, Json.ValueKey);
    FindAppend(head, extras, Json.ValueKey);
    assert Json.ValueKey !in Json.Keys(head + extras) by {
      Json.KeysAppend(head, extras);
    }
    assert Json.Find(tail, Json.ValueKey) == Some(inner);
  }

  /** The two workers agree on the types of the graph. */
  ghost predicate SameTypes(s: Serializer.JsonSerializerWorker, w: Deserializer.JsonDeserializerWorker) {
    (forall t :: s.types(t) == w.types(t)) && s.builtins == w.builtins
  }

  /** An elementary value is written as its scalar, in an envelope when
      its type differs from the one expected, and read back as the same
      value: taken as it is when the JSON reader gives the scalar that type
      (`string`, `long`, `bool`), and through `Convert.ChangeType`
      otherwise, provided that conversion gives the value back and, for an
      envelope, the written tag names the type again. */
  lemma ElementaryRoundTrip(s: Serializer.JsonSerializerWorker, w: Deserializer.JsonDeserializerWorker,
                            t: TypeId, x: Scalar, expectedType: Option<TypeId>, path: string,
                            seen: map<ObjId, string>, registered: map<string, Val>, h: Heap)
    requires SameTypes(s, w) && IsElementary(s.types(t)) && !s.types(t).isObjectReference
    requires Some(t) != expectedType ==>
      ResolveTypeTag(w.settings.binder, w.foreign, Json.Str(s.TypeTag(t))) == Ok(t)
    requires Deserializer.ReaderType(w.builtins, ScalarJson(x)) != Some(t) ==>
      w.foreign.changeType(ScalarJson(x), t) == Some(VPrim(t, x))
    ensures s.LeafJson(VPrim(t, x), expectedType, path, seen).Some?
    ensures w.LeafRead(s.LeafJson(VPrim(t, x), expectedType, path, seen).value, expectedType, registered, h)
              == Some(VPrim(t, x))
  {
    if Some(t) != expectedType {
      EnvelopeRead(path, s.TypeTag(t), [], ScalarJson(x));
    }
  }

  /** A null is written bare when a type is expected and in an `object`
      envelope otherwise, and is read back as a null, provided the tag
      written for `object` resolves. */
  lemma NullRoundTrip(s: Serializer.JsonSerializerWorker, w: Deserializer.JsonDeserializerWorker,
                      expectedType: Option<TypeId>, path: string, seen: map<ObjId, string>,
                      registered: map<string, Val>, h: Heap)
    requires expectedType.None? ==>
      ResolveTypeTag(w.settings.binder, w.foreign, Json.Str(s.TypeTag(s.builtins.objectType))).Ok?
    ensures s.LeafJson(VNull, expectedType, path, seen).Some?
    ensures w.LeafRead(s.LeafJson(VNull, expectedType, path, seen).value, expectedType, registered, h) == Some(VNull)
  {
    if expectedType.None? {
      EnvelopeRead(path, s.TypeTag(s.builtins.objectType), [], Json.Null);
    }
  }

  /** The object written for a reference object met again carries no tag
      and names, under `@@reference@@`, the path it was first written at. */
  lemma ReferenceJsonRead(path: string, target: string)
    ensures var js := Serializer.ReferenceJson(path, target);
      Deserializer.TagOf(js).None? && Deserializer.PayloadOf(js) == js
      && Json.Find(js.fields, Json.ReferenceKey) == Some(Json.Str(target))
  {
    var fs := Serializer.ReferenceJson(path, target).fields;
    assert fs[1..] == [Json.Field(Json.ReferenceKey, Json.Str(target))];
    assert Json.Keys(fs) == [Json.InfoKey, Json.ReferenceKey];
  }

  /** A reference object met again is written as a back-reference to the
      path it was first written at, and read back as what the decoder
      registered at that path, for any expected reference type. */
  lemma ReferenceRoundTrip(s: Serializer.JsonSerializerWorker, w: Deserializer.JsonDeserializerWorker,
                           id: ObjId, expectedType: TypeId, path: string, seen: map<ObjId, string>,
                           registered: map<string, Val>, h: Heap)
    requires SameTypes(s, w)
    requires id in s.heap && id in seen
    requires !IsElementary(s.types(s.heap[id].t)) && !s.types(s.heap[id].t).isValueType
    requires !IsElementary(s.types(expectedType)) && !s.types(expectedType).isValueType
    requires seen[id] in registered && Deserializer.Known(h, registered[seen[id]])
    ensures s.LeafJson(VRef(id), Some(expectedType), path, seen) == Some(Serializer.ReferenceJson(path, seen[id]))
    ensures w.LeafRead(Serializer.ReferenceJson(path, seen[id]), Some(expectedType), registered, h)
              == Some(w.Resolved(h, registered[seen[id]]))
  {
    ReferenceJsonRead(path, seen[id]);
  }

  /* ---------- one level: the member and the bag branches ---------- */

  /** What a value needing no walk comes back as, when read with the type
      it was written for: a null as a null; a scalar as itself, provided
      its tag resolves and `Convert.ChangeType` gives it back (as
      `ElementaryRoundTrip` takes); a reference object met again as what
      the decoder registered at its first path (as `ReferenceRoundTrip`
      takes). `None` when none of these applies. */
  ghost function LeafReturn(s: Serializer.JsonSerializerWorker, w: Deserializer.JsonDeserializerWorker,
                            value: Val, expectedType: TypeId, seen: map<ObjId, string>,
                            registered: map<string, Val>, h: Heap): Option<Val> {
    match value
    case VNull => Some(VNull)
    case VPrim(t, x) =>
      if IsElementary(s.types(t)) && !s.types(t).isObjectReference
         && (t != expectedType ==> ResolveTypeTag(w.settings.binder, w.foreign, Json.Str(s.TypeTag(t))) == Ok(t))
         && (Deserializer.ReaderType(w.builtins, ScalarJson(x)) != Some(t) ==>
               w.foreign.changeType(ScalarJson(x), t) == Some(VPrim(t, x)))
      then Some(value) else None
    case VRef(id) =>
      if id in s.heap && id in seen
         && !IsElementary(s.types(s.heap[id].t)) && !s.types(s.heap[id].t).isValueType
         && !IsElementary(s.types(expectedType)) && !s.types(expectedType).isValueType
         && seen[id] in registered && Deserializer.Known(h, registered[seen[id]])
      then Some(w.Resolved(h, registered[seen[id]])) else None
    case _ => None
  }

  /** Whenever `LeafReturn` gives a value, the encoder writes the value as a
      leaf and the decoder reads that leaf as the value `LeafReturn` gives. */
  lemma LeafReturnRead(s: Serializer.JsonSerializerWorker, w: Deserializer.JsonDeserializerWorker,
                       value: Val, expectedType: TypeId, path: string, seen: map<ObjId, string>,
                       registered: map<string, Val>, h: Heap)
    requires SameTypes(s, w) && LeafReturn(s, w, value, expectedType, seen, registered, h).Some?
    ensures s.LeafJson(value, Some(expectedType), path, seen).Some?
    ensures w.LeafRead(s.LeafJson(value, Some(expectedType), path, seen).value, Some(expectedType), registered, h)
              == LeafReturn(s, w, value, expectedType, seen, registered, h)
  {
    match value
    case VNull =>
      NullRoundTrip(s, w, Some(expectedType), path, seen, registered, h);
    case VPrim(t, x) =>
      ElementaryRoundTrip(s, w, t, x, Some(expectedType), path, seen, registered, h);
    case VRef(id) =>
      ReferenceRoundTrip(s, w, id, expectedType, path, seen, registered, h);
  }

  /** A value read back as `LeafReadBack` says, from a leaf `LeafReturn`
      covers, is that leaf's returned value. */
  lemma LeafReadBackReturn(s: Serializer.JsonSerializerWorker, w: Deserializer.JsonDeserializerWorker,
                           v: Val, value: Val, expectedType: TypeId, path: string, seen: map<ObjId, string>,
                           registered: map<string, Val>, h: Heap)
    requires SameTypes(s, w) && LeafReturn(s, w, value, expectedType, seen, registered, h).Some?
    requires LeafReadBack(s, w, v, value, expectedType, path, seen, registered, h)
    ensures v == LeafReturn(s, w, value, expectedType, seen, registered, h).value
  {
    LeafReturnRead(s, w, value, expectedType, path, seen, registered, h);
  }

  /** The decoder read `v` from JSON the encoder wrote for `value` as a
      leaf, whenever the encoder wrote a leaf and the decoder can read it
      without a walk. */
  ghost predicate LeafReadBack(s: Serializer.JsonSerializerWorker, w: Deserializer.JsonDeserializerWorker,
                         v: Val, value: Val, expectedType: TypeId, path: string, seen: map<ObjId, string>,
                         registered: map<string, Val>, h: Heap) {
    var written := s.LeafJson(value, Some(expectedType), path, seen);
    written.Some? && w.LeafRead(written.value, Some(expectedType), registered, h).Some? ==>
      v == w.LeafRead(written.value, Some(expectedType), registered, h).value
  }

  /** An object written by the member branch and read back by the member
      branch: every member whose name no earlier member took, and whose
      value was written as a leaf, is read from that leaf's JSON, and so
      comes back as `LeafReturn` says when the two workers share their
      types; a later member of a name already taken is read from the first
      one's JSON, with its own declared type. */
  lemma MembersRoundTrip(s: Serializer.JsonSerializerWorker, w: Deserializer.JsonDeserializerWorker,
                         js: Json.Value, members: seq<Member>, values: seq<Val>, needTypeInfo: bool,
                         path: string, tag: string, seen: map<ObjId, string>,
                         d: ObjData, registered: map<string, Val>, h: Heap)
    requires s.MembersJson(js, members, values, needTypeInfo, path, tag, seen)
    requires w.MembersRead(d, members, js.fields, registered, h)
    ensures |d.values| == |values| == |members|
    ensures var names := Formatter.MemberNames(members);
      forall k :: 0 <= k < |members| && names[k] !in names[..k] ==>
        LeafReadBack(s, w, d.values[k], values[k], members[k].declared, path + Paths.MemberFragment(names[k]), seen, registered, h)
    ensures var names := Formatter.MemberNames(members);
      SameTypes(s, w) ==> forall k ::
        (0 <= k < |members| && names[k] !in names[..k]
         && LeafReturn(s, w, values[k], members[k].declared, seen, registered, h).Some?) ==>
        d.values[k] == LeafReturn(s, w, values[k], members[k].declared, seen, registered, h).value
    ensures var names := Formatter.MemberNames(members);
      forall j, k :: 0 <= j < k < |members| && names[j] == names[k] && names[j] !in names[..j] ==>
        var written := s.LeafJson(values[j], Some(members[j].declared), path + Paths.MemberFragment(names[j]), seen);
        written.Some? && w.LeafRead(written.value, Some(members[k].declared), registered, h).Some? ==>
          d.values[k] == w.LeafRead(written.value, Some(members[k].declared), registered, h).value
  {
    var names := Formatter.MemberNames(members);
    forall k | 0 <= k < |members| && names[k] !in names[..k]
      ensures LeafReadBack(s, w, d.values[k], values[k], members[k].declared, path + Paths.MemberFragment(names[k]), seen, registered, h)
    {
      assert s.MemberWritten(js.fields, names[k], values[k], members[k].declared, path, seen);
      Formatter.MemberNamesAt(members, k);
      assert w.MemberRead(d.values[k], members[k], js.fields, registered, h);
    }
    if SameTypes(s, w) {
      forall k | 0 <= k < |members| && names[k] !in names[..k]
        && LeafReturn(s, w, values[k], members[k].declared, seen, registered, h).Some?
        ensures d.values[k] == LeafReturn(s, w, values[k], members[k].declared, seen, registered, h).value
      {
        LeafReadBackReturn(s, w, d.values[k], values[k], members[k].declared, path + Paths.MemberFragment(names[k]), seen, registered, h);
      }
    }
    forall j, k | 0 <= j < k < |members| && names[j] == names[k] && names[j] !in names[..j]
      ensures var written := s.LeafJson(values[j], Some(members[j].declared), path + Paths.MemberFragment(names[j]), seen);
        written.Some? && w.LeafRead(written.value, Some(members[k].declared), registered, h).Some? ==>
          d.values[k] == w.LeafRead(written.value, Some(members[k].declared), registered, h).value
    {
      LaterMemberRead(s, w, js, members, values, needTypeInfo, path, tag, seen, d, registered, h, j, k);
    }
  }

  /** Member `k` shares its name with the earlier member `j` that first
      took it, so it is read from `j`'s JSON. */
  lemma LaterMemberRead(s: Serializer.JsonSerializerWorker, w: Deserializer.JsonDeserializerWorker,
                        js: Json.Value, members: seq<Member>, values: seq<Val>, needTypeInfo: bool,
                        path: string, tag: string, seen: map<ObjId, string>,
                        d: ObjData, registered: map<string, Val>, h: Heap, j: nat, k: nat)
    requires s.MembersJson(js, members, values, needTypeInfo, path, tag, seen)
    requires w.MembersRead(d, members, js.fields, registered, h)
    requires var names := Formatter.MemberNames(members);
      j < k < |members| && names[j] == names[k] && names[j] !in names[..j]
    ensures var name := Formatter.MemberNames(members)[j];
      var written := s.LeafJson(values[j], Some(members[j].declared), path + Paths.MemberFragment(name), seen);
      written.Some? && w.LeafRead(written.value, Some(members[k].declared), registered, h).Some? ==>
        d.values[k] == w.LeafRead(written.value, Some(members[k].declared), registered, h).value
  {
    var names := Formatter.MemberNames(members);
    assert s.MemberWritten(js.fields, names[j], values[j], members[j].declared, path, seen);
    Formatter.MemberNamesAt(members, k);
    assert w.MemberRead(d.values[k], members[k], js.fields, registered, h);
  }

  /** A reference object that holds itself in member `k` is written with a
      back-reference to its own path under that member, and the member
      branch of the decoder, which registers the object at that path before
      it reads the members, gives member `k` the very object it builds: a
      cycle through a member survives the round trip. */
  lemma SelfMemberRoundTrip(s: Serializer.JsonSerializerWorker, w: Deserializer.JsonDeserializerWorker,
                            js: Json.Value, id: ObjId, needTypeInfo: bool, path: string,
                            seen: map<ObjId, string>, k: nat,
                            v: Val, registered: map<string, Val>, h0: Heap, n0: ObjId, h1: Heap)
    requires SameTypes(s, w)
    requires id in s.heap && !s.types(s.heap[id].t).isValueType && !IsElementary(s.types(s.heap[id].t))
    requires !s.types(s.heap[id].t).isObjectReference
    requires s.BranchOf(s.heap[id].t).MembersBranch? && s.heap[id].data.Fields?
    requires k < |s.heap[id].data.values| && s.heap[id].data.values[k] == VRef(id)
    requires s.BranchJson(js, VRef(id), s.heap[id].t, needTypeInfo, path, s.Enter(VRef(id), seen, path))
    requires var names := Formatter.MemberNames(s.types(s.heap[id].t).members); k < |names| && names[k] !in names[..k]
    requires var declared := s.types(s.heap[id].t).members[k].declared;
      !IsElementary(s.types(declared)) && !s.types(declared).isValueType
    requires w.MembersValueRead(v, js, s.heap[id].t, registered, path, h0, n0, h1)
    ensures v == VRef(n0)
    ensures h1[n0].data.Fields? && k < |h1[n0].data.values| && h1[n0].data.values[k] == VRef(n0)
  {
    var t := s.heap[id].t;
    var members := s.types(t).members;
    var name := Formatter.MemberNames(members)[k];
    s.SelfMember(js, id, needTypeInfo, path, seen, k);
    Formatter.MemberNamesAt(members, k);
    var back := Serializer.ReferenceJson(path + "." + name, path);
    ReferenceJsonRead(path + "." + name, path);
    var inner := Deserializer.Outside(w.Record(registered, path, v), path);
    var h := h0[n0 := h1[n0]];
    assert path in inner && inner[path] == v;
    assert w.MemberRead(h1[n0].data.values[k], members[k], js.fields, inner, h);
    assert w.LeafRead(back, Some(members[k].declared), inner, h) == Some(VRef(n0));
  }

  /** The keys and the values the bag branch reads from an object whose
      keys are the envelope keys followed by names that are neither. */
  lemma {:induction false} BagAfterEnvelope(fs: seq<Json.Field>, names: seq<string>)
    requires Json.Keys(fs) == [Json.InfoKey, Json.TypeKey] + names
    requires forall k :: 0 <= k < |names| ==> names[k] != Json.InfoKey && names[k] != Json.TypeKey
    ensures Deserializer.BagKeys(fs) == names
    ensures forall k :: 0 <= k < |names| ==> Deserializer.BagValues(fs)[k] == fs[k + 2].val
    decreases |names|
  {
    if names == [] {
      assert Json.Keys(fs)[0] == Json.InfoKey && Json.Keys(fs)[1] == Json.TypeKey;
      assert fs[..1][..0] == [];
      assert Deserializer.BagKeys(fs[..1]) == [];
      assert Deserializer.BagValues(fs[..1]) == [];
    } else {
      var init := fs[..|fs| - 1];
      assert Json.Keys(init) == [Json.InfoKey, Json.TypeKey] + names[..|names| - 1] by {
        assert Json.Keys(init) == Json.Keys(fs)[..|fs| - 1];
        assert ([Json.InfoKey, Json.TypeKey] + names)[..|fs| - 1] == [Json.InfoKey, Json.TypeKey] + names[..|names| - 1];
      }
      assert fs[|fs| - 1].key == names[|names| - 1] by {
        assert Json.Keys(fs)[|fs| - 1] == names[|names| - 1];
      }
      BagAfterEnvelope(init, names[..|names| - 1]);
      assert names == names[..|names| - 1] + [names[|names| - 1]];
      forall k | 0 <= k < |names|
        ensures Deserializer.BagValues(fs)[k] == fs[k + 2].val
      {
        if k < |names| - 1 {
          assert init[k + 2] == fs[k + 2];
        }
      }
    }
  }

  /** An object written by the bag branch and read back by the bag
      branch: the entries come back under the same names, in the same
      order, and every entry written as a leaf is read from that leaf's
      JSON as an `object`. */
  lemma BagRoundTrip(s: Serializer.JsonSerializerWorker, w: Deserializer.JsonDeserializerWorker,
                     js: Json.Value, entries: seq<BagEntry>, path: string, tag: string, seen: map<ObjId, string>,
                     read: seq<BagEntry>, registered: map<string, Val>, h: Heap)
    requires SameTypes(s, w)
    requires s.BagJson(js, entries, path, tag, seen)
    requires w.EntriesRead(read, js.fields, registered, h)
    ensures EntryNames(read) == EntryNames(entries)
    ensures forall k :: 0 <= k < |entries| ==>
      LeafReadBack(s, w, read[k].val, entries[k].val, s.builtins.objectType, path + Paths.MemberFragment(entries[k].name), seen, registered, h)
    ensures forall k :: 0 <= k < |entries| && LeafReturn(s, w, entries[k].val, s.builtins.objectType, seen, registered, h).Some? ==>
      read[k].val == LeafReturn(s, w, entries[k].val, s.builtins.objectType, seen, registered, h).value
  {
    var names := EntryNames(entries);
    var all := [Json.InfoKey, Json.TypeKey] + names;
    forall k | 0 <= k < |names|
      ensures names[k] != Json.InfoKey && names[k] != Json.TypeKey
    {
      assert all[k + 2] == names[k] && all[0] == Json.InfoKey && all[1] == Json.TypeKey;
    }
    BagAfterEnvelope(js.fields, names);
    forall k | 0 <= k < |entries|
      ensures LeafReadBack(s, w, read[k].val, entries[k].val, s.builtins.objectType, path + Paths.MemberFragment(entries[k].name), seen, registered, h)
    {
      assert w.EntryRead(read[k].val, Deserializer.BagValues(js.fields)[k], registered, h);
    }
    forall k | 0 <= k < |entries| && LeafReturn(s, w, entries[k].val, s.builtins.objectType, seen, registered, h).Some?
      ensures read[k].val == LeafReturn(s, w, entries[k].val, s.builtins.objectType, seen, registered, h).value
    {
      LeafReadBackReturn(s, w, read[k].val, entries[k].val, s.builtins.objectType, path + Paths.MemberFragment(entries[k].name), seen, registered, h);
    }
  }

  /* ---------- array bounds ---------- */

  /** The lower bounds of an array are read back from what the encoder
      writes for them: `@@lower_bounds@@`, when some bound is not 0, is read
      as those bounds, provided `int` is elementary and `Convert.ChangeType`
      gives every written number back as an `int`; otherwise the key is
      absent, which the decoder reads as all zeros, and every bound was 0. */
  lemma LowerBoundsRoundTrip(w: Deserializer.JsonDeserializerWorker, lowerBounds: seq<int>,
                             jsValue: Json.Value, registered: map<string, Val>, h: Heap)
    requires jsValue.Obj?
    requires Json.Find(jsValue.fields, Json.LowerBoundsKey) ==
             Json.Find(Serializer.LowerBoundsFields(lowerBounds), Json.LowerBoundsKey)
    requires IsElementary(w.types(w.builtins.intType)) && !w.types(w.builtins.intType).isObjectReference
    requires w.builtins.longType != w.builtins.intType ==> forall k :: 0 <= k < |lowerBounds| ==>
      w.foreign.changeType(Json.Num(lowerBounds[k]), w.builtins.intType) == Some(VPrim(w.builtins.intType, SInt(lowerBounds[k])))
    ensures HasNonZeroBound(lowerBounds) ==>
      w.GivenBounds(jsValue, |lowerBounds|, registered, h) == Some(lowerBounds)
    ensures !HasNonZeroBound(lowerBounds) ==>
      Json.Find(jsValue.fields, Json.LowerBoundsKey).None? && forall k :: 0 <= k < |lowerBounds| ==> lowerBounds[k] == 0
  {
    var n := |lowerBounds|;
    if HasNonZeroBound(lowerBounds) {
      var items := seq(n, k requires 0 <= k < n => Json.Num(lowerBounds[k]));
      assert Serializer.LowerBoundsFields(lowerBounds) == [Json.Field(Json.LowerBoundsKey, Json.Arr(items))];
      assert Json.Find(jsValue.fields, Json.LowerBoundsKey) == Some(Json.Arr(items));
      forall k | 0 <= k < n
        ensures w.IntRead(items[k], registered, h) == Some(lowerBounds[k])
      {
        assert items[k] == Json.Num(lowerBounds[k]);
      }
      var read := seq(n, k requires 0 <= k < n => w.IntRead(Json.Arr(items).items[k], registered, h).value);
      assert read == lowerBounds;
    }
  }

  /* ---------- dictionary records ---------- */

  /** Each `JsonKeyValue` record the encoder builds from a dictionary's
      pairs is one the decoder's `Add` loop takes apart into that pair. */
  lemma PairRecordRoundTrip(heap: Heap, pairType: TypeId, pairs: seq<Pair>)
    ensures forall k :: 0 <= k < |pairs| ==>
      Deserializer.RecordPair(heap, Serializer.PairRecords(pairType, pairs)[k]) == Some(pairs[k])
  {
  }
}
