/** The abstract JSON value model the walkers read and write: a tree of nulls,
    scalars, ordered arrays and insertion-ordered, string-keyed objects. */
module Json {
  import opened Wrappers

  datatype Value =
    | Null
    | Bool(b: bool)
    | Num(n: int)
    | Str(s: string)
    | Arr(items: seq<Value>)
    | Obj(fields: seq<Field>)

  datatype Field = Field(key: string, val: Value)

  /** Reserved keys of the envelope objects. */
  const InfoKey: string := "@@info@@"
  const TypeKey: string := "@@type@@"
  const ValueKey: string := "@@value@@"
  const ReferenceKey: string := "@@reference@@"
  const LowerBoundsKey: string := "@@lower_bounds@@"
  const ComparerKey: string := "comparer"

  function Keys(fs: seq<Field>): seq<string> {
    seq(|fs|, i requires 0 <= i < |fs| => fs[i].key)
  }

  /** No key occurs twice: the shape of an object built only through `Put`. */
  predicate UniqueKeys(fs: seq<Field>) {
    forall i, j :: 0 <= i < j < |fs| ==> fs[i].key != fs[j].key
  }

  /** Dictionary lookup (`TryGetValue`): the value of the first field named `k`. */
  function Find(fs: seq<Field>, k: string): (r: Option<Value>)
    ensures r.None? <==> k !in Keys(fs)
    ensures r.Some? ==> exists i :: 0 <= i < |fs| && fs[i] == Field(k, r.value)
  {
    if fs == [] then None
    else
      KeysTail(fs);
      if fs[0].key == k then Some(fs[0].val) else Find(fs[1..], k)
  }

  /** `jsObject[k] = v`: overwrite the field named `k` in place, or append a
      new field when there is none. */
  function Put(fs: seq<Field>, k: string, v: Value): (r: seq<Field>)
    ensures |r| == if k in Keys(fs) then |fs| else |fs| + 1
  {
    if fs == [] then [Field(k, v)]
    else
      KeysTail(fs);
      if fs[0].key == k then [Field(k, v)] + fs[1..] else [fs[0]] + Put(fs[1..], k, v)
  }

  lemma KeysTail(fs: seq<Field>)
    requires fs != []
    ensures Keys(fs) == [fs[0].key] + Keys(fs[1..])
  {
  }

  lemma KeysAppend(fs: seq<Field>, gs: seq<Field>)
    ensures Keys(fs + gs) == Keys(fs) + Keys(gs)
  {
  }

  lemma KeysCons(f: Field, fs: seq<Field>)
    ensures Keys([f] + fs) == [f.key] + Keys(fs)
  {
    assert ([f] + fs)[1..] == fs;
  }

  /** After `jsObject[k] = v`, looking `k` up yields `v`. */
  lemma {:induction false} PutFind(fs: seq<Field>, k: string, v: Value)
    ensures Find(Put(fs, k, v), k) == Some(v)
  {
    if fs != [] && fs[0].key != k {
      PutFind(fs[1..], k, v);
      assert ([fs[0]] + Put(fs[1..], k, v))[1..] == Put(fs[1..], k, v);
    }
  }

  /** `jsObject[k] = v` leaves every other key's value as it was. */
  lemma {:induction false} PutOther(fs: seq<Field>, k: string, v: Value, k': string)
    requires k' != k
    ensures Find(Put(fs, k, v), k') == Find(fs, k')
  {
    if fs == [] {
    } else if fs[0].key == k {
      assert ([Field(k, v)] + fs[1..])[1..] == fs[1..];
    } else {
      PutOther(fs[1..], k, v, k');
      assert ([fs[0]] + Put(fs[1..], k, v))[1..] == Put(fs[1..], k, v);
    }
  }

  /** `jsObject[k] = v` keeps the key order: an existing key keeps its place,
      a new key goes last. */
  lemma {:induction false} PutKeys(fs: seq<Field>, k: string, v: Value)
    ensures Keys(Put(fs, k, v)) == if k in Keys(fs) then Keys(fs) else Keys(fs) + [k]
  {
    if fs == [] {
    } else if fs[0].key == k {
      KeysCons(Field(k, v), fs[1..]);
      KeysCons(fs[0], fs[1..]);
      assert [fs[0]] + fs[1..] == fs;
    } else {
      PutKeys(fs[1..], k, v);
      KeysCons(fs[0], Put(fs[1..], k, v));
      KeysCons(fs[0], fs[1..]);
      assert [fs[0]] + fs[1..] == fs;
    }
  }

  /** `jsObject[k] = v` never creates a duplicate key. */
  lemma PutUnique(fs: seq<Field>, k: string, v: Value)
    requires UniqueKeys(fs)
    ensures UniqueKeys(Put(fs, k, v))
  {
    PutKeys(fs, k, v);
    var r := Put(fs, k, v);
    forall i, j | 0 <= i < j < |r| ensures r[i].key != r[j].key {
      assert Keys(r)[i] == r[i].key && Keys(r)[j] == r[j].key;
      if j < |fs| {
        assert Keys(fs)[i] != Keys(fs)[j];
      }
    }
  }

  /** Putting a key that is not present appends a field at the end. */
  lemma {:induction false} PutFresh(fs: seq<Field>, k: string, v: Value)
    requires k !in Keys(fs)
    ensures Put(fs, k, v) == fs + [Field(k, v)]
  {
    if fs != [] {
      KeysCons(fs[0], fs[1..]);
      assert [fs[0]] + fs[1..] == fs;
      PutFresh(fs[1..], k, v);
      assert [fs[0]] + (fs[1..] + [Field(k, v)]) == fs + [Field(k, v)];
    }
  }

  /** A measure on JSON trees, used for the decoder's termination. */
  function Size(v: Value): (n: nat)
    ensures n >= 1
  {
    match v
    case Arr(items) => 1 + SumSizes(seq(|items|, i requires 0 <= i < |items| => Size(items[i])))
    case Obj(fs) => 1 + SumSizes(seq(|fs|, i requires 0 <= i < |fs| => Size(fs[i].val)))
    case _ => 1
  }

  function SumSizes(ns: seq<nat>): nat {
    if ns == [] then 0 else ns[0] + SumSizes(ns[1..])
  }

  lemma {:induction false} SumSizesBound(ns: seq<nat>, i: nat)
    requires i < |ns|
    ensures ns[i] <= SumSizes(ns)
  {
    if i > 0 { SumSizesBound(ns[1..], i - 1); }
  }

  lemma ItemSmaller(items: seq<Value>, i: nat)
    requires i < |items|
    ensures Size(items[i]) < Size(Arr(items))
  {
    var ns := seq(|items|, j requires 0 <= j < |items| => Size(items[j]));
    SumSizesBound(ns, i);
  }

  lemma FoundSmaller(fs: seq<Field>, k: string)
    requires Find(fs, k).Some?
    ensures Size(Find(fs, k).value) < Size(Obj(fs))
  {
    var i :| 0 <= i < |fs| && fs[i] == Field(k, Find(fs, k).value);
    var ns := seq(|fs|, j requires 0 <= j < |fs| => Size(fs[j].val));
    SumSizesBound(ns, i);
  }

  lemma FieldSmaller(fs: seq<Field>, i: nat)
    requires i < |fs|
    ensures Size(fs[i].val) < Size(Obj(fs))
  {
    var ns := seq(|fs|, j requires 0 <= j < |fs| => Size(fs[j].val));
    SumSizesBound(ns, i);
  }
}
