/** Multi-dimensional arrays with arbitrary lower bounds, on both sides: the
    rectangular grid of an array object, the nested JSON arrays it is written
    as, and the decoder's inference of an array's lengths from that nesting. */
module Arrays {
  import opened Wrappers
  import opened TypeModel
  import Json

  /* ---------- the array object ---------- */

  /** `g` is a rectangular grid whose dimensions have the given lengths. */
  predicate Shaped(g: Grid, lengths: seq<nat>)
    decreases g
  {
    if lengths == [] then g.Cell?
    else
      g.Row? && |g.items| == lengths[0]
      && forall k :: 0 <= k < |g.items| ==> Shaped(g.items[k], lengths[1..])
  }

  /** Zero-based offsets that address one cell of a grid of these lengths. */
  predicate ValidOffsets(offsets: seq<int>, lengths: seq<nat>) {
    |offsets| == |lengths| && forall k :: 0 <= k < |offsets| ==> 0 <= offsets[k] < lengths[k]
  }

  /** The real indices (lower bounds included) of one cell. */
  predicate ValidIndices(indices: seq<int>, lengths: seq<nat>, lowerBounds: seq<int>) {
    |indices| == |lengths| == |lowerBounds|
    && forall k :: 0 <= k < |indices| ==> lowerBounds[k] <= indices[k] < lowerBounds[k] + lengths[k]
  }

  /** Real indices minus lower bounds. */
  function Offsets(indices: seq<int>, lowerBounds: seq<int>): (offs: seq<int>)
    requires |indices| == |lowerBounds|
    ensures |offs| == |indices|
    ensures forall k :: 0 <= k < |indices| ==> offs[k] == indices[k] - lowerBounds[k]
  {
    seq(|indices|, k requires 0 <= k < |indices| => indices[k] - lowerBounds[k])
  }

  lemma IndicesGiveOffsets(indices: seq<int>, lengths: seq<nat>, lowerBounds: seq<int>)
    requires ValidIndices(indices, lengths, lowerBounds)
    ensures ValidOffsets(Offsets(indices, lowerBounds), lengths)
  {
  }

  /** `Array.GetValue(indices)`, on zero-based offsets. */
  function GridGet(g: Grid, lengths: seq<nat>, offsets: seq<int>): Val
    requires Shaped(g, lengths) && ValidOffsets(offsets, lengths)
    decreases g
  {
    if lengths == [] then g.v
    else GridGet(g.items[offsets[0]], lengths[1..], offsets[1..])
  }

  /** `Array.SetValue(v, indices)`, on zero-based offsets. */
  function GridSet(g: Grid, lengths: seq<nat>, offsets: seq<int>, v: Val): (r: Grid)
    requires Shaped(g, lengths) && ValidOffsets(offsets, lengths)
    ensures Shaped(r, lengths)
    decreases g
  {
    if lengths == [] then Cell(v)
    else
      var k := offsets[0];
      var sub := GridSet(g.items[k], lengths[1..], offsets[1..], v);
      Row(g.items[k := sub])
  }

  /** The grid `Array.CreateInstance` allocates: every cell holds `v`. */
  function Fill(lengths: seq<nat>, v: Val): (g: Grid)
    ensures Shaped(g, lengths)
    decreases |lengths|
  {
    if lengths == [] then Cell(v)
    else
      var sub := Fill(lengths[1..], v);
      Row(seq(lengths[0], _ => sub))
  }

  /** A cell read back after it was set yields the value set. */
  lemma {:induction false} GetAfterSet(g: Grid, lengths: seq<nat>, offsets: seq<int>, v: Val)
    requires Shaped(g, lengths) && ValidOffsets(offsets, lengths)
    ensures GridGet(GridSet(g, lengths, offsets, v), lengths, offsets) == v
    decreases g
  {
    if lengths != [] {
      GetAfterSet(g.items[offsets[0]], lengths[1..], offsets[1..], v);
    }
  }

  /** Setting one cell leaves every other cell as it was. */
  lemma {:induction false} GetAfterSetOther(g: Grid, lengths: seq<nat>, offsets: seq<int>, other: seq<int>, v: Val)
    requires Shaped(g, lengths) && ValidOffsets(offsets, lengths) && ValidOffsets(other, lengths)
    requires offsets != other
    ensures GridGet(GridSet(g, lengths, offsets, v), lengths, other) == GridGet(g, lengths, other)
    decreases g
  {
    if lengths != [] {
      if offsets[0] == other[0] {
        assert offsets[1..] != other[1..] by {
          assert offsets == [offsets[0]] + offsets[1..];
          assert other == [other[0]] + other[1..];
        }
        GetAfterSetOther(g.items[offsets[0]], lengths[1..], offsets[1..], other[1..], v);
      }
    }
  }

  /** Every cell of a freshly allocated grid holds the fill value. */
  lemma {:induction false} FillGet(lengths: seq<nat>, v: Val, offsets: seq<int>)
    requires ValidOffsets(offsets, lengths)
    ensures GridGet(Fill(lengths, v), lengths, offsets) == v
    decreases |lengths|
  {
    if lengths != [] {
      FillGet(lengths[1..], v, offsets[1..]);
    }
  }

  /* ---------- lower bounds ---------- */

  /** Some dimension does not start at 0. */
  predicate HasNonZeroBound(lowerBounds: seq<int>) {
    exists k :: 0 <= k < |lowerBounds| && lowerBounds[k] != 0
  }

  /** The loop at the head of `SerializeArray(object, Type, bool)`: collects
      the lower bounds as JSON numbers, and notes whether any is non-zero. */
  method LowerBoundsInfo(lowerBounds: seq<int>) returns (needLowerBoundsInfo: bool, boundsArray: seq<Json.Value>)
    ensures needLowerBoundsInfo <==> HasNonZeroBound(lowerBounds)
    ensures |boundsArray| == |lowerBounds|
    ensures forall k :: 0 <= k < |lowerBounds| ==> boundsArray[k] == Json.Num(lowerBounds[k])
  {
    needLowerBoundsInfo := false;
    boundsArray := [];
    for i := 0 to |lowerBounds|
      invariant |boundsArray| == i
      invariant forall k :: 0 <= k < i ==> boundsArray[k] == Json.Num(lowerBounds[k])
      invariant needLowerBoundsInfo <==> exists k :: 0 <= k < i && lowerBounds[k] != 0
    {
      var loBound := lowerBounds[i];
      if loBound != 0 {
        needLowerBoundsInfo := true;
      }
      boundsArray := boundsArray + [Json.Num(loBound)];
    }
  }

  /* ---------- the JSON side ---------- */

  /** `js` is a nest of JSON arrays with the given lengths, one level per
      dimension; what sits below the last level is not constrained. */
  predicate NestedShape(js: Json.Value, lengths: seq<nat>)
    decreases js
  {
    if lengths == [] then true
    else
      js.Arr? && |js.items| == lengths[0]
      && forall k :: 0 <= k < |js.items| ==> NestedShape(js.items[k], lengths[1..])
  }

  /** Following element 0 for `depth` levels. */
  function FirstDescendant(js: Json.Value, depth: nat): Json.Value
    decreases depth
  {
    if depth == 0 || !js.Arr? || js.items == [] then js
    else FirstDescendant(js.items[0], depth - 1)
  }

  /** What `GetArrayLengths` computes: one length per nesting level,
      following element 0, stopping after an empty array or at a non-array. */
  function InferLengths(js: Json.Value): seq<nat>
    decreases js
  {
    if !js.Arr? then []
    else if js.items == [] then [0]
    else [|js.items|] + InferLengths(js.items[0])
  }

  /** `GetArrayLengths`, as written. */
  method GetArrayLengths(jsArray: Json.Value) returns (lengths: seq<nat>)
    requires jsArray.Arr?
    ensures lengths == InferLengths(jsArray)
  {
    var jsObj := jsArray;
    lengths := [];
    while jsObj.Arr?
      invariant lengths + InferLengths(jsObj) == InferLengths(jsArray)
      decreases jsObj
    {
      lengths := lengths + [|jsObj.items|];
      if |jsObj.items| == 0 {
        return;
      }
      assert InferLengths(jsObj) == [|jsObj.items|] + InferLengths(jsObj.items[0]);
      jsObj := jsObj.items[0];
    }
  }

  /** On a nest with no empty level whose first leaf is not an array, the
      inference finds exactly the lengths of the nest. */
  lemma {:induction false} InferLengthsOfShape(js: Json.Value, lengths: seq<nat>)
    requires NestedShape(js, lengths)
    requires forall k :: 0 <= k < |lengths| ==> lengths[k] > 0
    requires !FirstDescendant(js, |lengths|).Arr?
    ensures InferLengths(js) == lengths
    decreases js
  {
    if lengths != [] {
      InferLengthsOfShape(js.items[0], lengths[1..]);
    }
  }

  /** A jagged array `int[][]` holding `{1, 2}` and `{3}` is written as two
      bare nested arrays (its elements have the declared element type), and
      the inference reads two levels from it although the array has rank 1. */
  lemma JaggedArrayMisread()
    ensures InferLengths(Json.Arr([Json.Arr([Json.Num(1), Json.Num(2)]), Json.Arr([Json.Num(3)])])) == [2, 2]
  {
    var inner := Json.Arr([Json.Num(1), Json.Num(2)]);
    assert InferLengths(Json.Num(1)) == [];
    assert InferLengths(inner) == [2];
  }

  /** `k` zeros. */
  function Zeros(k: nat): (z: seq<nat>)
    ensures |z| == k && forall i :: 0 <= i < k ==> z[i] == 0
  {
    seq(k, _ => 0)
  }

  /** The lengths of an array of the declared rank, read from its nesting:
      exactly `rank` levels are followed along element 0; an empty level
      leaves the deeper lengths at 0, and a non-array before the last level
      is a rank mismatch. */
  function LengthsForRank(js: Json.Value, rank: nat): (r: Result<seq<nat>>)
    ensures r.Ok? ==> |r.value| == rank
    ensures r.Err? ==> r.error == RankMismatch
    decreases rank
  {
    if rank == 0 then Ok([])
    else if !js.Arr? then Err(RankMismatch)
    else if js.items == [] then Ok([0] + Zeros(rank - 1))
    else
      match LengthsForRank(js.items[0], rank - 1)
      case Ok(rest) => Ok([|js.items|] + rest)
      case Err(e) => Err(e)
  }

  /** `r` with the lengths `p` in front, errors passed through. */
  function Prefixed(p: seq<nat>, r: Result<seq<nat>>): Result<seq<nat>> {
    match r
    case Ok(rest) => Ok(p + rest)
    case Err(e) => Err(e)
  }

  lemma PrefixedEmpty(r: Result<seq<nat>>)
    ensures Prefixed([], r) == r
  {
    if r.Ok? {
      assert [] + r.value == r.value;
    }
  }

  lemma PrefixedTwice(p: seq<nat>, q: seq<nat>, r: Result<seq<nat>>)
    ensures Prefixed(p, Prefixed(q, r)) == Prefixed(p + q, r)
  {
    if r.Ok? {
      assert p + (q + r.value) == (p + q) + r.value;
    }
  }

  /** `GetArrayLengths` bounded by the declared rank. */
  method GetArrayLengthsForRank(jsArray: Json.Value, rank: nat) returns (r: Result<seq<nat>>)
    ensures r == LengthsForRank(jsArray, rank)
  {
    var jsObj := jsArray;
    var lengths: seq<nat> := [];
    PrefixedEmpty(LengthsForRank(jsArray, rank));
    while |lengths| < rank
      invariant |lengths| <= rank
      invariant LengthsForRank(jsArray, rank) == Prefixed(lengths, LengthsForRank(jsObj, rank - |lengths|))
      decreases rank - |lengths|
    {
      if !jsObj.Arr? {
        return Err(RankMismatch);
      }
      if |jsObj.items| == 0 {
        PrefixedTwice(lengths, [0], Ok(Zeros(rank - |lengths| - 1)));
        return Ok((lengths + [0]) + Zeros(rank - |lengths| - 1));
      }
      PrefixedTwice(lengths, [|jsObj.items|], LengthsForRank(jsObj.items[0], rank - |lengths| - 1));
      lengths := lengths + [|jsObj.items|];
      jsObj := jsObj.items[0];
    }
    assert lengths + [] == lengths;
    return Ok(lengths);
  }

  /** Every nest of the declared rank whose levels before the last are not
      empty has its lengths recovered exactly, whatever its leaves are. */
  lemma {:induction false} LengthsForRankOfShape(js: Json.Value, lengths: seq<nat>)
    requires NestedShape(js, lengths)
    requires forall k :: 0 <= k < |lengths| - 1 ==> lengths[k] > 0
    ensures LengthsForRank(js, |lengths|) == Ok(lengths)
    decreases js
  {
    if lengths != [] {
      if lengths[0] == 0 {
        assert |lengths| == 1;
        assert [0] + Zeros(0) == lengths;
      } else {
        LengthsForRankOfShape(js.items[0], lengths[1..]);
        assert [lengths[0]] + lengths[1..] == lengths;
      }
    }
  }

  /** For the jagged array above, the rank-bounded inference reads one level. */
  lemma JaggedArrayRead()
    ensures LengthsForRank(Json.Arr([Json.Arr([Json.Num(1), Json.Num(2)]), Json.Arr([Json.Num(3)])]), 1) == Ok([2])
  {
    assert LengthsForRank(Json.Arr([Json.Num(1), Json.Num(2)]), 0) == Ok([]);
    assert [2] + [] == [2];
  }

  /** A one-dimensional array's length is the number of items. */
  lemma LengthsForRankOne(js: Json.Value)
    requires js.Arr?
    ensures LengthsForRank(js, 1) == Ok([|js.items|])
  {
    if js.items == [] {
      assert [0] + Zeros(0) == [0];
    } else {
      assert LengthsForRank(js.items[0], 0) == Ok([]);
      assert [|js.items|] + [] == [|js.items|];
    }
  }
}
