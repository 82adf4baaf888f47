/** The path/reference tracker shared by both walkers: a stack of frames,
    each holding a path fragment and a commit target, and the path of the
    current position, which is the fragments of the stack concatenated from
    the root frame to the top frame. */
module Paths {
  import opened Wrappers
  import opened Strings
  import Json

  /** The encoder's `StackEntry`: a single-shot commit frame. The value
      committed into it is read back by whoever pushed the frame and placed
      where the source's closure would have put it (`jsRoot_`, one key of an
      output object, the end of an output array). */
  class StackEntry {
    const fragment: string
    var valueSet: bool
    var value: Json.Value

    constructor (fragment: string)
      ensures this.fragment == fragment
      ensures !valueSet
    {
      this.fragment := fragment;
      valueSet := false;
      value := Json.Null;
    }

    /** Commits `v` into the frame's target. A second commit fails with
        "Value already set" and leaves the frame as it was. */
    method SetValue(v: Json.Value) returns (r: Outcome)
      modifies this
      ensures old(valueSet) ==> r == Fail(AlreadySet) && value == old(value) && valueSet
      ensures !old(valueSet) ==> r == Pass && valueSet && value == v
    {
      if valueSet {
        return Fail(AlreadySet);
      }
      value := v;
      valueSet := true;
      return Pass;
    }
  }

  /** The fragments of an encoder stack, root first. */
  function Fragments(stack: seq<StackEntry>): (fs: seq<string>)
    ensures |fs| == |stack|
    ensures forall i :: 0 <= i < |stack| ==> fs[i] == stack[i].fragment
  {
    seq(|stack|, i requires 0 <= i < |stack| => stack[i].fragment)
  }

  /** The path named by a sequence of fragments, root first. */
  function Concat(fragments: seq<string>): string {
    if fragments == [] then "" else fragments[0] + Concat(fragments[1..])
  }

  /** `GetPath`: walks the stack from the top frame down to the root frame,
      prepending each fragment. */
  method GetPath(fragments: seq<string>) returns (path: string)
    ensures path == Concat(fragments)
  {
    path := "";
    var i := |fragments|;
    while i > 0
      invariant 0 <= i <= |fragments|
      invariant path == Concat(fragments[i..])
    {
      i := i - 1;
      assert fragments[i..][1..] == fragments[i + 1..];
      path := fragments[i] + path;
    }
    assert fragments[0..] == fragments;
  }

  /** Pushing a frame extends the path by that frame's fragment. */
  lemma {:induction false} ConcatPush(fragments: seq<string>, f: string)
    ensures Concat(fragments + [f]) == Concat(fragments) + f
  {
    if fragments != [] {
      assert (fragments + [f])[1..] == fragments[1..] + [f];
      ConcatPush(fragments[1..], f);
    }
  }

  /** The path of a stack whose root frame is `"root"` starts with `"root"`. */
  lemma PathStartsWithRoot(fragments: seq<string>)
    requires fragments != [] && fragments[0] == RootFragment
    ensures |Concat(fragments)| >= |RootFragment|
    ensures Concat(fragments)[..|RootFragment|] == RootFragment
  {
    assert Concat(fragments) == RootFragment + Concat(fragments[1..]);
  }

  /** An envelope frame has the empty fragment, so the `@@value@@` inside an
      envelope is at the same path as the envelope itself. */
  lemma EnvelopeKeepsPath(fragments: seq<string>)
    ensures Concat(fragments + [""]) == Concat(fragments)
  {
    ConcatPush(fragments, "");
  }

  const RootFragment: string := "root"

  /** `"." + name`: the fragment of a member, bag entry or comparer. */
  function MemberFragment(name: string): (f: string)
    ensures |f| == |name| + 1 && f[0] == '.' && f[1..] == name
  {
    "." + name
  }

  /** `"[" + i + "]"`: the fragment of an array index (the real index,
      lower bound included). */
  function IndexFragment(i: int): (f: string)
    ensures |f| >= 3 && f[0] == '[' && f[|f| - 1] == ']'
  {
    "[" + IntToString(i) + "]"
  }

  /** Sibling frames have distinct paths: a member fragment names one
      member, an index fragment one index, and no member fragment is an
      index fragment. */
  lemma {:induction false} SiblingFragments(a: string, b: string, i: int, j: int)
    ensures MemberFragment(a) == MemberFragment(b) ==> a == b
    ensures IndexFragment(i) == IndexFragment(j) ==> i == j
    ensures MemberFragment(a) != IndexFragment(i)
  {
    if IndexFragment(i) == IndexFragment(j) {
      var fi, fj := IndexFragment(i), IndexFragment(j);
      assert IntToString(i) == fi[1..|fi| - 1];
      assert IntToString(j) == fj[1..|fj| - 1];
      IntToStringInjective(i, j);
    }
  }

  /** The fragment the decoder pushes around the contents of a list or a
      dictionary. */
  const ContainerFragment: string := "@@"
}
