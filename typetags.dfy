/** Reading the `@@type@@` tag back into a type: either through
    `Type.GetType` or, when the formatter has a binder, by splitting the tag
    into a type name and an assembly name and asking the binder. */
module TypeTags {
  import opened Wrappers
  import opened Strings
  import opened TypeModel
  import Json
  import Formatter

  /* ---------- the split as written: at the first comma ---------- */

  /** `tag.Substring(0, tag.IndexOf(","))` and
      `tag.Substring(tag.IndexOf(",") + 1).Trim()`; a tag without a comma
      makes `Substring(0, -1)` throw. */
  function SplitAtFirstComma(tag: string): (r: Result<(string, string)>)
    ensures r.Err? <==> ',' !in tag
    ensures r.Ok? ==> |r.value.0| < |tag| && tag[|r.value.0|] == ',' && tag[..|r.value.0|] == r.value.0
    ensures r.Ok? ==> ',' !in r.value.0
    ensures r.Ok? ==> |r.value.0| == IndexOfChar(tag, ',') && r.value.1 == Trim(tag[IndexOfChar(tag, ',') + 1..])
  {
    var i := IndexOfChar(tag, ',');
    if i == -1 then Err(MalformedTypeTag)
    else
      Ok((tag[..i], Trim(tag[i + 1..])))
  }

  /** A generic type `N.L`1` over one argument `I`, all in assembly `a`. */
  function SampleArg(): TypeName {
    TypeName("", "I", "I", "a", "a", false, [])
  }

  function SampleGeneric(): TypeName {
    TypeName("N", "L`1", "N.L`1", "a", "a", true, [SampleArg()])
  }

  lemma SampleGenericTag()
    ensures QualifiedName(SampleGeneric(), Simple) == "N.L`1[[I, a]], a"
  {
    assert QualifiedName(SampleArg(), Simple) == "I, a";
    assert SimpleArgs(SampleGeneric(), 1) == "";
    assert SimpleArgs(SampleGeneric(), 0) == "[" + "I, a" + "]";
  }

  /** A tag with no comma before the one at `|head|` splits there. */
  lemma SplitAtFirstCommaOf(head: string, rest: string)
    requires ',' !in head
    ensures SplitAtFirstComma(head + "," + rest) == Ok((head, Trim(rest)))
  {
    var tag := head + "," + rest;
    FirstOccurrence(head, rest, ',');
    assert tag[..|head|] == head;
    assert tag[|head| + 1..] == rest;
  }

  lemma {:induction false} FirstOccurrence(head: string, rest: string, c: char)
    requires c !in head
    ensures IndexOfChar(head + [c] + rest, c) == |head|
    decreases |head|
  {
    if head != [] {
      assert (head + [c] + rest)[1..] == head[1..] + [c] + rest;
      FirstOccurrence(head[1..], rest, c);
    }
  }

  /** The simple-style tag of a generic type carries a comma inside its
      argument list, and the split cuts there: the binder is asked for the
      type `N.L`1[[I` in the assembly `a]], a`. */
  lemma FirstCommaSplitsGenericTag()
    ensures SplitAtFirstComma(QualifiedName(SampleGeneric(), Simple)) == Ok(("N.L`1[[I", "a]], a"))
  {
    SampleGenericTag();
    SampleTagPieces();
    SplitAtFirstCommaOf("N.L`1[[I", " a]], a");
    SampleAssemblyTrim();
  }

  lemma SampleTagPieces()
    ensures "N.L`1[[I, a]], a" == "N.L`1[[I" + "," + " a]], a"
  {
  }

  lemma SampleAssemblyTrim()
    ensures Trim(" a]], a") == "a]], a"
  {
    assert " " + "a]], a" == " a]], a";
    TrimLeadingBlank("a]], a");
  }

  /** The two-dimensional array type `System.Int32[,]` of assembly `mscorlib`. */
  function SampleArray(): TypeName {
    TypeName("System", "Int32[,]", "System.Int32[,]", "mscorlib", "mscorlib", false, [])
  }

  /** Its tag is cut inside the brackets as well: the binder is asked for
      the type `System.Int32[` in the assembly `], mscorlib`. */
  lemma FirstCommaSplitsArrayTag()
    ensures SplitAtFirstComma(QualifiedName(SampleArray(), Simple)) == Ok(("System.Int32[", "], mscorlib"))
  {
    ArrayTagPieces();
    SplitAtFirstCommaOf("System.Int32[", "], mscorlib");
    ArrayAssemblyTrim();
  }

  lemma ArrayTagPieces()
    ensures QualifiedName(SampleArray(), Simple) == "System.Int32[" + "," + "], mscorlib"
  {
  }

  lemma ArrayAssemblyTrim()
    ensures Trim("], mscorlib") == "], mscorlib"
  {
    TrimmedIsFixed("], mscorlib");
  }

  /* ---------- the split at bracket depth 0 ---------- */

  /** The bracket depth after scanning `s` from depth `d`. */
  function EndDepth(s: string, d: int): int
    decreases |s|
  {
    if s == [] then d
    else EndDepth(s[1..], if s[0] == '[' then d + 1 else if s[0] == ']' then d - 1 else d)
  }

  /** The position of the first comma of `s` at bracket depth 0, when the
      scan starts at depth `d`; -1 if there is none. */
  function TopComma(s: string, d: int): (r: int)
    ensures -1 <= r < |s|
    ensures r >= 0 ==> s[r] == ','
    decreases |s|
  {
    if s == [] then -1
    else if s[0] == ',' && d == 0 then 0
    else
      var j := TopComma(s[1..], if s[0] == '[' then d + 1 else if s[0] == ']' then d - 1 else d);
      if j == -1 then -1 else j + 1
  }

  /** Scanning `s` from depth `d` meets no top-level comma and returns to `d`. */
  predicate Transparent(s: string, d: int) {
    TopComma(s, d) == -1 && EndDepth(s, d) == d
  }

  /** A scan over `s + t` that meets no top-level comma in `s` continues in
      `t` from the depth `s` ends at. */
  lemma {:induction false} TopCommaAppend(s: string, t: string, d: int)
    requires TopComma(s, d) == -1
    ensures TopComma(s + t, d) ==
      (if TopComma(t, EndDepth(s, d)) == -1 then -1 else |s| + TopComma(t, EndDepth(s, d)))
    ensures EndDepth(s + t, d) == EndDepth(t, EndDepth(s, d))
    decreases |s|
  {
    if s != [] {
      var d' := if s[0] == '[' then d + 1 else if s[0] == ']' then d - 1 else d;
      assert (s + t)[0] == s[0];
      assert (s + t)[1..] == s[1..] + t;
      TopCommaAppend(s[1..], t, d');
    } else {
      assert s + t == t;
    }
  }

  lemma TransparentConcat(s: string, t: string, d: int)
    requires Transparent(s, d) && Transparent(t, d)
    ensures Transparent(s + t, d)
  {
    TopCommaAppend(s, t, d);
  }

  /** No comma and no bracket in a name. */
  predicate Plain(s: string) {
    ',' !in s && '[' !in s && ']' !in s
  }

  lemma {:induction false} PlainTransparent(s: string, d: int)
    requires Plain(s)
    ensures Transparent(s, d)
    decreases |s|
  {
    if s != [] {
      assert s[0] in s;
      assert forall c :: c in s[1..] ==> c in s;
      PlainTransparent(s[1..], d);
    }
  }

  /** The separator `", "` is transparent inside brackets. */
  lemma SeparatorTransparent(d: int)
    requires d != 0
    ensures Transparent(", ", d)
  {
    assert ", "[1..] == " ";
    assert " "[1..] == "";
  }

  /** A bracketed group whose contents are transparent one level deeper. */
  lemma Bracketed(s: string, d: int)
    requires Transparent(s, d + 1)
    ensures Transparent("[" + s + "]", d)
  {
    assert ("[" + s + "]")[1..] == s + "]";
    TopCommaAppend(s, "]", d + 1);
    assert "]"[1..] == "";
  }

  /** Scanning `s` with `k` brackets open never closes a bracket it did not
      open and ends with all of them closed; unless `topCommas`, it meets no
      comma outside brackets. */
  predicate Nests(s: string, k: nat, topCommas: bool)
    decreases |s|
  {
    if s == [] then k == 0
    else if s[0] == '[' then Nests(s[1..], k + 1, topCommas)
    else if s[0] == ']' then k > 0 && Nests(s[1..], k - 1, topCommas)
    else (s[0] == ',' && k == 0 ==> topCommas) && Nests(s[1..], k, topCommas)
  }

  /** A name with its brackets balanced and no comma outside them, such as
      `System.Int32[,]`. */
  predicate Balanced(s: string) {
    Nests(s, 0, false)
  }

  /** Scanning a nesting name from depth `d + k` returns to `d` and meets
      no comma at depth 0. */
  lemma {:induction false} NestsScan(s: string, k: nat, topCommas: bool, d: int)
    requires Nests(s, k, topCommas) && d >= 0 && (topCommas ==> d > 0)
    ensures TopComma(s, d + k) == -1 && EndDepth(s, d + k) == d
    decreases |s|
  {
    if s != [] {
      if s[0] == '[' {
        NestsScan(s[1..], k + 1, topCommas, d);
      } else if s[0] == ']' {
        NestsScan(s[1..], k - 1, topCommas, d);
      } else {
        NestsScan(s[1..], k, topCommas, d);
      }
    }
  }

  lemma BalancedTransparent(s: string, d: int)
    requires Balanced(s) && d >= 0
    ensures Transparent(s, d)
  {
    NestsScan(s, 0, false, d);
  }

  /** A nesting name is transparent inside brackets, commas and all. */
  lemma NestsTransparent(s: string, d: int)
    requires Nests(s, 0, true) && d > 0
    ensures Transparent(s, d)
  {
    NestsScan(s, 0, true, d);
  }

  /** The names a simple-style identifier is built from keep their brackets
      balanced: the full name of a non-generic type (an array type such as
      `System.Int32[,]` included), the namespace and name of a generic one,
      and, within brackets, the whole identifier of each generic argument. */
  predicate BalancedNames(tn: TypeName)
    decreases tn
  {
    (if tn.isGeneric then Balanced(tn.namespace) && Balanced(tn.name) else Balanced(tn.fullName))
    && forall k :: 0 <= k < |tn.genericArgs| ==>
         BalancedNames(tn.genericArgs[k]) && Nests(tn.genericArgs[k].assemblyName, 0, true)
  }

  /** Inside brackets, a whole simple-style identifier is transparent. */
  lemma {:induction false} QualifiedTransparent(tn: TypeName, d: int)
    requires BalancedNames(tn) && Nests(tn.assemblyName, 0, true) && d > 0
    ensures Transparent(QualifiedName(tn, Simple), d)
    decreases tn, 2, 0
  {
    HeadTransparent(tn, d);
    SeparatorTransparent(d);
    NestsTransparent(tn.assemblyName, d);
    TransparentConcat(SimpleHead(tn), ", ", d);
    TransparentConcat(SimpleHead(tn) + ", ", tn.assemblyName, d);
  }

  /** The head of a simple-style identifier is transparent at any depth
      that is not negative. */
  lemma {:induction false} HeadTransparent(tn: TypeName, d: int)
    requires BalancedNames(tn) && d >= 0
    ensures Transparent(SimpleHead(tn), d)
    decreases tn, 1, 0
  {
    if tn.isGeneric {
      BalancedTransparent(tn.namespace, d);
      PlainTransparent(".", d);
      BalancedTransparent(tn.name, d);
      ArgsTransparent(tn, 0, d + 1);
      Bracketed(SimpleArgs(tn, 0), d);
      TransparentConcat(tn.namespace, ".", d);
      TransparentConcat(tn.namespace + ".", tn.name, d);
      TransparentConcat(tn.namespace + "." + tn.name, "[" + SimpleArgs(tn, 0) + "]", d);
    } else {
      BalancedTransparent(tn.fullName, d);
    }
  }

  lemma {:induction false} ArgsTransparent(tn: TypeName, i: nat, d: int)
    requires BalancedNames(tn) && d > 0 && i <= |tn.genericArgs|
    ensures Transparent(SimpleArgs(tn, i), d)
    decreases tn, 0, |tn.genericArgs| - i
  {
    if i < |tn.genericArgs| {
      var arg := tn.genericArgs[i];
      var sep: string := if i == 0 then "" else ", ";
      if i == 0 { PlainTransparent(sep, d); } else { SeparatorTransparent(d); }
      QualifiedTransparent(arg, d + 1);
      Bracketed(QualifiedName(arg, Simple), d);
      ArgsTransparent(tn, i + 1, d);
      TransparentConcat(sep, "[" + QualifiedName(arg, Simple) + "]", d);
      TransparentConcat(sep + ("[" + QualifiedName(arg, Simple) + "]"), SimpleArgs(tn, i + 1), d);
    } else {
      PlainTransparent("", d);
    }
  }

  /** The split the type tags need: at the first comma outside brackets. */
  function SplitAtTopComma(tag: string): (r: Result<(string, string)>)
    ensures r.Err? <==> TopComma(tag, 0) == -1
    ensures r.Err? ==> r.error == MalformedTypeTag
    ensures r.Ok? ==> |r.value.0| < |tag| && tag[|r.value.0|] == ',' && tag[..|r.value.0|] == r.value.0
    ensures r.Ok? ==> |r.value.0| == TopComma(tag, 0) && r.value.1 == Trim(tag[TopComma(tag, 0) + 1..])
  {
    var i := TopComma(tag, 0);
    if i == -1 then Err(MalformedTypeTag)
    else Ok((tag[..i], Trim(tag[i + 1..])))
  }

  /** Any name and a blank-free assembly name joined by `", "` split back
      into the two, provided the name is transparent. */
  lemma SplitJoined(head: string, assembly: string)
    requires Transparent(head, 0)
    requires assembly == [] || (!IsWhiteSpace(assembly[0]) && !IsWhiteSpace(assembly[|assembly| - 1]))
    ensures SplitAtTopComma(head + ", " + assembly) == Ok((head, assembly))
  {
    var rest := ", " + assembly;
    var tag := head + rest;
    assert TopComma(rest, 0) == 0 by {
      assert rest[0] == ',';
    }
    TopCommaAppend(head, rest, 0);
    JoinedPieces(head, assembly);
    TrimLeadingBlank(assembly);
  }

  /** The pieces of `head + ", " + assembly` on either side of the comma. */
  lemma JoinedPieces(head: string, assembly: string)
    ensures head + ", " + assembly == head + (", " + assembly)
    ensures (head + ", " + assembly)[..|head|] == head
    ensures (head + ", " + assembly)[|head| + 1..] == " " + assembly
  {
    var tag := head + ", " + assembly;
    assert tag == head + (", " + assembly);
    assert tag[|head| + 1..] == (", " + assembly)[1..];
  }

  /** The simple-style identifier `GetTypeName` writes splits back into the
      head and the assembly name, generic or not. */
  lemma SplitQualifiedSimple(tn: TypeName)
    requires BalancedNames(tn)
    requires tn.assemblyName == [] || (!IsWhiteSpace(tn.assemblyName[0]) && !IsWhiteSpace(tn.assemblyName[|tn.assemblyName| - 1]))
    ensures SplitAtTopComma(QualifiedName(tn, Simple)) == Ok((SimpleHead(tn), tn.assemblyName))
  {
    HeadTransparent(tn, 0);
    SplitJoined(SimpleHead(tn), tn.assemblyName);
  }

  /** A name without commas or brackets does not change how the rest of a
      name nests. */
  lemma {:induction false} PlainNests(p: string, rest: string, k: nat, topCommas: bool)
    requires Plain(p)
    ensures Nests(p + rest, k, topCommas) == Nests(rest, k, topCommas)
    decreases |p|
  {
    if p != [] {
      assert p[0] in p;
      assert forall c :: c in p[1..] ==> c in p;
      assert (p + rest)[1..] == p[1..] + rest;
      PlainNests(p[1..], rest, k, topCommas);
    } else {
      assert p + rest == rest;
    }
  }

  /** The tag of the array type splits back at the comma after its
      brackets. */
  lemma ArrayTagSplits()
    ensures SplitAtTopComma(QualifiedName(SampleArray(), Simple)) == Ok(("System.Int32[,]", "mscorlib"))
  {
    ArrayNameNests();
    SplitQualifiedSimple(SampleArray());
  }

  /** The array's full name keeps its comma inside the brackets. */
  lemma ArrayNameNests()
    ensures Nests("System.Int32[,]", 0, false)
  {
    var brackets := "[,]";
    assert Nests(brackets, 0, false) by {
      assert brackets[1..] == ",]" && brackets[1..][1..] == "]" && brackets[1..][1..][1..] == "";
    }
    assert Plain("System.Int32") by {
      assert forall c :: c in "System.Int32" ==> c != ',' && c != '[' && c != ']';
    }
    PlainNests("System.Int32", brackets, 0, false);
    assert "System.Int32" + brackets == "System.Int32[,]";
  }

  /** Where the name before the first comma has no bracket, the two splits
      agree: the fix changes nothing for tags of non-generic types. */
  lemma SplitsAgree(tag: string)
    requires ',' in tag
    requires '[' !in tag[..IndexOfChar(tag, ',')] && ']' !in tag[..IndexOfChar(tag, ',')]
    ensures SplitAtTopComma(tag) == SplitAtFirstComma(tag)
  {
    FirstCommaIsTop(tag);
  }

  /** Before the first comma of such a tag there is no bracket, so that
      comma is at depth 0. */
  lemma FirstCommaIsTop(tag: string)
    requires ',' in tag
    requires '[' !in tag[..IndexOfChar(tag, ',')] && ']' !in tag[..IndexOfChar(tag, ',')]
    ensures TopComma(tag, 0) == IndexOfChar(tag, ',')
  {
    var i := IndexOfChar(tag, ',');
    var head, rest := tag[..i], tag[i..];
    assert Transparent(head, 0) by {
      PlainTransparent(head, 0);
    }
    assert TopComma(rest, 0) == 0 by {
      assert rest[0] == ',';
    }
    assert tag == head + rest;
    TopCommaAppend(head, rest, 0);
    assert TopComma(tag, 0) == i;
  }

  /* ---------- resolving a tag ---------- */

  /** The type named by the `@@type@@` value `tag`: `Type.GetType(tag, true)`
      without a binder, `binder.BindToType(assembly, typeName)` with one. */
  function ResolveTypeTag(binder: Option<Formatter.Binder>, foreign: Foreign, tag: Json.Value): (r: Result<TypeId>)
    ensures !tag.Str? ==> r == Err(MalformedTypeTag)
    ensures tag.Str? && binder.None? ==>
      (r.Ok? <==> foreign.typeGetType(tag.s).Some?) && (r.Ok? ==> r.value == foreign.typeGetType(tag.s).value)
    ensures r.Err? && tag.Str? && binder.None? ==> r.error == TypeNotFound(tag.s)
    ensures tag.Str? && binder.Some? && TopComma(tag.s, 0) == -1 ==> r == Err(MalformedTypeTag)
    ensures tag.Str? && binder.Some? && TopComma(tag.s, 0) != -1 ==>
      var typeName := tag.s[..TopComma(tag.s, 0)];
      var answer := binder.value.bindToType(Trim(tag.s[TopComma(tag.s, 0) + 1..]), typeName);
      (r.Ok? <==> answer.Some?) && (r.Ok? ==> r.value == answer.value)
      && (r.Err? ==> r.error == TypeNotFound(typeName))
  {
    if !tag.Str? then Err(MalformedTypeTag)
    else if binder.None? then
      match foreign.typeGetType(tag.s)
      case None => Err(TypeNotFound(tag.s))
      case Some(t) => Ok(t)
    else
      BindTypeTag(binder.value, tag.s)
  }

  /** The binder's half of `ResolveTypeTag`: the tag is cut at its first
      top-level comma and the binder is asked for the type named before it. */
  function BindTypeTag(binder: Formatter.Binder, tag: string): (r: Result<TypeId>)
    ensures TopComma(tag, 0) == -1 ==> r == Err(MalformedTypeTag)
    ensures TopComma(tag, 0) != -1 ==>
      var typeName := tag[..TopComma(tag, 0)];
      var answer := binder.bindToType(Trim(tag[TopComma(tag, 0) + 1..]), typeName);
      (r.Ok? <==> answer.Some?) && (r.Ok? ==> r.value == answer.value)
      && (r.Err? ==> r.error == TypeNotFound(typeName))
  {
    var split := SplitAtTopComma(tag);
    if split.Err? then Err(split.error)
    else
      match binder.bindToType(split.value.1, split.value.0)
      case None => Err(TypeNotFound(split.value.0))
      case Some(t) => Ok(t)
  }

  /** With a binder, the tag written for a type reaches the binder as that
      type's head and assembly name, so the binder's answer is the type read. */
  lemma ResolveWrittenTag(binder: Formatter.Binder, foreign: Foreign, tn: TypeName)
    requires BalancedNames(tn)
    requires tn.assemblyName == [] || (!IsWhiteSpace(tn.assemblyName[0]) && !IsWhiteSpace(tn.assemblyName[|tn.assemblyName| - 1]))
    ensures ResolveTypeTag(Some(binder), foreign, Json.Str(QualifiedName(tn, Simple))) ==
      (match binder.bindToType(tn.assemblyName, SimpleHead(tn))
       case None => Err(TypeNotFound(SimpleHead(tn)))
       case Some(t) => Ok(t))
  {
    SplitQualifiedSimple(tn);
  }
}
