/** `JsonFormatter`: the configuration the walkers read (binder, assembly
    style, custom converters, surrogate selector) and the two static helpers
    `IsElementary` (in TypeModel) and `NormalizeMemberName`. */
module Formatter {
  import opened Wrappers
  import opened Strings
  import opened TypeModel

  /* ---------- member-name normalisation ---------- */

  const BackingFieldMarker: string := ">k__BackingField"
  /** `backingFieldSubstring.Length + 1`: the marker and the leading `'<'`. */
  const BackingFieldLen: nat := |BackingFieldMarker| + 1
  const JsonFieldMarker: string := "__Field"
  const JsonFieldLen: nat := |JsonFieldMarker|

  /** The name of a member as it appears in the JSON: the second `'+'`
      segment of a qualified name, with a compiler-generated backing-field
      wrapper `<X>k__BackingField` reduced to `X` and a trailing `__Field`
      dropped. */
  function NormalizeMemberName(name: string): string
  {
    var v := Split(name, '+');
    var memberName := if |v| == 1 then v[0] else v[1];
    var stripped :=
      if Contains(memberName, BackingFieldMarker) && memberName[0] == '<' then
        SubstringRangeBackingField(memberName);
        memberName[1..1 + |memberName| - BackingFieldLen]
      else memberName;
    if Contains(stripped, JsonFieldMarker) then
      SubstringRangeJsonField(stripped);
      stripped[..|stripped| - JsonFieldLen]
    else stripped
  }

  /** A plain member name is its own JSON name. */
  lemma NormalizePlain(name: string)
    requires '+' !in name && !Contains(name, BackingFieldMarker) && !Contains(name, JsonFieldMarker)
    ensures NormalizeMemberName(name) == name
  {
    SplitSingle(name, '+');
  }

  /** The guard of the backing-field branch makes `Substring(1, Length - 17)`
      legal: the marker cannot start at position 0, which holds `'<'`, so
      the name is at least 17 characters long. */
  lemma SubstringRangeBackingField(m: string)
    requires Contains(m, BackingFieldMarker) && m[0] == '<'
    ensures |m| >= BackingFieldLen
  {
    var i := IndexOf(m, BackingFieldMarker);
    assert m[i..i + 16] == BackingFieldMarker;
    assert m[i] == '>';
    assert i >= 1;
  }

  /** The guard of the `__Field` branch makes `Substring(0, Length - 7)` legal. */
  lemma SubstringRangeJsonField(m: string)
    requires Contains(m, JsonFieldMarker)
    ensures |m| >= JsonFieldLen
  {
  }

  /** A compiler-generated backing field `<X>k__BackingField` is named `X`. */
  lemma NormalizeBackingField(x: string)
    requires '+' !in x && !Contains(x, JsonFieldMarker)
    ensures NormalizeMemberName("<" + x + BackingFieldMarker) == x
  {
    var name := "<" + x + BackingFieldMarker;
    assert '+' !in name by {
      assert name == ['<'] + x + BackingFieldMarker;
    }
    SplitSingle(name, '+');
    assert OccursAt(name, BackingFieldMarker, |x| + 1) by {
      assert name[|x| + 1..|x| + 1 + 16] == BackingFieldMarker;
    }
    IndexOfSpec(name, BackingFieldMarker);
    assert name[1..1 + |name| - BackingFieldLen] == x;
  }

  /** A member `X__Field` is named `X`. */
  lemma NormalizeJsonField(x: string)
    requires '+' !in x && !Contains(x + JsonFieldMarker, BackingFieldMarker)
    ensures NormalizeMemberName(x + JsonFieldMarker) == x
  {
    var name := x + JsonFieldMarker;
    assert '+' !in name;
    SplitSingle(name, '+');
    assert OccursAt(name, JsonFieldMarker, |x|) by {
      assert name[|x|..|x| + 7] == JsonFieldMarker;
    }
    IndexOfSpec(name, JsonFieldMarker);
    assert name[..|name| - JsonFieldLen] == x;
  }

  /** Of a `'+'`-qualified name only the second segment is kept. */
  lemma NormalizeQualified(outer: string, x: string, rest: string)
    requires '+' !in outer && '+' !in x
    requires !Contains(x, BackingFieldMarker) && !Contains(x, JsonFieldMarker)
    ensures NormalizeMemberName(outer + "+" + x) == x
    ensures NormalizeMemberName(outer + "+" + x + "+" + rest) == x
  {
    SplitFirst(outer, '+', x);
    SplitSingle(x, '+');
    assert Split(outer + "+" + x, '+') == [outer, x];
    SplitFirst(x, '+', rest);
    assert outer + "+" + x + "+" + rest == outer + ['+'] + (x + ['+'] + rest);
    SplitFirst(outer, '+', x + ['+'] + rest);
    assert Split(outer + "+" + x + "+" + rest, '+')[1] == x;
  }

  /** The JSON names of the members of a type, in declaration order. */
  function MemberNames(members: seq<Member>): (names: seq<string>)
    ensures |names| == |members|
  {
    if members == [] then []
    else MemberNames(members[..|members| - 1]) + [NormalizeMemberName(members[|members| - 1].name)]
  }

  lemma {:induction false} MemberNamesAt(members: seq<Member>, i: nat)
    requires i < |members|
    ensures MemberNames(members)[i] == NormalizeMemberName(members[i].name)
  {
    if i < |members| - 1 {
      MemberNamesAt(members[..|members| - 1], i);
    }
  }

  /* ---------- formatter configuration ---------- */

  /** `SerializationBinder.BindToType(assemblyName, typeName)`, `null` as `None`. */
  datatype Binder = Binder(bindToType: (string, string) -> Option<TypeId>)

  /** `ISurrogateSelector.GetSurrogate(type, ...)`, `null` as `None`. */
  datatype SurrogateSelector = SurrogateSelector(getSurrogate: TypeId -> Option<SurrogateId>)

  /** The formatter's settings as a walk sees them (they do not change
      during a walk). */
  datatype Settings = Settings(
    binder: Option<Binder>,
    selector: Option<SurrogateSelector>,
    assemblyFormat: AssemblyStyle,
    customConverters: Option<map<TypeId, Converter>>)
  {
    /** `GetSurrogate`: asks the selector, or yields `null` when none is set. */
    function GetSurrogate(t: TypeId): (r: Option<SurrogateId>)
      ensures selector.None? ==> r.None?
      ensures selector.Some? ==> r == selector.value.getSurrogate(t)
    {
      if selector.None? then None else selector.value.getSurrogate(t)
    }

    /** `GetTypeConverter`: a custom converter registered for `t` wins over
        the type's default converter. */
    function GetTypeConverter(t: TypeId, d: TypeDesc): (r: Converter)
      ensures customConverters.Some? && t in customConverters.value ==> r == customConverters.value[t]
      ensures (customConverters.None? || t !in customConverters.value) ==> r == d.defaultConverter
    {
      if customConverters.Some? && t in customConverters.value then customConverters.value[t]
      else d.defaultConverter
    }
  }

  class JsonFormatter {
    var binder: Option<Binder>
    var surrogateSelector: Option<SurrogateSelector>
    var assemblyFormat: AssemblyStyle
    var customTypeConverters: Option<map<TypeId, Converter>>

    /** A new formatter: no binder, no selector, no custom converters, and
        the simple assembly style. */
    constructor ()
      ensures binder.None? && surrogateSelector.None? && customTypeConverters.None?
      ensures assemblyFormat == Simple
    {
      binder := None;
      surrogateSelector := None;
      assemblyFormat := Simple;
      customTypeConverters := None;
    }

    /** The settings a walk started now would see. */
    function Snapshot(): (s: Settings)
      reads this
      ensures s.binder == binder && s.selector == surrogateSelector
      ensures s.assemblyFormat == assemblyFormat && s.customConverters == customTypeConverters
    {
      Settings(binder, surrogateSelector, assemblyFormat, customTypeConverters)
    }
  }
}
