/** The handful of `System.String` operations the serializer relies on:
    `IndexOf`, `Split`, `Trim` and the decimal rendering of an `int`. */
module Strings {

  /** `sub` occurs in `s` starting at position `i`. */
  predicate OccursAt(s: string, sub: string, i: int) {
    0 <= i && i + |sub| <= |s| && s[i..i + |sub|] == sub
  }

  /** `s.IndexOf(sub)`: the first position at which `sub` occurs, or -1. */
  function IndexOf(s: string, sub: string): (r: int)
    ensures r >= -1
    ensures r >= 0 ==> OccursAt(s, sub, r)
  {
    IndexFrom(s, sub, 0)
  }

  function IndexFrom(s: string, sub: string, from: nat): (r: int)
    ensures r >= -1
    ensures r >= 0 ==> from <= r && OccursAt(s, sub, r)
    decreases |s| + 1 - from
  {
    if from + |sub| > |s| then -1
    else if s[from..from + |sub|] == sub then from
    else IndexFrom(s, sub, from + 1)
  }

  /** `IndexOf` finds the first occurrence, and -1 means there is none. */
  lemma IndexOfSpec(s: string, sub: string)
    ensures IndexOf(s, sub) == -1 ==> forall i :: !OccursAt(s, sub, i)
    ensures forall i :: 0 <= i < IndexOf(s, sub) ==> !OccursAt(s, sub, i)
  {
    IndexFromSpec(s, sub, 0);
  }

  lemma {:induction false} IndexFromSpec(s: string, sub: string, from: nat)
    requires forall i :: 0 <= i < from ==> !OccursAt(s, sub, i)
    ensures IndexFrom(s, sub, from) == -1 ==> forall i :: !OccursAt(s, sub, i)
    ensures forall i :: 0 <= i < IndexFrom(s, sub, from) ==> !OccursAt(s, sub, i)
    decreases |s| + 1 - from
  {
    if from + |sub| > |s| {
    } else if s[from..from + |sub|] == sub {
    } else {
      IndexFromSpec(s, sub, from + 1);
    }
  }

  /** `IndexOf(sub) != -1`. */
  predicate Contains(s: string, sub: string) {
    IndexOf(s, sub) != -1
  }

  /** Occurrence of a single character, the form `Split` needs. */
  function IndexOfChar(s: string, c: char): (r: int)
    ensures r >= -1
    ensures r == -1 <==> c !in s
    ensures r >= 0 ==> r < |s| && s[r] == c && c !in s[..r]
  {
    if s == [] then -1
    else if s[0] == c then 0
    else
      var j := IndexOfChar(s[1..], c);
      assert s == [s[0]] + s[1..];
      if j == -1 then -1 else (assert s[..j + 1] == [s[0]] + s[1..][..j]; j + 1)
  }

  /** `s.Split(new char[] { c })`: the segments between occurrences of `c`. */
  function Split(s: string, c: char): (segs: seq<string>)
    ensures |segs| >= 1
    decreases |s|
  {
    var i := IndexOfChar(s, c);
    if i == -1 then [s] else [s[..i]] + Split(s[i + 1..], c)
  }

  /** The inverse of `Split`: the segments glued back with `c`. */
  function Join(segs: seq<string>, c: char): string
    requires |segs| >= 1
  {
    if |segs| == 1 then segs[0] else segs[0] + [c] + Join(segs[1..], c)
  }

  /** Gluing the segments back gives the string split, and no segment holds
      the separator. */
  lemma SplitJoin(s: string, c: char)
    ensures Join(Split(s, c), c) == s
    ensures forall k :: 0 <= k < |Split(s, c)| ==> c !in Split(s, c)[k]
  {
    JoinSplit(s, c);
    SplitSegments(s, c);
  }

  lemma {:induction false} JoinSplit(s: string, c: char)
    ensures Join(Split(s, c), c) == s
    decreases |s|
  {
    var i := IndexOfChar(s, c);
    if i != -1 {
      var rest := s[i + 1..];
      JoinSplit(rest, c);
      SplitCons(s, c);
      JoinCons(s[..i], Split(rest, c), c);
      AroundIndex(s, i);
    }
  }

  /** Where the separator occurs, the first segment is everything before it. */
  lemma SplitCons(s: string, c: char)
    requires c in s
    ensures Split(s, c) == [s[..IndexOfChar(s, c)]] + Split(s[IndexOfChar(s, c) + 1..], c)
  {
  }

  /** A string is what comes before an index, its character, and what comes after. */
  lemma AroundIndex(s: string, i: int)
    requires 0 <= i < |s|
    ensures s == s[..i] + [s[i]] + s[i + 1..]
  {
    assert s == s[..i] + s[i..];
    assert s[i..] == [s[i]] + s[i + 1..];
  }

  /** Joining a head segment in front of further segments puts one separator between them. */
  lemma JoinCons(head: string, tail: seq<string>, c: char)
    requires |tail| >= 1
    ensures Join([head] + tail, c) == head + [c] + Join(tail, c)
  {
    assert ([head] + tail)[1..] == tail;
  }

  lemma {:induction false} SplitSegments(s: string, c: char)
    ensures forall k :: 0 <= k < |Split(s, c)| ==> c !in Split(s, c)[k]
    decreases |s|
  {
    var i := IndexOfChar(s, c);
    if i != -1 {
      var rest := s[i + 1..];
      SplitSegments(rest, c);
      var segs := Split(s, c);
      assert segs == [s[..i]] + Split(rest, c);
      forall k | 1 <= k < |segs|
        ensures c !in segs[k]
      {
        assert segs[k] == Split(rest, c)[k - 1];
      }
    }
  }

  /** A string without the separator is one segment; one with it is more. */
  lemma SplitSingle(s: string, c: char)
    ensures |Split(s, c)| == 1 <==> c !in s
    ensures c !in s ==> Split(s, c) == [s]
  {
  }

  /** The first segment runs up to the first separator. */
  lemma SplitFirst(head: string, c: char, rest: string)
    requires c !in head
    ensures Split(head + [c] + rest, c) == [head] + Split(rest, c)
  {
    var s := head + [c] + rest;
    assert s[|head|] == c;
    assert s[..|head|] == head;
    assert s[|head| + 1..] == rest;
  }

  /** The separators `Trim()` removes. */
  predicate IsWhiteSpace(ch: char) {
    ch == ' ' || ch == '\t' || ch == '\n' || ch == '\r'
  }

  function TrimStart(s: string): (r: string)
    ensures |r| <= |s| && r == s[|s| - |r|..]
    ensures r == [] || !IsWhiteSpace(r[0])
  {
    if s != [] && IsWhiteSpace(s[0]) then TrimStart(s[1..]) else s
  }

  function TrimEnd(s: string): (r: string)
    ensures |r| <= |s| && r == s[..|r|]
    ensures r == [] || !IsWhiteSpace(r[|r| - 1])
  {
    if s != [] && IsWhiteSpace(s[|s| - 1]) then TrimEnd(s[..|s| - 1]) else s
  }

  /** `s.Trim()`. */
  function Trim(s: string): string {
    TrimEnd(TrimStart(s))
  }

  /** A string already free of leading and trailing white space is its own trim. */
  lemma TrimmedIsFixed(s: string)
    requires s == [] || (!IsWhiteSpace(s[0]) && !IsWhiteSpace(s[|s| - 1]))
    ensures Trim(s) == s
  {
  }

  /** One leading blank, as in the `", "` of a type tag, is dropped by `Trim`. */
  lemma {:induction false} TrimLeadingBlank(s: string)
    requires s == [] || (!IsWhiteSpace(s[0]) && !IsWhiteSpace(s[|s| - 1]))
    ensures Trim(" " + s) == s
  {
    assert (" " + s)[1..] == s;
    assert TrimStart(" " + s) == TrimStart(s);
    TrimmedIsFixed(s);
  }

  /** `i.ToString()` for the `int` indices of array paths. */
  function IntToString(i: int): (r: string)
    ensures |r| >= 1
  {
    if i < 0 then "-" + NatToString(-i) else NatToString(i)
  }

  function NatToString(n: nat): (r: string)
    ensures |r| >= 1
    ensures forall k :: 0 <= k < |r| ==> '0' <= r[k] <= '9'
  {
    if n < 10 then [Digit(n)] else NatToString(n / 10) + [Digit(n % 10)]
  }

  function Digit(d: nat): (c: char)
    requires d < 10
    ensures '0' <= c <= '9' && c as int - '0' as int == d
  {
    ('0' as int + d) as char
  }

  /** Reads a string of decimal digits back as the number it denotes. */
  function DecimalValue(s: string): nat
    requires forall k :: 0 <= k < |s| ==> '0' <= s[k] <= '9'
  {
    if s == [] then 0 else 10 * DecimalValue(s[..|s| - 1]) + (s[|s| - 1] as int - '0' as int)
  }

  /** The decimal digits of a number denote that number. */
  lemma {:induction false} NatToStringValue(n: nat)
    ensures DecimalValue(NatToString(n)) == n
  {
    if n >= 10 {
      NatToStringValue(n / 10);
      var r := NatToString(n);
      assert r[..|r| - 1] == NatToString(n / 10);
    } else {
      assert NatToString(n)[..0] == [];
    }
  }

  /** Different natural numbers are printed differently. */
  lemma NatToStringInjective(n: nat, m: nat)
    requires NatToString(n) == NatToString(m)
    ensures n == m
  {
    NatToStringValue(n);
    NatToStringValue(m);
  }

  /** A number is printed with a leading `'-'` exactly when it is negative. */
  lemma SignPrinted(i: int)
    ensures IntToString(i)[0] == '-' <==> i < 0
  {
    if i >= 0 {
      assert IntToString(i)[0] == NatToString(i)[0];
    }
  }

  /** Different numbers are printed differently. */
  lemma {:induction false} IntToStringInjective(i: int, j: int)
    requires IntToString(i) == IntToString(j)
    ensures i == j
  {
    SignPrinted(i);
    SignPrinted(j);
    if i < 0 {
      var a, b := NatToString(-i), NatToString(-j);
      assert ("-" + a)[1..] == a && ("-" + b)[1..] == b;
      NatToStringInjective(-i, -j);
    } else {
      NatToStringInjective(i, j);
    }
  }
}
