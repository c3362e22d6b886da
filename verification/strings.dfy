/** The optional-value type shared by the other modules. */
module Options {

  /** A value that may be absent, in place of .NET's null or a failed TryParse. */
  datatype Option<+T> = None | Some(value: T)
}

/**
 Ordinal string operations, compared character by character, where a
 character is a Unicode scalar value. Contains is the String.Contains the
 plugin calls; IndexOf is the leftmost-occurrence scan that gives the tag
 regex its meaning; Split on one separator character is the step inside
 Version.TryParse, and Join is its inverse.
 */
module Strings {
  import opened Options

  /** True when `pat` occurs in `s` starting at index `j`. */
  predicate OccursAt(s: string, pat: string, j: int)
  {
    0 <= j && j + |pat| <= |s| && s[j..j + |pat|] == pat
  }

  /** A single-character pattern occurs exactly where that character is. */
  lemma OccursAtChar(s: string, c: char, j: int)
    ensures OccursAt(s, [c], j) <==> (0 <= j < |s| && s[j] == c)
  {
    if 0 <= j < |s| {
      assert s[j..j + 1] == [s[j]];
    }
  }

  /** The leftmost index at or after `from` where `pat` occurs, if any. */
  function IndexOf(s: string, pat: string, from: nat): (r: Option<nat>)
    ensures r.Some? ==> from <= r.value && OccursAt(s, pat, r.value)
    ensures r.Some? ==> forall j :: from <= j < r.value ==> !OccursAt(s, pat, j)
    ensures r.None? ==> forall j :: from <= j ==> !OccursAt(s, pat, j)
    decreases |s| - from
  {
    if from + |pat| > |s| then None
    else if s[from..from + |pat|] == pat then Some(from)
    else IndexOf(s, pat, from + 1)
  }

  /** Ordinal substring test (String.Contains). */
  function Contains(s: string, sub: string): (b: bool)
    ensures b <==> exists j :: OccursAt(s, sub, j)
  {
    IndexOf(s, sub, 0).Some?
  }

  /** Inverse of Split: the parts glued together with `sep` between them. */
  function Join(parts: seq<string>, sep: char): string
    requires |parts| >= 1
    decreases |parts|
  {
    if |parts| == 1 then parts[0] else parts[0] + [sep] + Join(parts[1..], sep)
  }

  /** The fields of `s` between occurrences of `sep`, empty fields kept (String.Split). */
  function Split(s: string, sep: char): (parts: seq<string>)
    ensures |parts| >= 1
    ensures forall i :: 0 <= i < |parts| ==> sep !in parts[i]
    ensures Join(parts, sep) == s
    decreases |s|
  {
    if |s| == 0 then [""]
    else
      var rest := Split(s[1..], sep);
      if s[0] == sep then
        assert ([""] + rest)[1..] == rest;
        [""] + rest
      else
        var parts := [[s[0]] + rest[0]] + rest[1..];
        assert parts[1..] == rest[1..];
        assert |rest| > 1 ==> Join(rest, sep) == rest[0] + [sep] + Join(rest[1..], sep);
        assert s == [s[0]] + s[1..];
        parts
  }

  /** A string without the separator is a single field. */
  lemma {:induction false} SplitSingle(p: string, sep: char)
    requires sep !in p
    ensures Split(p, sep) == [p]
    decreases |p|
  {
    if |p| > 0 {
      SplitSingle(p[1..], sep);
      assert [p[0]] + p[1..] == p;
    }
  }

  /** A leading field without the separator splits off as the first part. */
  lemma {:induction false} SplitLeadingField(p: string, sep: char, rest: string)
    requires sep !in p
    ensures Split(p + [sep] + rest, sep) == [p] + Split(rest, sep)
    decreases |p|
  {
    var s := p + [sep] + rest;
    if |p| == 0 {
      assert s[1..] == rest;
    } else {
      assert s[1..] == p[1..] + [sep] + rest;
      SplitLeadingField(p[1..], sep, rest);
      assert [p[0]] + p[1..] == p;
    }
  }

  /** Split undoes Join when no part contains the separator. */
  lemma {:induction false} SplitJoin(parts: seq<string>, sep: char)
    requires |parts| >= 1
    requires forall i :: 0 <= i < |parts| ==> sep !in parts[i]
    ensures Split(Join(parts, sep), sep) == parts
    decreases |parts|
  {
    if |parts| == 1 {
      SplitSingle(parts[0], sep);
    } else {
      SplitJoin(parts[1..], sep);
      SplitLeadingField(parts[0], sep, Join(parts[1..], sep));
      assert [parts[0]] + parts[1..] == parts;
    }
  }
}
