/**
 The part of .NET's System.Version that the update check relies on:
 Version.TryParse on a dotted string, and the ordering behind `<`
 (CompareTo). A version has Major and Minor and optionally Build and
 Revision; the runtime stores an absent Build or Revision as -1, which makes
 it sort below every present value.

 Components are restricted to plain decimal digits; the whitespace and sign
 that Int32.TryParse would also accept inside a component are not modelled.
 */
module SystemVersion {
  import opened Options
  import Strings

  /** Largest value of a .NET Int32; a component above it fails to parse. */
  const Int32Max: nat := 0x7FFF_FFFF

  /** Major.Minor[.Build[.Revision]]. */
  datatype Version = Version(major: nat, minor: nat, build: Option<nat>, revision: Option<nat>)

  /** The versions System.Version can hold: Int32 components, and no Revision without a Build. */
  predicate Valid(v: Version)
  {
    && v.major <= Int32Max
    && v.minor <= Int32Max
    && (v.build.Some? ==> v.build.value <= Int32Max)
    && (v.revision.Some? ==> v.build.Some? && v.revision.value <= Int32Max)
  }

  /** The present components of `v`, in order. */
  function Components(v: Version): seq<nat>
  {
    [v.major, v.minor]
    + (if v.build.Some? then [v.build.value] else [])
    + (if v.revision.Some? then [v.revision.value] else [])
  }

  // ---------------------------------------------------------------- digits

  predicate IsDigit(c: char)
  {
    '0' <= c <= '9'
  }

  predicate AllDigits(s: string)
  {
    forall i :: 0 <= i < |s| ==> IsDigit(s[i])
  }

  function DigitValue(c: char): nat
    requires IsDigit(c)
  {
    c as int - '0' as int
  }

  function DigitChar(d: nat): (c: char)
    requires d < 10
    ensures IsDigit(c) && DigitValue(c) == d
  {
    ('0' as int + d) as char
  }

  /** The decimal value of a digit string, most significant digit first (leading zeros allowed). */
  function DigitsValue(s: string): nat
    requires AllDigits(s)
    decreases |s|
  {
    if |s| == 0 then 0 else DigitsValue(s[..|s| - 1]) * 10 + DigitValue(s[|s| - 1])
  }

  /** The shortest decimal spelling of `n` (what Int32.ToString prints for a non-negative value). */
  function NatToDigits(n: nat): (s: string)
    ensures |s| > 0 && AllDigits(s)
    ensures DigitsValue(s) == n
    ensures '.' !in s
    ensures |s| > 1 ==> s[0] != '0'
    decreases n
  {
    if n < 10 then [DigitChar(n)]
    else
      var prefix := NatToDigits(n / 10);
      var s := prefix + [DigitChar(n % 10)];
      assert DigitsValue(prefix) > 0;
      assert s[..|s| - 1] == prefix;
      assert forall i :: 0 <= i < |s| ==> IsDigit(s[i]);
      s
  }

  // ---------------------------------------------------------------- parsing

  /** A field Int32.TryParse accepts with a non-negative result (digits only in this model). */
  predicate IsComponent(p: string)
  {
    |p| > 0 && AllDigits(p) && DigitsValue(p) <= Int32Max
  }

  /** The dot-separated fields of `s` are two to four valid components. */
  predicate WellFormed(s: string)
  {
    var parts := Strings.Split(s, '.');
    && 2 <= |parts| <= 4
    && forall i :: 0 <= i < |parts| ==> IsComponent(parts[i])
  }

  /** Version.TryParse: None where the runtime returns false. */
  function TryParse(s: string): (r: Option<Version>)
    ensures r.Some? <==> WellFormed(s)
    ensures r.Some? ==> Valid(r.value)
    ensures r.Some? ==>
      var parts := Strings.Split(s, '.');
      && |Components(r.value)| == |parts|
      && forall i :: 0 <= i < |parts| ==> Components(r.value)[i] == DigitsValue(parts[i])
  {
    var parts := Strings.Split(s, '.');
    if |parts| < 2 || |parts| > 4 then None
    else if exists i :: 0 <= i < |parts| && !IsComponent(parts[i]) then None
    else
      Some(Version(
        DigitsValue(parts[0]),
        DigitsValue(parts[1]),
        if |parts| > 2 then Some(DigitsValue(parts[2])) else None,
        if |parts| > 3 then Some(DigitsValue(parts[3])) else None))
  }

  /** Version.ToString(): the present components in decimal, joined by dots. */
  function Format(v: Version): string
  {
    Strings.Join(FormatComponents(Components(v)), '.')
  }

  function FormatComponents(cs: seq<nat>): (ps: seq<string>)
    ensures |ps| == |cs|
    ensures forall i :: 0 <= i < |cs| ==> ps[i] == NatToDigits(cs[i])
  {
    seq(|cs|, i requires 0 <= i < |cs| => NatToDigits(cs[i]))
  }

  /** Parsing the printed form of any representable version gives it back. */
  lemma FormatThenParse(v: Version)
    requires Valid(v)
    ensures TryParse(Format(v)) == Some(v)
  {
    var cs := Components(v);
    var ps := FormatComponents(cs);
    Strings.SplitJoin(ps, '.');
    assert Strings.Split(Format(v), '.') == ps;
    assert forall i :: 0 <= i < |ps| ==> IsComponent(ps[i]);
  }

  /** A parsed version reparses to itself from its canonical printed form. */
  lemma ParseIsCanonical(s: string)
    requires TryParse(s).Some?
    ensures TryParse(Format(TryParse(s).value)) == TryParse(s)
  {
    FormatThenParse(TryParse(s).value);
  }

  /** No dot means a single field, which Version.TryParse rejects. */
  lemma NoDotDoesNotParse(s: string)
    requires '.' !in s
    ensures TryParse(s) == None
  {
    Strings.SplitSingle(s, '.');
  }

  // ---------------------------------------------------------------- ordering

  /** How the runtime stores an optional component: -1 when absent. */
  function Stored(o: Option<nat>): int
  {
    if o.None? then -1 else o.value
  }

  /** -1, 0 or 1 as `x` is below, equal to or above `y`. */
  function Sign(x: int, y: int): int
  {
    if x == y then 0 else if x > y then 1 else -1
  }

  /** An absent optional component sorts below every present one. */
  predicate OptionLess(x: Option<nat>, y: Option<nat>)
  {
    (x.None? && y.Some?) || (x.Some? && y.Some? && x.value < y.value)
  }

  /** Reference order: lexicographic on Major, Minor, Build, Revision. */
  predicate Precedes(a: Version, b: Version)
  {
    || a.major < b.major
    || (a.major == b.major && a.minor < b.minor)
    || (a.major == b.major && a.minor == b.minor && OptionLess(a.build, b.build))
    || (a.major == b.major && a.minor == b.minor && a.build == b.build && OptionLess(a.revision, b.revision))
  }

  /** Version.CompareTo: the first differing stored component decides. */
  function CompareTo(a: Version, b: Version): (c: int)
    ensures c == -1 || c == 0 || c == 1
    ensures c < 0 <==> Precedes(a, b)
    ensures c == 0 <==> a == b
    ensures c > 0 <==> Precedes(b, a)
  {
    if a.major != b.major then Sign(a.major, b.major)
    else if a.minor != b.minor then Sign(a.minor, b.minor)
    else if Stored(a.build) != Stored(b.build) then Sign(Stored(a.build), Stored(b.build))
    else Sign(Stored(a.revision), Stored(b.revision))
  }

  /** The `<` operator on System.Version. */
  predicate Less(a: Version, b: Version)
  {
    CompareTo(a, b) < 0
  }

  /** `<` is a strict total order: irreflexive, transitive and total on distinct versions. */
  lemma LessIsStrictTotalOrder(a: Version, b: Version, c: Version)
    ensures !Less(a, a)
    ensures Less(a, b) && Less(b, c) ==> Less(a, c)
    ensures a != b ==> (Less(a, b) <==> !Less(b, a))
  {
  }
}
