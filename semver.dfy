/**
 * The part of `semver::Version` the commands use: the numeric core
 * `major.minor.patch`, its precedence order, its `Display` form and its parser.
 */
module SemVer {
  import opened Wrappers
  import opened Text

  datatype Version = Version(major: nat, minor: nat, patch: nat)

  /** Semantic-version precedence on the core: major, then minor, then patch. */
  predicate Less(a: Version, b: Version)
  {
    a.major < b.major
    || (a.major == b.major && (a.minor < b.minor || (a.minor == b.minor && a.patch < b.patch)))
  }

  predicate LessEq(a: Version, b: Version)
  {
    a == b || Less(a, b)
  }

  predicate IsDigit(c: char)
  {
    '0' <= c <= '9'
  }

  predicate AllDigits(s: string)
  {
    forall i :: 0 <= i < |s| ==> IsDigit(s[i])
  }

  /** A numeric identifier as semver accepts it: digits, no leading zero unless it is `0`. */
  predicate IsCanonicalNumber(s: string)
  {
    s != [] && AllDigits(s) && (s[0] == '0' ==> |s| == 1)
  }

  function DigitChar(d: nat): char
    requires d < 10
  {
    (48 + d) as char
  }

  /** Decimal rendering of a number, as `Display` for `u64` writes it. */
  function NatToString(n: nat): (s: string)
    ensures IsCanonicalNumber(s)
    decreases n
  {
    if n < 10 then [DigitChar(n)] else NatToString(n / 10) + [DigitChar(n % 10)]
  }

  function DigitsValue(s: string): nat
    requires AllDigits(s)
    decreases |s|
  {
    if s == [] then 0 else DigitsValue(s[..|s| - 1]) * 10 + (s[|s| - 1] as int - 48)
  }

  function ParseNumber(s: string): (r: Option<nat>)
    ensures r.Some? <==> IsCanonicalNumber(s)
  {
    if IsCanonicalNumber(s) then Some(DigitsValue(s)) else None
  }

  /** `Display` for `semver::Version` without pre-release or build metadata. */
  function ToString(v: Version): string
  {
    NatToString(v.major) + "." + NatToString(v.minor) + "." + NatToString(v.patch)
  }

  /** `semver::Version::parse` on the core grammar `N.N.N`. */
  function Parse(s: string): Option<Version>
  {
    var parts := SplitOn(s, '.');
    if |parts| != 3 then None
    else match (ParseNumber(parts[0]), ParseNumber(parts[1]), ParseNumber(parts[2]))
      case (Some(a), Some(b), Some(c)) => Some(Version(a, b, c))
      case _ => None
  }

  lemma {:induction false} DigitsOfNatToString(n: nat)
    ensures DigitsValue(NatToString(n)) == n
    decreases n
  {
    var s := NatToString(n);
    if n >= 10 {
      DigitsOfNatToString(n / 10);
      assert s[..|s| - 1] == NatToString(n / 10);
    }
  }

  lemma {:induction false} PositiveDigits(s: string)
    requires IsCanonicalNumber(s) && s[0] != '0'
    ensures DigitsValue(s) > 0
    decreases |s|
  {
    if |s| > 1 {
      PositiveDigits(s[..|s| - 1]);
    }
  }

  /** A canonical numeral is the rendering of its value. */
  lemma {:induction false} NatToStringOfDigits(s: string)
    requires IsCanonicalNumber(s)
    ensures NatToString(DigitsValue(s)) == s
    decreases |s|
  {
    if |s| > 1 {
      var x := s[..|s| - 1];
      PositiveDigits(s);
      PositiveDigits(x);
      NatToStringOfDigits(x);
      var n := DigitsValue(s);
      assert n / 10 == DigitsValue(x) && n % 10 == s[|s| - 1] as int - 48;
      assert s == x + [s[|s| - 1]];
    }
  }

  /** Rendering a number and parsing it back gives the number. */
  lemma NumberRoundTrip(n: nat)
    ensures ParseNumber(NatToString(n)) == Some(n)
  {
    DigitsOfNatToString(n);
  }

  lemma Join3(a: string, b: string, c: string)
    ensures Join([a, b, c], ".") == a + "." + b + "." + c
  {
    assert [a, b, c][1..] == [b, c];
    assert [b, c][1..] == [c];
    assert Join([c], ".") == c;
    assert Join([b, c], ".") == b + "." + c;
    assert Join([a, b, c], ".") == a + "." + (b + "." + c);
  }

  /** Parsing the rendering of a version gives the version back. */
  lemma ParseToString(v: Version)
    ensures Parse(ToString(v)) == Some(v)
  {
    var parts := [NatToString(v.major), NatToString(v.minor), NatToString(v.patch)];
    Join3(parts[0], parts[1], parts[2]);
    SplitJoin(parts, '.');
    NumberRoundTrip(v.major);
    NumberRoundTrip(v.minor);
    NumberRoundTrip(v.patch);
  }

  /** Whatever parses is the canonical rendering of its version. */
  lemma ToStringOfParse(s: string)
    requires Parse(s).Some?
    ensures ToString(Parse(s).value) == s
  {
    var parts := SplitOn(s, '.');
    NatToStringOfDigits(parts[0]);
    NatToStringOfDigits(parts[1]);
    NatToStringOfDigits(parts[2]);
    JoinSplit(s, '.');
    assert parts == [parts[0], parts[1], parts[2]];
    Join3(parts[0], parts[1], parts[2]);
  }
}
