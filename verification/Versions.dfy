/** internal/store/version.go: version strings, how they are read and how they are bumped.

    A version is written with `%d` and read back with `strconv.Atoi`, part by part, where a part
    that cannot be read keeps its default.  Numbers are 64-bit integers, so counting one up can wrap
    around.  Both directions are spelled out down to the digits, because that the next version is
    newer than all earlier ones depends on printing and reading being inverse to each other. */
module Versions {
  import opened Steps
  import opened Text

  const MAX_INT: int := 0x7fff_ffff_ffff_ffff
  const MIN_INT: int := -0x8000_0000_0000_0000

  // ---------------------------------------------------------------- decimal numbers

  predicate IsDigit(c: char) { '0' <= c <= '9' }

  predicate AllDigits(s: string) { forall i :: 0 <= i < |s| ==> IsDigit(s[i]) }

  function DigitChar(d: nat): char
    requires d < 10
  {
    ['0', '1', '2', '3', '4', '5', '6', '7', '8', '9'][d]
  }

  function DigitValue(c: char): nat
    requires IsDigit(c)
  {
    c as int - '0' as int
  }

  function Digits(n: nat): string {
    if n < 10 then [DigitChar(n)] else Digits(n / 10) + [DigitChar(n % 10)]
  }

  function DigitsValue(s: string): nat
    requires AllDigits(s)
  {
    if s == [] then 0 else DigitsValue(s[..|s| - 1]) * 10 + DigitValue(s[|s| - 1])
  }

  lemma DigitsRoundTrip(n: nat)
    ensures Digits(n) != [] && AllDigits(Digits(n)) && DigitsValue(Digits(n)) == n
  {
    if n >= 10 {
      DigitsRoundTrip(n / 10);
      assert Digits(n)[..|Digits(n)| - 1] == Digits(n / 10);
    } else {
      assert Digits(n)[..0] == [];
    }
  }

  /** Go's `%d`. */
  function Itoa(i: int): string { if i < 0 then "-" + Digits(-i) else Digits(i) }

  /** strconv.Atoi: an optional sign, at least one digit, and a value that fits 64 bits. */
  function Atoi(s: string): Result<int, ()> {
    var signed := s != [] && (s[0] == '-' || s[0] == '+');
    var digits := if signed then s[1..] else s;
    if digits == [] || !AllDigits(digits) then Err(())
    else
      var m: int := DigitsValue(digits);
      var v := if s[0] == '-' then -m else m;
      if MIN_INT <= v <= MAX_INT then Ok(v) else Err(())
  }

  lemma AtoiDigits(n: nat)
    requires n <= MAX_INT
    ensures Atoi(Digits(n)) == Ok(n)
  {
    DigitsRoundTrip(n);
    assert IsDigit(Digits(n)[0]);
  }

  lemma AtoiNegative(i: int)
    requires MIN_INT <= i < 0
    ensures Atoi("-" + Digits(-i)) == Ok(i)
  {
    var n: nat := -i;
    DigitsRoundTrip(n);
    assert ("-" + Digits(n))[1..] == Digits(n);
  }

  lemma AtoiItoa(i: int)
    requires MIN_INT <= i <= MAX_INT
    ensures Atoi(Itoa(i)) == Ok(i)
  {
    if i < 0 { AtoiNegative(i); } else { AtoiDigits(i); }
  }

  // ---------------------------------------------------------------- splitting

  function Split(s: string): (parts: seq<string>)
    ensures parts != []
  {
    if s == [] then [[]]
    else if s[0] == '.' then [[]] + Split(s[1..])
    else
      var rest := Split(s[1..]);
      [[s[0]] + rest[0]] + rest[1..]
  }

  lemma SplitAt(a: string, b: string)
    requires '.' !in a
    ensures Split(a + ['.'] + b) == [a] + Split(b)
    ensures Split(a) == [a]
  {
    if a != [] {
      SplitAt(a[1..], b);
      assert (a + ['.'] + b)[1..] == a[1..] + ['.'] + b;
      assert [a[0]] + a[1..] == a;
    } else {
      assert (a + ['.'] + b)[1..] == b;
    }
  }

  function TrimPrefixV(s: string): string {
    if s != [] && s[0] == 'v' then s[1..] else s
  }

  // ---------------------------------------------------------------- versions

  datatype Version = Version(major: int, minor: int, patch: int)

  ghost predicate Older(a: Version, b: Version) {
    || a.major < b.major
    || (a.major == b.major && a.minor < b.minor)
    || (a.major == b.major && a.minor == b.minor && a.patch < b.patch)
  }

  ghost predicate Representable(v: Version) {
    MIN_INT <= v.major <= MAX_INT && MIN_INT <= v.minor <= MAX_INT && MIN_INT <= v.patch <= MAX_INT
  }

  function Print(v: Version): string {
    "v" + Itoa(v.major) + "." + Itoa(v.minor) + "." + Itoa(v.patch)
  }

  function Stripped(s: string): string { TrimPrefixV(TrimSpace(s)) }

  function Component(parts: seq<string>, k: nat, default: int): int {
    if k < |parts| && parts[k] != "" && Atoi(parts[k]).Ok? then Atoi(parts[k]).value else default
  }

  /** How a non-empty version string is read; what cannot be read keeps its default. */
  function Parse(s: string): Version {
    var parts := Split(Stripped(s));
    Version(Component(parts, 0, 1), Component(parts, 1, 0), Component(parts, 2, 0))
  }

  lemma NoDots(i: int)
    ensures '.' !in Itoa(i) && Itoa(i) != "" && !IsSpace(Itoa(i)[|Itoa(i)| - 1])
  {
    DigitsRoundTrip(if i < 0 then -i else i);
    forall k | 0 <= k < |Itoa(i)|
      ensures Itoa(i)[k] != '.' && !IsSpace(Itoa(i)[k])
    {
      var d := Digits(if i < 0 then -i else i);
      if i < 0 {
        if k > 0 { assert IsDigit(d[k - 1]) && Itoa(i)[k] == d[k - 1]; }
      } else {
        assert IsDigit(d[k]);
      }
    }
  }

  lemma PrintShape(v: Version)
    ensures Stripped(Print(v)) == Itoa(v.major) + ['.'] + (Itoa(v.minor) + ['.'] + Itoa(v.patch))
  {
    NoDots(v.patch);
    PrintedAs(Itoa(v.major), Itoa(v.minor), Itoa(v.patch));
  }

  lemma PrintedAs(a: string, b: string, c: string)
    requires c != "" && !IsSpace(c[|c| - 1])
    ensures Stripped("v" + a + "." + b + "." + c) == a + ['.'] + (b + ['.'] + c)
  {
    var s, t := "v" + a + "." + b + "." + c, a + ['.'] + (b + ['.'] + c);
    assert s == "v" + t;
    assert s[|s| - 1] == c[|c| - 1];
    NoSpaces(s);
    assert ("v" + t)[1..] == t;
  }

  /** Printing loses nothing. */
  lemma ParsePrint(v: Version)
    requires Representable(v)
    ensures Stripped(Print(v)) != "" && Parse(Print(v)) == v
  {
    PrintShape(v);
    NoDots(v.major);
    NoDots(v.minor);
    NoDots(v.patch);
    SplitAt(Itoa(v.major), Itoa(v.minor) + ['.'] + Itoa(v.patch));
    SplitAt(Itoa(v.minor), Itoa(v.patch));
    SplitAt(Itoa(v.patch), []);
    AtoiItoa(v.major);
    AtoiItoa(v.minor);
    AtoiItoa(v.patch);
  }

  lemma PrintInjective(v: Version, w: Version)
    requires Representable(v) && Representable(w) && Print(v) == Print(w)
    ensures v == w
  {
    ParsePrint(v);
    ParsePrint(w);
  }

  // ---------------------------------------------------------------- bumping

  function Lower(s: string): string {
    seq(|s|, i requires 0 <= i < |s| => if 'A' <= s[i] <= 'Z' then (s[i] as int + 32) as char else s[i])
  }

  /** Go's `++` on a 64-bit int. */
  function Increment(i: int): int { if i == MAX_INT then MIN_INT else i + 1 }

  predicate KnownBump(bump: string) { Lower(bump) == "major" || Lower(bump) == "minor" || Lower(bump) == "patch" }

  /** The component a bump increments. */
  function BumpedComponent(v: Version, bump: string): int
    requires KnownBump(bump)
  {
    if Lower(bump) == "major" then v.major else if Lower(bump) == "minor" then v.minor else v.patch
  }

  const FIRST := Version(1, 0, 0)

  /** Lines 17-33: a part that is missing, empty or unreadable leaves the default. */
  method ReadParts(rest: string) returns (major: int, minor: int, patch: int)
    ensures var parts := Split(rest);
      major == Component(parts, 0, 1) && minor == Component(parts, 1, 0) && patch == Component(parts, 2, 0)
    ensures Representable(Version(major, minor, patch))
  {
    var parts := Split(rest);
    major, minor, patch := 1, 0, 0;
    if |parts| >= 1 && parts[0] != "" {
      var v := Atoi(parts[0]);
      if v.Ok? { major := v.value; }
    }
    if |parts| >= 2 && parts[1] != "" {
      var v := Atoi(parts[1]);
      if v.Ok? { minor := v.value; }
    }
    if |parts| >= 3 && parts[2] != "" {
      var v := Atoi(parts[2]);
      if v.Ok? { patch := v.value; }
    }
  }

  /** Without a current version the first one is given out; otherwise one component is counted up. */
  method BumpVersion(current: string, bump: string) returns (r: Result<string, string>)
    ensures Stripped(current) == "" ==> r == Ok(Print(FIRST))
    ensures Stripped(current) != "" ==> (r.Ok? <==> KnownBump(bump))
    ensures Stripped(current) != "" && r.Ok? ==>
      Representable(Parse(r.value)) && r.value == Print(Parse(r.value)) && NextVersion(Parse(current), bump, Parse(r.value))
  {
    var rest := TrimPrefixV(TrimSpace(current));
    if rest == "" {
      FirstPrinted();
      return Ok("v1.0.0");
    }
    var major, minor, patch := ReadParts(rest);
    var kind := Lower(bump);
    if kind == "major" {
      major := Increment(major);
      minor := 0;
      patch := 0;
    } else if kind == "minor" {
      minor := Increment(minor);
      patch := 0;
    } else if kind == "patch" {
      patch := Increment(patch);
    } else {
      return Err(bump);
    }
    ParsePrint(Version(major, minor, patch));
    return Ok(Print(Version(major, minor, patch)));
  }

  lemma FirstPrinted()
    ensures Print(FIRST) == "v1.0.0"
  {
    assert Itoa(1) == "1" && Itoa(0) == "0";
  }

  /** `w` is `v` with one component counted up and the less significant ones reset. */
  ghost predicate NextVersion(v: Version, bump: string, w: Version) {
    match Lower(bump)
    case "major" => w == Version(Increment(v.major), 0, 0)
    case "minor" => w == Version(v.major, Increment(v.minor), 0)
    case "patch" => w == Version(v.major, v.minor, Increment(v.patch))
    case _ => false
  }

  /** A bump moves forward exactly when the component it counts up does not wrap around. */
  lemma BumpMovesForwardIff(v: Version, bump: string, w: Version)
    requires Representable(v) && NextVersion(v, bump, w)
    ensures Older(v, w) <==> BumpedComponent(v, bump) < 9223372036854775807
    ensures BumpedComponent(v, bump) == 9223372036854775807 ==> BumpedComponent(w, bump) == -9223372036854775808
  {
  }

  /** Which bumps there are, in upper or lower case. */
  lemma BumpNames(bump: string)
    ensures KnownBump(bump) <==> SameLetters(bump, "major") || SameLetters(bump, "minor") || SameLetters(bump, "patch")
  {
    LowerIs(bump, "major");
    LowerIs(bump, "minor");
    LowerIs(bump, "patch");
  }

  /** `word` is in lower case, and `s` spells it in any. */
  predicate SameLetters(s: string, word: string) {
    |s| == |word| && forall i :: 0 <= i < |s| ==> s[i] == word[i] || s[i] as int + 32 == word[i] as int
  }

  lemma LowerIs(s: string, word: string)
    requires forall i :: 0 <= i < |word| ==> 'a' <= word[i] <= 'z'
    ensures Lower(s) == word <==> SameLetters(s, word)
  {
    if SameLetters(s, word) {
      forall i | 0 <= i < |s|
        ensures Lower(s)[i] == word[i]
      {
        assert 'a' <= word[i] <= 'z';
      }
    }
    if Lower(s) == word {
      forall i | 0 <= i < |s|
        ensures s[i] == word[i] || s[i] as int + 32 == word[i] as int
      {
        assert Lower(s)[i] == word[i];
      }
    }
  }

  // ---------------------------------------------------------------- what is read from other strings

  lemma NoSpaces(s: string)
    requires s != [] && !IsSpace(s[0]) && !IsSpace(s[|s| - 1])
    ensures TrimSpace(s) == s
  {
  }

  lemma ItoaEnds(i: int)
    ensures Itoa(i) != "" && Itoa(i)[0] != 'v' && !IsSpace(Itoa(i)[0]) && !IsSpace(Itoa(i)[|Itoa(i)| - 1])
  {
    NoDots(i);
    DigitsRoundTrip(if i < 0 then -i else i);
    var d := Digits(if i < 0 then -i else i);
    assert IsDigit(d[0]);
  }

  lemma StrippedBare(s: string)
    requires s != "" && s[0] != 'v' && !IsSpace(s[0]) && !IsSpace(s[|s| - 1])
    ensures Stripped(s) == s && Stripped("v" + s) == s
  {
    NoSpaces(s);
    NoSpaces("v" + s);
    assert ("v" + s)[1..] == s;
  }

  /** The leading "v" may be missing. */
  lemma ParseBare(v: Version)
    requires Representable(v)
    ensures Parse(Itoa(v.major) + ['.'] + (Itoa(v.minor) + ['.'] + Itoa(v.patch))) == v
  {
    var s := Itoa(v.major) + ['.'] + (Itoa(v.minor) + ['.'] + Itoa(v.patch));
    ItoaEnds(v.major);
    ItoaEnds(v.patch);
    assert s[0] == Itoa(v.major)[0] && s[|s| - 1] == Itoa(v.patch)[|Itoa(v.patch)| - 1];
    StrippedBare(s);
    PrintShape(v);
    ParsePrint(v);
  }

  /** Missing parts are taken as 0. */
  lemma ParseShort(major: int, minor: int)
    requires Representable(Version(major, minor, 0))
    ensures Parse(Itoa(major)) == Version(major, 0, 0)
    ensures Parse(Itoa(major) + ['.'] + Itoa(minor)) == Version(major, minor, 0)
  {
    OnePart(major);
    TwoParts(major, minor);
  }

  lemma OnePart(major: int)
    requires MIN_INT <= major <= MAX_INT
    ensures Parse(Itoa(major)) == Version(major, 0, 0)
  {
    ItoaEnds(major);
    StrippedBare(Itoa(major));
    NoDots(major);
    SplitAt(Itoa(major), []);
    AtoiItoa(major);
  }

  lemma TwoParts(major: int, minor: int)
    requires Representable(Version(major, minor, 0))
    ensures Parse(Itoa(major) + ['.'] + Itoa(minor)) == Version(major, minor, 0)
  {
    var a, b := Itoa(major), Itoa(minor);
    var s := a + ['.'] + b;
    ItoaEnds(major);
    ItoaEnds(minor);
    assert s[0] == a[0] && s[|s| - 1] == b[|b| - 1];
    StrippedBare(s);
    NoDots(major);
    NoDots(minor);
    SplitAt(a, b);
    SplitAt(b, []);
    AtoiItoa(major);
    AtoiItoa(minor);
  }

  /** A string without dots that is no number is read as version 1.0.0. */
  lemma ParseUnreadable(s: string)
    requires s != "" && s[0] != 'v' && !IsSpace(s[0]) && !IsSpace(s[|s| - 1]) && '.' !in s && Atoi(s).Err?
    ensures Parse(s) == Version(1, 0, 0)
  {
    StrippedBare(s);
    SplitAt(s, []);
  }

  /** Numbers may carry a plus sign, and must fit 64 bits. */
  lemma AtoiReads(n: nat)
    ensures n <= 9223372036854775807 ==> Atoi(Digits(n)) == Ok(n) && Atoi("+" + Digits(n)) == Ok(n)
    ensures n > 9223372036854775807 ==> Atoi(Digits(n)).Err? && Atoi("+" + Digits(n)).Err?
    ensures n > 9223372036854775808 ==> Atoi("-" + Digits(n)).Err?
  {
    DigitsRoundTrip(n);
    assert IsDigit(Digits(n)[0]);
    assert ("+" + Digits(n))[1..] == Digits(n) && ("-" + Digits(n))[1..] == Digits(n);
  }

  /** What is not made of digits is no number. */
  lemma AtoiRefuses(s: string, k: nat)
    requires 0 < k < |s| && !('0' <= s[k] <= '9')
    ensures Atoi(s).Err?
  {
    if s[0] == '-' || s[0] == '+' { assert s[1..][k - 1] == s[k]; }
  }
}
