/** The order in which release directories are sorted: semantic version precedence (section 11
    of Semantic Versioning 2.0.0) where both names are versions, and otherwise plain text order. */
module VersionOrder {
  import opened Steps

  // ---------------------------------------------------------------- text order

  predicate TextLess(a: string, b: string) {
    if b == [] then false
    else if a == [] then true
    else if a[0] != b[0] then a[0] < b[0]
    else TextLess(a[1..], b[1..])
  }

  lemma TextTotal(a: string, b: string)
    ensures TextLess(a, b) || TextLess(b, a) || a == b
    ensures !(TextLess(a, b) && TextLess(b, a)) && !TextLess(a, a)
  {
    if a != [] && b != [] && a[0] == b[0] {
      TextTotal(a[1..], b[1..]);
      assert a == [a[0]] + a[1..] && b == [b[0]] + b[1..];
    }
    TextIrreflexive(a);
  }

  lemma TextIrreflexive(a: string)
    ensures !TextLess(a, a)
  {
  }

  lemma TextTransitive(a: string, b: string, c: string)
    requires TextLess(a, b) && TextLess(b, c)
    ensures TextLess(a, c)
  {
  }

  // ---------------------------------------------------------------- version precedence

  datatype Identifier = Numeric(n: nat) | Alphanumeric(s: string)

  /** A parsed version; build metadata plays no part in precedence. */
  datatype Semver = Semver(major: nat, minor: nat, patch: nat, prerelease: seq<Identifier>)

  predicate IdentifierLess(a: Identifier, b: Identifier) {
    match (a, b)
    case (Numeric(m), Numeric(n)) => m < n
    case (Numeric(_), Alphanumeric(_)) => true
    case (Alphanumeric(_), Numeric(_)) => false
    case (Alphanumeric(s), Alphanumeric(t)) => TextLess(s, t)
  }

  predicate IdentifiersLess(a: seq<Identifier>, b: seq<Identifier>) {
    if b == [] then false
    else if a == [] then true
    else if a[0] != b[0] then IdentifierLess(a[0], b[0])
    else IdentifiersLess(a[1..], b[1..])
  }

  /** A version without pre-release identifiers comes after those that have some. */
  predicate PrereleaseLess(a: seq<Identifier>, b: seq<Identifier>) {
    a != [] && (b == [] || IdentifiersLess(a, b))
  }

  predicate Precedes(a: Semver, b: Semver) {
    if a.major != b.major then a.major < b.major
    else if a.minor != b.minor then a.minor < b.minor
    else if a.patch != b.patch then a.patch < b.patch
    else PrereleaseLess(a.prerelease, b.prerelease)
  }

  lemma IdentifierTotal(a: Identifier, b: Identifier)
    ensures IdentifierLess(a, b) || IdentifierLess(b, a) || a == b
    ensures !(IdentifierLess(a, b) && IdentifierLess(b, a)) && !IdentifierLess(a, a)
  {
    if a.Alphanumeric? { TextTotal(a.s, a.s); }
    if a.Alphanumeric? && b.Alphanumeric? { TextTotal(a.s, b.s); }
  }

  lemma IdentifiersTotal(a: seq<Identifier>, b: seq<Identifier>)
    ensures IdentifiersLess(a, b) || IdentifiersLess(b, a) || a == b
    ensures !(IdentifiersLess(a, b) && IdentifiersLess(b, a))
  {
    if a != [] && b != [] {
      IdentifierTotal(a[0], b[0]);
      if a[0] == b[0] {
        IdentifiersTotal(a[1..], b[1..]);
        assert a == [a[0]] + a[1..] && b == [b[0]] + b[1..];
      }
    }
  }

  lemma IdentifierTransitive(a: Identifier, b: Identifier, c: Identifier)
    requires IdentifierLess(a, b) && IdentifierLess(b, c)
    ensures IdentifierLess(a, c)
  {
    if a.Alphanumeric? && b.Alphanumeric? && c.Alphanumeric? { TextTransitive(a.s, b.s, c.s); }
  }

  lemma IdentifiersTransitive(a: seq<Identifier>, b: seq<Identifier>, c: seq<Identifier>)
    requires IdentifiersLess(a, b) && IdentifiersLess(b, c)
    ensures IdentifiersLess(a, c)
  {
    if a != [] {
      if a[0] == b[0] && b[0] == c[0] {
        IdentifiersTransitive(a[1..], b[1..], c[1..]);
      } else if a[0] != b[0] && b[0] != c[0] {
        IdentifierTransitive(a[0], b[0], c[0]);
        IdentifierTotal(a[0], b[0]);
      }
    }
  }

  /** Precedence is a strict total order on parsed versions. */
  lemma PrecedesTotal(a: Semver, b: Semver)
    ensures Precedes(a, b) || Precedes(b, a) || a == b
    ensures !(Precedes(a, b) && Precedes(b, a)) && !Precedes(a, a)
  {
    IdentifiersTotal(a.prerelease, b.prerelease);
    IdentifiersTotal(a.prerelease, a.prerelease);
  }

  lemma PrecedesTransitive(a: Semver, b: Semver, c: Semver)
    requires Precedes(a, b) && Precedes(b, c)
    ensures Precedes(a, c)
  {
    if a.prerelease != [] && b.prerelease != [] && c.prerelease != [] &&
       IdentifiersLess(a.prerelease, b.prerelease) && IdentifiersLess(b.prerelease, c.prerelease) {
      IdentifiersTransitive(a.prerelease, b.prerelease, c.prerelease);
    }
  }

  /** The chain of examples in section 11 of Semantic Versioning 2.0.0. */
  lemma SectionElevenExamples()
    ensures Precedes(Semver(1, 0, 0, []), Semver(2, 0, 0, [])) && Precedes(Semver(2, 0, 0, []), Semver(2, 1, 0, []))
    ensures Precedes(Semver(2, 1, 0, []), Semver(2, 1, 1, []))
    ensures var alpha, beta, rc := Alphanumeric("alpha"), Alphanumeric("beta"), Alphanumeric("rc");
      && Precedes(Semver(1, 0, 0, [alpha]), Semver(1, 0, 0, [alpha, Numeric(1)]))
      && Precedes(Semver(1, 0, 0, [alpha, Numeric(1)]), Semver(1, 0, 0, [alpha, beta]))
      && Precedes(Semver(1, 0, 0, [alpha, beta]), Semver(1, 0, 0, [beta]))
      && Precedes(Semver(1, 0, 0, [beta]), Semver(1, 0, 0, [beta, Numeric(2)]))
      && Precedes(Semver(1, 0, 0, [beta, Numeric(2)]), Semver(1, 0, 0, [beta, Numeric(11)]))
      && Precedes(Semver(1, 0, 0, [beta, Numeric(11)]), Semver(1, 0, 0, [rc, Numeric(1)]))
      && Precedes(Semver(1, 0, 0, [rc, Numeric(1)]), Semver(1, 0, 0, []))
  {
    var alpha, beta := Alphanumeric("alpha"), Alphanumeric("beta");
    SameFirst(alpha, [], [Numeric(1)]);
    SameFirst(alpha, [Numeric(1)], [beta]);
    SameFirst(beta, [], [Numeric(2)]);
    SameFirst(beta, [Numeric(2)], [Numeric(11)]);
    assert "alpha"[0] < "beta"[0] < "rc"[0];
  }

  lemma SameFirst(first: Identifier, a: seq<Identifier>, b: seq<Identifier>)
    ensures IdentifiersLess([first] + a, [first] + b) <==> IdentifiersLess(a, b)
  {
    assert ([first] + a)[1..] == a && ([first] + b)[1..] == b;
  }

  // ---------------------------------------------------------------- the comparator

  /** The version parser, which is not part of this model: None for a string that is no version. */
  type Parser = string -> Option<Semver>

  function EnsureVPrefix(s: string): string { if s == "" || s[0] == 'v' then s else "v" + s }

  predicate IsVersion(parse: Parser, name: string) { parse(EnsureVPrefix(name)).Some? }

  /** Both names are versions, and `a` is the older one. */
  predicate VersionLess(parse: Parser, a: string, b: string) {
    IsVersion(parse, a) && IsVersion(parse, b) && Precedes(parse(EnsureVPrefix(a)).value, parse(EnsureVPrefix(b)).value)
  }

  /** Lines 163-173. */
  predicate Less(parse: Parser, a: string, b: string) {
    var va, vb := EnsureVPrefix(a), EnsureVPrefix(b);
    if parse(va).Some? && parse(vb).Some? && parse(va).value != parse(vb).value
    then Precedes(parse(va).value, parse(vb).value)
    else TextLess(a, b)
  }

  /** The name stands for this version: the leading "v" that the parser asks for may be left out. */
  ghost predicate StandsFor(parse: Parser, name: string, v: Semver) {
    name != "" && parse(if name[0] == 'v' then name else "v" + name) == Some(v)
  }

  /** Names of different versions are compared as versions, each with or without its "v". */
  lemma LessOfVersions(parse: Parser, a: string, b: string, v: Semver, w: Semver)
    requires StandsFor(parse, a, v) && StandsFor(parse, b, w)
    ensures v != w ==> (Less(parse, a, b) <==> Precedes(v, w))
    ensures v == w ==> (Less(parse, a, b) <==> TextLess(a, b))
  {
  }

  /** In particular names without a "v". */
  lemma LessOfBareVersions(parse: Parser, a: string, b: string)
    requires a != "" && b != "" && a[0] != 'v' && b[0] != 'v'
    requires parse("v" + a).Some? && parse("v" + b).Some? && parse("v" + a) != parse("v" + b)
    ensures Less(parse, a, b) <==> Precedes(parse("v" + a).value, parse("v" + b).value)
  {
    LessOfVersions(parse, a, b, parse("v" + a).value, parse("v" + b).value);
  }

  /** A name that stands for no version is compared as text. */
  lemma LessOfOthers(parse: Parser, a: string, b: string)
    requires (forall v :: !StandsFor(parse, a, v)) || (forall v :: !StandsFor(parse, b, v))
    requires a != "" && b != ""
    ensures Less(parse, a, b) <==> TextLess(a, b)
  {
    if IsVersion(parse, a) && IsVersion(parse, b) {
      assert StandsFor(parse, a, parse(EnsureVPrefix(a)).value) && StandsFor(parse, b, parse(EnsureVPrefix(b)).value);
    }
  }

  lemma LessTotal(parse: Parser, a: string, b: string)
    ensures Less(parse, a, b) || Less(parse, b, a) || a == b
    ensures !(Less(parse, a, b) && Less(parse, b, a)) && !Less(parse, a, a)
  {
    TextTotal(a, b);
    if IsVersion(parse, a) && IsVersion(parse, b) {
      PrecedesTotal(parse(EnsureVPrefix(a)).value, parse(EnsureVPrefix(b)).value);
    }
  }

  /** The comparator never puts a newer version before an older one. */
  lemma LessRespectsVersions(parse: Parser, a: string, b: string)
    requires VersionLess(parse, a, b)
    ensures Less(parse, a, b) && !Less(parse, b, a)
  {
    PrecedesTotal(parse(EnsureVPrefix(a)).value, parse(EnsureVPrefix(b)).value);
    LessTotal(parse, a, b);
  }

  // ---------------------------------------------------------------- when it is an order

  ghost predicate TransitiveOn(parse: Parser, names: set<string>) {
    forall a, b, c :: a in names && b in names && c in names && Less(parse, a, b) && Less(parse, b, c) ==> Less(parse, a, c)
  }

  /** Two versions whose text order is against their precedence, with something that is no version
      between them in text order. */
  ghost predicate Straddles(parse: Parser, older: string, newer: string, other: string) {
    VersionLess(parse, older, newer) && !IsVersion(parse, other) && TextLess(newer, other) && TextLess(other, older)
  }

  ghost predicate Straddled(parse: Parser, names: set<string>) {
    exists a, b, c :: a in names && b in names && c in names && Straddles(parse, a, b, c)
  }

  lemma VersionsTransitive(parse: Parser, a: string, b: string, c: string)
    requires IsVersion(parse, a) && IsVersion(parse, b) && IsVersion(parse, c)
    requires Less(parse, a, b) && Less(parse, b, c)
    ensures Less(parse, a, c)
  {
    var x, y, z := parse(EnsureVPrefix(a)).value, parse(EnsureVPrefix(b)).value, parse(EnsureVPrefix(c)).value;
    if x == y && y == z {
      TextTransitive(a, b, c);
    } else if x != y && y != z {
      PrecedesTransitive(x, y, z);
      PrecedesTotal(x, y);
    }
  }

  lemma AtMostOneVersionTransitive(parse: Parser, a: string, b: string, c: string)
    requires !(IsVersion(parse, a) && IsVersion(parse, b)) && !(IsVersion(parse, b) && IsVersion(parse, c))
    requires !(IsVersion(parse, a) && IsVersion(parse, c))
    requires Less(parse, a, b) && Less(parse, b, c)
    ensures Less(parse, a, c)
  {
    TextTransitive(a, b, c);
  }

  /** A failure of transitivity needs two versions and a name that is none, straddled by them. */
  lemma NotTransitiveStraddles(parse: Parser, a: string, b: string, c: string)
    requires Less(parse, a, b) && Less(parse, b, c) && !Less(parse, a, c)
    ensures Straddles(parse, a, b, c) || Straddles(parse, b, c, a) || Straddles(parse, c, a, b)
  {
    LessTotal(parse, a, b);
    LessTotal(parse, b, c);
    LessTotal(parse, a, c);
    var va, vb, vc := IsVersion(parse, a), IsVersion(parse, b), IsVersion(parse, c);
    if va && vb && vc {
      VersionsTransitive(parse, a, b, c);
    } else if va && vb {
      TextTransitive(b, c, a);
      TextTotal(a, b);
    } else if vb && vc {
      TextTransitive(c, a, b);
      TextTotal(b, c);
    } else if va && vc {
      TextTransitive(a, b, c);
      TextTotal(a, c);
    } else {
      AtMostOneVersionTransitive(parse, a, b, c);
    }
  }

  /** The comparator orders a set of names exactly when no name that is no version is straddled. */
  lemma TransitiveIffNotStraddled(parse: Parser, names: set<string>)
    ensures TransitiveOn(parse, names) <==> !Straddled(parse, names)
  {
    if a, b, c :| a in names && b in names && c in names && Straddles(parse, a, b, c) {
      LessRespectsVersions(parse, a, b);
      assert Less(parse, b, c) && Less(parse, c, a);
      LessTotal(parse, a, c);
    }
    if !TransitiveOn(parse, names) {
      var a, b, c :| a in names && b in names && c in names && Less(parse, a, b) && Less(parse, b, c) && !Less(parse, a, c);
      NotTransitiveStraddles(parse, a, b, c);
    }
  }

  /** In particular when all names are versions, or none is. */
  lemma UniformNotStraddled(parse: Parser, names: set<string>)
    requires (forall a :: a in names ==> IsVersion(parse, a)) || (forall a :: a in names ==> !IsVersion(parse, a))
    ensures TransitiveOn(parse, names)
  {
    TransitiveIffNotStraddled(parse, names);
  }

  /** The names v2, v10 and v1a: 2.0.0 comes before 10.0.0, and "v10" < "v1a" < "v2" as text. */
  lemma MixedNamesGoInCircles(parse: Parser)
    requires parse("v2") == Some(Semver(2, 0, 0, [])) && parse("v10") == Some(Semver(10, 0, 0, [])) && parse("v1a").None?
    ensures Less(parse, "v2", "v10") && Less(parse, "v10", "v1a") && Less(parse, "v1a", "v2")
    ensures !TransitiveOn(parse, {"v2", "v10", "v1a"})
  {
    assert "v10"[1..][1..] == "0" && "v1a"[1..][1..] == "a" && "v2"[1..] == "2" && "v1a"[1..] == "1a";
    assert TextLess("0", "a") && TextLess("1a", "2");
    assert TextLess("10", "1a") by { assert "10"[1..] == "0" && "1a"[1..] == "a"; }
    assert "v10"[1..] == "10";
    LessTotal(parse, "v2", "v1a");
  }
}
