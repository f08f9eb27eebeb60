/**
 * Semantic versions and their precedence, as section 11 of Semantic
 * Versioning 2.0.0 defines it. The program compares versions with
 * `LessThan` of the go-semver library; this module gives that order a
 * definition of its own and proves it is a strict total order.
 */
module SemVer {

  /** One dot-separated pre-release identifier. */
  datatype Identifier =
    | Numeric(n: nat)
    | AlphaNum(s: string)

  /** MAJOR.MINOR.PATCH[-PRERELEASE]; an empty `pre` is a normal release. */
  datatype Version = Version(major: nat, minor: nat, patch: nat, pre: seq<Identifier>)

  /** Strict lexical order on strings by character code (ASCII order on ASCII text). */
  predicate StrLess(a: string, b: string)
  {
    if a == [] then b != []
    else b != [] && (a[0] < b[0] || (a[0] == b[0] && StrLess(a[1..], b[1..])))
  }

  /** Numeric identifiers compare numerically and rank below alphanumeric ones. */
  predicate IdLess(x: Identifier, y: Identifier)
  {
    match (x, y)
    case (Numeric(m), Numeric(n)) => m < n
    case (Numeric(_), AlphaNum(_)) => true
    case (AlphaNum(_), Numeric(_)) => false
    case (AlphaNum(s), AlphaNum(t)) => StrLess(s, t)
  }

  /**
   * Identifier sequences compare field by field; when all shared fields are
   * equal, the longer sequence has the higher precedence.
   */
  predicate IdsLess(p: seq<Identifier>, q: seq<Identifier>)
  {
    if p == [] then q != []
    else q != [] && (IdLess(p[0], q[0]) || (p[0] == q[0] && IdsLess(p[1..], q[1..])))
  }

  /** A pre-release ranks below the release it precedes. */
  predicate PreLess(p: seq<Identifier>, q: seq<Identifier>)
  {
    if p == [] then false
    else if q == [] then true
    else IdsLess(p, q)
  }

  /** Version precedence: major, minor, patch numerically, then the pre-release. */
  predicate LessThan(a: Version, b: Version)
  {
    if a.major != b.major then a.major < b.major
    else if a.minor != b.minor then a.minor < b.minor
    else if a.patch != b.patch then a.patch < b.patch
    else PreLess(a.pre, b.pre)
  }

  /** `a` has at least the precedence of `b`. */
  predicate AtLeast(a: Version, b: Version)
  {
    a == b || LessThan(b, a)
  }

  // ---------------------------------------------------------------------
  // Strings

  lemma {:induction false} StrLessIrreflexive(a: string)
    ensures !StrLess(a, a)
  {
    if a != [] {
      StrLessIrreflexive(a[1..]);
    }
  }

  lemma {:induction false} StrLessTransitive(a: string, b: string, c: string)
    requires StrLess(a, b) && StrLess(b, c)
    ensures StrLess(a, c)
  {
    if a != [] && a[0] == b[0] && b[0] == c[0] {
      StrLessTransitive(a[1..], b[1..], c[1..]);
    }
  }

  lemma {:induction false} StrLessTrichotomy(a: string, b: string)
    ensures StrLess(a, b) || a == b || StrLess(b, a)
  {
    if a != [] && b != [] && a[0] == b[0] {
      StrLessTrichotomy(a[1..], b[1..]);
      if a[1..] == b[1..] {
        assert a == [a[0]] + a[1..] && b == [b[0]] + b[1..];
      }
    }
  }

  // ---------------------------------------------------------------------
  // Identifiers

  lemma IdLessIrreflexive(x: Identifier)
    ensures !IdLess(x, x)
  {
    if x.AlphaNum? {
      StrLessIrreflexive(x.s);
    }
  }

  lemma IdLessTransitive(x: Identifier, y: Identifier, z: Identifier)
    requires IdLess(x, y) && IdLess(y, z)
    ensures IdLess(x, z)
  {
    if x.AlphaNum? && y.AlphaNum? && z.AlphaNum? {
      StrLessTransitive(x.s, y.s, z.s);
    }
  }

  lemma IdLessTrichotomy(x: Identifier, y: Identifier)
    ensures IdLess(x, y) || x == y || IdLess(y, x)
  {
    if x.AlphaNum? && y.AlphaNum? {
      StrLessTrichotomy(x.s, y.s);
    }
  }

  // ---------------------------------------------------------------------
  // Identifier sequences

  lemma {:induction false} IdsLessIrreflexive(p: seq<Identifier>)
    ensures !IdsLess(p, p)
  {
    if p != [] {
      IdLessIrreflexive(p[0]);
      IdsLessIrreflexive(p[1..]);
    }
  }

  lemma {:induction false} IdsLessTransitive(p: seq<Identifier>, q: seq<Identifier>, r: seq<Identifier>)
    requires IdsLess(p, q) && IdsLess(q, r)
    ensures IdsLess(p, r)
  {
    if p != [] {
      if IdLess(p[0], q[0]) && IdLess(q[0], r[0]) {
        IdLessTransitive(p[0], q[0], r[0]);
      } else if p[0] == q[0] && q[0] == r[0] {
        IdsLessTransitive(p[1..], q[1..], r[1..]);
      }
    }
  }

  lemma {:induction false} IdsLessTrichotomy(p: seq<Identifier>, q: seq<Identifier>)
    ensures IdsLess(p, q) || p == q || IdsLess(q, p)
  {
    if p != [] && q != [] {
      IdLessTrichotomy(p[0], q[0]);
      if p[0] == q[0] {
        IdsLessTrichotomy(p[1..], q[1..]);
        if p[1..] == q[1..] {
          assert p == [p[0]] + p[1..] && q == [q[0]] + q[1..];
        }
      }
    }
  }

  // ---------------------------------------------------------------------
  // Versions: LessThan is a strict total order whose equality is structural.

  lemma LessThanIrreflexive(a: Version)
    ensures !LessThan(a, a)
  {
    if a.pre != [] {
      IdsLessIrreflexive(a.pre);
    }
  }

  lemma LessThanTransitive(a: Version, b: Version, c: Version)
    requires LessThan(a, b) && LessThan(b, c)
    ensures LessThan(a, c)
  {
    if a.major == b.major == c.major && a.minor == b.minor == c.minor && a.patch == b.patch == c.patch
       && a.pre != [] && b.pre != [] && c.pre != []
    {
      IdsLessTransitive(a.pre, b.pre, c.pre);
    }
  }

  lemma LessThanAsymmetric(a: Version, b: Version)
    requires LessThan(a, b)
    ensures !LessThan(b, a)
  {
    if LessThan(b, a) {
      LessThanTransitive(a, b, a);
      LessThanIrreflexive(a);
    }
  }

  lemma LessThanTrichotomy(a: Version, b: Version)
    ensures LessThan(a, b) || a == b || LessThan(b, a)
  {
    if a.pre != [] && b.pre != [] {
      IdsLessTrichotomy(a.pre, b.pre);
    }
  }

  /** Not below `b` means at least `b`: the order has no incomparable pairs. */
  lemma NotLessIsAtLeast(a: Version, b: Version)
    requires !LessThan(a, b)
    ensures AtLeast(a, b)
  {
    LessThanTrichotomy(a, b);
  }

  lemma AtLeastTransitive(a: Version, b: Version, c: Version)
    requires AtLeast(a, b) && AtLeast(b, c)
    ensures AtLeast(a, c)
  {
    if LessThan(c, b) && LessThan(b, a) {
      LessThanTransitive(c, b, a);
    }
  }

  lemma AtLeastAntisymmetric(a: Version, b: Version)
    requires AtLeast(a, b) && AtLeast(b, a)
    ensures a == b
  {
    if a != b {
      LessThanAsymmetric(b, a);
    }
  }

  /**
   * The precedence chain that section 11 of Semantic Versioning 2.0.0 gives
   * as its example.
   */
  lemma PrecedenceExample()
    ensures LessThan(Version(1, 0, 0, []), Version(2, 0, 0, []))
    ensures LessThan(Version(2, 0, 0, []), Version(2, 1, 0, []))
    ensures LessThan(Version(2, 1, 0, []), Version(2, 1, 1, []))
    ensures LessThan(Version(1, 0, 0, [AlphaNum("alpha")]), Version(1, 0, 0, [AlphaNum("alpha"), Numeric(1)]))
    ensures LessThan(Version(1, 0, 0, [AlphaNum("alpha"), Numeric(1)]),
                     Version(1, 0, 0, [AlphaNum("alpha"), AlphaNum("beta")]))
    ensures LessThan(Version(1, 0, 0, [AlphaNum("alpha"), AlphaNum("beta")]), Version(1, 0, 0, [AlphaNum("beta")]))
    ensures LessThan(Version(1, 0, 0, [AlphaNum("beta")]), Version(1, 0, 0, [AlphaNum("beta"), Numeric(2)]))
    ensures LessThan(Version(1, 0, 0, [AlphaNum("beta"), Numeric(2)]), Version(1, 0, 0, [AlphaNum("beta"), Numeric(11)]))
    ensures LessThan(Version(1, 0, 0, [AlphaNum("beta"), Numeric(11)]), Version(1, 0, 0, [AlphaNum("rc"), Numeric(1)]))
    ensures LessThan(Version(1, 0, 0, [AlphaNum("rc"), Numeric(1)]), Version(1, 0, 0, []))
  {
    assert StrLess("alpha", "beta");
    assert StrLess("beta", "rc");
  }
}
