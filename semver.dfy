/** Semantic versions: the value and its precedence order, as
    Semantic Versioning 2.0.0 defines them (sections 2, 9, 10 and 11). */
module SemVer {
  /** The outcome of a three-way comparison. */
  datatype Ordering = Less | Equal | Greater {
    function Reverse(): (r: Ordering)
      ensures (r == Equal) == (this == Equal)
    {
      match this
      case Less => Greater
      case Equal => Equal
      case Greater => Less
    }
  }

  /** A dot-separated pre-release identifier: all digits, or anything else. */
  datatype Identifier = Numeric(number: nat) | AlphaNumeric(text: string)

  datatype Version = Version(major: nat, minor: nat, patch: nat, pre: seq<Identifier>, build: seq<string>)

  // ---------------------------------------------------------------------
  // Precedence as an executable three-way comparison

  function CompareNat(a: nat, b: nat): Ordering
  {
    if a < b then Less else if a == b then Equal else Greater
  }

  /** Lexical comparison in character-code order. */
  function CompareText(s: string, t: string): Ordering
  {
    if s == [] then (if t == [] then Equal else Less)
    else if t == [] then Greater
    else if s[0] < t[0] then Less
    else if s[0] > t[0] then Greater
    else CompareText(s[1..], t[1..])
  }

  /** Numeric identifiers compare as numbers and sit below alphanumeric ones. */
  function CompareIdentifier(x: Identifier, y: Identifier): Ordering
  {
    match (x, y)
    case (Numeric(m), Numeric(n)) => CompareNat(m, n)
    case (Numeric(_), AlphaNumeric(_)) => Less
    case (AlphaNumeric(_), Numeric(_)) => Greater
    case (AlphaNumeric(s), AlphaNumeric(t)) => CompareText(s, t)
  }

  /** Identifier lists compare field by field; a proper prefix is smaller. */
  function CompareIdentifiers(p: seq<Identifier>, q: seq<Identifier>): Ordering
  {
    if p == [] then (if q == [] then Equal else Less)
    else if q == [] then Greater
    else
      var c := CompareIdentifier(p[0], q[0]);
      if c != Equal then c else CompareIdentifiers(p[1..], q[1..])
  }

  /** A release (no pre-release identifiers) is above any of its pre-releases. */
  function ComparePre(p: seq<Identifier>, q: seq<Identifier>): Ordering
  {
    if p == [] && q == [] then Equal
    else if p == [] then Greater
    else if q == [] then Less
    else CompareIdentifiers(p, q)
  }

  /** Precedence of two versions; build metadata takes no part. It answers
      `Less` exactly when `a` precedes `b` in the order of section 11 of
      Semantic Versioning 2.0.0, and `Equal` exactly when the two differ at
      most in build metadata. */
  function Compare(a: Version, b: Version): (r: Ordering)
    ensures (r == Less) == Precedes(a, b)
    ensures (r == Equal) == SamePrecedence(a, b)
  {
    CompareIdentifiersSpec(a.pre, b.pre);
    var major := CompareNat(a.major, b.major);
    if major != Equal then major
    else
      var minor := CompareNat(a.minor, b.minor);
      if minor != Equal then minor
      else
        var patch := CompareNat(a.patch, b.patch);
        if patch != Equal then patch
        else ComparePre(a.pre, b.pre)
  }

  // ---------------------------------------------------------------------
  // Precedence as a relation, written the way section 11 of Semantic
  // Versioning 2.0.0 states it

  /** `s` is below `t` in the lexicographic order that `less` induces: either a
      proper prefix, or below at the first position where they differ. */
  ghost predicate LexPrecedes<T>(s: seq<T>, t: seq<T>, less: (T, T) -> bool)
  {
    || (|s| < |t| && s == t[..|s|])
    || exists k :: 0 <= k < |s| && k < |t| && s[..k] == t[..k] && less(s[k], t[k])
  }

  ghost predicate CharPrecedes(c: char, d: char)
  {
    c < d
  }

  ghost predicate IdentifierPrecedes(x: Identifier, y: Identifier)
  {
    || (x.Numeric? && y.Numeric? && x.number < y.number)
    || (x.Numeric? && y.AlphaNumeric?)
    || (x.AlphaNumeric? && y.AlphaNumeric? && LexPrecedes(x.text, y.text, CharPrecedes))
  }

  ghost predicate PreReleasePrecedes(p: seq<Identifier>, q: seq<Identifier>)
  {
    p != [] && (q == [] || LexPrecedes(p, q, IdentifierPrecedes))
  }

  /** `a` has lower precedence than `b`. */
  ghost predicate Precedes(a: Version, b: Version)
  {
    || a.major < b.major
    || (a.major == b.major && a.minor < b.minor)
    || (a.major == b.major && a.minor == b.minor && a.patch < b.patch)
    || (a.major == b.major && a.minor == b.minor && a.patch == b.patch && PreReleasePrecedes(a.pre, b.pre))
  }

  /** `a` and `b` have the same precedence: they differ at most in build metadata. */
  ghost predicate SamePrecedence(a: Version, b: Version)
  {
    a.major == b.major && a.minor == b.minor && a.patch == b.patch && a.pre == b.pre
  }

  // ---------------------------------------------------------------------
  // The comparison agrees with the relation

  /** Two sequences whose first elements differ are ordered by those elements. */
  lemma LexHead<T>(s: seq<T>, t: seq<T>, less: (T, T) -> bool)
    requires |s| > 0 && |t| > 0 && s[0] != t[0]
    ensures LexPrecedes(s, t, less) <==> less(s[0], t[0])
  {
    if less(s[0], t[0]) {
      assert s[..0] == t[..0];
    }
    if LexPrecedes(s, t, less) {
      if |s| < |t| && s == t[..|s|] {
        assert s[0] == t[..|s|][0];
      } else {
        var k :| 0 <= k < |s| && k < |t| && s[..k] == t[..k] && less(s[k], t[k]);
        if k > 0 {
          assert s[..k][0] == t[..k][0];
        }
      }
    }
  }

  /** Two sequences with the same first element are ordered by their tails. */
  lemma LexTail<T>(s: seq<T>, t: seq<T>, less: (T, T) -> bool)
    requires |s| > 0 && |t| > 0 && s[0] == t[0] && !less(s[0], t[0])
    ensures LexPrecedes(s, t, less) <==> LexPrecedes(s[1..], t[1..], less)
  {
    if LexPrecedes(s, t, less) {
      LexDropHead(s, t, less);
    }
    if LexPrecedes(s[1..], t[1..], less) {
      LexAddHead(s, t, less);
    }
  }

  lemma LexDropHead<T>(s: seq<T>, t: seq<T>, less: (T, T) -> bool)
    requires |s| > 0 && |t| > 0 && s[0] == t[0] && !less(s[0], t[0])
    requires LexPrecedes(s, t, less)
    ensures LexPrecedes(s[1..], t[1..], less)
  {
    if |s| < |t| && s == t[..|s|] {
      assert s[1..] == t[1..][..|s[1..]|];
    } else {
      var k :| 0 <= k < |s| && k < |t| && s[..k] == t[..k] && less(s[k], t[k]);
      assert k != 0;
      assert s[1..][..k - 1] == s[..k][1..];
      assert t[1..][..k - 1] == t[..k][1..];
      assert s[1..][k - 1] == s[k] && t[1..][k - 1] == t[k];
    }
  }

  lemma LexAddHead<T>(s: seq<T>, t: seq<T>, less: (T, T) -> bool)
    requires |s| > 0 && |t| > 0 && s[0] == t[0]
    requires LexPrecedes(s[1..], t[1..], less)
    ensures LexPrecedes(s, t, less)
  {
    var s', t' := s[1..], t[1..];
    if |s'| < |t'| && s' == t'[..|s'|] {
      assert s == [s[0]] + s';
      assert t[..|s|] == [t[0]] + t'[..|s'|];
    } else {
      var k :| 0 <= k < |s'| && k < |t'| && s'[..k] == t'[..k] && less(s'[k], t'[k]);
      assert s[..k + 1] == [s[0]] + s'[..k];
      assert t[..k + 1] == [t[0]] + t'[..k];
      assert s[k + 1] == s'[k] && t[k + 1] == t'[k];
    }
  }

  lemma {:induction false} CompareTextSpec(s: string, t: string)
    ensures (CompareText(s, t) == Less) == LexPrecedes(s, t, CharPrecedes)
    ensures (CompareText(s, t) == Equal) == (s == t)
    ensures CompareText(t, s) == CompareText(s, t).Reverse()
  {
    if s != [] && t != [] {
      if s[0] != t[0] {
        LexHead(s, t, CharPrecedes);
      } else {
        CompareTextSpec(s[1..], t[1..]);
        LexTail(s, t, CharPrecedes);
        assert s == [s[0]] + s[1..] && t == [t[0]] + t[1..];
      }
    }
  }

  lemma CompareIdentifierSpec(x: Identifier, y: Identifier)
    ensures (CompareIdentifier(x, y) == Less) == IdentifierPrecedes(x, y)
    ensures (CompareIdentifier(x, y) == Equal) == (x == y)
    ensures CompareIdentifier(y, x) == CompareIdentifier(x, y).Reverse()
  {
    if x.AlphaNumeric? && y.AlphaNumeric? {
      CompareTextSpec(x.text, y.text);
    }
  }

  lemma {:induction false} CompareIdentifiersSpec(p: seq<Identifier>, q: seq<Identifier>)
    ensures (CompareIdentifiers(p, q) == Less) == LexPrecedes(p, q, IdentifierPrecedes)
    ensures (CompareIdentifiers(p, q) == Equal) == (p == q)
    ensures CompareIdentifiers(q, p) == CompareIdentifiers(p, q).Reverse()
  {
    if p != [] && q != [] {
      CompareIdentifierSpec(p[0], q[0]);
      if p[0] != q[0] {
        LexHead(p, q, IdentifierPrecedes);
      } else {
        CompareIdentifiersSpec(p[1..], q[1..]);
        LexTail(p, q, IdentifierPrecedes);
        assert p == [p[0]] + p[1..] && q == [q[0]] + q[1..];
      }
    }
  }

  /** Swapping the arguments reverses the answer, so `Greater` is exactly
      the case where `b` precedes `a`. */
  lemma CompareSpec(a: Version, b: Version)
    ensures Compare(b, a) == Compare(a, b).Reverse()
    ensures (Compare(a, b) == Greater) == Precedes(b, a)
  {
    CompareIdentifiersSpec(a.pre, b.pre);
  }

  // ---------------------------------------------------------------------
  // Precedence is a strict total order on versions up to build metadata

  lemma {:induction false} CompareTextTransitive(a: string, b: string, c: string)
    requires CompareText(a, b) == Less && CompareText(b, c) == Less
    ensures CompareText(a, c) == Less
  {
    if a != [] && a[0] == b[0] && b[0] == c[0] {
      CompareTextTransitive(a[1..], b[1..], c[1..]);
    }
  }

  lemma CompareIdentifierTransitive(x: Identifier, y: Identifier, z: Identifier)
    requires CompareIdentifier(x, y) == Less && CompareIdentifier(y, z) == Less
    ensures CompareIdentifier(x, z) == Less
  {
    if x.AlphaNumeric? && y.AlphaNumeric? && z.AlphaNumeric? {
      CompareTextTransitive(x.text, y.text, z.text);
    }
  }

  lemma {:induction false} CompareIdentifiersTransitive(p: seq<Identifier>, q: seq<Identifier>, r: seq<Identifier>)
    requires CompareIdentifiers(p, q) == Less && CompareIdentifiers(q, r) == Less
    ensures CompareIdentifiers(p, r) == Less
  {
    if p != [] {
      CompareIdentifierSpec(p[0], q[0]);
      CompareIdentifierSpec(q[0], r[0]);
      if p[0] == q[0] && q[0] == r[0] {
        CompareIdentifiersTransitive(p[1..], q[1..], r[1..]);
      } else if p[0] == q[0] {
        assert CompareIdentifier(p[0], r[0]) == Less;
      } else if q[0] == r[0] {
        assert CompareIdentifier(p[0], r[0]) == Less;
      } else {
        CompareIdentifierTransitive(p[0], q[0], r[0]);
        CompareIdentifierSpec(p[0], r[0]);
      }
    }
  }

  lemma CompareTransitive(a: Version, b: Version, c: Version)
    requires Compare(a, b) == Less && Compare(b, c) == Less
    ensures Compare(a, c) == Less
  {
    if a.major == b.major == c.major && a.minor == b.minor == c.minor && a.patch == b.patch == c.patch
      && a.pre != [] && b.pre != [] && c.pre != []
    {
      CompareIdentifiersTransitive(a.pre, b.pre, c.pre);
    }
  }

  /** Exactly one of: `a` precedes `b`, the two have the same precedence, `b`
      precedes `a`. */
  lemma PrecedenceTrichotomy(a: Version, b: Version)
    ensures Precedes(a, b) || SamePrecedence(a, b) || Precedes(b, a)
    ensures !(Precedes(a, b) && SamePrecedence(a, b))
    ensures !(Precedes(a, b) && Precedes(b, a))
    ensures !(SamePrecedence(a, b) && Precedes(b, a))
  {
    CompareSpec(a, b);
    CompareSpec(b, a);
  }

  lemma PrecedesIrreflexive(a: Version)
    ensures !Precedes(a, a)
  {
    CompareSpec(a, a);
  }

  lemma PrecedesTransitive(a: Version, b: Version, c: Version)
    requires Precedes(a, b) && Precedes(b, c)
    ensures Precedes(a, c)
  {
    CompareSpec(a, b);
    CompareSpec(b, c);
    CompareSpec(a, c);
    CompareTransitive(a, b, c);
  }

  /** Build metadata never changes the comparison. */
  lemma CompareIgnoresBuild(a: Version, b: Version, build: seq<string>)
    ensures Compare(a.(build := build), b) == Compare(a, b)
    ensures Compare(a, b.(build := build)) == Compare(a, b)
  {
  }
}
