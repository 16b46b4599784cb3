/** The text form of a semantic version, `MAJOR.MINOR.PATCH[-PRE][+BUILD]`, as
    the grammar of Semantic Versioning 2.0.0 gives it: parsing, formatting, and
    the proof that each undoes the other. */
module SemVerText {
  import opened Wrappers
  import opened Tokens
  import opened SemVer

  /** Why a text is not a semantic version. */
  datatype SyntaxError = SyntaxError(reason: string)

  predicate IsDigit(c: char)
  {
    '0' <= c <= '9'
  }

  /** The characters allowed in pre-release and build identifiers. */
  predicate IsIdentifierChar(c: char)
  {
    IsDigit(c) || 'a' <= c <= 'z' || 'A' <= c <= 'Z' || c == '-'
  }

  predicate AllDigits(s: string)
  {
    forall i :: 0 <= i < |s| ==> IsDigit(s[i])
  }

  predicate AllIdentifierChars(s: string)
  {
    forall i :: 0 <= i < |s| ==> IsIdentifierChar(s[i])
  }

  /** A numeric field: digits only, and no leading zero. */
  predicate IsNumericText(s: string)
  {
    |s| > 0 && AllDigits(s) && (s[0] == '0' ==> |s| == 1)
  }

  /** A well-formed alphanumeric pre-release identifier: not empty, allowed
      characters only, and not all digits (or it would be numeric). */
  predicate IsAlphaNumericText(s: string)
  {
    |s| > 0 && AllIdentifierChars(s) && !AllDigits(s)
  }

  predicate IsBuildText(s: string)
  {
    |s| > 0 && AllIdentifierChars(s)
  }

  /** The versions that have a text form: their identifiers are ones the
      grammar can produce. */
  predicate WellFormed(v: Version)
  {
    && (forall i :: 0 <= i < |v.pre| ==> v.pre[i].AlphaNumeric? ==> IsAlphaNumericText(v.pre[i].text))
    && (forall i :: 0 <= i < |v.build| ==> IsBuildText(v.build[i]))
  }

  // ---------------------------------------------------------------------
  // Decimal numerals

  /** The value of a decimal numeral. */
  function DigitsValue(s: string): nat
    requires AllDigits(s)
  {
    if s == [] then 0 else DigitsValue(s[..|s| - 1]) * 10 + (s[|s| - 1] as int - '0' as int)
  }

  function DigitChar(d: nat): (c: char)
    requires d < 10
    ensures IsDigit(c) && c as int - '0' as int == d
  {
    ('0' as int + d) as char
  }

  /** The shortest decimal numeral of `n`. */
  function NatText(n: nat): string
  {
    if n < 10 then [DigitChar(n)] else NatText(n / 10) + [DigitChar(n % 10)]
  }

  /** A number's numeral is numeric text and reads back as the number. */
  lemma {:induction false} NatTextRoundTrip(n: nat)
    ensures IsNumericText(NatText(n))
    ensures DigitsValue(NatText(n)) == n
    ensures n > 0 ==> NatText(n)[0] != '0'
  {
    if n >= 10 {
      NatTextRoundTrip(n / 10);
      var s := NatText(n);
      assert s[..|s| - 1] == NatText(n / 10);
    }
  }

  lemma {:induction false} DigitsValuePositive(s: string)
    requires AllDigits(s) && |s| > 0 && s[0] != '0'
    ensures DigitsValue(s) > 0
  {
    if |s| > 1 {
      DigitsValuePositive(s[..|s| - 1]);
    }
  }

  /** Numeric text is the numeral of its value: numerals have one spelling. */
  lemma {:induction false} NumeralOfValue(s: string)
    requires IsNumericText(s)
    ensures NatText(DigitsValue(s)) == s
  {
    if |s| > 1 {
      var init := s[..|s| - 1];
      DigitsValuePositive(init);
      NumeralOfValue(init);
      DigitsValuePositive(s);
      assert s == init + [s[|s| - 1]];
    }
  }

  // ---------------------------------------------------------------------
  // Parsing

  /** The text before the first `c`, and the text after it if there is one. */
  function SplitFirst(s: string, c: char): (r: (string, Option<string>))
    ensures c !in r.0
    ensures r.1.None? ==> r.0 == s
    ensures r.1.Some? ==> s == r.0 + ([c] + r.1.value)
  {
    if s == [] then ("", None)
    else if s[0] == c then ("", Some(s[1..]))
    else
      var (before, after) := SplitFirst(s[1..], c);
      ([s[0]] + before, after)
  }

  /** A number field; what it reads is spelled exactly as its numeral. */
  function ParseNumber(s: string): (r: Result<nat, SyntaxError>)
    ensures r.Success? <==> IsNumericText(s)
    ensures r.Success? ==> NatText(r.value) == s
  {
    if IsNumericText(s) then NumeralOfValue(s); Success(DigitsValue(s))
    else Failure(SyntaxError("major, minor and patch must be numbers without leading zeros"))
  }

  /** One pre-release identifier; what it reads is a well-formed identifier
      spelled exactly as the input. */
  function ParseIdentifier(s: string): (r: Result<Identifier, SyntaxError>)
    ensures r.Success? ==> IdentifierText(r.value) == s
    ensures r.Success? && r.value.AlphaNumeric? ==> IsAlphaNumericText(r.value.text)
    ensures r.Success? <==> IsAlphaNumericText(s) || IsNumericText(s)
  {
    if s == [] then Failure(SyntaxError("empty pre-release identifier"))
    else if !AllIdentifierChars(s) then Failure(SyntaxError("invalid character in pre-release identifier"))
    else if !AllDigits(s) then Success(AlphaNumeric(s))
    else if IsNumericText(s) then NumeralOfValue(s); Success(Numeric(DigitsValue(s)))
    else Failure(SyntaxError("leading zero in numeric pre-release identifier"))
  }

  /** Pre-release identifiers, one per dot-separated part; it fails on the
      first part that is not an identifier. */
  function ParsePre(parts: seq<string>): (r: Result<seq<Identifier>, SyntaxError>)
    ensures r.Success? ==> IdentifierTexts(r.value) == parts
    ensures r.Success? ==> forall i :: 0 <= i < |r.value| ==> r.value[i].AlphaNumeric? ==> IsAlphaNumericText(r.value[i].text)
    ensures r.Success? <==> forall i :: 0 <= i < |parts| ==> IsAlphaNumericText(parts[i]) || IsNumericText(parts[i])
  {
    if parts == [] then Success([])
    else
      var first :- ParseIdentifier(parts[0]);
      var rest :- ParsePre(parts[1..]);
      Success([first] + rest)
  }

  /** Build identifiers are kept as they are written. */
  function ParseBuild(parts: seq<string>): (r: Result<seq<string>, SyntaxError>)
    ensures r.Success? <==> forall i :: 0 <= i < |parts| ==> IsBuildText(parts[i])
    ensures r.Success? ==> r.value == parts
  {
    if forall i :: 0 <= i < |parts| ==> IsBuildText(parts[i]) then Success(parts)
    else Failure(SyntaxError("invalid build metadata identifier"))
  }

  /** The three numbers of `MAJOR.MINOR.PATCH`; what it reads is spelled
      exactly as the input. */
  function ParseCore(core: string): (r: Result<(nat, nat, nat), SyntaxError>)
    ensures r.Success? ==> CoreText(r.value.0, r.value.1, r.value.2) == core
  {
    var fields := Split(core, '.');
    if |fields| != 3 then Failure(SyntaxError("expected MAJOR.MINOR.PATCH"))
    else
      var major :- ParseNumber(fields[0]);
      var minor :- ParseNumber(fields[1]);
      var patch :- ParseNumber(fields[2]);
      JoinSplit(core, '.');
      assert fields == [NatText(major), NatText(minor), NatText(patch)];
      Success((major, minor, patch))
  }

  /** The pre-release identifiers after a `-`, or none when there is no `-`. */
  function ParseOptionalPre(pre: Option<string>): (r: Result<seq<Identifier>, SyntaxError>)
    ensures r.Success? ==> PreText(r.value) == if pre.None? then "" else ['-'] + pre.value
    ensures r.Success? ==> forall i :: 0 <= i < |r.value| ==> r.value[i].AlphaNumeric? ==> IsAlphaNumericText(r.value[i].text)
  {
    match pre
    case None => Success([])
    case Some(text) =>
      var ids :- ParsePre(Split(text, '.'));
      JoinSplit(text, '.');
      Success(ids)
  }

  /** The build identifiers after a `+`, or none when there is no `+`. */
  function ParseOptionalBuild(build: Option<string>): (r: Result<seq<string>, SyntaxError>)
    ensures r.Success? ==> BuildText(r.value) == if build.None? then "" else ['+'] + build.value
    ensures r.Success? ==> forall i :: 0 <= i < |r.value| ==> IsBuildText(r.value[i])
  {
    match build
    case None => Success([])
    case Some(text) =>
      var ids :- ParseBuild(Split(text, '.'));
      JoinSplit(text, '.');
      Success(ids)
  }

  /** Reads `MAJOR.MINOR.PATCH`, then an optional `-` and dot-separated
      pre-release identifiers, then an optional `+` and dot-separated build
      identifiers. What it reads is well-formed and is spelled exactly as the
      canonical text of the version: the grammar gives every version one
      spelling. */
  function Parse(s: string): (r: Result<Version, SyntaxError>)
    ensures r.Success? ==> WellFormed(r.value)
    ensures r.Success? ==> Format(r.value) == s
  {
    var (main, build) := SplitFirst(s, '+');
    var (core, pre) := SplitFirst(main, '-');
    var numbers :- ParseCore(core);
    var preIds :- ParseOptionalPre(pre);
    var buildIds :- ParseOptionalBuild(build);
    Success(Version(numbers.0, numbers.1, numbers.2, preIds, buildIds))
  }

  // ---------------------------------------------------------------------
  // Formatting

  function IdentifierText(x: Identifier): string
  {
    match x
    case Numeric(n) => NatText(n)
    case AlphaNumeric(s) => s
  }

  function IdentifierTexts(xs: seq<Identifier>): (r: seq<string>)
    ensures |r| == |xs|
  {
    if xs == [] then [] else [IdentifierText(xs[0])] + IdentifierTexts(xs[1..])
  }

  function CoreText(major: nat, minor: nat, patch: nat): string
  {
    Join([NatText(major), NatText(minor), NatText(patch)], '.')
  }

  function PreText(pre: seq<Identifier>): string
  {
    if pre == [] then "" else ['-'] + Join(IdentifierTexts(pre), '.')
  }

  function BuildText(build: seq<string>): string
  {
    if build == [] then "" else ['+'] + Join(build, '.')
  }

  /** The canonical text of a version. */
  function Format(v: Version): string
  {
    CoreText(v.major, v.minor, v.patch) + PreText(v.pre) + BuildText(v.build)
  }

  // ---------------------------------------------------------------------
  // Round trips

  /** A character that is neither the separator nor in any piece is not in the joined text. */
  lemma {:induction false} JoinAvoids(pieces: seq<string>, sep: char, c: char)
    requires |pieces| >= 1 && c != sep
    requires forall i :: 0 <= i < |pieces| ==> c !in pieces[i]
    ensures c !in Join(pieces, sep)
  {
    if |pieces| > 1 {
      JoinAvoids(pieces[1..], sep, c);
    }
  }

  /** `SplitFirst` stops at the first occurrence of the character. */
  lemma {:induction false} SplitFirstAt(a: string, b: string, c: char)
    requires c !in a
    ensures SplitFirst(a + ([c] + b), c) == (a, Some(b))
  {
    var s := a + ([c] + b);
    if a == [] {
      assert s[1..] == b;
    } else {
      assert s[1..] == a[1..] + ([c] + b);
      SplitFirstAt(a[1..], b, c);
      assert [a[0]] + a[1..] == a;
    }
  }

  lemma DigitsAvoid(s: string, c: char)
    requires AllDigits(s) && !IsDigit(c)
    ensures c !in s
  {
  }

  lemma IdentifierTextAvoids(x: Identifier, c: char)
    requires x.AlphaNumeric? ==> IsAlphaNumericText(x.text)
    requires !IsIdentifierChar(c)
    ensures c !in IdentifierText(x)
  {
    if x.Numeric? {
      NatTextRoundTrip(x.number);
    }
  }

  lemma {:induction false} IdentifierTextsAvoid(xs: seq<Identifier>, c: char)
    requires forall i :: 0 <= i < |xs| ==> xs[i].AlphaNumeric? ==> IsAlphaNumericText(xs[i].text)
    requires !IsIdentifierChar(c)
    ensures forall i :: 0 <= i < |xs| ==> c !in IdentifierTexts(xs)[i]
  {
    if xs != [] {
      IdentifierTextAvoids(xs[0], c);
      IdentifierTextsAvoid(xs[1..], c);
      assert forall i :: 0 < i < |xs| ==> IdentifierTexts(xs)[i] == IdentifierTexts(xs[1..])[i - 1];
    }
  }

  /** A well-formed identifier reads back from its spelling. */
  lemma ParseIdentifierText(x: Identifier)
    requires x.AlphaNumeric? ==> IsAlphaNumericText(x.text)
    ensures ParseIdentifier(IdentifierText(x)) == Success(x)
  {
    if x.Numeric? {
      NatTextRoundTrip(x.number);
    }
  }

  /** Reading back the spelling of well-formed identifiers gives those identifiers. */
  lemma {:induction false} ParsePreTexts(xs: seq<Identifier>)
    requires forall i :: 0 <= i < |xs| ==> xs[i].AlphaNumeric? ==> IsAlphaNumericText(xs[i].text)
    ensures ParsePre(IdentifierTexts(xs)) == Success(xs)
  {
    if xs != [] {
      var texts := IdentifierTexts(xs);
      assert texts[0] == IdentifierText(xs[0]);
      assert texts[1..] == IdentifierTexts(xs[1..]);
      ParseIdentifierText(xs[0]);
      ParsePreTexts(xs[1..]);
      assert [xs[0]] + xs[1..] == xs;
    }
  }

  /** The core numerals read back as the three numbers, and hold neither
      `-` nor `+`. */
  lemma ParseCoreText(major: nat, minor: nat, patch: nat)
    ensures ParseCore(CoreText(major, minor, patch)) == Success((major, minor, patch))
    ensures '-' !in CoreText(major, minor, patch) && '+' !in CoreText(major, minor, patch)
  {
    var numerals := [NatText(major), NatText(minor), NatText(patch)];
    NatTextRoundTrip(major);
    NatTextRoundTrip(minor);
    NatTextRoundTrip(patch);
    forall c, i | !IsDigit(c) && 0 <= i < 3
      ensures c !in numerals[i]
    {
      DigitsAvoid(numerals[i], c);
    }
    JoinAvoids(numerals, '.', '-');
    JoinAvoids(numerals, '.', '+');
    SplitJoin(numerals, '.');
  }

  /** Well-formed pre-release identifiers read back from their text, which holds no `+`. */
  lemma ParsePreText(pre: seq<Identifier>)
    requires forall i :: 0 <= i < |pre| ==> pre[i].AlphaNumeric? ==> IsAlphaNumericText(pre[i].text)
    ensures ParseOptionalPre(if pre == [] then None else Some(Join(IdentifierTexts(pre), '.'))) == Success(pre)
    ensures '+' !in PreText(pre)
  {
    if pre != [] {
      var texts := IdentifierTexts(pre);
      IdentifierTextsAvoid(pre, '.');
      IdentifierTextsAvoid(pre, '+');
      JoinAvoids(texts, '.', '+');
      SplitJoin(texts, '.');
      ParsePreTexts(pre);
    }
  }

  /** Well-formed build identifiers read back from their text. */
  lemma ParseBuildText(build: seq<string>)
    requires forall i :: 0 <= i < |build| ==> IsBuildText(build[i])
    ensures ParseOptionalBuild(if build == [] then None else Some(Join(build, '.'))) == Success(build)
  {
    if build != [] {
      forall i | 0 <= i < |build|
        ensures '.' !in build[i]
      {
      }
      SplitJoin(build, '.');
    }
  }

  /** Formatting a well-formed version and parsing the text gives the version back. */
  lemma ParseFormat(v: Version)
    requires WellFormed(v)
    ensures Parse(Format(v)) == Success(v)
  {
    var core := CoreText(v.major, v.minor, v.patch);
    var main := core + PreText(v.pre);
    ParseCoreText(v.major, v.minor, v.patch);
    ParsePreText(v.pre);
    ParseBuildText(v.build);
    var pre: Option<string> := if v.pre == [] then None else Some(Join(IdentifierTexts(v.pre), '.'));
    if v.pre != [] {
      SplitFirstAt(core, pre.value, '-');
    } else {
      assert main == core;
    }
    assert SplitFirst(main, '-') == (core, pre);
    assert '+' !in main;
    var build: Option<string> := if v.build == [] then None else Some(Join(v.build, '.'));
    if v.build != [] {
      SplitFirstAt(main, build.value, '+');
    } else {
      assert Format(v) == main;
    }
    assert SplitFirst(Format(v), '+') == (main, build);
  }

  // ---------------------------------------------------------------------
  // Examples

  /** `0..2` has an empty minor field, so it is not a version. */
  lemma ParseMalformedExample(s: string)
    requires s == "0..2"
    ensures Parse(s).Failure?
  {
    SplitFirstAbsent(s, '+');
    SplitFirstAbsent(s, '-');
    MalformedFields(s);
    assert ParseCore(s).Failure?;
  }

  /** `0..2` splits at its dots into `0`, an empty field and `2`. */
  lemma MalformedFields(s: string)
    requires s == "0..2"
    ensures Split(s, '.') == ["0", "", "2"]
  {
    var rest := "" + (['.'] + "2");
    assert s == "0" + (['.'] + rest);
    SplitCons("", "2", '.');
    SplitCons("0", rest, '.');
    SplitWithoutSeparator("2", '.');
  }

  /** A text without `c` is all before the first `c`. */
  lemma SplitFirstAbsent(s: string, c: char)
    requires forall i :: 0 <= i < |s| ==> s[i] != c
    ensures SplitFirst(s, c) == (s, None)
  {
  }

  /** A plain release version reads as its three numbers. */
  lemma ParseReleaseExample(s: string, major: nat, minor: nat, patch: nat)
    requires major < 10 && minor < 10 && patch < 10
    requires s == [DigitChar(major), '.', DigitChar(minor), '.', DigitChar(patch)]
    ensures Parse(s) == Success(Version(major, minor, patch, [], []))
  {
    ReleaseText(major, minor, patch);
    ParseFormat(Version(major, minor, patch, [], []));
  }

  /** The text of a release with single-digit fields is its three digits between dots. */
  lemma ReleaseText(major: nat, minor: nat, patch: nat)
    requires major < 10 && minor < 10 && patch < 10
    ensures Format(Version(major, minor, patch, [], [])) == [DigitChar(major), '.', DigitChar(minor), '.', DigitChar(patch)]
  {
    var numerals := [NatText(major), NatText(minor), NatText(patch)];
    assert numerals[1..] == [NatText(minor), NatText(patch)];
    assert numerals[1..][1..] == [NatText(patch)];
    assert Join(numerals[1..], '.') == [DigitChar(minor)] + (['.'] + [DigitChar(patch)]);
    assert CoreText(major, minor, patch) == [DigitChar(major)] + (['.'] + ([DigitChar(minor)] + (['.'] + [DigitChar(patch)])));
  }

}
