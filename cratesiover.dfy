/** The version query of the cratesiover crate (src/lib.rs): fetch the
    registry's record of a crate, pull the `max_version` field out of the
    response text, read it as a semantic version, and classify the caller's
    version against it. */
module CratesIoVer {
  import opened Wrappers
  import opened Tokens
  import SemVer
  import SemVerText

  type Version = SemVer.Version

  /** How the caller's version compares with the one on crates.io. Every
      variant carries the crates.io version. */
  datatype Status = Behind(version: Version) | Equal(version: Version) | Ahead(version: Version)

  /** The opaque cause of a transport failure. */
  datatype RequestCause = RequestCause(description: string)

  /** What can go wrong in a query. */
  datatype Error =
    | ParseError                                  // the response has no max version field
    | SemVerError(syntax: SemVerText.SyntaxError) // a version text is not a semantic version
    | RequestError(request: RequestCause)         // the request or its response body failed

  /** The HTTP GET of a URL: the response body, whatever the status code, or
      the failure of the transport. */
  type Transport = string -> Result<string, RequestCause>

  const REGISTRY_API: string := "https://crates.io/api/v1/crates/"
  const VERSION_FIELD: string := "max_version"
  const QUOTE: char := '"'

  /** The crate's record in the registry API: the API root followed by the name. */
  function RequestUrl(crateName: string): (url: string)
    ensures |url| == |REGISTRY_API| + |crateName|
    ensures url[..|REGISTRY_API|] == REGISTRY_API && url[|REGISTRY_API|..] == crateName
  {
    REGISTRY_API + crateName
  }

  /** The registry's response to a request for the crate's record: the body
      as the transport delivers it, and every failure a `RequestError`
      carrying the transport's cause. */
  function WebReq(transport: Transport, crateName: string): (r: Result<string, Error>)
    ensures r.Success? <==> transport(RequestUrl(crateName)).Success?
    ensures r.Success? ==> r.value == transport(RequestUrl(crateName)).value
    ensures r.Failure? ==> r.error == RequestError(transport(RequestUrl(crateName)).error)
  {
    transport(RequestUrl(crateName)).MapFailure((e: RequestCause) => RequestError(e))
  }

  // ---------------------------------------------------------------------
  // The response extractor

  /** `skip_while(|&x| x != field)`: the tokens from the first one equal to
      `field` on, or nothing when there is none. */
  function SkipUntil(tokens: seq<string>, field: string): (rest: seq<string>)
    ensures |rest| <= |tokens|
    ensures rest != [] ==> rest[0] == field
  {
    if tokens == [] || tokens[0] == field then tokens else SkipUntil(tokens[1..], field)
  }

  /** `nth(n)` on what is left of the iterator: nothing when fewer than
      `n + 1` items are left, otherwise the item after `n` others. */
  function Nth(tokens: seq<string>, n: nat): (r: Option<string>)
    ensures r.None? <==> |tokens| <= n
    ensures r.Some? ==> r.value == tokens[n]
  {
    if n < |tokens| then Some(tokens[n]) else None
  }

  /** The index of the first token equal to `field`, or `|tokens|` when there is none. */
  function FirstIndex(tokens: seq<string>, field: string): (i: nat)
    ensures i <= |tokens|
    ensures i < |tokens| ==> tokens[i] == field
    ensures forall j :: 0 <= j < i ==> tokens[j] != field
  {
    if tokens == [] || tokens[0] == field then 0 else 1 + FirstIndex(tokens[1..], field)
  }

  /** Skipping to the field is dropping the tokens before its first index. */
  lemma {:induction false} SkipUntilFirstIndex(tokens: seq<string>, field: string)
    ensures SkipUntil(tokens, field) == tokens[FirstIndex(tokens, field)..]
  {
    if tokens != [] && tokens[0] != field {
      SkipUntilFirstIndex(tokens[1..], field);
    }
  }

  /** The extractor of the registry response. It splits the text at every
      `"`, as the JSON text `"max_version":"V"` splits into `max_version`,
      `:`, `V`, and succeeds exactly when a `max_version` token exists and two
      or more tokens follow the first one; it then returns the token two
      places after it, a piece between quotes that is neither unescaped nor
      checked. */
  function ParseResponse(text: string): (r: Result<string, Error>)
    ensures var tokens := Split(text, QUOTE);
      var i := FirstIndex(tokens, VERSION_FIELD);
      r == if i + 2 < |tokens| then Success(tokens[i + 2]) else Failure(ParseError)
    ensures r.Success? ==> QUOTE !in r.value
  {
    SkipUntilFirstIndex(Split(text, QUOTE), VERSION_FIELD);
    match Nth(SkipUntil(Split(text, QUOTE), VERSION_FIELD), 2)
    case Some(ver) => Success(ver)
    case None => Failure(ParseError)
  }

  /** A response without a `max_version` token is a parse error. */
  lemma ParseResponseWithoutField(text: string)
    requires VERSION_FIELD !in Split(text, QUOTE)
    ensures ParseResponse(text) == Failure(ParseError)
  {
  }

  /** The extracted value is a contiguous slice of the response, taken as it stands. */
  lemma ParseResponseIsSlice(text: string)
    requires ParseResponse(text).Success?
    ensures var tokens := Split(text, QUOTE);
      var k := PieceOffset(tokens, FirstIndex(tokens, VERSION_FIELD) + 2);
      var v := ParseResponse(text).value;
      k + |v| <= |text| && text[k..k + |v|] == v
  {
    var tokens := Split(text, QUOTE);
    var i := FirstIndex(tokens, VERSION_FIELD) + 2;
    assert i < |tokens| && ParseResponse(text).value == tokens[i];
    SplitPieceIsSlice(text, QUOTE, i);
  }

  /** The first occurrence in `before + rest` is at the start of `rest` when `before` has none. */
  lemma FirstIndexAfter(before: seq<string>, rest: seq<string>, field: string)
    requires field !in before && rest != [] && rest[0] == field
    ensures FirstIndex(before + rest, field) == |before|
  {
    assert (before + rest)[|before|] == field;
  }

  /** The field as JSON writes it, followed by the rest of the response: the
      quoted name `max_version`, a separator such as `:`, and the quoted value. */
  function Field(gap: string, value: string, rest: string): string
  {
    [QUOTE] + (VERSION_FIELD + ([QUOTE] + (gap + ([QUOTE] + (value + ([QUOTE] + rest))))))
  }

  /** A response holding the field yields the field's value, after any
      prefix that has no `max_version` token of its own, whatever follows. */
  lemma ParseResponseOfField(prefix: string, gap: string, value: string, suffix: string)
    requires VERSION_FIELD !in Split(prefix, QUOTE)
    requires QUOTE !in gap && QUOTE !in value
    ensures ParseResponse(prefix + Field(gap, value, suffix)) == Success(value)
  {
    var text := prefix + Field(gap, value, suffix);
    var afterGap := value + ([QUOTE] + suffix);
    var afterField := gap + ([QUOTE] + afterGap);
    var fromField := VERSION_FIELD + ([QUOTE] + afterField);
    SplitCons(value, suffix, QUOTE);
    SplitCons(gap, afterGap, QUOTE);
    SplitCons(VERSION_FIELD, afterField, QUOTE);
    SplitConcat(prefix, fromField, QUOTE);
    var before := Split(prefix, QUOTE);
    var rest := [VERSION_FIELD] + ([gap] + ([value] + Split(suffix, QUOTE)));
    assert Split(text, QUOTE) == before + rest;
    FirstIndexAfter(before, rest, VERSION_FIELD);
    assert (before + rest)[|before| + 2] == value;
  }

  /** The extractor's own test: a version comes out as written, and so does
      malformed version text, which the extractor does not check. */
  lemma ParseResponseExamples(version: string, malformed: string)
    requires version == "\"max_version\":\"0.4.2\""
    requires malformed == "\"max_version\":\"0..2\""
    ensures ParseResponse(version) == Success("0.4.2")
    ensures ParseResponse(malformed) == Success("0..2")
  {
    ParseResponseOfBareField(version, "0.4.2");
    ParseResponseOfBareField(malformed, "0..2");
  }

  /** A response that is just the field, `"max_version":"V"`, yields `V`. */
  lemma ParseResponseOfBareField(text: string, value: string)
    requires QUOTE !in value && text == Field(":", value, "")
    ensures ParseResponse(text) == Success(value)
  {
    assert text == "" + Field(":", value, "");
    ParseResponseOfField("", ":", value, "");
  }


  /** A text without the field is a parse error. */
  lemma ParseResponseMissingExample(text: string)
    requires text == "{}"
    ensures ParseResponse(text) == Failure(ParseError)
  {
    SplitWithoutSeparator(text, QUOTE);
    ParseResponseWithoutField(text);
  }

  // ---------------------------------------------------------------------
  // The comparator

  /** The caller's version classified against the crates.io version, which
      every outcome carries. */
  function Cmp(current: Version, cratesio: Version): (s: Status)
    ensures s.version == cratesio
  {
    match SemVer.Compare(current, cratesio)
    case Less => Behind(cratesio)
    case Equal => Equal(cratesio)
    case Greater => Ahead(cratesio)
  }

  /** The classification follows precedence: behind exactly when the current
      version precedes the crates.io one, equal exactly when they differ at
      most in build metadata, ahead exactly when the crates.io one precedes. */
  lemma CmpClassifies(current: Version, cratesio: Version)
    ensures Cmp(current, cratesio).Behind? <==> SemVer.Precedes(current, cratesio)
    ensures Cmp(current, cratesio).Equal? <==> SemVer.SamePrecedence(current, cratesio)
    ensures Cmp(current, cratesio).Ahead? <==> SemVer.Precedes(cratesio, current)
  {
    SemVer.CompareSpec(current, cratesio);
    SemVer.CompareSpec(cratesio, current);
  }

  // ---------------------------------------------------------------------
  // The pipeline

  /** The crates.io version of the crate. It is found only in a delivered
      response that holds the field, and it is always a well-formed version
      spelled exactly as the field's value. */
  function Get(transport: Transport, crateName: string): (r: Result<Version, Error>)
    ensures r.Success? ==> transport(RequestUrl(crateName)).Success?
    ensures r.Success? ==> ParseResponse(transport(RequestUrl(crateName)).value).Success?
    ensures r.Success? ==> SemVerText.WellFormed(r.value)
    ensures r.Success? ==> SemVerText.Format(r.value) == ParseResponse(transport(RequestUrl(crateName)).value).value
  {
    var text :- WebReq(transport, crateName);
    var ver :- ParseResponse(text);
    SemVerText.Parse(ver).MapFailure((e: SemVerText.SyntaxError) => SemVerError(e))
  }

  /** The crates.io version of the crate compared with `version`. A status
      is given only when both versions are read, and it carries the crates.io
      version. */
  function Query(transport: Transport, crateName: string, version: string): (r: Result<Status, Error>)
    ensures r.Success? ==> SemVerText.Parse(version).Success? && Get(transport, crateName).Success?
    ensures r.Success? ==> r.value.version == Get(transport, crateName).value
  {
    var current :- SemVerText.Parse(version).MapFailure((e: SemVerText.SyntaxError) => SemVerError(e));
    var cratesio :- Get(transport, crateName);
    Success(Cmp(current, cratesio))
  }

  /** Errors short-circuit in the order of the steps: a transport failure is
      a request error, then a response without the field is a parse error,
      then a field value that is not a version is a semantic-version error;
      otherwise the result is the version the field holds. */
  lemma GetStages(transport: Transport, crateName: string)
    ensures transport(RequestUrl(crateName)).Failure? ==>
      Get(transport, crateName) == Failure(RequestError(transport(RequestUrl(crateName)).error))
    ensures transport(RequestUrl(crateName)).Success? && ParseResponse(transport(RequestUrl(crateName)).value).Failure? ==>
      Get(transport, crateName) == Failure(ParseError)
    ensures transport(RequestUrl(crateName)).Success? && ParseResponse(transport(RequestUrl(crateName)).value).Success? ==>
      var parsed := SemVerText.Parse(ParseResponse(transport(RequestUrl(crateName)).value).value);
      Get(transport, crateName) == if parsed.Success? then Success(parsed.value) else Failure(SemVerError(parsed.error))
  {
  }

  /** A registry response holding the field gives the version its value reads as. */
  lemma GetOfResponse(transport: Transport, crateName: string, prefix: string, gap: string, value: string, suffix: string)
    requires transport(RequestUrl(crateName)) == Success(prefix + Field(gap, value, suffix))
    requires VERSION_FIELD !in Split(prefix, QUOTE)
    requires QUOTE !in gap && QUOTE !in value
    ensures SemVerText.Parse(value).Success? ==> Get(transport, crateName) == Success(SemVerText.Parse(value).value)
    ensures SemVerText.Parse(value).Failure? ==> Get(transport, crateName) == Failure(SemVerError(SemVerText.Parse(value).error))
  {
    ParseResponseOfField(prefix, gap, value, suffix);
  }

  /** The caller's version is read before anything is fetched: when it is not
      a version, the query fails with that error whatever the transport would
      have answered. */
  lemma QueryParsesCurrentFirst(transport: Transport, crateName: string, version: string)
    requires SemVerText.Parse(version).Failure?
    ensures Query(transport, crateName, version) == Failure(SemVerError(SemVerText.Parse(version).error))
  {
  }

  /** With a valid current version, the query fails as `Get` fails, and
      otherwise classifies the current version against the crates.io one. */
  lemma QueryOutcome(transport: Transport, crateName: string, version: string)
    requires SemVerText.Parse(version).Success?
    ensures Get(transport, crateName).Failure? ==> Query(transport, crateName, version) == Failure(Get(transport, crateName).error)
    ensures Get(transport, crateName).Success? ==>
      Query(transport, crateName, version) == Success(Cmp(SemVerText.Parse(version).value, Get(transport, crateName).value))
  {
  }

  /** A successful query carries the crates.io version and says behind,
      equal or ahead exactly as precedence orders the two versions. */
  lemma QueryClassifies(transport: Transport, crateName: string, version: string)
    requires Query(transport, crateName, version).Success?
    ensures SemVerText.Parse(version).Success? && Get(transport, crateName).Success?
    ensures var current := SemVerText.Parse(version).value;
      var cratesio := Get(transport, crateName).value;
      var status := Query(transport, crateName, version).value;
      && status.version == cratesio
      && (status.Behind? <==> SemVer.Precedes(current, cratesio))
      && (status.Equal? <==> SemVer.SamePrecedence(current, cratesio))
      && (status.Ahead? <==> SemVer.Precedes(cratesio, current))
  {
    CmpClassifies(SemVerText.Parse(version).value, Get(transport, crateName).value);
  }

  // ---------------------------------------------------------------------
  // Scenarios

  /** `cmp`'s own tests: 1.0.0 against itself, 0.1.0 against 1.0.0 and back. */
  lemma CmpExamples()
    ensures Cmp(SemVer.Version(1, 0, 0, [], []), SemVer.Version(1, 0, 0, [], [])) == Equal(SemVer.Version(1, 0, 0, [], []))
    ensures Cmp(SemVer.Version(0, 1, 0, [], []), SemVer.Version(1, 0, 0, [], [])) == Behind(SemVer.Version(1, 0, 0, [], []))
    ensures Cmp(SemVer.Version(1, 0, 0, [], []), SemVer.Version(0, 1, 0, [], [])) == Ahead(SemVer.Version(0, 1, 0, [], []))
  {
  }

  /** The registry answers `{"max_version":"2.1.0"}`. */
  lemma RegistryAnswers210(transport: Transport, crateName: string)
    requires transport(RequestUrl(crateName)) == Success("{" + Field(":", "2.1.0", "}"))
    ensures Get(transport, crateName) == Success(SemVer.Version(2, 1, 0, [], []))
  {
    SplitWithoutSeparator("{", QUOTE);
    SemVerText.ParseReleaseExample("2.1.0", 2, 1, 0);
    GetOfResponse(transport, crateName, "{", ":", "2.1.0", "}");
  }

  /** Current version 2.1.0 against a registry at 2.1.0 is equal. */
  lemma QueryEqualScenario(transport: Transport, crateName: string, version: string)
    requires transport(RequestUrl(crateName)) == Success("{" + Field(":", "2.1.0", "}"))
    requires version == "2.1.0"
    ensures Query(transport, crateName, version) == Success(Equal(SemVer.Version(2, 1, 0, [], [])))
  {
    RegistryAnswers210(transport, crateName);
    SemVerText.ParseReleaseExample(version, 2, 1, 0);
  }

  /** Current version 1.0.0 against a registry at 2.1.0 is behind 2.1.0. */
  lemma QueryBehindScenario(transport: Transport, crateName: string, version: string)
    requires transport(RequestUrl(crateName)) == Success("{" + Field(":", "2.1.0", "}"))
    requires version == "1.0.0"
    ensures Query(transport, crateName, version) == Success(Behind(SemVer.Version(2, 1, 0, [], [])))
  {
    RegistryAnswers210(transport, crateName);
    SemVerText.ParseReleaseExample(version, 1, 0, 0);
  }

  /** A transport failure makes a query with a valid current version a request error. */
  lemma QueryRequestFailureScenario(transport: Transport, crateName: string, version: string)
    requires transport(RequestUrl(crateName)).Failure?
    requires version == "2.1.0"
    ensures Query(transport, crateName, version) == Failure(RequestError(transport(RequestUrl(crateName)).error))
  {
    SemVerText.ParseReleaseExample(version, 2, 1, 0);
  }

  /** A registry value that is not a version, `0..2`, is extracted and then
      fails as a semantic-version error. */
  lemma GetMalformedScenario(transport: Transport, crateName: string)
    requires transport(RequestUrl(crateName)) == Success("{" + Field(":", "0..2", "}"))
    ensures Get(transport, crateName).Failure? && Get(transport, crateName).error.SemVerError?
  {
    SplitWithoutSeparator("{", QUOTE);
    SemVerText.ParseMalformedExample("0..2");
    GetOfResponse(transport, crateName, "{", ":", "0..2", "}");
  }
}
