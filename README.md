# cratesiover — a Dafny model of the version query

cratesiover asks crates.io for the newest published version of a crate and
compares it with a version the caller supplies, answering `Behind`, `Equal` or
`Ahead`; each answer carries the crates.io version. The query goes through
four steps:

1. fetch `https://crates.io/api/v1/crates/<name>` (`web_req`);
2. pull the `max_version` field out of the response text by splitting it at
   every `"` and taking the token two places after the first `max_version`
   token (`parse`);
3. read that token as a semantic version (`Version::parse`);
4. classify the caller's version against it by precedence (`cmp`).

Errors come out as `RequestError`, `ParseError` or `SemVerError`.

The model is purely functional and matches the source, which is itself pure
apart from its I/O:

- `wrappers.dfy` (`Wrappers`) — `Option`, and a `Result` with `map_err` as
  `MapFailure`.
- `tokens.dfy` (`Tokens`) — Rust's `str::split(char)` as `Split`, with its
  inverse `Join`. The round trips in both directions are proved, along with
  how a split distributes over a separator and that every piece is a slice of
  the text.
- `semver.dfy` (`SemVer`) — the semantic version value and the executable
  three-way `Compare`. `Compare` is proved to decide exactly the declarative
  precedence relation of section 11 of Semantic Versioning 2.0.0
  (`Precedes`). Build metadata is ignored (`SamePrecedence`). Precedence is
  shown to be a strict total order up to build metadata.
- `semver_text.dfy` (`SemVerText`) — the text form
  `MAJOR.MINOR.PATCH[-PRE][+BUILD]` under the grammar of Semantic Versioning
  2.0.0: numbers without leading zeros, and non-empty identifiers over
  `[0-9A-Za-z-]`. Both round trips are proved: `Parse(Format(v)) == v` for
  every well-formed `v`, and `Format(Parse(s)) == s` for every `s` that
  parses.
- `cratesiover.dfy` (`CratesIoVer`) — `Status`, `Error`, the extractor
  `ParseResponse`, the comparator `Cmp`, and the pipeline `Get` / `Query`.
  The HTTP request is a `Transport` parameter: a function from a URL to the
  response body or a failure cause. The lemmas fix the extractor's result
  exactly, the classification, the order in which errors short-circuit, and
  the source's own unit tests.

## Model

| member | source | states |
|---|---|---|
| Tokens.Split | src/lib.rs:144 | `split('"')` gives one piece more than there are quotes, and no piece contains a quote |
| Tokens.JoinSplit | src/lib.rs:144 | joining the pieces of a split with the separator gives back the original text |
| Tokens.SplitJoin | src/lib.rs:144 | splitting a join of separator-free pieces gives back those pieces |
| Tokens.SplitConcat | src/lib.rs:144 | a separator between two texts splits into the pieces of the first followed by the pieces of the second |
| Tokens.SplitWithoutSeparator | src/lib.rs:144 | a text without the separator is one piece, itself |
| Tokens.SplitCons | src/lib.rs:144 | a separator-free lead followed by the separator splits off as the first piece |
| Tokens.SplitPieceIsSlice | src/lib.rs:144 | every piece of a split is the contiguous slice of the text at that piece's offset |
| CratesIoVer.SkipUntil | src/lib.rs:144 | `skip_while(x != "max_version")` leaves no more tokens than it had, and what is left starts with `max_version` |
| CratesIoVer.FirstIndex | src/lib.rs:144 | the reference position of the field: no earlier token is `max_version`, and the token at the index is, unless it is past the end |
| CratesIoVer.SkipUntilFirstIndex | src/lib.rs:144 | skipping is exactly dropping the tokens before the first `max_version` |
| CratesIoVer.ParseResponse | src/lib.rs:143-149 | succeeds exactly when the tokens hold `max_version` with two or more tokens after its first occurrence, and then returns the token two places after it (`nth(2)` through Nth); otherwise `ParseError`; the result never contains `"` |
| CratesIoVer.ParseResponseWithoutField | src/lib.rs:147 | a response with no `max_version` token is a `ParseError` |
| CratesIoVer.ParseResponseIsSlice | src/lib.rs:144-146 | the extracted value is the slice of the response text, taken verbatim, at the offset of the token two after the field |
| CratesIoVer.ParseResponseOfField | src/lib.rs:144-146 | for any quote-free value `V` and separator, `"max_version"<sep>"V"` after a prefix without the field yields exactly `V`, whatever follows |
| CratesIoVer.ParseResponseExamples | src/lib.rs:166-170 | `"max_version":"0.4.2"` yields `0.4.2`, and `"max_version":"0..2"` yields `0..2` verbatim: the extractor does not validate the value |
| CratesIoVer.ParseResponseMissingExample | src/lib.rs:147 | a response without the field (`{}`) is a `ParseError` |
| CratesIoVer.Cmp | src/lib.rs:158-164 | every status carries the crates.io version |
| CratesIoVer.CmpClassifies | src/lib.rs:158-164 | `Behind` exactly when the current version has lower precedence; `Equal` exactly when the two differ at most in build metadata; `Ahead` exactly when the crates.io version has lower precedence |
| CratesIoVer.CmpExamples | src/lib.rs:184-200 | 1.0.0 against itself is `Equal(1.0.0)`; 0.1.0 against 1.0.0 is `Behind(1.0.0)`; 1.0.0 against 0.1.0 is `Ahead(0.1.0)` |
| CratesIoVer.Get | src/lib.rs:77-80 | a version is returned only from a delivered response holding the field; it is well-formed and spelled exactly as the field's value; see GetStages and GetOfResponse for each outcome |
| CratesIoVer.Query | src/lib.rs:94-97 | a status is returned only when both versions were read, and it carries the crates.io version; see QueryParsesCurrentFirst, QueryOutcome and QueryClassifies |
| CratesIoVer.GetStages | src/lib.rs:77-80 | three stages, in order: a transport failure of the request that `web_req` (src/lib.rs:151-156) makes, through WebReq and RequestUrl, is `RequestError` with its cause; then a response without the field is `ParseError`; then a field value that is not a version is `SemVerError`; otherwise the result is the version the value reads as |
| CratesIoVer.GetOfResponse | src/lib.rs:77-80 | a registry response holding the field gives the parsed field value, or the `SemVerError` of its syntax error |
| CratesIoVer.QueryParsesCurrentFirst | src/lib.rs:94-95 | an invalid current version gives its `SemVerError` whatever the transport answers, so nothing needs to be fetched |
| CratesIoVer.QueryOutcome | src/lib.rs:94-97 | with a valid current version, the query fails with `Get`'s error, or succeeds with `Cmp` of the parsed current version and the crates.io version |
| CratesIoVer.QueryClassifies | src/lib.rs:94-97 | a successful query means both versions parsed; its status carries the crates.io version and says behind, equal or ahead exactly as precedence orders them |
| CratesIoVer.RegistryAnswers210 | src/lib.rs:77-80 | a registry answering `{"max_version":"2.1.0"}` gives version 2.1.0 |
| CratesIoVer.QueryEqualScenario | src/lib.rs:94-97 | 2.1.0 against a registry at 2.1.0 is `Equal(2.1.0)` |
| CratesIoVer.QueryBehindScenario | src/lib.rs:94-97 | 1.0.0 against a registry at 2.1.0 is `Behind(2.1.0)` |
| CratesIoVer.QueryRequestFailureScenario | src/lib.rs:151-156 | a failing transport makes a query with a valid version a `RequestError` carrying the transport's cause |
| CratesIoVer.GetMalformedScenario | src/lib.rs:77-80 | a registry value `0..2` is extracted and then fails as a `SemVerError` |
| SemVer.CompareTextSpec | src/lib.rs:159 | text comparison is `Less` exactly in lexicographic character order, `Equal` exactly on equal texts, and antisymmetric |
| SemVer.CompareIdentifierSpec | src/lib.rs:159 | identifier comparison: numeric identifiers compare as numbers, they sit below alphanumeric ones, and alphanumeric ones compare lexically; `Equal` exactly on equal identifiers |
| SemVer.CompareIdentifiersSpec | src/lib.rs:159 | identifier lists compare lexicographically, a proper prefix being smaller; `Equal` exactly on equal lists |
| SemVer.Compare | src/lib.rs:159 | `Version::cmp` answers `Less` exactly when the first version precedes the second in the order of section 11 of Semantic Versioning 2.0.0 (`Precedes`), and `Equal` exactly when the two differ at most in build metadata |
| SemVer.CompareSpec | src/lib.rs:159 | swapping the arguments reverses the answer, so `Greater` holds exactly when the second version precedes the first |
| SemVer.CompareTransitive | src/lib.rs:159 | `Less` is transitive |
| SemVer.PrecedenceTrichotomy | src/lib.rs:158-164 | exactly one of lower, same and higher precedence holds, so `cmp` always has exactly one answer |
| SemVer.PrecedesIrreflexive | src/lib.rs:159 | no version precedes itself |
| SemVer.PrecedesTransitive | src/lib.rs:159 | precedence is transitive |
| SemVer.CompareIgnoresBuild | src/lib.rs:159 | changing either version's build metadata never changes the comparison |
| SemVerText.ParseNumber | src/lib.rs:79 | a number field is accepted exactly when it is digits without a leading zero, and what it reads is spelled as its numeral |
| SemVerText.ParseIdentifier | src/lib.rs:79 | a pre-release identifier is accepted exactly when it is numeric or well-formed alphanumeric text, and it is spelled as written |
| SemVerText.ParsePre | src/lib.rs:79 | pre-release parts are accepted exactly when each is an identifier, and the result spells the parts back |
| SemVerText.ParseCore | src/lib.rs:79 | an accepted `MAJOR.MINOR.PATCH` is spelled exactly as the canonical text of its three numbers |
| SemVerText.ParseOptionalPre | src/lib.rs:79 | what the pre-release part reads formats back to `-` and the part, or to nothing when there is no `-` |
| SemVerText.ParseOptionalBuild | src/lib.rs:79 | what the build part reads formats back to `+` and the part, or to nothing when there is no `+` |
| SemVerText.ParseBuildText | src/lib.rs:79 | well-formed build identifiers, joined by dots after the `+` or absent with it, read back as exactly those identifiers |
| SemVerText.Parse | src/lib.rs:79 | whatever `Version::parse` accepts is well-formed and is exactly the canonical text of its version: each version has one spelling |
| SemVerText.ParseFormat | src/lib.rs:79 | every well-formed version parses back from its canonical text |
| SemVerText.ParseMalformedExample | src/lib.rs:79 | `0..2`, which the extractor passes on, is not a version |
| SemVerText.ParseReleaseExample | src/lib.rs:186-187 | a release `X.Y.Z` with single-digit fields, such as `1.0.0` or `0.1.0`, reads as `Version(X, Y, Z)` with no pre-release or build identifiers |

## Left out

- `web_req`'s HTTP request and body download (src/lib.rs:151-156) are not
  modelled. They become the `Transport` parameter, so the URL is built as the
  source builds it and any transport failure becomes a `RequestError`. The
  status code, redirects and network behaviour are the transport's business.
- `Writer`, `output` and `output_with_term` (src/lib.rs:54-75, 99-141) only
  write a coloured status line to a terminal, so they are console I/O and not
  modelled.
- The `test_web_req` test (src/lib.rs:172-182) checks a live crates.io
  answer, which is network I/O. `examples/example.rs` only prints.
- The `semver` crate is not part of this model. `SemVer` and `SemVerText`
  follow Semantic Versioning 2.0.0 instead: its grammar for `Version::parse`,
  and the precedence of its section 11 for `Ord`. The source uses a pre-1.0
  release of the crate, the releases that name their error `SemVerError`. In those
  releases the `Ord` and `PartialEq` impls rank numeric identifiers below
  alphanumeric ones and leave build metadata out of comparisons, as the
  model does.
- SemVerText.Parse: numbers are unbounded, so a field too large for the
  crate's `u64` parses here. Any leniency the crate's parser has beyond the
  grammar, such as trimming surrounding whitespace, is not modelled.
- SemVerText.SyntaxError: it carries a reason of the model's own wording, not
  the crate's error values.
- CratesIoVer.Status: it is compared with Dafny's structural equality.
  Versions that differ only in build metadata are therefore distinct statuses;
  the crate's `PartialEq` treats them as equal.
- CratesIoVer.RequestCause: it stands for `reqwest::Error` and carries only a
  description.
