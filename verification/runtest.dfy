/** The decision part of `run_test` in tools/run-reference.py: once a test
    case's JSON, its headers and its raw body are loaded, whether the test is
    skipped, which expectation applies, and which problems the reference
    parser's result has against it.  Loading files is not modelled; a missing
    file is an input the function is never given. */
module RunTest {
  import opened Wrappers
  import opened Rfc5987
  import opened Parts
  import opened Parser
  import Boundary

  /** One `expected` (or `lenient_expected`) object of a test's JSON.  Each key
      may be absent (`None`); `valid` defaults to true and `parts` to empty. */
  datatype Expectation = Expectation(
    valid: Option<bool>,
    errorType: Option<string>,
    parts: Option<seq<ExpectedPart>>)

  /** The `{}` that an absent `expected` key reads as. */
  const NoExpectation: Expectation := Expectation(None, None, None)

  /** What `run_test` reads from test.json. */
  datatype TestCase = TestCase(
    tags: seq<string>,
    expected: Option<Expectation>,
    lenientExpected: Option<Expectation>)

  /** The entries `run_test` appends to `errors`, by kind rather than by message. */
  datatype Problem =
    | ValidityMismatch(expectedValid: bool, actualValid: bool)
    | ParserError(error: ErrorKind)
    | ErrorTypeMismatch(wanted: string, got: Option<ErrorKind>)
    | PartDifference(difference: Difference)

  /** The fields of `run_test`'s result the decision sets. */
  datatype Outcome = Outcome(skipped: bool, passed: bool, problems: seq<Problem>)

  /** `expected.get("valid", True)`. */
  function ExpectsValid(e: Expectation): bool {
    e.valid.GetOr(true)
  }

  /** `lenient_expected` in lenient mode when the key is present, `expected`
      (or `{}`) otherwise. */
  function ExpectationFor(tc: TestCase, strict: bool): (e: Expectation)
    ensures !strict && tc.lenientExpected.Some? ==> e == tc.lenientExpected.value
    ensures (strict || tc.lenientExpected.None?) && tc.expected.Some? ==> e == tc.expected.value
    ensures (strict || tc.lenientExpected.None?) && tc.expected.None? ==> e == NoExpectation
  {
    if !strict && tc.lenientExpected.Some? then tc.lenientExpected.value
    else tc.expected.GetOr(NoExpectation)
  }

  /** The actual error's tag, as `parse_result.error_type` prints it. */
  function ActualTag(r: ParseResult): Option<string> {
    r.error.Map((k: ErrorKind) => k.Tag())
  }

  /** A differing validity, followed by the parser's error when it has one. */
  function ValidityProblems(e: Expectation, r: ParseResult): seq<Problem> {
    if ExpectsValid(e) != r.valid then
      [ValidityMismatch(ExpectsValid(e), r.valid)] + (if r.error.Some? then [ParserError(r.error.value)] else [])
    else []
  }

  /** For an invalid expectation, the error type, which is checked only when the
      expectation names a non-empty one; for a valid one, the parts. */
  function DetailProblems(e: Expectation, r: ParseResult, codec: BodyCodec): seq<Problem> {
    if !ExpectsValid(e) then
      var want := e.errorType.GetOr("");
      if want != "" && ActualTag(r) != Some(want) then [ErrorTypeMismatch(want, r.error)] else []
    else
      Differences(CompareParts(e.parts.GetOr([]), r.parts, codec))
  }

  function Differences(ds: seq<Difference>): (r: seq<Problem>)
    ensures |r| == |ds|
    ensures forall k :: 0 <= k < |r| ==> r[k] == PartDifference(ds[k])
    decreases |ds|
  {
    if |ds| == 0 then [] else [PartDifference(ds[0])] + Differences(ds[1..])
  }

  /** Everything `run_test` appends to `errors` for a parse result. */
  function Judge(e: Expectation, r: ParseResult, codec: BodyCodec): (p: seq<Problem>)
    ensures ExpectsValid(e) != r.valid <==> |p| > 0 && p[0] == ValidityMismatch(ExpectsValid(e), r.valid)
    ensures forall k :: 0 <= k < |p| && p[k].ValidityMismatch? ==> k == 0 && ExpectsValid(e) != r.valid
  {
    ValidityProblems(e, r) + DetailProblems(e, r, codec)
  }

  /** `run_test` once the files are loaded: `contentType` is the headers'
      `content-type` (an absent key reads as ""), `body` the raw input. */
  function RunTest(tc: TestCase, strict: bool, contentType: Option<string>, body: string,
                   charsets: CharsetTable, codec: BodyCodec): (o: Outcome)
    ensures o.passed <==> |o.problems| == 0
    ensures o.skipped ==> o.passed
  {
    if "lenient" in tc.tags && strict then Outcome(true, true, [])
    else
      var r := Parse(body, Boundary.ParseBoundary(contentType.GetOr("")), strict, charsets);
      var problems := Judge(ExpectationFor(tc, strict), r, codec);
      Outcome(false, |problems| == 0, problems)
  }

  // ---------------------------------------------------------------------------
  // Reference definition: when a parse result meets an expectation

  /** An error-type expectation is met by an actual error with that tag; an
      absent or empty one is met by anything. */
  predicate ErrorTypeMet(e: Expectation, r: ParseResult) {
    e.errorType.GetOr("") == "" || (r.error.Some? && r.error.value.Tag() == e.errorType.value)
  }

  /** The validity agrees, then: an invalid expectation's error type is met, a
      valid expectation's parts all match, in number and one by one. */
  predicate Meets(e: Expectation, r: ParseResult, codec: BodyCodec) {
    var want := e.parts.GetOr([]);
    && ExpectsValid(e) == r.valid
    && (!ExpectsValid(e) ==> ErrorTypeMet(e, r))
    && (ExpectsValid(e) ==>
          |want| == |r.parts| && forall k :: 0 <= k < |want| ==> PartMatches(want[k], r.parts[k], codec))
  }

  /** No problem is reported exactly when the result meets the expectation. */
  lemma {:induction false} JudgeEmptyIff(e: Expectation, r: ParseResult, codec: BodyCodec)
    ensures Judge(e, r, codec) == [] <==> Meets(e, r, codec)
  {
    var want := e.parts.GetOr([]);
    ComparePartsEmpty(want, r.parts, codec);
    if ExpectsValid(e) {
      var ds := CompareParts(want, r.parts, codec);
      assert |Differences(ds)| == |ds|;
    } else {
      ErrorTypeCheck(e, r, codec);
    }
  }

  lemma {:induction false} ErrorTypeCheck(e: Expectation, r: ParseResult, codec: BodyCodec)
    requires !ExpectsValid(e)
    ensures DetailProblems(e, r, codec) == [] <==> ErrorTypeMet(e, r)
  {
  }

  /** A test run passes exactly when it is skipped or the parse result meets the
      expectation chosen for the mode. */
  lemma {:induction false} RunTestVerdict(tc: TestCase, strict: bool, contentType: Option<string>, body: string,
                                          charsets: CharsetTable, codec: BodyCodec)
    ensures var o := RunTest(tc, strict, contentType, body, charsets, codec);
      var r := Parse(body, Boundary.ParseBoundary(contentType.GetOr("")), strict, charsets);
      && (o.skipped <==> "lenient" in tc.tags && strict)
      && (!o.skipped ==> (o.passed <==> Meets(ExpectationFor(tc, strict), r, codec)))
  {
    var r := Parse(body, Boundary.ParseBoundary(contentType.GetOr("")), strict, charsets);
    JudgeEmptyIff(ExpectationFor(tc, strict), r, codec);
  }

  /** A lenient-tagged test in strict mode is skipped and counts as passed, with
      nothing reported, whatever the body. */
  lemma {:induction false} LenientSkippedInStrict(tc: TestCase, contentType: Option<string>, body: string,
                                                  charsets: CharsetTable, codec: BodyCodec)
    requires "lenient" in tc.tags
    ensures RunTest(tc, true, contentType, body, charsets, codec) == Outcome(true, true, [])
  {
  }

  /** The error type is checked only for an invalid expectation, the parts only for
      a valid one. */
  lemma {:induction false} ChecksBySide(e: Expectation, r: ParseResult, codec: BodyCodec)
    ensures ExpectsValid(e) ==> forall p :: p in Judge(e, r, codec) ==> !p.ErrorTypeMismatch?
    ensures !ExpectsValid(e) ==> forall p :: p in Judge(e, r, codec) ==> !p.PartDifference?
  {
    var ds := CompareParts(e.parts.GetOr([]), r.parts, codec);
    if ExpectsValid(e) {
      forall p | p in Judge(e, r, codec) ensures !p.ErrorTypeMismatch? {
        if p !in ValidityProblems(e, r) {
          assert p in Differences(ds);
        }
      }
    }
  }

  /** A missing `valid` key reads as true. */
  lemma {:induction false} ValidityDefaultsToTrue(e: Expectation, r: ParseResult, codec: BodyCodec)
    requires e.valid.None? && !r.valid
    ensures ValidityMismatch(true, false) in Judge(e, r, codec)
  {
    assert Judge(e, r, codec)[0] == ValidityMismatch(true, false);
  }
}
