/** The Go conformance test (examples/go-stdlib/main_test.go): `comparePart`,
    `isOptional`, `truncate` and the verdict `runTestCase` reaches once the
    server's answer is in.  The HTTP round trip is an input: the answer, or the
    stage at which the request failed. */
module GoHarness {
  import opened Wrappers
  import Utf8
  import opened GoServer

  /** `ExpectedPart` as Go decodes it: `name` and `body_size` are plain values
      (an absent key reads as "" and 0), the others pointers. */
  datatype GoExpectedPart = GoExpectedPart(
    name: string,
    filename: Option<string>,
    contentType: Option<string>,
    bodyText: Option<string>,
    bodyBase64: Option<string>,
    bodySize: int)

  /** `ExpectedResult`: an absent `valid` reads as false. */
  datatype GoExpected = GoExpected(valid: bool, parts: seq<GoExpectedPart>, errorType: string)

  /** The mismatches `comparePart` reports, by kind. */
  datatype Mismatch =
    | NameMismatch
    | FilenameMismatch
    | ContentTypeMismatch
    | BodyTextMismatch
    | BodyBase64Mismatch
    | BodySizeMismatch

  /** The base64 the comparison uses for the actual body: the server's, or its
      text encoded as UTF-8 and then in base64, or "" when it sent neither. */
  function ActualBase64(actual: GoPart, base64: string -> string): string {
    if actual.bodyBase64.Some? then actual.bodyBase64.value
    else if actual.bodyText.Some? then base64(Utf8.Encode(actual.bodyText.value))
    else ""
  }

  /** `comparePart`: every check runs and adds its mismatch, in order. */
  function ComparePart(actual: GoPart, expected: GoExpectedPart, base64: string -> string): (r: seq<Mismatch>)
    ensures |r| <= 5
    ensures forall j, k :: 0 <= j < k < |r| ==> r[j] != r[k]
  {
    (if actual.name != expected.name then [NameMismatch] else [])
    + (if expected.filename.Some? then
         (if actual.filename.None? || actual.filename.value != expected.filename.value then [FilenameMismatch] else [])
       else if actual.filename.Some? then [FilenameMismatch] else [])
    + (if expected.contentType.Some? then
         (if actual.contentType.None? || actual.contentType.value != expected.contentType.value then [ContentTypeMismatch] else [])
       else [])
    + (if expected.bodyText.Some? then
         (if actual.bodyText.None? || actual.bodyText.value != expected.bodyText.value then [BodyTextMismatch] else [])
       else if expected.bodyBase64.Some? then
         (if ActualBase64(actual, base64) != expected.bodyBase64.value then [BodyBase64Mismatch] else [])
       else [])
    + (if actual.bodySize != expected.bodySize then [BodySizeMismatch] else [])
  }

  // Reference definition: what the Go test accepts of one part.

  /** The body check: the expected text when there is one, else the expected
      base64 when there is one, else nothing. */
  predicate BodyAgrees(actual: GoPart, expected: GoExpectedPart, base64: string -> string) {
    if expected.bodyText.Some? then actual.bodyText == expected.bodyText
    else expected.bodyBase64.Some? ==> ActualBase64(actual, base64) == expected.bodyBase64.value
  }

  /** Name, filename (nil and "" differ) and size always compared exactly; the
      content type only when one is expected. */
  predicate PartAgrees(actual: GoPart, expected: GoExpectedPart, base64: string -> string) {
    && actual.name == expected.name
    && actual.filename == expected.filename
    && (expected.contentType.Some? ==> actual.contentType == expected.contentType)
    && BodyAgrees(actual, expected, base64)
    && actual.bodySize == expected.bodySize
  }

  /** No mismatch exactly when the part agrees; each kind of mismatch is
      reported at most once. */
  lemma {:induction false} ComparePartEmpty(actual: GoPart, expected: GoExpectedPart, base64: string -> string)
    ensures ComparePart(actual, expected, base64) == [] <==> PartAgrees(actual, expected, base64)
    ensures |ComparePart(actual, expected, base64)| <= 5
  {
  }

  /** A nil filename and an empty one never match, in either direction. */
  lemma {:induction false} NilFilenameIsNotEmpty(actual: GoPart, expected: GoExpectedPart, base64: string -> string)
    requires (actual.filename == None && expected.filename == Some(""))
          || (actual.filename == Some("") && expected.filename == None)
    ensures FilenameMismatch in ComparePart(actual, expected, base64)
  {
  }

  /** Without an expected content type, any actual one is accepted. */
  lemma {:induction false} ContentTypeUncheckedWhenUnexpected(actual: GoPart, expected: GoExpectedPart, base64: string -> string)
    requires expected.contentType.None?
    ensures ContentTypeMismatch !in ComparePart(actual, expected, base64)
  {
  }

  /** `isOptional`: the loop over the tags, looking for "optional". */
  function IsOptional(tags: seq<string>): (r: bool)
    ensures r <==> "optional" in tags
    decreases |tags|
  {
    if |tags| == 0 then false
    else if tags[0] == "optional" then true
    else
      assert tags == [tags[0]] + tags[1..];
      IsOptional(tags[1..])
  }

  /** `truncate`: a string no longer than `maxLen` octets is kept, a longer one
      cut to `maxLen` octets and marked with "...". */
  function Truncate(s: string, maxLen: nat): (r: string)
    ensures |s| <= maxLen ==> r == s
    ensures |s| > maxLen ==> |r| == maxLen + 3 && r[..maxLen] == s[..maxLen] && r[maxLen..] == "..."
  {
    if |s| <= maxLen then s else s[..maxLen] + "..."
  }

  /** A truncated string is never longer than the bound plus the marker, so
      truncating it again with that larger bound keeps it. */
  lemma {:induction false} TruncateBound(s: string, maxLen: nat)
    ensures |Truncate(s, maxLen)| <= maxLen + 3
    ensures Truncate(Truncate(s, maxLen), maxLen + 3) == Truncate(s, maxLen)
  {
  }

  // ---------------------------------------------------------------------------
  // The verdict of runTestCase

  /** `t.Skipf` (the test counts as skipped), `t.Fatalf` (failed), or a return
      (passed). */
  datatype Verdict = Pass | Fail | Skip

  /** How the request ended: building it failed, sending it failed, decoding the
      answer failed, or the server answered. */
  datatype Exchange = RequestFailed | SendFailed | DecodeFailed | Answered(response: Response)

  /** A failure is downgraded to a skip for an optional test. */
  function Setback(optional: bool): Verdict {
    if optional then Skip else Fail
  }

  /** The loop of lines 321-329: each part's mismatches, tagged with the part's
      index, all parts compared. */
  function AllMismatches(parts: seq<GoPart>, expected: seq<GoExpectedPart>, base64: string -> string): (r: seq<(nat, Mismatch)>)
    requires |parts| == |expected|
    ensures forall k :: 0 <= k < |r| ==> r[k].0 < |expected|
    decreases |expected|
  {
    if |expected| == 0 then []
    else
      var init := AllMismatches(parts[..|parts| - 1], expected[..|expected| - 1], base64);
      var last := |expected| - 1;
      init + Tagged(last, ComparePart(parts[last], expected[last], base64))
  }

  function Tagged(i: nat, ms: seq<Mismatch>): (r: seq<(nat, Mismatch)>)
    ensures |r| == |ms|
    ensures forall k :: 0 <= k < |r| ==> r[k] == (i, ms[k])
    decreases |ms|
  {
    if |ms| == 0 then [] else [(i, ms[0])] + Tagged(i, ms[1..])
  }

  /** No mismatch is collected exactly when every part agrees. */
  lemma {:induction false} AllMismatchesEmpty(parts: seq<GoPart>, expected: seq<GoExpectedPart>, base64: string -> string)
    requires |parts| == |expected|
    ensures AllMismatches(parts, expected, base64) == []
        <==> forall i :: 0 <= i < |expected| ==> PartAgrees(parts[i], expected[i], base64)
    decreases |expected|
  {
    if |expected| > 0 {
      var n := |expected| - 1;
      var ps := parts[..n];
      var es := expected[..n];
      AllMismatchesEmpty(ps, es, base64);
      ComparePartEmpty(parts[n], expected[n], base64);
      SnocAll(parts, expected, base64);
    }
  }

  /** Every part agrees exactly when the ones before the last do and the last does. */
  lemma {:induction false} SnocAll(parts: seq<GoPart>, expected: seq<GoExpectedPart>, base64: string -> string)
    requires |parts| == |expected| > 0
    ensures var n := |expected| - 1;
      (forall i :: 0 <= i < |expected| ==> PartAgrees(parts[i], expected[i], base64))
        <==> (forall i :: 0 <= i < n ==> PartAgrees(parts[..n][i], expected[..n][i], base64))
             && PartAgrees(parts[n], expected[n], base64)
  {
    var n := |expected| - 1;
    assert forall i :: 0 <= i < n ==> parts[..n][i] == parts[i] && expected[..n][i] == expected[i];
  }

  /** Every mismatch of part `i` is collected, tagged `i`. */
  lemma {:induction false} AllMismatchesCover(parts: seq<GoPart>, expected: seq<GoExpectedPart>, base64: string -> string, i: nat, m: Mismatch)
    requires |parts| == |expected| && i < |expected|
    requires m in ComparePart(parts[i], expected[i], base64)
    ensures (i, m) in AllMismatches(parts, expected, base64)
    decreases |expected|
  {
    var n := |expected| - 1;
    var tail := Tagged(n, ComparePart(parts[n], expected[n], base64));
    assert AllMismatches(parts, expected, base64) == AllMismatches(parts[..n], expected[..n], base64) + tail;
    if i == n {
      var ms := ComparePart(parts[n], expected[n], base64);
      var k :| 0 <= k < |ms| && ms[k] == m;
      assert tail[k] == (i, m);
    } else {
      assert parts[..n][i] == parts[i] && expected[..n][i] == expected[i];
      AllMismatchesCover(parts[..n], expected[..n], base64, i, m);
    }
  }

  /** `runTestCase` from the request on, for a test that is or is not optional. */
  function RunCase(optional: bool, expected: GoExpected, exchange: Exchange, base64: string -> string): (v: Verdict)
    ensures v == Pass ==> exchange.Answered? && exchange.response.valid == expected.valid
    ensures !optional && v == Skip ==> exchange.Answered? && !expected.valid && exchange.response.valid
    ensures optional && v == Fail ==> exchange.DecodeFailed?
  {
    match exchange
    case RequestFailed => Setback(optional)
    case SendFailed => Setback(optional)
    case DecodeFailed => Fail
    case Answered(r) =>
      if expected.valid then
        if !r.valid then Setback(optional)
        else if |r.parts| != |expected.parts| then Setback(optional)
        else if |AllMismatches(r.parts, expected.parts, base64)| > 0 then Setback(optional)
        else Pass
      else if r.valid then Skip
      else Pass
  }

  /** `runTestCase` for a test with these tags. */
  function RunTestCase(tags: seq<string>, expected: GoExpected, exchange: Exchange, base64: string -> string): Verdict {
    RunCase(IsOptional(tags), expected, exchange, base64)
  }

  /** The answer meets a valid expectation: valid, as many parts, each agreeing. */
  predicate MeetsValid(r: Response, expected: GoExpected, base64: string -> string) {
    && r.valid
    && |r.parts| == |expected.parts|
    && forall i :: 0 <= i < |expected.parts| ==> PartAgrees(r.parts[i], expected.parts[i], base64)
  }

  /** For a valid expectation: a pass exactly when the answer meets it, and
      otherwise a skip for an optional test and a failure for any other. */
  lemma {:induction false} ValidExpectationVerdict(optional: bool, expected: GoExpected, r: Response, base64: string -> string)
    requires expected.valid
    ensures RunCase(optional, expected, Answered(r), base64) == Pass <==> MeetsValid(r, expected, base64)
    ensures !MeetsValid(r, expected, base64) ==> RunCase(optional, expected, Answered(r), base64) == Setback(optional)
  {
    if r.valid && |r.parts| == |expected.parts| {
      AllMismatchesEmpty(r.parts, expected.parts, base64);
    }
  }

  /** For an invalid expectation: a valid answer is a skip, whatever the tags, and
      an invalid one a pass, whatever its error type. */
  lemma {:induction false} InvalidExpectationVerdict(optional: bool, expected: GoExpected, r: Response, base64: string -> string)
    requires !expected.valid
    ensures RunCase(optional, expected, Answered(r), base64) == (if r.valid then Skip else Pass)
  {
  }

  /** Being optional only turns failures into skips: every verdict but a failure
      is the same, and a failure stays one only when the answer could not be
      decoded. */
  lemma {:induction false} OptionalOnlyDowngrades(expected: GoExpected, exchange: Exchange, base64: string -> string)
    ensures var plain := RunCase(false, expected, exchange, base64);
      var optional := RunCase(true, expected, exchange, base64);
      && (plain != Fail ==> optional == plain)
      && (plain == Fail ==> optional == (if exchange.DecodeFailed? then Fail else Skip))
      && (optional == Pass <==> plain == Pass)
  {
  }
}
