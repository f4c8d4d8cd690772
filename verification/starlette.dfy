/** The Starlette conformance test (examples/starlette/tests/test_conformance.py):
    `compare_part` and the verdict of `test_multipart_parsing` once the server's
    JSON answer is in.  Unlike the Go test, no tag makes a test optional. */
module Starlette {
  import opened Wrappers
  import Utf8
  import opened Parts
  import RunTest
  import opened GoHarness

  /** One part of the server's JSON answer; a key that is absent or `null` reads
      as `None`. */
  datatype StarPart = StarPart(
    name: Option<string>,
    filename: Option<string>,
    contentType: Option<string>,
    bodyText: Option<string>,
    bodyBase64: Option<string>,
    bodySize: Option<int>)

  /** The server's JSON answer: `valid` as read (`None` when absent or not a
      boolean) and `parts` (`None` when absent). */
  datatype StarResult = StarResult(valid: Option<bool>, parts: Option<seq<StarPart>>)

  /** The differences `compare_part` reports, by kind. */
  datatype StarMismatch =
    | NameDiffers
    | FilenameDiffers
    | ContentTypeDiffers
    | BodyTextDiffers
    | BodyBase64Differs
    | BodySizeDiffers

  /** The actual base64 in the base64 path: the server's `body_base64`, replaced
      by the UTF-8 encoding of its `body_text`, in base64, when it sent text. */
  function ActualBase64(actual: StarPart, base64: string -> string): Option<string> {
    if actual.bodyText.Some? then Some(base64(Utf8.Encode(actual.bodyText.value)))
    else actual.bodyBase64
  }

  /** `compare_part`: every check runs and adds its mismatch, in order. */
  function ComparePart(actual: StarPart, expected: ExpectedPart, base64: string -> string): (r: seq<StarMismatch>)
    ensures |r| <= 5
    ensures forall j, k :: 0 <= j < k < |r| ==> r[j] != r[k]
  {
    (if actual.name != expected.name then [NameDiffers] else [])
    + (if actual.filename != expected.filename then [FilenameDiffers] else [])
    + (if expected.contentType.Some? && actual.contentType != expected.contentType then [ContentTypeDiffers] else [])
    + (if expected.bodyText.Some? then
         (if actual.bodyText != expected.bodyText then [BodyTextDiffers] else [])
       else if expected.bodyBase64.Some? then
         (if ActualBase64(actual, base64) != expected.bodyBase64 then [BodyBase64Differs] else [])
       else [])
    + (if expected.bodySize.Some? && actual.bodySize != expected.bodySize.value then [BodySizeDiffers] else [])
  }

  // Reference definition: what the Starlette test accepts of one part.

  /** Name and filename equal, `None` and "" differing; the content type equal
      when one is expected; the expected text, else the expected base64, met;
      the size equal when the key is present (a `null` size meets only a missing
      or `null` one). */
  predicate Agrees(actual: StarPart, expected: ExpectedPart, base64: string -> string) {
    && actual.name == expected.name
    && actual.filename == expected.filename
    && (expected.contentType.Some? ==> actual.contentType == expected.contentType)
    && (if expected.bodyText.Some? then actual.bodyText == expected.bodyText
        else expected.bodyBase64.Some? ==> ActualBase64(actual, base64) == expected.bodyBase64)
    && (expected.bodySize.Some? ==> actual.bodySize == expected.bodySize.value)
  }

  /** No mismatch exactly when the part agrees. */
  lemma {:induction false} ComparePartEmpty(actual: StarPart, expected: ExpectedPart, base64: string -> string)
    ensures ComparePart(actual, expected, base64) == [] <==> Agrees(actual, expected, base64)
    ensures |ComparePart(actual, expected, base64)| <= 5
  {
  }

  /** In the base64 path, text from the server is what is compared, even when it
      also sent base64. */
  lemma {:induction false} TextReplacesBase64(actual: StarPart, expected: ExpectedPart, base64: string -> string)
    requires expected.bodyText.None? && expected.bodyBase64.Some? && actual.bodyText.Some?
    ensures BodyBase64Differs in ComparePart(actual, expected, base64)
        <==> base64(Utf8.Encode(actual.bodyText.value)) != expected.bodyBase64.value
  {
  }

  /** A missing `body_size` key disables the size check; a missing name is "" to
      no one: `None` and `""` differ, for the name and the filename alike. */
  lemma {:induction false} AbsentKeys(actual: StarPart, expected: ExpectedPart, base64: string -> string)
    ensures expected.bodySize.None? ==> BodySizeDiffers !in ComparePart(actual, expected, base64)
    ensures expected.contentType.None? ==> ContentTypeDiffers !in ComparePart(actual, expected, base64)
    ensures actual.filename == Some("") && expected.filename.None? ==> FilenameDiffers in ComparePart(actual, expected, base64)
    ensures actual.name.None? && expected.name == Some("") ==> NameDiffers in ComparePart(actual, expected, base64)
  {
  }

  /** The mismatches of the parts side by side, all parts compared. */
  function AllMismatches(actual: seq<StarPart>, expected: seq<ExpectedPart>, base64: string -> string): seq<StarMismatch>
    requires |actual| == |expected|
    decreases |expected|
  {
    if |expected| == 0 then []
    else ComparePart(actual[0], expected[0], base64) + AllMismatches(actual[1..], expected[1..], base64)
  }

  lemma {:induction false} AllMismatchesEmpty(actual: seq<StarPart>, expected: seq<ExpectedPart>, base64: string -> string)
    requires |actual| == |expected|
    ensures AllMismatches(actual, expected, base64) == []
        <==> forall i :: 0 <= i < |expected| ==> Agrees(actual[i], expected[i], base64)
    decreases |expected|
  {
    if |expected| > 0 {
      ComparePartEmpty(actual[0], expected[0], base64);
      AllMismatchesEmpty(actual[1..], expected[1..], base64);
      assert forall i :: 0 < i < |expected| ==> actual[1..][i - 1] == actual[i] && expected[1..][i - 1] == expected[i];
    }
  }

  /** `test_multipart_parsing` from the answer on: a valid expectation (the
      default) fails unless the answer's `valid` is exactly true, the part counts
      agree and no part has a mismatch; an invalid one is skipped when the answer
      is valid and passes otherwise. */
  function Judge(expected: RunTest.Expectation, result: StarResult, base64: string -> string): (v: Verdict)
    ensures v == Skip ==> !RunTest.ExpectsValid(expected) && result.valid == Some(true)
    ensures v == Pass ==> (result.valid == Some(true) <==> RunTest.ExpectsValid(expected))
  {
    if RunTest.ExpectsValid(expected) then
      var want := expected.parts.GetOr([]);
      var got := result.parts.GetOr([]);
      if result.valid != Some(true) then Fail
      else if |got| != |want| then Fail
      else if AllMismatches(got, want, base64) != [] then Fail
      else Pass
    else if result.valid == Some(true) then Skip
    else Pass
  }

  /** A valid expectation passes exactly when the answer is valid, has as many
      parts and each part agrees, and fails otherwise: it is never skipped. */
  lemma {:induction false} ValidExpectationVerdict(expected: RunTest.Expectation, result: StarResult, base64: string -> string)
    requires RunTest.ExpectsValid(expected)
    ensures var want := expected.parts.GetOr([]);
      var got := result.parts.GetOr([]);
      && (Judge(expected, result, base64) == Pass <==>
            && result.valid == Some(true) && |got| == |want|
            && forall i :: 0 <= i < |want| ==> Agrees(got[i], want[i], base64))
      && Judge(expected, result, base64) != Skip
  {
    var want := expected.parts.GetOr([]);
    var got := result.parts.GetOr([]);
    if |got| == |want| {
      AllMismatchesEmpty(got, want, base64);
    }
  }

  /** An invalid expectation is skipped exactly when the answer says valid, and
      passes otherwise, with no look at the error type. */
  lemma {:induction false} InvalidExpectationVerdict(expected: RunTest.Expectation, result: StarResult, base64: string -> string)
    requires !RunTest.ExpectsValid(expected)
    ensures Judge(expected, result, base64) == (if result.valid == Some(true) then Skip else Pass)
  {
  }
}
