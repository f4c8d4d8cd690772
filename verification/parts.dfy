/** The parsed-part record, header dictionaries, parse results and the structural
    comparison `compare_parts` of tools/lib/multipart_utils.py. */
module Parts {
  import opened Wrappers
  import opened Text
  import Utf8

  // ---------------------------------------------------------------------------
  // Header dictionaries

  /** A Python `dict[str, str]`: entries in insertion order, keys distinct. */
  type Headers = seq<(string, string)>

  predicate UniqueKeys(h: Headers) {
    forall i, j :: 0 <= i < j < |h| ==> h[i].0 != h[j].0
  }

  /** `h[key]` when present. */
  function Lookup(h: Headers, key: string): (r: Option<string>)
    ensures r.Some? <==> exists i :: 0 <= i < |h| && h[i].0 == key
    ensures r.Some? ==> exists i :: 0 <= i < |h| && h[i] == (key, r.value)
  {
    if |h| == 0 then None
    else if h[0].0 == key then Some(h[0].1)
    else
      var r := Lookup(h[1..], key);
      assert forall i :: 0 < i < |h| ==> h[i] == h[1..][i - 1];
      r
  }

  /** `h[key] = value`: an existing key keeps its place, a new key goes last. */
  function SetHeader(h: Headers, key: string, value: string): (r: Headers)
    ensures Lookup(h, key).Some? ==> |r| == |h| && forall i :: 0 <= i < |h| ==> r[i].0 == h[i].0
    ensures Lookup(h, key).None? ==> r == h + [(key, value)]
  {
    if |h| == 0 then [(key, value)]
    else if h[0].0 == key then [(key, value)] + h[1..]
    else
      var t := SetHeader(h[1..], key, value);
      assert forall i :: 0 < i < |h| ==> h[i] == h[1..][i - 1];
      [h[0]] + t
  }

  /** A dictionary assignment reads back, leaves other keys alone and keeps keys distinct. */
  lemma {:induction false} SetHeaderLookup(h: Headers, key: string, value: string, other: string)
    requires UniqueKeys(h)
    ensures Lookup(SetHeader(h, key, value), key) == Some(value)
    ensures other != key ==> Lookup(SetHeader(h, key, value), other) == Lookup(h, other)
    ensures UniqueKeys(SetHeader(h, key, value))
  {
    SetHeaderFound(h, key, value);
    if other != key {
      SetHeaderOther(h, key, value, other);
    }
    SetHeaderUnique(h, key, value);
  }

  lemma {:induction false} SetHeaderFound(h: Headers, key: string, value: string)
    ensures Lookup(SetHeader(h, key, value), key) == Some(value)
    decreases |h|
  {
    if |h| > 0 && h[0].0 != key {
      SetHeaderFound(h[1..], key, value);
      var r := SetHeader(h, key, value);
      var t := SetHeader(h[1..], key, value);
      assert r == [h[0]] + t;
      assert r[1..] == t;
    }
  }

  lemma {:induction false} SetHeaderOther(h: Headers, key: string, value: string, other: string)
    requires other != key
    ensures Lookup(SetHeader(h, key, value), other) == Lookup(h, other)
    decreases |h|
  {
    if |h| > 0 && h[0].0 != key {
      SetHeaderOther(h[1..], key, value, other);
      var r := SetHeader(h, key, value);
      var t := SetHeader(h[1..], key, value);
      assert r == [h[0]] + t;
      assert r[1..] == t;
    } else if |h| > 0 {
      var r := SetHeader(h, key, value);
      assert r[1..] == h[1..];
    }
  }

  lemma {:induction false} SetHeaderUnique(h: Headers, key: string, value: string)
    requires UniqueKeys(h)
    ensures UniqueKeys(SetHeader(h, key, value))
  {
    var r := SetHeader(h, key, value);
    if Lookup(h, key).None? {
      forall i, j | 0 <= i < j < |r| ensures r[i].0 != r[j].0 {
        assert r[i] == h[i];
        if j < |h| {
          assert r[j] == h[j];
        }
      }
    }
  }

  /** Every key after an assignment was there before, or is the assigned key. */
  lemma {:induction false} SetHeaderKeys(h: Headers, key: string, value: string, i: nat)
    requires i < |SetHeader(h, key, value)|
    ensures SetHeader(h, key, value)[i].0 == key || exists j :: 0 <= j < |h| && h[j].0 == SetHeader(h, key, value)[i].0
    decreases |h|
  {
    if |h| > 0 && h[0].0 != key && i > 0 {
      SetHeaderKeys(h[1..], key, value, i - 1);
      var k := SetHeader(h, key, value)[i].0;
      if k != key {
        var j :| 0 <= j < |h[1..]| && h[1..][j].0 == k;
        assert h[j + 1].0 == k;
      }
    } else if |h| > 0 && h[0].0 == key && i > 0 {
      assert SetHeader(h, key, value)[i] == h[i];
    }
  }

  /** The value of the first entry whose lower-cased key is `key` (the source's
      `for k, v in headers.items(): if k.lower() == key: ...; break`). */
  function FirstHeader(h: Headers, key: string): (r: Option<string>)
    ensures r.Some? ==> exists i :: 0 <= i < |h| && Lower(h[i].0) == key && h[i].1 == r.value
    ensures r.None? <==> forall i :: 0 <= i < |h| ==> Lower(h[i].0) != key
  {
    if |h| == 0 then None
    else if Lower(h[0].0) == key then Some(h[0].1)
    else
      var r := FirstHeader(h[1..], key);
      assert forall i :: 0 < i < |h| ==> h[i] == h[1..][i - 1];
      r
  }

  /** `{k.lower(): v for k, v in headers.items()}`: the last entry's value is
      stored under its folded key. */
  function LowerKeys(h: Headers): (r: Headers)
    ensures |h| > 0 ==> Lookup(r, Lower(h[|h| - 1].0)) == Some(h[|h| - 1].1)
    decreases |h|
  {
    if |h| == 0 then []
    else
      var last := h[|h| - 1];
      SetHeaderFound(LowerKeys(h[..|h| - 1]), Lower(last.0), last.1);
      SetHeader(LowerKeys(h[..|h| - 1]), Lower(last.0), last.1)
  }

  /** Lower-casing keys that are already lower case changes nothing. */
  lemma {:induction false} LowerKeysOfLower(h: Headers)
    requires UniqueKeys(h)
    requires forall i :: 0 <= i < |h| ==> Lower(h[i].0) == h[i].0
    ensures LowerKeys(h) == h
    decreases |h|
  {
    if |h| > 0 {
      var init := h[..|h| - 1];
      var last := h[|h| - 1];
      assert h == init + [last];
      assert forall i :: 0 <= i < |init| ==> init[i] == h[i];
      LowerKeysOfLower(init);
      assert LowerKeys(h) == SetHeader(init, last.0, last.1);
      assert forall i :: 0 <= i < |init| ==> init[i].0 != last.0;
      assert Lookup(init, last.0).None?;
    }
  }

  /** What the lower-cased dictionary holds: keys stay distinct; a key is there
      exactly when some original key lowers to it, and its value is that of the
      last such entry, as a later assignment to the same key overwrites. */
  lemma {:induction false} LowerKeysLookup(h: Headers, key: string)
    ensures UniqueKeys(LowerKeys(h))
    ensures Lookup(LowerKeys(h), key).None? <==> forall i :: 0 <= i < |h| ==> Lower(h[i].0) != key
    ensures forall i :: 0 <= i < |h| && Lower(h[i].0) == key && (forall j :: i < j < |h| ==> Lower(h[j].0) != key)
              ==> Lookup(LowerKeys(h), key) == Some(h[i].1)
    decreases |h|
  {
    if |h| > 0 {
      var init := h[..|h| - 1];
      var last := h[|h| - 1];
      LowerKeysLookup(init, key);
      LowerKeysSnoc(h, key);
      if Lower(last.0) == key {
        LastEntryWins(h, key);
      } else {
        EarlierEntry(h, key, Lookup(LowerKeys(init), key));
      }
    }
  }

  /** One more entry is one more assignment. */
  lemma {:induction false} LowerKeysSnoc(h: Headers, key: string)
    requires |h| > 0
    requires UniqueKeys(LowerKeys(h[..|h| - 1]))
    ensures UniqueKeys(LowerKeys(h))
    ensures Lower(h[|h| - 1].0) == key ==> Lookup(LowerKeys(h), key) == Some(h[|h| - 1].1)
    ensures Lower(h[|h| - 1].0) != key ==> Lookup(LowerKeys(h), key) == Lookup(LowerKeys(h[..|h| - 1]), key)
  {
    var li := LowerKeys(h[..|h| - 1]);
    var last := h[|h| - 1];
    SetHeaderLookup(li, Lower(last.0), last.1, key);
  }

  /** When the last entry lowers to the key, its value is the one read. */
  lemma {:induction false} LastEntryWins(h: Headers, key: string)
    requires |h| > 0 && Lower(h[|h| - 1].0) == key
    ensures forall i :: 0 <= i < |h| && Lower(h[i].0) == key && (forall j :: i < j < |h| ==> Lower(h[j].0) != key)
              ==> i == |h| - 1
  {
  }

  /** When it does not, the entries before it decide. */
  lemma {:induction false} EarlierEntry(h: Headers, key: string, v: Option<string>)
    requires |h| > 0 && Lower(h[|h| - 1].0) != key
    requires var init := h[..|h| - 1];
      && (v.None? <==> forall i :: 0 <= i < |init| ==> Lower(init[i].0) != key)
      && (forall i :: 0 <= i < |init| && Lower(init[i].0) == key && (forall j :: i < j < |init| ==> Lower(init[j].0) != key)
            ==> v == Some(init[i].1))
    ensures v.None? <==> forall i :: 0 <= i < |h| ==> Lower(h[i].0) != key
    ensures forall i :: 0 <= i < |h| && Lower(h[i].0) == key && (forall j :: i < j < |h| ==> Lower(h[j].0) != key)
              ==> v == Some(h[i].1)
  {
    var init := h[..|h| - 1];
    assert forall i :: 0 <= i < |init| ==> init[i] == h[i];
  }

  // ---------------------------------------------------------------------------
  // Parts and parse results

  /** A parsed part (`Part` of the source); `body` is an octet string. */
  datatype Part = Part(
    name: string,
    filename: Option<string>,
    filenameStar: Option<string>,
    contentType: Option<string>,
    charset: Option<string>,
    headers: Headers,
    body: string)
  {
    /** `body_text`: the body decoded as UTF-8, `None` when it is not valid UTF-8. */
    function BodyText(): Option<string> {
      Utf8.Decode(body)
    }

    /** `body_size`: the number of octets of the body. */
    function BodySize(): (n: nat)
      ensures n == |body|
    {
      |body|
    }
  }

  /** The closed set of error tags the reference parser reports. */
  datatype ErrorKind =
    | InvalidBoundary
    | BoundaryMismatch
    | Truncated
    | InvalidHeader
    | MissingContentDisposition
    | MissingName
    | MissingTerminator
  {
    /** The `error_type` string of the tag. */
    function Tag(): string {
      match this
      case InvalidBoundary => "invalid_boundary"
      case BoundaryMismatch => "boundary_mismatch"
      case Truncated => "truncated"
      case InvalidHeader => "invalid_header"
      case MissingContentDisposition => "missing_content_disposition"
      case MissingName => "missing_name"
      case MissingTerminator => "missing_terminator"
    }
  }

  /** Distinct tags are distinct strings. */
  lemma {:induction false} TagsDistinct(a: ErrorKind, b: ErrorKind)
    ensures a.Tag() == b.Tag() <==> a == b
  {
    if a != b {
      assert a.Tag()[..3] != b.Tag()[..3] || a.Tag()[|a.Tag()| - 3..] != b.Tag()[|b.Tag()| - 3..] || |a.Tag()| != |b.Tag()|;
    }
  }

  /** `ParseResult`: `error` is the error tag (`None` when valid). */
  datatype ParseResult = ParseResult(valid: bool, parts: seq<Part>, error: Option<ErrorKind>)

  function Fail(e: ErrorKind): ParseResult {
    ParseResult(false, [], Some(e))
  }

  // ---------------------------------------------------------------------------
  // compare_parts

  /** One expected part of a test's JSON.  A key that is absent or `null` reads
      as `None`, except `body_size`, whose presence alone triggers the check:
      `None` is an absent key, `Some(None)` a `null`. */
  datatype ExpectedPart = ExpectedPart(
    name: Option<string>,
    filename: Option<string>,
    contentType: Option<string>,
    bodyText: Option<string>,
    bodyBase64: Option<string>,
    bodySha256: Option<string>,
    bodySize: Option<Option<int>>)

  /** The base64 (section 4 of RFC 4648) and SHA-256 hex digest of an octet string;
      neither is modelled beyond being a function. */
  datatype BodyCodec = BodyCodec(base64: string -> string, sha256Hex: string -> string)

  /** The kinds of difference `compare_parts` reports, by part index. */
  datatype Difference =
    | CountMismatch(expected: nat, actual: nat)
    | NameMismatch(index: nat)
    | FilenameMismatch(index: nat)
    | ContentTypeMismatch(index: nat)
    | BodyTextMismatch(index: nat)
    | BodyBase64Mismatch(index: nat)
    | BodySha256Mismatch(index: nat)
    | BodySizeMismatch(index: nat)

  /** The differences of one part pair, in the source's order: at most one per
      check, each naming the part's index. */
  function ComparePart(i: nat, e: ExpectedPart, a: Part, codec: BodyCodec): (r: seq<Difference>)
    ensures |r| <= 5
    ensures forall k :: 0 <= k < |r| ==> !r[k].CountMismatch? && r[k].index == i
  {
    (if e.name != Some(a.name) then [NameMismatch(i)] else [])
    + (if e.filename != a.filename then [FilenameMismatch(i)] else [])
    + (if e.contentType != a.contentType then [ContentTypeMismatch(i)] else [])
    + (if e.bodyText.Some? then (if e.bodyText != a.BodyText() then [BodyTextMismatch(i)] else [])
       else if e.bodyBase64.Some? then (if e.bodyBase64.value != codec.base64(a.body) then [BodyBase64Mismatch(i)] else [])
       else if e.bodySha256.Some? then (if e.bodySha256.value != codec.sha256Hex(a.body) then [BodySha256Mismatch(i)] else [])
       else [])
    + (if e.bodySize.Some? && e.bodySize.value != Some(a.BodySize()) then [BodySizeMismatch(i)] else [])
  }

  function ComparePairs(i: nat, expected: seq<ExpectedPart>, actual: seq<Part>, codec: BodyCodec): seq<Difference>
    requires |expected| == |actual|
    decreases |expected|
  {
    if |expected| == 0 then []
    else ComparePart(i, expected[0], actual[0], codec) + ComparePairs(i + 1, expected[1..], actual[1..], codec)
  }

  /** `compare_parts`. */
  function CompareParts(expected: seq<ExpectedPart>, actual: seq<Part>, codec: BodyCodec): (r: seq<Difference>)
    ensures |expected| != |actual| ==> r == [CountMismatch(|expected|, |actual|)]
  {
    if |expected| != |actual| then [CountMismatch(|expected|, |actual|)]
    else ComparePairs(0, expected, actual, codec)
  }

  // Reference definition: what it means for a part to match its expectation.

  /** The body check: the first of body_text, body_base64, body_sha256 given. */
  predicate BodyMatches(e: ExpectedPart, a: Part, codec: BodyCodec) {
    if e.bodyText.Some? then e.bodyText == a.BodyText()
    else if e.bodyBase64.Some? then e.bodyBase64.value == codec.base64(a.body)
    else if e.bodySha256.Some? then e.bodySha256.value == codec.sha256Hex(a.body)
    else true
  }

  /** Every check of one part passes: name, filename and content type compared
      exactly (an unspecified expectation is `None` and must meet `None`), the
      body, and the size when the key is present. */
  predicate PartMatches(e: ExpectedPart, a: Part, codec: BodyCodec) {
    && e.name == Some(a.name)
    && e.filename == a.filename
    && e.contentType == a.contentType
    && BodyMatches(e, a, codec)
    && (e.bodySize.Some? ==> e.bodySize.value == Some(|a.body|))
  }

  lemma {:induction false} ComparePartEmpty(i: nat, e: ExpectedPart, a: Part, codec: BodyCodec)
    ensures ComparePart(i, e, a, codec) == [] <==> PartMatches(e, a, codec)
    ensures forall d :: d in ComparePart(i, e, a, codec) ==> !d.CountMismatch? && d.index == i
  {
  }

  lemma {:induction false} ComparePairsEmpty(i: nat, expected: seq<ExpectedPart>, actual: seq<Part>, codec: BodyCodec)
    requires |expected| == |actual|
    ensures ComparePairs(i, expected, actual, codec) == []
        <==> forall k :: 0 <= k < |expected| ==> PartMatches(expected[k], actual[k], codec)
    decreases |expected|
  {
    if |expected| > 0 {
      ComparePartEmpty(i, expected[0], actual[0], codec);
      ComparePairsEmpty(i + 1, expected[1..], actual[1..], codec);
      assert forall k :: 0 < k < |expected| ==> expected[k] == expected[1..][k - 1] && actual[k] == actual[1..][k - 1];
    }
  }

  lemma {:induction false} ComparePairsIndices(i: nat, expected: seq<ExpectedPart>, actual: seq<Part>, codec: BodyCodec)
    requires |expected| == |actual|
    ensures forall d :: d in ComparePairs(i, expected, actual, codec) ==> !d.CountMismatch? && i <= d.index < i + |expected|
    decreases |expected|
  {
    if |expected| > 0 {
      ComparePartEmpty(i, expected[0], actual[0], codec);
      ComparePairsIndices(i + 1, expected[1..], actual[1..], codec);
    }
  }

  /** `compare_parts` reports nothing exactly when the counts agree and every part
      matches; every difference of equal-length lists names a part that exists. */
  lemma {:induction false} ComparePartsEmpty(expected: seq<ExpectedPart>, actual: seq<Part>, codec: BodyCodec)
    ensures CompareParts(expected, actual, codec) == []
        <==> |expected| == |actual| && forall k :: 0 <= k < |expected| ==> PartMatches(expected[k], actual[k], codec)
    ensures |expected| == |actual| ==>
        forall d :: d in CompareParts(expected, actual, codec) ==> !d.CountMismatch? && d.index < |actual|
  {
    if |expected| == |actual| {
      ComparePairsEmpty(0, expected, actual, codec);
      ComparePairsIndices(0, expected, actual, codec);
    }
  }

  /** The expected content type is compared even when it is unspecified: an
      expectation without one fails against a part that has one. */
  lemma {:induction false} ContentTypeComparedWhenUnspecified(e: ExpectedPart, a: Part, codec: BodyCodec)
    requires e.contentType.None? && a.contentType.Some?
    ensures ContentTypeMismatch(0) in CompareParts([e], [a], codec)
  {
    assert [e][1..] == [] && [a][1..] == [];
    assert ComparePairs(0, [e], [a], codec) == ComparePart(0, e, a, codec) + [];
  }
}
