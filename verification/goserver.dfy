/** The pure parts of the Go example server (examples/go-stdlib/main.go): the
    Content-Type checks before reading, the projection of each part read by Go's
    `mime/multipart` reader into the response, `hasFilenameParam`,
    `classifyError` and the shape of error responses.  The reader itself is not
    modelled: what it yields for a body and a boundary is an input, a sequence of
    events that ends where the reader reports end of input. */
module GoServer {
  import opened Wrappers
  import opened Text
  import Utf8
  import Parts
  import Boundary

  /** The response's `Part`: `body_text` or `body_base64`, and the body's size. */
  datatype GoPart = GoPart(
    name: string,
    filename: Option<string>,
    contentType: Option<string>,
    bodyText: Option<string>,
    bodyBase64: Option<string>,
    bodySize: int)

  /** `ParseResponse`, without the error message (only error tags are modelled). */
  datatype Response = Response(valid: bool, parts: seq<GoPart>, errorType: Option<string>)

  /** `writeError`: invalid, with the error type and no parts. */
  function ErrorResponse(errorType: string): (r: Response)
    ensures !r.valid && r.parts == [] && r.errorType == Some(errorType)
  {
    Response(false, [], Some(errorType))
  }

  // ---------------------------------------------------------------------------
  // hasFilenameParam and classifyError

  /** `hasFilenameParam`: the lower-cased header contains `filename=` or
      `filename*=`. */
  function HasFilenameParam(cd: string): (r: bool)
    ensures r <==> exists i: nat :: MatchAt(Lower(cd), "filename=", i) || MatchAt(Lower(cd), "filename*=", i)
  {
    var lower := Lower(cd);
    ContainsIff(lower, "filename=");
    ContainsIff(lower, "filename*=");
    Contains(lower, "filename=") || Contains(lower, "filename*=")
  }

  /** The test ignores case. */
  lemma {:induction false} HasFilenameParamFolded(cd: string)
    ensures HasFilenameParam(Lower(cd)) == HasFilenameParam(cd)
  {
    LowerIdempotent(cd);
  }

  /** Any header with a `filename=` or `filename*=` in it, in any case, has a
      filename parameter, wherever it stands; an empty value counts. */
  lemma {:induction false} FilenameKeyFound(before: string, key: string, after: string)
    requires key == "filename=" || key == "filename*="
    ensures HasFilenameParam(before + key + after)
  {
    KeyIsLower(key);
    LowerAppend(before + key, after);
    LowerAppend(before, key);
    var lower := Lower(before) + key + Lower(after);
    assert Lower(before + key + after) == lower;
    assert lower[|Lower(before)|..|Lower(before)| + |key|] == key;
    assert MatchAt(lower, key, |Lower(before)|);
    ContainsIff(lower, key);
  }

  lemma {:induction false} KeyIsLower(key: string)
    requires key == "filename=" || key == "filename*="
    ensures Lower(key) == key
  {
    assert forall i | 0 <= i < |key| :: !('A' <= key[i] <= 'Z');
    Boundary.LowerOfLower(key);
  }

  /** A header with neither key, in any case, has no filename parameter. */
  lemma {:induction false} NoFilenameKey(cd: string)
    requires forall i: nat :: !MatchAt(Lower(cd), "filename=", i) && !MatchAt(Lower(cd), "filename*=", i)
    ensures !HasFilenameParam(cd)
  {
    ContainsIff(Lower(cd), "filename=");
    ContainsIff(Lower(cd), "filename*=");
  }

  /** `classifyError`: the lower-cased message is tested for `boundary`, then
      `content-disposition`, then `header`. */
  function ClassifyError(message: string): (r: string)
    ensures r in {"boundary_mismatch", "missing_content_disposition", "invalid_header", "parse_error"}
    ensures r == "parse_error"
        <==> (!Contains(Lower(message), "boundary") && !Contains(Lower(message), "content-disposition")
              && !Contains(Lower(message), "header"))
  {
    var m := Lower(message);
    if Contains(m, "boundary") then "boundary_mismatch"
    else if Contains(m, "content-disposition") then "missing_content_disposition"
    else if Contains(m, "header") then "invalid_header"
    else "parse_error"
  }

  /** The four outcomes of `classifyError`, each exactly when its test is the first
      to succeed. */
  lemma {:induction false} ClassifyErrorOrder(message: string)
    ensures var m := Lower(message);
      var c := ClassifyError(message);
      && (c == "boundary_mismatch" <==> Contains(m, "boundary"))
      && (c == "missing_content_disposition" <==> !Contains(m, "boundary") && Contains(m, "content-disposition"))
      && (c == "invalid_header" <==> !Contains(m, "boundary") && !Contains(m, "content-disposition") && Contains(m, "header"))
      && (c == "parse_error" <==> !Contains(m, "boundary") && !Contains(m, "content-disposition") && !Contains(m, "header"))
  {
    TagsDiffer();
  }

  lemma {:induction false} TagsDiffer()
    ensures var tags := ["boundary_mismatch", "missing_content_disposition", "invalid_header", "parse_error"];
      forall i, j :: 0 <= i < j < |tags| ==> tags[i] != tags[j]
  {
    assert |"boundary_mismatch"| == 17 && |"missing_content_disposition"| == 27;
    assert |"invalid_header"| == 14 && |"parse_error"| == 11;
  }

  /** A message naming both the disposition and a header, and no boundary, is a
      missing disposition, not an invalid header. */
  lemma {:induction false} DispositionBeforeHeader(message: string)
    requires !Contains(Lower(message), "boundary")
    requires Contains(Lower(message), "content-disposition") && Contains(Lower(message), "header")
    ensures ClassifyError(message) == "missing_content_disposition"
  {
    ClassifyErrorOrder(message);
  }

  // ---------------------------------------------------------------------------
  // Before reading: the Content-Type header

  /** What `mime.ParseMediaType` returns when it succeeds. */
  datatype MediaType = MediaType(mediaType: string, params: map<string, string>)

  /** Rejected with a response, or read with a boundary. */
  datatype Start = Reject(response: Response) | Read(boundary: string)

  /** The checks of lines 44-59: an unparsable Content-Type and a media type not
      under `multipart/` are parse errors; a missing boundary parameter is a
      boundary mismatch.  `parsed` is `None` when `ParseMediaType` failed. */
  function StartFor(parsed: Option<MediaType>): (s: Start)
    ensures s.Reject? ==> !s.response.valid && s.response.parts == [] && s.response.errorType.Some?
  {
    if parsed.None? then Reject(ErrorResponse("parse_error"))
    else if !StartsWith(parsed.value.mediaType, "multipart/") then Reject(ErrorResponse("parse_error"))
    else if "boundary" !in parsed.value.params then Reject(ErrorResponse("boundary_mismatch"))
    else Read(parsed.value.params["boundary"])
  }

  /** Reading starts exactly for a parsed `multipart/…` type with a boundary
      parameter, and reads with that boundary; an empty boundary is not refused
      here. */
  lemma {:induction false} StartIff(parsed: Option<MediaType>)
    ensures StartFor(parsed).Read? <==>
      parsed.Some? && StartsWith(parsed.value.mediaType, "multipart/") && "boundary" in parsed.value.params
    ensures StartFor(parsed).Read? ==> StartFor(parsed).boundary == parsed.value.params["boundary"]
    ensures parsed.Some? && StartsWith(parsed.value.mediaType, "multipart/") && "boundary" !in parsed.value.params
      ==> StartFor(parsed).response.errorType == Some("boundary_mismatch")
  {
  }

  // ---------------------------------------------------------------------------
  // Reading parts

  /** One part as the reader yields it: `FormName()`, `FileName()`, the raw
      Content-Disposition and Content-Type header values ("" when absent) and the
      body's octets. */
  datatype RawPart = RawPart(formName: string, fileName: string, disposition: string, contentType: string, body: string)

  /** What one round of the loop meets: a part read in full, a `NextPart` error
      (with its message) or a failure to read a part's body. */
  datatype ReaderEvent = PartRead(part: RawPart) | NextPartError(message: string) | BodyReadError

  /** Lines 85-125: the projection of one part.  `base64` is the standard base64
      encoding (section 4 of RFC 4648), not modelled. */
  function Project(p: RawPart, base64: string -> string): (g: GoPart)
    ensures g.name == p.formName && g.bodySize == |p.body|
    ensures g.bodyText.Some? != g.bodyBase64.Some?
  {
    var text := Utf8.Decode(p.body);
    GoPart(
      p.formName,
      if HasFilenameParam(p.disposition) then Some(p.fileName) else None,
      if p.contentType != "" then Some(p.contentType) else None,
      text,
      if text.None? then Some(base64(p.body)) else None,
      |p.body|)
  }

  /** The filename is reported, possibly empty, exactly when the disposition has a
      filename parameter; the content type exactly when the header is non-empty;
      the body as text exactly when it is valid UTF-8, as the reference parser's
      `body_text` reads it, and in base64 otherwise. */
  lemma {:induction false} ProjectFields(p: RawPart, base64: string -> string, filenameStar: Option<string>,
                                         charset: Option<string>, headers: Parts.Headers)
    ensures var g := Project(p, base64);
      && (g.filename.Some? <==> HasFilenameParam(p.disposition))
      && (g.filename.Some? ==> g.filename.value == p.fileName)
      && (g.contentType.None? <==> p.contentType == "")
      && (g.contentType.Some? ==> g.contentType.value == p.contentType)
      && g.bodyText == Parts.Part(p.formName, g.filename, filenameStar, g.contentType, charset, headers, p.body).BodyText()
      && (g.bodyBase64.Some? <==> Utf8.Decode(p.body).None?)
      && (g.bodyBase64.Some? ==> g.bodyBase64.value == base64(p.body))
  {
  }

  /** The loop of lines 65-126 from the current event on, `done` being the parts
      projected so far: end of input gives a valid response with the parts; a
      `NextPart` error is classified; a body read failure is a parse error. */
  function ReadParts(events: seq<ReaderEvent>, done: seq<GoPart>, base64: string -> string): (r: Response)
    ensures r.valid ==> r.errorType.None? && |r.parts| == |done| + |events|
    ensures !r.valid ==> r.errorType.Some? && r.parts == []
    decreases |events|
  {
    if |events| == 0 then Response(true, done, None)
    else match events[0]
      case NextPartError(message) => ErrorResponse(ClassifyError(message))
      case BodyReadError => ErrorResponse("parse_error")
      case PartRead(p) => ReadParts(events[1..], done + [Project(p, base64)], base64)
  }

  /** `parseMultipart` on a parsed Content-Type and the reader's events. */
  function Serve(parsed: Option<MediaType>, events: seq<ReaderEvent>, base64: string -> string): (r: Response)
    ensures !r.valid ==> r.errorType.Some? && r.parts == []
    ensures r.valid ==> r.errorType.None?
  {
    match StartFor(parsed)
    case Reject(response) => response
    case Read(_) => ReadParts(events, [], base64)
  }

  // Reference definition: every part read, projected in order.

  predicate AllRead(events: seq<ReaderEvent>) {
    forall i :: 0 <= i < |events| ==> events[i].PartRead?
  }

  /** The loop succeeds exactly when every event is a part, and then returns the
      parts projected in wire order. */
  lemma {:induction false} ReadPartsResult(events: seq<ReaderEvent>, done: seq<GoPart>, base64: string -> string)
    ensures ReadParts(events, done, base64).valid <==> AllRead(events)
    ensures AllRead(events) ==>
      var r := ReadParts(events, done, base64);
      && r.parts[..|done|] == done
      && forall i :: 0 <= i < |events| ==> r.parts[|done| + i] == Project(events[i].part, base64)
    decreases |events|
  {
    if |events| > 0 {
      var rest := events[1..];
      assert forall i :: 0 <= i < |rest| ==> rest[i] == events[i + 1];
      match events[0]
      case NextPartError(_) =>
      case BodyReadError =>
      case PartRead(p) =>
        var done' := done + [Project(p, base64)];
        ReadPartsResult(rest, done', base64);
        if AllRead(events) {
          var r := ReadParts(events, done, base64);
          assert r == ReadParts(rest, done', base64);
          assert r.parts[..|done'|] == done';
          assert r.parts[..|done|] == done'[..|done|];
          forall i | 0 <= i < |events|
            ensures r.parts[|done| + i] == Project(events[i].part, base64)
          {
            if i == 0 {
              assert r.parts[|done|] == done'[|done|];
            } else {
              assert r.parts[|done| + i] == r.parts[|done'| + (i - 1)];
            }
          }
        }
    }
  }

  /** The server answers valid exactly when the Content-Type passes and every
      round reads a part; the parts are then the reader's, projected in order. */
  lemma {:induction false} ServeResult(parsed: Option<MediaType>, events: seq<ReaderEvent>, base64: string -> string)
    ensures Serve(parsed, events, base64).valid <==> StartFor(parsed).Read? && AllRead(events)
    ensures Serve(parsed, events, base64).valid ==>
      var r := Serve(parsed, events, base64);
      |r.parts| == |events| && forall i :: 0 <= i < |events| ==> r.parts[i] == Project(events[i].part, base64)
  {
    if StartFor(parsed).Read? {
      ReadPartsResult(events, [], base64);
    }
  }
}
