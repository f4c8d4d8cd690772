/** The reference parser, `MultipartParser` of tools/run-reference.py.

    The source walks a position through the body; here each step works on the
    remaining suffix of the body instead (`rest` is `body[pos:]`), which yields the
    same results and keeps every slice relative.  `strict` selects CRLF-only line
    endings; lenient mode also accepts a bare LF. */
module Parser {
  import opened Wrappers
  import opened Text
  import Utf8
  import opened Rfc5987
  import opened Params
  import opened Parts
  import Boundary

  /** `--boundary`, as octets. */
  function Delimiter(boundary: string): (d: string)
    ensures |d| >= 2 && d[..2] == "--"
  {
    "--" + Utf8.Encode(boundary)
  }

  /** `--boundary--`: the delimiter and two more dashes, so a close delimiter is
      also matched where the delimiter is looked for. */
  function CloseDelimiter(boundary: string): (c: string)
    ensures |c| == |Delimiter(boundary)| + 2
    ensures StartsWith(c, Delimiter(boundary))
    ensures c[|c| - 2..] == "--"
  {
    var d := Delimiter(boundary);
    assert (d + "--")[..|d|] == d;
    d + "--"
  }

  /** `_skip_line_ending`: past a CRLF, or a bare LF in lenient mode; a bare LF in
      strict mode or the end of input is an error; anything else is left alone. */
  function SkipLineEnding(rest: string, strict: bool): (r: Option<string>)
    ensures r.Some? ==> EndsWith(rest, r.value)
    ensures r.None? <==> |rest| == 0 || (strict && rest[0] == LF)
    ensures r.Some? && StartsWith(rest, CRLF) ==> r.value == rest[2..]
    ensures r.Some? && |rest| > 0 && rest[0] != LF && !StartsWith(rest, CRLF) ==> r.value == rest
  {
    if |rest| == 0 then None
    else if StartsWith(rest, CRLF) then EndsWithSuffix(rest, 2); Some(rest[2..])
    else if rest[0] == LF && !strict then EndsWithSuffix(rest, 1); Some(rest[1..])
    else if rest[0] == LF && strict then None
    else EndsWithSuffix(rest, 0); Some(rest)
  }

  // ---------------------------------------------------------------------------
  // Header blocks

  /** The end of the first line and the start of the next: the first CRLF unless a
      bare LF comes first, which only lenient mode accepts. */
  function LineEnd(rest: string, strict: bool): (r: Option<(nat, nat)>)
    ensures r.Some? ==> r.value.0 < r.value.1 <= |rest|
    ensures r.Some? ==> LF !in rest[..r.value.0]
  {
    var crlf := Find(rest, CRLF);
    var lf := IndexOf(rest, LF);
    if crlf.Some? && (lf.None? || crlf.value < lf.value) then
      assert rest[crlf.value + 1] == LF;
      Some((crlf.value, crlf.value + 2))
    else if lf.Some? && !strict then Some((lf.value, lf.value + 1))
    else None
  }

  /** One header line applied to the headers read so far: `name: value` sets the
      stripped name to the stripped value; a line led by a space or tab continues
      the last header, joined by one space; any other line is invalid. */
  function HeaderLine(h: Headers, line: string): (r: Option<Headers>)
    ensures ':' in line ==> r.Some?
    ensures ':' !in line && !(|line| > 0 && (line[0] == ' ' || line[0] == '\t') && |h| > 0) ==> r.None?
  {
    match SplitFirst(line, ':')
    case Some((name, value)) => Some(SetHeader(h, Strip(name), Strip(value)))
    case None =>
      if |line| > 0 && (line[0] == ' ' || line[0] == '\t') && |h| > 0 then
        var last := h[|h| - 1];
        Some(SetHeader(h, last.0, last.1 + " " + Strip(line)))
      else None
  }

  /** `_parse_headers`: the headers up to and including the blank line, and the
      text after it; `None` for an invalid line or input that ends first. */
  function ParseHeaders(rest: string, strict: bool, h: Headers): (r: Option<(Headers, string)>)
    ensures r.Some? ==> |r.value.1| < |rest| && EndsWith(rest, r.value.1)
    decreases |rest|, 1
  {
    if |rest| == 0 then None else ParseHeadersFrom(rest, strict, h)
  }

  /** One step of `_parse_headers` on non-empty input: the blank line, or a line
      and the rest of the block. */
  function ParseHeadersFrom(rest: string, strict: bool, h: Headers): (r: Option<(Headers, string)>)
    requires |rest| > 0
    ensures r.Some? ==> |r.value.1| < |rest| && EndsWith(rest, r.value.1)
    decreases |rest|, 0
  {
    if StartsWith(rest, CRLF) then Some((h, rest[2..]))
    else if rest[0] == LF && !strict then Some((h, rest[1..]))
    else
      match LineEnd(rest, strict)
      case None => None
      case Some((e, next)) =>
        match HeaderLine(h, Utf8.DecodeLine(rest[..e]))
        case None => None
        case Some(h') =>
          var r := ParseHeaders(rest[next..], strict, h');
          assert r.Some? ==> EndsWith(rest, r.value.1) by {
            if r.Some? {
              EndsWithDrop(rest, next, r.value.1);
            }
          }
          r
  }

  // ---------------------------------------------------------------------------
  // Part bodies

  /** No delimiter line starts anywhere in `s`: no CRLF + delimiter, and in lenient
      mode no LF + delimiter either. */
  predicate NoDelimiterAt(s: string, delim: string, strict: bool, j: nat) {
    !MatchAt(s, CRLF + delim, j) && (strict || !MatchAt(s, [LF] + delim, j))
  }

  /** `_find_next_boundary`: where the next delimiter line starts, at the first
      CRLF + delimiter, or in lenient mode at an LF + delimiter found earlier. */
  function FindNextBoundary(rest: string, delim: string, strict: bool): (r: Option<nat>)
    ensures r.Some? ==> r.value < |rest|
    ensures r.Some? ==> MatchAt(rest, CRLF + delim, r.value) || (!strict && MatchAt(rest, [LF] + delim, r.value))
    ensures r.Some? ==> forall j :: 0 <= j < r.value ==> NoDelimiterAt(rest, delim, strict, j)
    ensures r.None? ==> forall j: nat :: NoDelimiterAt(rest, delim, strict, j)
  {
    var crlf := Find(rest, CRLF + delim);
    var lf := if strict then None else Find(rest, [LF] + delim);
    if crlf.Some? && (lf.None? || crlf.value <= lf.value) then crlf
    else if lf.Some? then lf
    else None
  }

  /** No delimiter line starts anywhere in `body`. */
  predicate Clear(body: string, delim: string, strict: bool) {
    forall j :: 0 <= j < |body| ==> NoDelimiterAt(body, delim, strict, j)
  }

  /** The text before the first delimiter line holds none. */
  lemma {:induction false} ClearBeforeBoundary(after: string, delim: string, strict: bool)
    requires FindNextBoundary(after, delim, strict).Some?
    ensures Clear(after[..FindNextBoundary(after, delim, strict).value], delim, strict)
  {
    var end := FindNextBoundary(after, delim, strict).value;
    var body := after[..end];
    assert after == body + after[end..];
    forall j | 0 <= j < |body|
      ensures NoDelimiterAt(body, delim, strict, j)
    {
      if MatchAt(body, CRLF + delim, j) {
        MatchAtPrefix(body, after[end..], CRLF + delim, j);
      }
      if !strict && MatchAt(body, [LF] + delim, j) {
        MatchAtPrefix(body, after[end..], [LF] + delim, j);
      }
    }
  }

  /** `value.split(";")[0].strip()`: the media type without its parameters and
      without surrounding white space. */
  function ContentTypeOf(value: string): (r: string)
    ensures ';' !in r
    ensures |r| > 0 ==> !IsSpace(r[0]) && !IsSpace(r[|r| - 1])
    ensures ';' !in value ==> r == Strip(value)
  {
    match SplitFirst(value, ';')
    case Some((before, _)) => Strip(before)
    case None => Strip(value)
  }

  /** The media type is the text before the first `;`, stripped. */
  lemma {:induction false} ContentTypeBeforeSemicolon(a: string, rest: string)
    requires ';' !in a
    ensures ContentTypeOf(a + ";" + rest) == Strip(a)
  {
    SplitFirstAt(a, ';', rest);
  }

  /** `charset=([^\s;]+)` anchored at the start of `s`, the key compared
      case-insensitively. */
  function CharsetAt(s: string): (r: Option<string>)
    ensures r.Some? ==> |r.value| > 0 && forall k :: 0 <= k < |r.value| ==> !IsSpace(r.value[k]) && r.value[k] != ';'
  {
    if Boundary.StartsWithFolded(s, "charset=") && |Boundary.TokenPrefix(s[8..])| > 0 then
      Some(Boundary.TokenPrefix(s[8..]))
    else None
  }

  /** `re.search(r"charset=([^\s;]+)", value, re.IGNORECASE)`: `None` exactly when
      the pattern matches nowhere, otherwise the group of the leftmost match. */
  function SearchCharset(s: string): (r: Option<string>)
    ensures r.Some? ==> |r.value| > 0
    ensures r.None? <==> Boundary.NoMatch(s, CharsetAt)
    ensures r.Some? ==> Boundary.Leftmost(s, r.value, CharsetAt)
    ensures r.Some? ==> forall k :: 0 <= k < |r.value| ==> !IsSpace(r.value[k]) && r.value[k] != ';'
    decreases |s|
  {
    match CharsetAt(s)
    case Some(v) => Boundary.SearchHere(s, CharsetAt); Some(v)
    case None =>
      if |s| == 0 then Boundary.SearchEmpty(s, CharsetAt); None
      else Boundary.SearchShift(s, CharsetAt); SearchCharset(s[1..])
  }

  /** A text of quotes only. */
  predicate AllQuotes(p: string) {
    forall k :: 0 <= k < |p| ==> p[k] == '"'
  }

  /** `s.strip('"')`: no quote is left at either end, and only quotes are removed
      around what is left. */
  function TrimQuotes(s: string): (r: string)
    ensures |r| > 0 ==> r[0] != '"' && r[|r| - 1] != '"'
    ensures forall c :: c in r ==> c in s
    ensures exists p, q :: AllQuotes(p) && AllQuotes(q) && s == p + r + q
    decreases |s|
  {
    if |s| > 0 && s[0] == '"' then
      InSlice(s, 1, |s|);
      var r := TrimQuotes(s[1..]);
      QuoteBefore(s, r);
      r
    else if |s| > 0 && s[|s| - 1] == '"' then
      InSlice(s, 0, |s| - 1);
      var r := TrimQuotes(s[..|s| - 1]);
      QuoteAfter(s, r);
      r
    else
      assert AllQuotes("") && s == "" + s + "";
      s
  }

  /** A leading quote joins the quotes before `r`. */
  lemma QuoteBefore(s: string, r: string)
    requires |s| > 0 && s[0] == '"'
    requires exists p, q :: AllQuotes(p) && AllQuotes(q) && s[1..] == p + r + q
    ensures exists p, q :: AllQuotes(p) && AllQuotes(q) && s == p + r + q
  {
    var p, q :| AllQuotes(p) && AllQuotes(q) && s[1..] == p + r + q;
    assert s == ([s[0]] + p) + r + q;
    assert AllQuotes([s[0]] + p);
  }

  /** A trailing quote joins the quotes after `r`. */
  lemma QuoteAfter(s: string, r: string)
    requires |s| > 0 && s[|s| - 1] == '"'
    requires exists p, q :: AllQuotes(p) && AllQuotes(q) && s[..|s| - 1] == p + r + q
    ensures exists p, q :: AllQuotes(p) && AllQuotes(q) && s == p + r + q
  {
    var p, q :| AllQuotes(p) && AllQuotes(q) && s[..|s| - 1] == p + r + q;
    assert s == p + r + (q + [s[|s| - 1]]);
    assert AllQuotes(q + [s[|s| - 1]]);
  }

  /** The charset of a Content-Type value: found exactly when the pattern matches
      somewhere; it then holds no white space and no ';', and no quote is left
      at its ends. */
  function CharsetOf(value: string): (r: Option<string>)
    ensures r.Some? <==> !Boundary.NoMatch(value, CharsetAt)
    ensures r.Some? ==> forall c :: c in r.value ==> !IsSpace(c) && c != ';'
    ensures r.Some? && |r.value| > 0 ==> r.value[0] != '"' && r.value[|r.value| - 1] != '"'
    ensures r.Some? ==> exists v :: Boundary.Leftmost(value, v, CharsetAt) && r.value == TrimQuotes(v)
  {
    match SearchCharset(value)
    case Some(c) => TokenChars(c); Some(TrimQuotes(c))
    case None => None
  }

  /** Trimming quotes keeps a charset token free of white space and ';'. */
  lemma TokenChars(t: string)
    requires forall k :: 0 <= k < |t| ==> !IsSpace(t[k]) && t[k] != ';'
    ensures forall c :: c in TrimQuotes(t) ==> !IsSpace(c) && c != ';'
  {
  }

  /** The `Part` built from a header block, its disposition and its body. */
  function MakePart(d: Disposition, headers: Headers, body: string): (p: Part)
    requires d.name.Some?
    ensures p.name == d.name.value && p.filename == d.filename && p.filenameStar == d.filenameStar
    ensures p.body == body && p.headers == LowerKeys(headers)
    ensures p.contentType.Some? <==> FirstHeader(headers, "content-type").Some?
    ensures FirstHeader(headers, "content-type").Some? ==>
      p.contentType == Some(ContentTypeOf(FirstHeader(headers, "content-type").value))
      && p.charset == CharsetOf(FirstHeader(headers, "content-type").value)
  {
    var ct := FirstHeader(headers, "content-type");
    Part(d.name.value, d.filename, d.filenameStar,
         if ct.Some? then Some(ContentTypeOf(ct.value)) else None,
         if ct.Some? then CharsetOf(ct.value) else None,
         LowerKeys(headers), body)
  }

  // ---------------------------------------------------------------------------
  // The scanning loop

  /** The outcome of one pass of the loop: a part and the input after its
      delimiter line (`Next`), a part and a loop exit (`Last`), or an error. */
  datatype Step = Next(part: Part, after: string) | Last(part: Part) | Stop(error: ErrorKind)

  /** After a body: past the line ending before the delimiter, then past a close
      delimiter (exit), or a delimiter and its line ending (a delimiter without
      one also exits); anything else is a boundary mismatch. */
  function AfterBody(p: Part, tail: string, delim: string, strict: bool): (s: Step)
    ensures s.Next? ==> |s.after| < |tail| && EndsWith(tail, s.after)
    ensures !s.Stop? ==> s.part == p
    ensures s.Stop? ==> s.error == BoundaryMismatch
  {
    var t := DropLineEnding(tail, strict);
    if StartsWith(t, delim + "--") then Last(p)
    else if StartsWith(t, delim) && |delim| > 0 then
      match SkipLineEnding(t[|delim|..], strict)
      case None => Last(p)
      case Some(after) =>
        EndsWithDrop(t, |delim|, after);
        EndsWithDrop(tail, |tail| - |t|, after);
        Next(p, after)
    else Stop(BoundaryMismatch)
  }

  /** The line ending that closes a body, when there is one. */
  function DropLineEnding(tail: string, strict: bool): (t: string)
    ensures |t| <= |tail| && t == tail[|tail| - |t|..]
  {
    if StartsWith(tail, CRLF) then tail[2..]
    else if |tail| > 0 && tail[0] == LF && !strict then tail[1..]
    else tail
  }

  /** The errors the loop can end with: never an invalid boundary, never a
      missing terminator. */
  predicate LoopError(e: ErrorKind) {
    e in {InvalidHeader, MissingContentDisposition, MissingName, Truncated, BoundaryMismatch}
  }

  /** One pass of the loop on the non-empty remaining input. */
  function ScanStep(rest: string, delim: string, strict: bool, charsets: CharsetTable): (s: Step)
    requires |rest| > 0
    ensures s.Next? ==> |s.after| < |rest|
    ensures s.Stop? ==> LoopError(s.error)
    ensures !s.Stop? ==> Clear(s.part.body, delim, strict)
  {
    match ParseHeaders(rest, strict, [])
    case None => Stop(InvalidHeader)
    case Some((headers, afterHeaders)) => StepAfterHeaders(headers, afterHeaders, delim, strict, charsets)
  }

  /** The pass once the header block has been read. */
  function StepAfterHeaders(headers: Headers, after: string, delim: string, strict: bool, charsets: CharsetTable): (s: Step)
    ensures s.Next? ==> |s.after| < |after|
    ensures s.Stop? ==> LoopError(s.error)
    ensures !s.Stop? ==> Clear(s.part.body, delim, strict)
  {
    match FirstHeader(headers, "content-disposition")
    case None => Stop(MissingContentDisposition)
    case Some(cd) => StepWithDisposition(ParseContentDisposition(cd, charsets), headers, after, delim, strict)
  }

  /** The pass once the disposition has been parsed. */
  function StepWithDisposition(d: Disposition, headers: Headers, after: string, delim: string, strict: bool): (s: Step)
    ensures s.Next? ==> |s.after| < |after|
    ensures s.Stop? ==> LoopError(s.error)
    ensures !s.Stop? ==> Clear(s.part.body, delim, strict)
  {
    if d.name.None? then Stop(MissingName)
    else
      match FindNextBoundary(after, delim, strict)
      case None => Stop(Truncated)
      case Some(end) =>
        ClearBeforeBoundary(after, delim, strict);
        AfterBody(MakePart(d, headers, after[..end]), after[end..], delim, strict)
  }

  /** What the loop produces: the parts, or the error that ended it. */
  datatype Scan = Scanned(parts: seq<Part>) | Failed(error: ErrorKind)

  /** The `while pos < len(body)` loop. */
  function ScanParts(rest: string, delim: string, strict: bool, charsets: CharsetTable): (r: Scan)
    ensures r.Failed? ==> LoopError(r.error)
    ensures r.Scanned? ==> forall i :: 0 <= i < |r.parts| ==> Clear(r.parts[i].body, delim, strict)
    decreases |rest|, 1
  {
    if |rest| == 0 then Scanned([]) else ScanFrom(rest, delim, strict, charsets)
  }

  /** One pass of the loop on non-empty input, then the passes after it. */
  function ScanFrom(rest: string, delim: string, strict: bool, charsets: CharsetTable): (r: Scan)
    requires |rest| > 0
    ensures r.Failed? ==> LoopError(r.error)
    ensures r.Scanned? ==> forall i :: 0 <= i < |r.parts| ==> Clear(r.parts[i].body, delim, strict)
    decreases |rest|, 0
  {
    var st := ScanStep(rest, delim, strict, charsets);
    if st.Stop? then Failed(st.error)
    else if st.Last? then Scanned([st.part])
    else
      Prepend(st.part, ScanParts(st.after, delim, strict, charsets), delim, strict)
  }

  /** A part in front of what the later passes produced; a failure stays one. */
  function Prepend(p: Part, more: Scan, delim: string, strict: bool): (r: Scan)
    requires Clear(p.body, delim, strict)
    requires more.Scanned? ==> forall i :: 0 <= i < |more.parts| ==> Clear(more.parts[i].body, delim, strict)
    ensures r.Scanned? ==> forall i :: 0 <= i < |r.parts| ==> Clear(r.parts[i].body, delim, strict)
  {
    if more.Failed? then more
    else
      AllClearCons(p, more.parts, delim, strict);
      Scanned([p] + more.parts)
  }

  lemma {:induction false} AllClearCons(p: Part, ps: seq<Part>, delim: string, strict: bool)
    requires Clear(p.body, delim, strict)
    requires forall i :: 0 <= i < |ps| ==> Clear(ps[i].body, delim, strict)
    ensures forall i :: 0 <= i < |[p] + ps| ==> Clear(([p] + ps)[i].body, delim, strict)
  {
    var r := [p] + ps;
    forall i | 0 <= i < |r| ensures Clear(r[i].body, delim, strict) {
      if i > 0 {
        assert r[i] == ps[i - 1];
      }
    }
  }

  /** Everything `parse` does before the terminator check: find the first
      delimiter, skip its line ending and run the loop on what follows. */
  function ScanBody(body: string, delim: string, strict: bool, charsets: CharsetTable): (r: Scan)
    ensures r.Failed? ==> LoopError(r.error)
  {
    match Find(body, delim)
    case None => Failed(BoundaryMismatch)
    case Some(i) => ScanAfterDelimiter(body[i + |delim|..], delim, strict, charsets)
  }

  /** The text after the first delimiter: its line ending, then the loop. */
  function ScanAfterDelimiter(after: string, delim: string, strict: bool, charsets: CharsetTable): (r: Scan)
    ensures r.Failed? ==> LoopError(r.error)
  {
    match SkipLineEnding(after, strict)
    case None => Failed(Truncated)
    case Some(rest) => ScanParts(rest, delim, strict, charsets)
  }

  /** `MultipartParser.parse`.  `boundary` is `None` when the Content-Type header
      had none. */
  function Parse(body: string, boundary: Option<string>, strict: bool, charsets: CharsetTable): (r: ParseResult)
    ensures r.valid <==> r.error.None?
    ensures r.error != Some(MissingTerminator) && !r.valid ==> r.parts == []
  {
    if boundary.None? || boundary.value == [] then Fail(InvalidBoundary)
    else
      match ScanBody(body, Delimiter(boundary.value), strict, charsets)
      case Failed(e) => Fail(e)
      case Scanned(parts) =>
        if !Contains(body, CloseDelimiter(boundary.value)) then ParseResult(false, parts, Some(MissingTerminator))
        else ParseResult(true, parts, None)
  }
}
