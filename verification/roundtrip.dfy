/** The round trip between the generator and the reference parser: a message
    built from named fields with `MultipartBuilder` (CRLF line endings, close
    delimiter written) parses in strict mode into exactly those fields. */
module RoundTrip {
  import opened Wrappers
  import opened Text
  import Utf8
  import opened Params
  import opened Parts
  import opened Parser
  import ParserFacts
  import opened Builder

  /** A field as the generator is given it: `add_field` when there is no filename,
      `add_file` otherwise, with no extra header and no `filename*`. */
  datatype Field = Field(name: string, filename: Option<string>, contentType: Option<string>, content: string)

  /** The content type is written only when it is present and non-empty. */
  predicate TypeShown(f: Field) {
    f.contentType.Some? && f.contentType.value != ""
  }

  /** The part the generator emits for a field. */
  function Wire(f: Field): string {
    BuildHeaders(CRLF, f.name, f.filename, f.contentType, [], None) + f.content
  }

  /** The Content-Disposition value of a field's header block. */
  function DispositionValue(f: Field): string {
    "form-data; name=\"" + f.name + "\""
    + (if f.filename.Some? then "; filename=\"" + EscapeQuoted(f.filename.value) + "\"" else "")
  }

  /** The headers the parser collects from a field's header block. */
  function FieldHeaders(f: Field): Headers {
    if TypeShown(f) then [("Content-Disposition", DispositionValue(f)), ("Content-Type", f.contentType.value)]
    else [("Content-Disposition", DispositionValue(f))]
  }

  /** What the header block of a field needs to read back as written: a name that
      needs no escaping, and no line break in any header value; a content type
      has no parameters and no white space around it. */
  predicate HeadersFit(f: Field) {
    && Avoids(f.name, {CR, LF, '"', '\\'})
    && (f.filename.Some? ==> SingleLine(f.filename.value))
    && (TypeShown(f) ==>
          var ct := f.contentType.value;
          Avoids(ct, {CR, LF, ';'}) && !IsSpace(ct[0]) && !IsSpace(ct[|ct| - 1]))
  }

  /** No CR and no LF. */
  predicate SingleLine(s: string) {
    Avoids(s, {CR, LF})
  }

  lemma {:induction false} SingleLineIff(s: string)
    ensures SingleLine(s) <==> CR !in s && LF !in s
    decreases |s|
  {
    if |s| > 0 {
      SingleLineIff(s[1..]);
      assert s == [s[0]] + s[1..];
    }
  }

  // ---------------------------------------------------------------------------
  // Header lines

  /** An encoded line with no line break, then CRLF: the line ends at the CRLF. */
  lemma {:induction false} LineEndAtCrlf(e: string, tail: string)
    requires CR !in e && LF !in e
    ensures LineEnd(e + CRLF + tail, true) == Some((|e|, |e| + 2))
  {
    var s := e + CRLF + tail;
    assert s[|e|..|e| + 2] == CRLF;
    assert MatchAt(s, CRLF, |e|);
    forall j | 0 <= j < |e| ensures !MatchAt(s, CRLF, j) {
      assert s[j] == e[j];
    }
    assert Find(s, CRLF) == Some(|e|);
    assert s[|e| + 1] == LF;
    assert forall k :: 0 <= k <= |e| ==> s[k] != LF by {
      forall k | 0 <= k <= |e| ensures s[k] != LF {
        if k < |e| {
          assert s[k] == e[k];
        }
      }
    }
  }

  /** A header line with no line break and a colon, written as UTF-8 and ended by
      CRLF, is read as that line. */
  lemma {:induction false} HeaderLineStep(line: string, tail: string, h: Headers)
    requires SingleLine(line) && ':' in line
    ensures HeaderLine(h, line).Some?
    ensures ParseHeaders(Utf8.Encode(line) + CRLF + tail, true, h) == ParseHeaders(tail, true, HeaderLine(h, line).value)
  {
    SingleLineIff(line);
    var e := Utf8.Encode(line);
    Utf8.EncodeKeepsAscii(line, CR);
    Utf8.EncodeKeepsAscii(line, LF);
    var s := e + CRLF + tail;
    LineEndAtCrlf(e, tail);
    assert |e| > 0 && s[0] == e[0];
    assert !StartsWith(s, CRLF) by {
      assert s[..2][0] == e[0];
    }
    assert s[..|e|] == e;
    Utf8.DecodeLineEncode(line);
    assert s[|e| + 2..] == tail;
    assert ParseHeaders(s, true, h) == ParseHeadersFrom(s, true, h);
  }

  /** The empty line ends the header block. */
  lemma {:induction false} BlankLineEnds(tail: string, h: Headers)
    ensures ParseHeaders(CRLF + tail, true, h) == Some((h, tail))
  {
    assert (CRLF + tail)[..2] == CRLF;
    assert (CRLF + tail)[2..] == tail;
    assert ParseHeaders(CRLF + tail, true, h) == ParseHeadersFrom(CRLF + tail, true, h);
  }

  /** `Key: value` with a key free of colons and both sides free of outer white
      space is read as the pair. */
  lemma {:induction false} NamedLine(h: Headers, key: string, value: string)
    requires ':' !in key && |key| > 0 && !IsSpace(key[0]) && !IsSpace(key[|key| - 1])
    requires |value| > 0 && !IsSpace(value[0]) && !IsSpace(value[|value| - 1])
    ensures HeaderLine(h, key + ": " + value) == Some(SetHeader(h, key, value))
  {
    NamedLineSplit(key, value);
    StripBare(key);
    StripLeadingSpace(value);
  }

  lemma {:induction false} NamedLineSplit(key: string, value: string)
    requires ':' !in key
    ensures SplitFirst(key + ": " + value, ':') == Some((key, " " + value))
  {
    assert key + ": " + value == key + [':'] + (" " + value);
    SplitFirstAt(key, ':', " " + value);
  }

  lemma {:induction false} DispositionLineSplit(f: Field)
    ensures DispositionLine(f.name, f.filename, None) == "Content-Disposition" + ": " + DispositionValue(f)
  {
  }

  /** The disposition line has a colon and no line break. */
  lemma {:induction false} DispositionLineFits(f: Field)
    requires HeadersFit(f)
    ensures var dl := DispositionLine(f.name, f.filename, None);
      SingleLine(dl) && ':' in dl
  {
    var dl := DispositionLine(f.name, f.filename, None);
    DispositionLineColon(f);
    var opt := if f.filename.Some? then "; filename=\"" + EscapeQuoted(f.filename.value) + "\"" else "";
    if f.filename.Some? {
      FilenamePartSingle(f.filename.value);
    } else {
      EmptySingle();
    }
    AvoidsFewer(f.name, {CR, LF, '"', '\\'}, {CR, LF});
    NamePartSingle(f.name, opt);
    assert dl == "Content-Disposition: form-data; name=\"" + f.name + "\"" + opt;
  }

  lemma {:induction false} NamePartSingle(name: string, opt: string)
    requires SingleLine(name) && SingleLine(opt)
    ensures SingleLine("Content-Disposition: form-data; name=\"" + name + "\"" + opt)
  {
    DispositionPrefixSingle();
    QuoteSingle();
    SingleLineJoin("Content-Disposition: form-data; name=\"", name, "\"", opt);
  }

  lemma {:induction false} DispositionLineColon(f: Field)
    ensures ':' in DispositionLine(f.name, f.filename, None)
  {
    DispositionLineSplit(f);
    assert DispositionLine(f.name, f.filename, None)[19] == ':';
  }

  /** The filename parameter of a single-line filename stays on one line. */
  lemma {:induction false} FilenamePartSingle(fn: string)
    requires SingleLine(fn)
    ensures SingleLine("; filename=\"" + EscapeQuoted(fn) + "\"")
  {
    EscapedSingle(fn);
    FilenameOpenSingle();
    QuoteSingle();
    EmptySingle();
    SingleLineJoin("; filename=\"", EscapeQuoted(fn), "\"", "");
    assert "; filename=\"" + EscapeQuoted(fn) + "\"" + "" == "; filename=\"" + EscapeQuoted(fn) + "\"";
  }

  lemma {:induction false} EscapedSingle(s: string)
    requires SingleLine(s)
    ensures SingleLine(EscapeQuoted(s))
  {
    SingleLineIff(s);
    EscapeQuotedEach(s);
    EscapeEachNoLineBreak(s);
    SingleLineIff(EscapeQuoted(s));
  }

  lemma {:induction false} DispositionPrefixSingle()
    ensures SingleLine("Content-Disposition: form-data; name=\"")
  {
    var cd := "Content-Disposition: form-data; name=\"";
    assert forall i | 0 <= i < |cd| :: cd[i] != CR && cd[i] != LF;
    SingleLineIff(cd);
  }

  lemma {:induction false} FilenameOpenSingle()
    ensures SingleLine("; filename=\"")
  {
    SingleLineIff("; filename=\"");
  }

  lemma {:induction false} QuoteSingle()
    ensures SingleLine("\"")
  {
    SingleLineIff("\"");
  }

  lemma {:induction false} EmptySingle()
    ensures SingleLine("")
  {
  }

  lemma {:induction false} SingleLineJoin(a: string, b: string, c: string, d: string)
    requires SingleLine(a) && SingleLine(b) && SingleLine(c) && SingleLine(d)
    ensures SingleLine(a + b + c + d)
  {
    AvoidsAppend(a, b, {CR, LF});
    AvoidsAppend(a + b, c, {CR, LF});
    AvoidsAppend(a + b + c, d, {CR, LF});
  }

  /** The disposition line opens the headers. */
  lemma {:induction false} DispositionHeader(f: Field)
    ensures HeaderLine([], DispositionLine(f.name, f.filename, None)) == Some([("Content-Disposition", DispositionValue(f))])
  {
    var cdv := DispositionValue(f);
    DispositionLineSplit(f);
    NamedLine([], "Content-Disposition", cdv);
  }

  /** The content-type line has a colon and no line break. */
  lemma {:induction false} TypeLineFits(ct: string)
    requires Avoids(ct, {CR, LF, ';'})
    ensures var ctl := "Content-Type: " + ct;
      SingleLine(ctl) && ':' in ctl
  {
    AvoidsNotIn(ct, {CR, LF, ';'}, CR);
    AvoidsNotIn(ct, {CR, LF, ';'}, LF);
    assert ("Content-Type: " + ct)[12] == ':';
    SingleLineIff("Content-Type: " + ct);
  }

  /** What the parser needs of the disposition line. */
  lemma {:induction false} DispositionFacts(f: Field)
    requires HeadersFit(f)
    ensures var dl := DispositionLine(f.name, f.filename, None);
      && SingleLine(dl) && ':' in dl
      && HeaderLine([], dl) == Some([("Content-Disposition", DispositionValue(f))])
  {
    DispositionLineFits(f);
    DispositionHeader(f);
  }

  /** What the parser needs of the content-type line. */
  lemma {:induction false} TypeFacts(cdv: string, ct: string)
    requires Avoids(ct, {CR, LF, ';'})
    requires |ct| > 0 && !IsSpace(ct[0]) && !IsSpace(ct[|ct| - 1])
    ensures var ctl := "Content-Type: " + ct;
      && SingleLine(ctl) && ':' in ctl
      && HeaderLine([("Content-Disposition", cdv)], ctl) == Some([("Content-Disposition", cdv), ("Content-Type", ct)])
  {
    TypeLineFits(ct);
    TypeHeader(cdv, ct);
  }

  /** After the disposition header, the content-type line adds the second header. */
  lemma {:induction false} TypeHeader(cdv: string, ct: string)
    requires |ct| > 0 && !IsSpace(ct[0]) && !IsSpace(ct[|ct| - 1])
    ensures HeaderLine([("Content-Disposition", cdv)], "Content-Type: " + ct)
         == Some([("Content-Disposition", cdv), ("Content-Type", ct)])
  {
    TypeLineSplit(ct);
    NamedLine([("Content-Disposition", cdv)], "Content-Type", ct);
    SecondHeader("Content-Disposition", cdv, "Content-Type", ct);
  }

  lemma {:induction false} TypeLineSplit(ct: string)
    ensures "Content-Type: " + ct == "Content-Type" + ": " + ct
  {
  }

  /** A second header with another name goes after the first. */
  lemma {:induction false} SecondHeader(k1: string, v1: string, k2: string, v2: string)
    requires k1 != k2
    ensures SetHeader([(k1, v1)], k2, v2) == [(k1, v1), (k2, v2)]
  {
    assert Lookup([(k1, v1)], k2).None?;
  }

  /** The header block of a field reads back as the field's headers, and the
      rest is left as it is. */
  lemma {:induction false} HeaderBlockParse(f: Field, after: string)
    requires HeadersFit(f)
    ensures ParseHeaders(BuildHeaders(CRLF, f.name, f.filename, f.contentType, [], None) + after, true, [])
         == Some((FieldHeaders(f), after))
  {
    if TypeShown(f) {
      TypedBlock(f, after);
    } else {
      UntypedBlock(f, after);
    }
  }

  lemma {:induction false} TypedBlock(f: Field, after: string)
    requires HeadersFit(f) && TypeShown(f)
    ensures ParseHeaders(BuildHeaders(CRLF, f.name, f.filename, f.contentType, [], None) + after, true, [])
         == Some(([("Content-Disposition", DispositionValue(f)), ("Content-Type", f.contentType.value)], after))
  {
    TypedShape(f, after);
    DispositionFirst(f, Utf8.Encode("Content-Type: " + f.contentType.value) + CRLF + (CRLF + after));
    TypeRestOf(f, after);
  }

  /** The rest of a typed block once the disposition is read. */
  lemma {:induction false} TypeRestOf(f: Field, after: string)
    requires HeadersFit(f) && TypeShown(f)
    ensures ParseHeaders(Utf8.Encode("Content-Type: " + f.contentType.value) + CRLF + (CRLF + after), true,
                         [("Content-Disposition", DispositionValue(f))])
         == Some(([("Content-Disposition", DispositionValue(f)), ("Content-Type", f.contentType.value)], after))
  {
    TypeRest(DispositionValue(f), f.contentType.value, after);
  }

  /** The disposition line read first. */
  lemma {:induction false} DispositionFirst(f: Field, rest: string)
    requires HeadersFit(f)
    ensures ParseHeaders(Utf8.Encode(DispositionLine(f.name, f.filename, None)) + CRLF + rest, true, [])
         == ParseHeaders(rest, true, [("Content-Disposition", DispositionValue(f))])
  {
    DispositionFacts(f);
    HeaderLineStep(DispositionLine(f.name, f.filename, None), rest, []);
  }

  /** The content-type line read second, then the empty line. */
  lemma {:induction false} TypeRest(cdv: string, ct: string, after: string)
    requires Avoids(ct, {CR, LF, ';'})
    requires |ct| > 0 && !IsSpace(ct[0]) && !IsSpace(ct[|ct| - 1])
    ensures ParseHeaders(Utf8.Encode("Content-Type: " + ct) + CRLF + (CRLF + after), true, [("Content-Disposition", cdv)])
         == Some(([("Content-Disposition", cdv), ("Content-Type", ct)], after))
  {
    TypeFacts(cdv, ct);
    TypeLineLast("Content-Type: " + ct, [("Content-Disposition", cdv)], [("Content-Disposition", cdv), ("Content-Type", ct)], after);
  }

  lemma {:induction false} UntypedBlock(f: Field, after: string)
    requires HeadersFit(f) && !TypeShown(f)
    ensures ParseHeaders(BuildHeaders(CRLF, f.name, f.filename, f.contentType, [], None) + after, true, [])
         == Some(([("Content-Disposition", DispositionValue(f))], after))
  {
    UntypedShape(f, after);
    DispositionLineFits(f);
    DispositionHeader(f);
    OneLine(DispositionLine(f.name, f.filename, None), DispositionValue(f), after);
  }

  /** A header block of one disposition line. */
  lemma {:induction false} OneLine(dl: string, cdv: string, after: string)
    requires SingleLine(dl) && ':' in dl
    requires HeaderLine([], dl) == Some([("Content-Disposition", cdv)])
    ensures ParseHeaders(Utf8.Encode(dl) + CRLF + (CRLF + after), true, []) == Some(([("Content-Disposition", cdv)], after))
  {
    HeaderLineStep(dl, CRLF + after, []);
    BlankLineEnds(after, [("Content-Disposition", cdv)]);
  }

  /** The content-type line, then the empty line. */
  lemma {:induction false} TypeLineLast(ctl: string, h1: Headers, h2: Headers, after: string)
    requires SingleLine(ctl) && ':' in ctl
    requires HeaderLine(h1, ctl) == Some(h2)
    ensures ParseHeaders(Utf8.Encode(ctl) + CRLF + (CRLF + after), true, h1) == Some((h2, after))
  {
    HeaderLineStep(ctl, CRLF + after, h1);
    BlankLineEnds(after, h2);
  }

  lemma {:induction false} RegroupOne(e: string, le: string, after: string)
    ensures e + [] + le + le + after == e + le + (le + after)
  {
  }

  lemma {:induction false} RegroupTwo(e: string, c: string, le: string, after: string)
    ensures e + (le + c) + le + le + after == e + le + (c + le + (le + after))
  {
  }

  /** The header block with a content type, grouped line by line. */
  lemma {:induction false} TypedShape(f: Field, after: string)
    requires TypeShown(f)
    ensures BuildHeaders(CRLF, f.name, f.filename, f.contentType, [], None) + after
         == Utf8.Encode(DispositionLine(f.name, f.filename, None)) + CRLF
            + (Utf8.Encode("Content-Type: " + f.contentType.value) + CRLF + (CRLF + after))
  {
    HeaderBlockShape(CRLF, f.name, f.filename, f.contentType, None);
    RegroupTwo(Utf8.Encode(DispositionLine(f.name, f.filename, None)), Utf8.Encode("Content-Type: " + f.contentType.value), CRLF, after);
  }

  /** The header block without a content type, grouped line by line. */
  lemma {:induction false} UntypedShape(f: Field, after: string)
    requires !TypeShown(f)
    ensures BuildHeaders(CRLF, f.name, f.filename, f.contentType, [], None) + after
         == Utf8.Encode(DispositionLine(f.name, f.filename, None)) + CRLF + (CRLF + after)
  {
    HeaderBlockShape(CRLF, f.name, f.filename, f.contentType, None);
    RegroupOne(Utf8.Encode(DispositionLine(f.name, f.filename, None)), CRLF, after);
  }

  /** Escaping adds no line break. */
  lemma {:induction false} EscapeEachNoLineBreak(s: string)
    requires CR !in s && LF !in s
    ensures CR !in EscapeEach(s) && LF !in EscapeEach(s)
    decreases |s|
  {
    if |s| > 0 {
      assert s[0] != CR && s[0] != LF;
      EscapeEachNoLineBreak(s[1..]);
      assert EscapeEach(s) == EscapeChar(s[0]) + EscapeEach(s[1..]);
    }
  }
}
