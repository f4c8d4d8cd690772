/** The whole-message round trip: a message that `MultipartBuilder`
    (tools/generate-raw.py) writes from named fields, with CRLF line endings and
    the close delimiter, is read by the strict reference parser
    (tools/run-reference.py) as valid, with the same names, filenames, content
    types and bodies, in order. */
module MessageRoundTrip {
  import opened Wrappers
  import opened Text
  import Utf8
  import opened Rfc5987
  import opened Params
  import opened Parts
  import opened Parser
  import ParserFacts
  import opened Builder
  import opened RoundTrip
  import DispositionRoundTrip

  // ---------------------------------------------------------------------------
  // The generated message

  /** The parts the generator holds for the fields. */
  function Wires(fs: seq<Field>): (ws: seq<string>)
    ensures |ws| == |fs|
    ensures forall i :: 0 <= i < |fs| ==> ws[i] == Wire(fs[i])
  {
    seq(|fs|, i requires 0 <= i < |fs| => Wire(fs[i]))
  }

  /** A field added as a caller of the generator adds it: `add_field` when it has
      no filename, `add_file` otherwise; either way the builder gains the field's
      wire form and nothing else changes. */
  function AddFieldOf(b: Builder, f: Field): (r: Builder)
    requires b.lineEnding == CRLF
    ensures r.parts == b.parts + [Wire(f)]
    ensures r.(parts := b.parts) == b
  {
    if f.filename.None? then AddField(b, f.name, f.content, f.contentType, [])
    else AddFile(b, f.name, f.filename.value, f.content, f.contentType, None, [])
  }

  /** A CRLF builder that writes the close delimiter, with the fields added in
      order. */
  function Generate(boundary: string, preamble: string, epilogue: string, fs: seq<Field>): (b: Builder)
    ensures b == Builder(boundary, CRLF, true, preamble, epilogue, Wires(fs))
    decreases |fs|
  {
    if |fs| == 0 then NewBuilder(boundary, CRLF, true, preamble, epilogue)
    else
      var init := fs[..|fs| - 1];
      assert Wires(fs) == Wires(init) + [Wire(fs[|fs| - 1])];
      AddFieldOf(Generate(boundary, preamble, epilogue, init), fs[|fs| - 1])
  }

  /** The message from the first delimiter on: a delimiter line, the part and a
      CRLF per field, then the close delimiter, a CRLF and the epilogue. */
  function Tail(delim: string, fs: seq<Field>, epilogue: string): string
    decreases |fs|
  {
    if |fs| == 0 then delim + "--" + CRLF + epilogue
    else delim + CRLF + Wire(fs[0]) + CRLF + Tail(delim, fs[1..], epilogue)
  }

  /** The tail starts with the delimiter. */
  lemma {:induction false} TailStarts(delim: string, fs: seq<Field>, epilogue: string)
    ensures StartsWith(Tail(delim, fs, epilogue), delim)
  {
    var t := Tail(delim, fs, epilogue);
    if |fs| == 0 {
      assert t == delim + ("--" + CRLF + epilogue);
    } else {
      assert t == delim + (CRLF + Wire(fs[0]) + CRLF + Tail(delim, fs[1..], epilogue));
    }
  }

  /** The sections, the close delimiter line and the epilogue make up the tail. */
  lemma {:induction false} TailLayout(delim: string, fs: seq<Field>, epilogue: string)
    ensures Sections(delim, CRLF, Wires(fs), true) + (delim + "--" + CRLF) + epilogue == Tail(delim, fs, epilogue)
    decreases |fs|
  {
    if |fs| > 0 {
      var ws := Wires(fs);
      var head := Section(delim, CRLF, Wire(fs[0]), true);
      var rest := Sections(delim, CRLF, Wires(fs[1..]), true);
      TailLayout(delim, fs[1..], epilogue);
      assert ws[1..] == Wires(fs[1..]);
      assert Sections(delim, CRLF, ws, true) == head + rest;
      assert head == delim + CRLF + Wire(fs[0]) + CRLF;
      Regroup(head, rest, delim + "--" + CRLF, epilogue);
    }
  }

  /** The generated message is the preamble and then the tail. */
  lemma {:induction false} BuildLayout(boundary: string, preamble: string, epilogue: string, fs: seq<Field>)
    ensures Build(Generate(boundary, preamble, epilogue, fs)) == preamble + Tail(Delimiter(boundary), fs, epilogue)
  {
    var delim := Delimiter(boundary);
    var b := Generate(boundary, preamble, epilogue, fs);
    var s := Sections(delim, CRLF, Wires(fs), true);
    var close := CloseDelimiter(boundary) + CRLF;
    assert Build(b) == preamble + s + close + epilogue;
    assert close == delim + "--" + CRLF;
    TailLayout(delim, fs, epilogue);
    Regroup(preamble, s, close, epilogue);
  }

  lemma {:induction false} Regroup(a: string, b: string, c: string, d: string)
    ensures a + b + c + d == a + (b + c + d)
  {
  }

  // ---------------------------------------------------------------------------
  // Delimiters

  /** A delimiter built from a boundary without CR holds no CR. */
  lemma {:induction false} DelimiterHasNoCr(boundary: string)
    requires CR !in boundary
    ensures CR !in Delimiter(boundary)
  {
    Utf8.EncodeKeepsAscii(boundary, CR);
    var e := Utf8.Encode(boundary);
    assert Delimiter(boundary) == "--" + e;
    forall k | 0 <= k < |Delimiter(boundary)| ensures Delimiter(boundary)[k] != CR {
      if k >= 2 {
        assert Delimiter(boundary)[k] == e[k - 2];
      }
    }
  }

  /** With no CR in the delimiter, a body free of CRLF + delimiter stays clear when
      CRLF and anything follow it: an occurrence running past the body would need
      the CR after the body to sit inside CRLF + delimiter after its first place. */
  lemma {:induction false} BodyStaysClear(body: string, delim: string, y: string)
    requires CR !in delim
    requires !Contains(body, CRLF + delim)
    ensures forall j :: 0 <= j < |body| ==> NoDelimiterAt(body + CRLF + y, delim, true, j)
  {
    var s := body + CRLF + y;
    var p := CRLF + delim;
    forall j | 0 <= j < |body| ensures !MatchAt(s, p, j) {
      if j + |p| <= |body| {
        assert s[j..j + |p|] == body[j..j + |p|];
        assert !MatchAt(body, p, j);
      } else if j + |p| <= |s| {
        var k := |body| - j;
        assert s[j..j + |p|][k] == s[|body|] == CR;
        assert p[k] != CR by {
          if k >= 2 {
            assert p[k] == delim[k - 2];
          }
        }
      }
    }
  }

  /** Between two parts: CRLF, the delimiter and its CRLF lead to the next part. */
  lemma {:induction false} NextSection(p: Part, delim: string, y: string)
    requires |delim| > 0
    ensures AfterBody(p, CRLF + (delim + CRLF + y), delim, true) == Next(p, y)
  {
    var tail := CRLF + (delim + CRLF + y);
    assert StartsWith(tail, CRLF);
    var t := tail[2..];
    assert t == delim + CRLF + y;
    assert DropLineEnding(tail, true) == t;
    assert t[|delim|..] == CRLF + y;
    assert !StartsWith(t, delim + "--") by {
      assert t[|delim|] == CR;
    }
    assert StartsWith(t, delim) by {
      assert t[..|delim|] == delim;
    }
    assert (CRLF + y)[2..] == y;
  }

  /** After the last part, the close delimiter ends the loop. */
  lemma {:induction false} CloseSection(p: Part, delim: string, epilogue: string)
    ensures AfterBody(p, CRLF + (delim + "--" + CRLF + epilogue), delim, true) == Last(p)
  {
    var tail := CRLF + (delim + "--" + CRLF + epilogue);
    assert StartsWith(tail, CRLF);
    var t := tail[2..];
    assert t == (delim + "--") + (CRLF + epilogue);
    assert DropLineEnding(tail, true) == t;
    assert t[..|delim + "--"|] == delim + "--";
  }

  // ---------------------------------------------------------------------------
  // One part

  /** The part the parser reads back for a field. */
  function ReadBack(f: Field): Part {
    MakePart(Disposition(Some("form-data"), Some(f.name), f.filename, None), FieldHeaders(f), f.content)
  }

  /** The part the parser reads back for each field, in order. */
  function ReadBacks(fs: seq<Field>): (ps: seq<Part>)
    ensures |ps| == |fs|
    decreases |fs|
  {
    if |fs| == 0 then [] else [ReadBack(fs[0])] + ReadBacks(fs[1..])
  }

  /** Each field keeps its place. */
  lemma {:induction false} ReadBacksAt(fs: seq<Field>, i: nat)
    requires i < |fs|
    ensures ReadBacks(fs)[i] == ReadBack(fs[i])
    decreases i
  {
    if i > 0 {
      ReadBacksAt(fs[1..], i - 1);
    }
  }

  /** The Content-Disposition header of a field's block is found first. */
  lemma {:induction false} DispositionFound(f: Field)
    ensures FirstHeader(FieldHeaders(f), "content-disposition") == Some(DispositionValue(f))
  {
    LowerDisposition();
  }

  lemma {:induction false} LowerDisposition()
    ensures Lower("Content-Disposition") == "content-disposition"
  {
    var k := "Content-Disposition";
    assert forall i | 0 <= i < |k| :: LowerChar(k[i]) == "content-disposition"[i];
    LowerIs(k, "content-disposition");
  }

  lemma {:induction false} LowerType()
    ensures Lower("Content-Type") == "content-type"
  {
    var k := "Content-Type";
    assert forall i | 0 <= i < |k| :: LowerChar(k[i]) == "content-type"[i];
    LowerIs(k, "content-type");
  }

  /** Folding character by character. */
  lemma {:induction false} LowerIs(s: string, t: string)
    requires |s| == |t| && forall i :: 0 <= i < |s| ==> LowerChar(s[i]) == t[i]
    ensures Lower(s) == t
  {
  }

  /** The disposition value a field's block carries reads back as the field's. */
  lemma {:induction false} DispositionReadBack(f: Field, charsets: CharsetTable)
    requires HeadersFit(f)
    ensures ParseContentDisposition(DispositionValue(f), charsets) == Disposition(Some("form-data"), Some(f.name), f.filename, None)
  {
    AvoidsFewer(f.name, {CR, LF, '"', '\\'}, {'"', '\\'});
    DispositionRoundTrip.DispositionRoundTrip(f.name, f.filename, charsets);
  }

  /** The body of a field runs up to the CRLF before the next delimiter. */
  lemma {:induction false} BodyEnds(content: string, delim: string, t: string)
    requires CR !in delim
    requires !Contains(content, CRLF + delim)
    requires StartsWith(t, delim)
    ensures FindNextBoundary(content + (CRLF + t), delim, true) == Some(|content|)
  {
    BodyStaysClear(content, delim, t);
    var x := t[|delim|..];
    assert t == delim + x;
    assert content + CRLF + t == content + CRLF + delim + x;
    assert content + (CRLF + t) == content + CRLF + t;
    ParserFacts.DelimiterEndsBody(content, delim, x, true);
  }

  /** One pass of the loop over a field's wire form, from the block to the
      delimiter that follows the body. */
  lemma {:induction false} FieldStep(f: Field, delim: string, t: string, charsets: CharsetTable)
    requires HeadersFit(f)
    requires CR !in delim
    requires !Contains(f.content, CRLF + delim)
    requires StartsWith(t, delim)
    ensures |Wire(f) + CRLF + t| > 0
    ensures ScanStep(Wire(f) + CRLF + t, delim, true, charsets) == AfterBody(ReadBack(f), CRLF + t, delim, true)
  {
    var tail := CRLF + t;
    var h := FieldHeaders(f);
    var d := Disposition(Some("form-data"), Some(f.name), f.filename, None);
    Assoc(Wire(f), CRLF, t);
    BlockStep(f, tail, delim, charsets);
    DispositionFound(f);
    DispositionReadBack(f, charsets);
    BodyEnds(f.content, delim, t);
    Chain(Wire(f) + tail, h, DispositionValue(f), d, f.content, tail, delim, charsets);
  }

  /** A pass that reads the block `h`, whose disposition `d` has a name, and finds
      the delimiter line right after `body`, ends with the part of `body`. */
  lemma {:induction false} Chain(x: string, h: Headers, cdv: string, d: Disposition, body: string, tail: string,
                                 delim: string, charsets: CharsetTable)
    requires |x| > 0
    requires ScanStep(x, delim, true, charsets) == StepAfterHeaders(h, body + tail, delim, true, charsets)
    requires FirstHeader(h, "content-disposition") == Some(cdv)
    requires ParseContentDisposition(cdv, charsets) == d && d.name.Some?
    requires FindNextBoundary(body + tail, delim, true) == Some(|body|)
    ensures ScanStep(x, delim, true, charsets) == AfterBody(MakePart(d, h, body), tail, delim, true)
  {
    assert StepAfterHeaders(h, body + tail, delim, true, charsets) == StepWithDisposition(d, h, body + tail, delim, true);
    BodyStep(d, h, body, tail, delim);
  }

  /** The header block is read first. */
  lemma {:induction false} BlockStep(f: Field, after: string, delim: string, charsets: CharsetTable)
    requires HeadersFit(f)
    ensures |Wire(f) + after| > 0
    ensures ScanStep(Wire(f) + after, delim, true, charsets) == StepAfterHeaders(FieldHeaders(f), f.content + after, delim, true, charsets)
  {
    var x := Wire(f) + after;
    assert x == BuildHeaders(CRLF, f.name, f.filename, f.contentType, [], None) + (f.content + after);
    HeaderBlockParse(f, f.content + after);
    StepOnBlock(x, FieldHeaders(f), f.content + after, delim, charsets);
  }

  /** A pass whose header block reads as `h` goes on with `h`. */
  lemma {:induction false} StepOnBlock(x: string, h: Headers, after: string, delim: string, charsets: CharsetTable)
    requires ParseHeaders(x, true, []) == Some((h, after))
    ensures |x| > 0
    ensures ScanStep(x, delim, true, charsets) == StepAfterHeaders(h, after, delim, true, charsets)
  {
  }

  /** With a name, the body runs to the delimiter line found. */
  lemma {:induction false} BodyStep(d: Disposition, h: Headers, body: string, tail: string, delim: string)
    requires d.name.Some?
    requires FindNextBoundary(body + tail, delim, true) == Some(|body|)
    ensures StepWithDisposition(d, h, body + tail, delim, true) == AfterBody(MakePart(d, h, body), tail, delim, true)
  {
    assert (body + tail)[..|body|] == body;
    assert (body + tail)[|body|..] == tail;
  }

  /** Every field fits the round trip. */
  predicate AllFit(fs: seq<Field>, delim: string) {
    forall i :: 0 <= i < |fs| ==> HeadersFit(fs[i]) && !Contains(fs[i].content, CRLF + delim)
  }

  /** The loop reads the fields back, one part per field: from a field's wire
      form on, the field and the ones after it. */
  lemma {:induction false} ScanFields(f: Field, more: seq<Field>, delim: string, epilogue: string, charsets: CharsetTable)
    requires |delim| > 0 && CR !in delim
    requires HeadersFit(f) && !Contains(f.content, CRLF + delim)
    requires AllFit(more, delim)
    ensures ScanParts(Wire(f) + CRLF + Tail(delim, more, epilogue), delim, true, charsets)
         == Scanned([ReadBack(f)] + ReadBacks(more))
    decreases |more|
  {
    var t := Tail(delim, more, epilogue);
    var x := Wire(f) + CRLF + t;
    var p := ReadBack(f);
    TailStarts(delim, more, epilogue);
    FieldStep(f, delim, t, charsets);
    if |more| == 0 {
      TailNil(delim, more, epilogue);
      ScanLast(x, p, delim, epilogue, charsets);
      assert [p] + ReadBacks(more) == [p];
    } else {
      var y := Wire(more[0]) + CRLF + Tail(delim, more[1..], epilogue);
      TailCons(delim, more, epilogue);
      AllFitTail(more, delim);
      ScanFields(more[0], more[1..], delim, epilogue, charsets);
      ScanNext(x, p, y, delim, ReadBacks(more), charsets);
    }
  }

  lemma {:induction false} AllFitTail(fs: seq<Field>, delim: string)
    requires |fs| > 0 && AllFit(fs, delim)
    ensures AllFit(fs[1..], delim)
  {
    assert forall i :: 0 <= i < |fs| - 1 ==> fs[1..][i] == fs[i + 1];
  }

  /** The tail of no field is the close delimiter line and the epilogue. */
  lemma {:induction false} TailNil(delim: string, fs: seq<Field>, epilogue: string)
    requires |fs| == 0
    ensures Tail(delim, fs, epilogue) == delim + "--" + CRLF + epilogue
  {
  }

  /** The tail of at least one field, grouped as a delimiter line and the rest. */
  lemma {:induction false} TailCons(delim: string, fs: seq<Field>, epilogue: string)
    requires |fs| > 0
    ensures Tail(delim, fs, epilogue) == delim + CRLF + (Wire(fs[0]) + CRLF + Tail(delim, fs[1..], epilogue))
  {
    Regroup(delim + CRLF, Wire(fs[0]), CRLF, Tail(delim, fs[1..], epilogue));
  }

  /** A pass that ends at the close delimiter is the last one. */
  lemma {:induction false} ScanLast(x: string, p: Part, delim: string, epilogue: string, charsets: CharsetTable)
    requires |x| > 0
    requires ScanStep(x, delim, true, charsets) == AfterBody(p, CRLF + (delim + "--" + CRLF + epilogue), delim, true)
    ensures ScanParts(x, delim, true, charsets) == Scanned([p])
  {
    CloseSection(p, delim, epilogue);
    assert ScanParts(x, delim, true, charsets) == ScanFrom(x, delim, true, charsets);
  }

  /** A pass that ends at a delimiter line is followed by the passes over what
      comes after it. */
  lemma {:induction false} ScanNext(x: string, p: Part, y: string, delim: string, more: seq<Part>, charsets: CharsetTable)
    requires |x| > 0 && |delim| > 0
    requires ScanStep(x, delim, true, charsets) == AfterBody(p, CRLF + (delim + CRLF + y), delim, true)
    requires ScanParts(y, delim, true, charsets) == Scanned(more)
    ensures ScanParts(x, delim, true, charsets) == Scanned([p] + more)
  {
    NextSection(p, delim, y);
    assert ScanParts(x, delim, true, charsets) == ScanFrom(x, delim, true, charsets);
  }

  // ---------------------------------------------------------------------------
  // The whole message

  /** The tail holds the close delimiter. */
  lemma {:induction false} TailCloses(boundary: string, fs: seq<Field>, epilogue: string)
    ensures Contains(Tail(Delimiter(boundary), fs, epilogue), CloseDelimiter(boundary))
  {
    var delim := Delimiter(boundary);
    var s := Sections(delim, CRLF, Wires(fs), true);
    TailLayout(delim, fs, epilogue);
    assert delim + "--" + CRLF == CloseDelimiter(boundary) + CRLF;
    Regroup3(s, CloseDelimiter(boundary), CRLF, epilogue);
    ContainsMiddle(s, CloseDelimiter(boundary), CRLF + epilogue);
  }

  /** A text that opens with `a` finds it first at 0, and what follows is `b`. */
  lemma {:induction false} OpensWith(a: string, b: string)
    ensures Find(a + b, a) == Some(0)
    ensures (a + b)[|a|..] == b
  {
    assert (a + b)[0..|a|] == a;
    assert MatchAt(a + b, a, 0);
  }

  lemma {:induction false} Assoc(a: string, b: string, c: string)
    ensures a + b + c == a + (b + c)
  {
  }

  lemma {:induction false} Regroup3(a: string, b: string, c: string, d: string)
    ensures a + (b + c) + d == a + b + (c + d)
  {
  }

  /** A text holds what sits in its middle. */
  lemma {:induction false} ContainsMiddle(a: string, p: string, c: string)
    ensures Contains(a + p + c, p)
  {
    var s := a + p + c;
    assert s[|a|..|a| + |p|] == p;
    assert MatchAt(s, p, |a|);
  }

  /** From the first delimiter on, the strict parser reads the fields back. */
  lemma {:induction false} ParseTail(boundary: string, fs: seq<Field>, epilogue: string, charsets: CharsetTable)
    requires |fs| > 0 && boundary != [] && CR !in boundary
    requires AllFit(fs, Delimiter(boundary))
    ensures Parse(Tail(Delimiter(boundary), fs, epilogue), Some(boundary), true, charsets) == ParseResult(true, ReadBacks(fs), None)
  {
    var delim := Delimiter(boundary);
    var x := Wire(fs[0]) + CRLF + Tail(delim, fs[1..], epilogue);
    DelimiterHasNoCr(boundary);
    TailCons(delim, fs, epilogue);
    AllFitTail(fs, delim);
    ScanFields(fs[0], fs[1..], delim, epilogue, charsets);
    TailCloses(boundary, fs, epilogue);
    ParseFromDelimiter(Tail(delim, fs, epilogue), boundary, x, ReadBacks(fs), charsets);
  }

  /** A message that opens with the delimiter line and holds the close
      delimiter is valid with the parts the loop reads after that line. */
  lemma {:induction false} ParseFromDelimiter(body: string, boundary: string, x: string, parts: seq<Part>, charsets: CharsetTable)
    requires boundary != []
    requires body == Delimiter(boundary) + CRLF + x
    requires ScanParts(x, Delimiter(boundary), true, charsets) == Scanned(parts)
    requires Contains(body, CloseDelimiter(boundary))
    ensures Parse(body, Some(boundary), true, charsets) == ParseResult(true, parts, None)
  {
    var delim := Delimiter(boundary);
    Assoc(delim, CRLF, x);
    OpensWith(delim, CRLF + x);
    assert SkipLineEnding(CRLF + x, true) == Some(x);
  }

  /** A delimiter that starts inside the preamble lies within the preamble and
      the first delimiter. */
  lemma {:induction false} PreambleClear(preamble: string, delim: string, t: string)
    requires StartsWith(t, delim)
    requires forall j :: 0 <= j < |preamble| ==> !MatchAt(preamble + delim, delim, j)
    ensures forall j :: 0 <= j < |preamble| ==> !MatchAt(preamble + t, delim, j)
  {
    assert preamble + t == (preamble + delim) + t[|delim|..] by {
      assert t == delim + t[|delim|..];
    }
    forall j | 0 <= j < |preamble| ensures !MatchAt(preamble + t, delim, j) {
      if MatchAt(preamble + t, delim, j) {
        MatchAtShorter(preamble + delim, t[|delim|..], delim, j);
      }
    }
  }

  /** What a parsed part keeps of its field: name, filename (an empty one stays
      empty, an absent one stays absent), no `filename*`, the content type when
      one was written, and the content as the body. */
  predicate Recovers(p: Part, f: Field) {
    && p.name == f.name
    && p.filename == f.filename
    && p.filenameStar.None?
    && p.contentType == (if TypeShown(f) then f.contentType else None)
    && p.body == f.content
  }

  /** The part read back for a field keeps the field. */
  lemma {:induction false} ReadBackRecovers(f: Field)
    requires HeadersFit(f)
    ensures Recovers(ReadBack(f), f)
  {
    LowerDisposition();
    LowerType();
    var cdv := DispositionValue(f);
    if TypeShown(f) {
      var ct := f.contentType.value;
      assert FieldHeaders(f) == [("Content-Disposition", cdv), ("Content-Type", ct)];
      SecondFound("Content-Disposition", cdv, "Content-Type", ct, "content-type");
      BareType(ct);
    } else {
      assert FieldHeaders(f) == [("Content-Disposition", cdv)];
      OnlyOther("Content-Disposition", cdv, "content-type");
    }
  }

  /** Two headers, the second one sought. */
  lemma {:induction false} SecondFound(k1: string, v1: string, k2: string, v2: string, key: string)
    requires Lower(k1) != key && Lower(k2) == key
    ensures FirstHeader([(k1, v1), (k2, v2)], key) == Some(v2)
  {
    assert [(k1, v1), (k2, v2)][1..] == [(k2, v2)];
  }

  /** One header, another one sought. */
  lemma {:induction false} OnlyOther(k: string, v: string, key: string)
    requires Lower(k) != key
    ensures FirstHeader([(k, v)], key).None?
  {
  }

  /** A content type with no parameter and no outer white space is kept whole. */
  lemma {:induction false} BareType(ct: string)
    requires Avoids(ct, {CR, LF, ';'})
    requires |ct| > 0 && !IsSpace(ct[0]) && !IsSpace(ct[|ct| - 1])
    ensures ContentTypeOf(ct) == ct
  {
    AvoidsNotIn(ct, {CR, LF, ';'}, ';');
    StripBare(ct);
  }

  /** A build with no part is the close delimiter line alone, which the parser
      takes for the first delimiter followed by a header line `--`: with a
      preamble holding no delimiter, such a message is rejected as
      `invalid_header` in either mode, so the round trip needs a part. */
  lemma {:induction false} ZeroPartsRejected(boundary: string, preamble: string, epilogue: string, strict: bool, charsets: CharsetTable)
    requires boundary != []
    requires forall j :: 0 <= j < |preamble| ==> !MatchAt(preamble + Delimiter(boundary), Delimiter(boundary), j)
    ensures Parse(Build(Generate(boundary, preamble, epilogue, [])), Some(boundary), strict, charsets) == Fail(InvalidHeader)
  {
    var delim := Delimiter(boundary);
    var t := Tail(delim, [], epilogue);
    BuildLayout(boundary, preamble, epilogue, []);
    TailStarts(delim, [], epilogue);
    PreambleClear(preamble, delim, t);
    ParserFacts.PreambleIgnored(preamble, t, boundary, strict, charsets);
    CloseLineRejected(boundary, epilogue, strict, charsets);
  }

  /** The close delimiter line and the epilogue alone are `invalid_header`. */
  lemma {:induction false} CloseLineRejected(boundary: string, epilogue: string, strict: bool, charsets: CharsetTable)
    requires boundary != []
    ensures Parse(Tail(Delimiter(boundary), [], epilogue), Some(boundary), strict, charsets) == Fail(InvalidHeader)
  {
    var delim := Delimiter(boundary);
    var t := Tail(delim, [], epilogue);
    var x := "--" + CRLF + epilogue;
    TailNil(delim, [], epilogue);
    Assoc(delim, "--" + CRLF, epilogue);
    assert t == delim + x;
    OpensWith(delim, x);
    ParserFacts.ScanBodyAt(t, delim, 0, strict, charsets);
    DashesKept(epilogue, strict);
    DashLineInvalid(epilogue, strict);
    assert ScanParts(x, delim, strict, charsets) == ScanFrom(x, delim, strict, charsets);
    ParserFacts.Verdict(t, boundary, strict, charsets);
  }

  /** `--` is no line ending, so nothing is skipped before it. */
  lemma {:induction false} DashesKept(epilogue: string, strict: bool)
    ensures SkipLineEnding("--" + CRLF + epilogue, strict) == Some("--" + CRLF + epilogue)
  {
    var x := "--" + CRLF + epilogue;
    assert x[0] == '-' && x[1] == '-';
    assert !StartsWith(x, CRLF) by { assert x[..2] != CRLF; }
  }

  /** The line `--` is no header line. */
  lemma {:induction false} DashLineInvalid(epilogue: string, strict: bool)
    ensures ParseHeaders("--" + CRLF + epilogue, strict, []).None?
  {
    var x := "--" + CRLF + epilogue;
    assert x[0] == '-' && x[1] == '-' && x[2] == CR && x[3] == LF;
    assert !MatchAt(x, CRLF, 0) && !MatchAt(x, CRLF, 1) && MatchAt(x, CRLF, 2);
    assert IndexOf(x, LF) == Some(3);
    assert LineEnd(x, strict) == Some((2, 4));
    assert x[..2] == "--";
    Utf8.EncodeAscii("--");
    Utf8.DecodeLineEncode("--");
    assert HeaderLine([], Utf8.DecodeLine("--")).None?;
  }

  /** The round trip: a message generated with CRLF line endings and the close
      delimiter, from at least one field, a non-empty boundary without CR, fields
      whose headers read back as written and whose contents hold no CRLF +
      delimiter, and a preamble in which no delimiter starts, parses in strict
      mode as valid, with one part per field, in order, each keeping its
      field. */
  lemma {:induction false} MessageRoundTrip(boundary: string, preamble: string, epilogue: string, fs: seq<Field>, charsets: CharsetTable)
    requires |fs| > 0 && boundary != [] && CR !in boundary
    requires forall i :: 0 <= i < |fs| ==> HeadersFit(fs[i])
    requires forall i :: 0 <= i < |fs| ==> !Contains(fs[i].content, CRLF + Delimiter(boundary))
    requires forall j :: 0 <= j < |preamble| ==> !MatchAt(preamble + Delimiter(boundary), Delimiter(boundary), j)
    ensures var r := Parse(Build(Generate(boundary, preamble, epilogue, fs)), Some(boundary), true, charsets);
      && r.valid && r.error.None? && |r.parts| == |fs|
      && forall i :: 0 <= i < |fs| ==> Recovers(r.parts[i], fs[i])
  {
    var delim := Delimiter(boundary);
    var t := Tail(delim, fs, epilogue);
    BuildLayout(boundary, preamble, epilogue, fs);
    TailStarts(delim, fs, epilogue);
    PreambleClear(preamble, delim, t);
    ParserFacts.PreambleIgnored(preamble, t, boundary, true, charsets);
    ParseTail(boundary, fs, epilogue, charsets);
    forall i | 0 <= i < |fs| ensures Recovers(ReadBacks(fs)[i], fs[i]) {
      ReadBacksAt(fs, i);
      ReadBackRecovers(fs[i]);
    }
  }
}
