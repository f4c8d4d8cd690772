/** The message generator, `MultipartBuilder` of tools/generate-raw.py: parts are
    built as header block plus content and laid out between delimiter lines. */
module Builder {
  import opened Wrappers
  import opened Text
  import Utf8
  import opened Params
  import Parser

  /** A builder: the boundary, the line ending (CRLF or LF), whether the close
      delimiter is written, the preamble and epilogue (empty for none: the source
      writes them only when they are non-empty) and the parts built so far. */
  datatype Builder = Builder(
    boundary: string,
    lineEnding: string,
    terminator: bool,
    preamble: string,
    epilogue: string,
    parts: seq<string>)

  function NewBuilder(boundary: string, lineEnding: string, terminator: bool, preamble: string, epilogue: string): (b: Builder)
    ensures b.parts == []
  {
    Builder(boundary, lineEnding, terminator, preamble, epilogue, [])
  }

  // ---------------------------------------------------------------------------
  // Header blocks

  /** `filename.replace('\\', '\\\\').replace('"', '\\"')`. */
  function EscapeQuoted(s: string): string {
    ReplaceAll(ReplaceAll(s, "\\", "\\\\"), "\"", "\\\"")
  }

  /** The escape of one character: a backslash is doubled, a quote is preceded by
      a backslash, anything else stays. */
  function EscapeChar(c: char): string {
    if c == '\\' then "\\\\" else if c == '"' then "\\\"" else [c]
  }

  /** Reference definition of the escape, character by character. */
  function EscapeEach(s: string): string
    decreases |s|
  {
    if |s| == 0 then [] else EscapeChar(s[0]) + EscapeEach(s[1..])
  }

  /** The Content-Disposition line: `form-data`, the quoted name, the quoted and
      escaped filename when there is one, and `filename*` verbatim. */
  function DispositionLine(name: string, filename: Option<string>, filenameStar: Option<string>): string {
    "Content-Disposition: form-data; name=\"" + name + "\""
    + (if filename.Some? then "; filename=\"" + EscapeQuoted(filename.value) + "\"" else "")
    + (if filenameStar.Some? then "; filename*=" + filenameStar.value else "")
  }

  /** The header lines of a part, as text: the disposition, the content type when
      it is non-empty, then the extra headers in order. */
  function HeaderLines(name: string, filename: Option<string>, contentType: Option<string>,
                       extra: seq<(string, string)>, filenameStar: Option<string>): (lines: seq<string>)
    ensures |lines| >= 1 && lines[0] == DispositionLine(name, filename, filenameStar)
    ensures |lines| == 1 + (if contentType.Some? && contentType.value != "" then 1 else 0) + |extra|
  {
    [DispositionLine(name, filename, filenameStar)]
    + (if contentType.Some? && contentType.value != "" then ["Content-Type: " + contentType.value] else [])
    + seq(|extra|, i requires 0 <= i < |extra| => extra[i].0 + ": " + extra[i].1)
  }

  function EncodeAll(lines: seq<string>): (r: seq<string>)
    ensures |r| == |lines|
    ensures forall i :: 0 <= i < |lines| ==> r[i] == Utf8.Encode(lines[i])
  {
    seq(|lines|, i requires 0 <= i < |lines| => Utf8.Encode(lines[i]))
  }

  /** `_build_headers`: the encoded lines joined by the line ending, followed by two
      line endings, so the block always ends in a blank line. */
  function BuildHeaders(lineEnding: string, name: string, filename: Option<string>, contentType: Option<string>,
                        extra: seq<(string, string)>, filenameStar: Option<string>): (r: string)
    ensures |r| >= 2 * |lineEnding| && r[|r| - 2 * |lineEnding|..] == lineEnding + lineEnding
  {
    var joined := Join(EncodeAll(HeaderLines(name, filename, contentType, extra, filenameStar)), lineEnding);
    assert joined + lineEnding + lineEnding == joined + (lineEnding + lineEnding);
    joined + lineEnding + lineEnding
  }

  /** Whatever the extra headers, the header block starts with the encoded
      Content-Disposition line. */
  lemma {:induction false} HeaderBlockStart(lineEnding: string, name: string, filename: Option<string>, contentType: Option<string>,
                                            extra: seq<(string, string)>, filenameStar: Option<string>)
    ensures StartsWith(BuildHeaders(lineEnding, name, filename, contentType, extra, filenameStar),
                       Utf8.Encode(DispositionLine(name, filename, filenameStar)))
  {
    var lines := EncodeAll(HeaderLines(name, filename, contentType, extra, filenameStar));
    BlockStart(lines, lineEnding);
  }

  lemma {:induction false} BlockStart(lines: seq<string>, le: string)
    requires |lines| > 0
    ensures StartsWith(Join(lines, le) + le + le, lines[0])
  {
    var joined := Join(lines, le);
    JoinHead(lines, le);
    assert (joined + le + le)[..|lines[0]|] == joined[..|lines[0]|];
  }

  /** `add_field`: a part without a filename. */
  function AddField(b: Builder, name: string, value: string, contentType: Option<string>, extra: seq<(string, string)>): (r: Builder)
    ensures r.parts == b.parts + [BuildHeaders(b.lineEnding, name, None, contentType, extra, None) + value]
    ensures r.(parts := b.parts) == b
  {
    b.(parts := b.parts + [BuildHeaders(b.lineEnding, name, None, contentType, extra, None) + value])
  }

  /** `add_file`. */
  function AddFile(b: Builder, name: string, filename: string, content: string, contentType: Option<string>,
                   filenameStar: Option<string>, extra: seq<(string, string)>): (r: Builder)
    ensures r.parts == b.parts + [BuildHeaders(b.lineEnding, name, Some(filename), contentType, extra, filenameStar) + content]
    ensures r.(parts := b.parts) == b
  {
    b.(parts := b.parts + [BuildHeaders(b.lineEnding, name, Some(filename), contentType, extra, filenameStar) + content])
  }

  /** `add_raw_part`: the octets as they are, with no header added. */
  function AddRawPart(b: Builder, raw: string): (r: Builder)
    ensures r.parts == b.parts + [raw]
    ensures r.(parts := b.parts) == b
  {
    b.(parts := b.parts + [raw])
  }

  // ---------------------------------------------------------------------------
  // Layout

  /** One part on the wire: delimiter, line ending, the part, and a line ending
      when another delimiter follows. */
  function Section(delim: string, lineEnding: string, part: string, trailing: bool): string {
    delim + lineEnding + part + (if trailing then lineEnding else "")
  }

  /** The parts in order; every part but the last is followed by a line ending,
      and the last only when the close delimiter follows. */
  function Sections(delim: string, lineEnding: string, parts: seq<string>, terminator: bool): string
    decreases |parts|
  {
    if |parts| == 0 then []
    else Section(delim, lineEnding, parts[0], |parts| > 1 || terminator) + Sections(delim, lineEnding, parts[1..], terminator)
  }

  /** `build`: the preamble comes first and the epilogue last; with the terminator
      on, the close delimiter line comes right before the epilogue. */
  function Build(b: Builder): (r: string)
    ensures var d := |Parser.Delimiter(b.boundary)|;
      |r| == |b.preamble| + SectionsLength(d, |b.lineEnding|, b.parts, b.terminator)
        + (if b.terminator then d + 2 + |b.lineEnding| else 0) + |b.epilogue|
  {
    var delim := Parser.Delimiter(b.boundary);
    var secs := Sections(delim, b.lineEnding, b.parts, b.terminator);
    var close := if b.terminator then Parser.CloseDelimiter(b.boundary) + b.lineEnding else [];
    SectionsLengthSum(delim, b.lineEnding, b.parts, b.terminator);
    b.preamble + secs + close + b.epilogue
  }

  // ---------------------------------------------------------------------------
  // Properties

  /** Sections of a list with one more part: all earlier parts are followed by a
      line ending, the new last part only when the terminator is on. */
  lemma {:induction false} SectionsSnoc(delim: string, lineEnding: string, parts: seq<string>, last: string, terminator: bool)
    ensures Sections(delim, lineEnding, parts + [last], terminator)
         == Sections(delim, lineEnding, parts, true) + Section(delim, lineEnding, last, terminator)
    decreases |parts|
  {
    if |parts| == 0 {
      assert parts + [last] == [last];
      assert [last][1..] == [];
    } else {
      assert (parts + [last])[0] == parts[0];
      assert (parts + [last])[1..] == parts[1..] + [last];
      SectionsSnoc(delim, lineEnding, parts[1..], last, terminator);
    }
  }

  /** Sections of the concatenation of two part lists. */
  lemma {:induction false} SectionsAppend(delim: string, lineEnding: string, a: seq<string>, c: seq<string>, terminator: bool)
    requires |c| > 0
    ensures Sections(delim, lineEnding, a + c, terminator)
         == Sections(delim, lineEnding, a, true) + Sections(delim, lineEnding, c, terminator)
    decreases |a|
  {
    if |a| == 0 {
      assert a + c == c;
    } else {
      assert (a + c)[0] == a[0];
      assert (a + c)[1..] == a[1..] + c;
      SectionsAppend(delim, lineEnding, a[1..], c, terminator);
    }
  }

  /** The length of the layout: the length of every piece. */
  function SectionsLength(delimLength: nat, lineEndingLength: nat, parts: seq<string>, terminator: bool): nat
    decreases |parts|
  {
    if |parts| == 0 then 0
    else delimLength + lineEndingLength + |parts[0]| + (if |parts| > 1 || terminator then lineEndingLength else 0)
         + SectionsLength(delimLength, lineEndingLength, parts[1..], terminator)
  }

  lemma {:induction false} SectionsLengthSum(delim: string, lineEnding: string, parts: seq<string>, terminator: bool)
    ensures |Sections(delim, lineEnding, parts, terminator)| == SectionsLength(|delim|, |lineEnding|, parts, terminator)
    decreases |parts|
  {
    if |parts| > 0 {
      SectionsLengthSum(delim, lineEnding, parts[1..], terminator);
    }
  }

  /** The output is the preamble, the sections, the close delimiter line when the
      terminator is on, and the epilogue, and its length is the sum of theirs. */
  lemma {:induction false} BuildLayout(b: Builder)
    ensures var delim := Parser.Delimiter(b.boundary);
      |Build(b)| == |b.preamble| + SectionsLength(|delim|, |b.lineEnding|, b.parts, b.terminator)
        + (if b.terminator then |delim| + 2 + |b.lineEnding| else 0) + |b.epilogue|
    ensures StartsWith(Build(b), b.preamble) && EndsWith(Build(b), b.epilogue)
  {
    var delim := Parser.Delimiter(b.boundary);
    SectionsLengthSum(delim, b.lineEnding, b.parts, b.terminator);
    var secs := Sections(delim, b.lineEnding, b.parts, b.terminator);
    var close := if b.terminator then Parser.CloseDelimiter(b.boundary) + b.lineEnding else [];
    assert |close| == (if b.terminator then |delim| + 2 + |b.lineEnding| else 0);
    assert Build(b) == b.preamble + secs + close + b.epilogue;
    EndsWithIff(Build(b), b.epilogue);
  }

  /** With the terminator off, the message ends with the last part and then the
      epilogue: no close delimiter and no line ending after the last part. */
  lemma {:induction false} TerminatorOff(b: Builder)
    requires !b.terminator && |b.parts| > 0
    ensures var delim := Parser.Delimiter(b.boundary);
      var last := b.parts[|b.parts| - 1];
      Build(b) == b.preamble + Sections(delim, b.lineEnding, b.parts[..|b.parts| - 1], true)
        + delim + b.lineEnding + last + b.epilogue
  {
    var delim := Parser.Delimiter(b.boundary);
    var init := b.parts[..|b.parts| - 1];
    var last := b.parts[|b.parts| - 1];
    assert init + [last] == b.parts;
    SectionsSnoc(delim, b.lineEnding, init, last, false);
  }

  /** A raw part appears verbatim right after a delimiter line, and is followed by
      the line ending of the next delimiter line only when the terminator is on. */
  lemma {:induction false} RawPartVerbatim(b: Builder, raw: string)
    ensures var delim := Parser.Delimiter(b.boundary);
      Build(AddRawPart(b, raw)) == b.preamble + Sections(delim, b.lineEnding, b.parts, true)
        + delim + b.lineEnding + raw
        + (if b.terminator then b.lineEnding + Parser.CloseDelimiter(b.boundary) + b.lineEnding else [])
        + b.epilogue
  {
    var delim := Parser.Delimiter(b.boundary);
    var le := b.lineEnding;
    var b' := AddRawPart(b, raw);
    var closing := if b.terminator then Parser.CloseDelimiter(b.boundary) + le else [];
    var prior := Sections(delim, le, b.parts, true);
    var last := Section(delim, le, raw, b.terminator);
    assert Build(b') == b.preamble + Sections(delim, le, b'.parts, b.terminator) + closing + b.epilogue;
    SectionsSnoc(delim, le, b.parts, raw, b.terminator);
    assert Sections(delim, le, b'.parts, b.terminator) == prior + last;
    var t := if b.terminator then le + Parser.CloseDelimiter(b.boundary) + le else [];
    LastSection(delim, le, raw, Parser.CloseDelimiter(b.boundary), b.terminator);
    Regroup(b.preamble, prior, last, closing, b.epilogue);
    Regroup(b.preamble, prior, delim + le + raw, t, b.epilogue);
  }

  lemma {:induction false} LastSection(delim: string, le: string, raw: string, close: string, terminator: bool)
    ensures Section(delim, le, raw, terminator) + (if terminator then close + le else [])
         == delim + le + raw + (if terminator then le + close + le else [])
  {
    if terminator {
      assert Section(delim, le, raw, terminator) == delim + le + raw + le;
    }
  }

  lemma {:induction false} Regroup(p: string, x: string, y: string, z: string, e: string)
    ensures p + (x + y) + z + e == p + x + (y + z) + e
  {
  }

  /** The header block is the disposition line, the content-type line when the type
      is non-empty, the extra header lines, each ended by the line ending, and one
      more line ending. */
  lemma {:induction false} HeaderBlockShape(lineEnding: string, name: string, filename: Option<string>, contentType: Option<string>, filenameStar: Option<string>)
    ensures BuildHeaders(lineEnding, name, filename, contentType, [], filenameStar)
         == Utf8.Encode(DispositionLine(name, filename, filenameStar))
            + (if contentType.Some? && contentType.value != "" then lineEnding + Utf8.Encode("Content-Type: " + contentType.value) else [])
            + lineEnding + lineEnding
  {
    var enc := EncodeAll(HeaderLines(name, filename, contentType, [], filenameStar));
    var d := Utf8.Encode(DispositionLine(name, filename, filenameStar));
    assert BuildHeaders(lineEnding, name, filename, contentType, [], filenameStar) == Join(enc, lineEnding) + lineEnding + lineEnding;
    EncodedLines(name, filename, contentType, filenameStar);
    if contentType.Some? && contentType.value != "" {
      TwoLineBlock(d, Utf8.Encode("Content-Type: " + contentType.value), lineEnding);
    } else {
      OneLineBlock(d, lineEnding);
    }
  }

  /** Without extra headers the encoded lines are the disposition line and, for a
      non-empty type, the Content-Type line. */
  lemma {:induction false} EncodedLines(name: string, filename: Option<string>, contentType: Option<string>, filenameStar: Option<string>)
    ensures var enc := EncodeAll(HeaderLines(name, filename, contentType, [], filenameStar));
      var d := Utf8.Encode(DispositionLine(name, filename, filenameStar));
      if contentType.Some? && contentType.value != "" then enc == [d, Utf8.Encode("Content-Type: " + contentType.value)]
      else enc == [d]
  {
    var enc := EncodeAll(HeaderLines(name, filename, contentType, [], filenameStar));
    if contentType.Some? && contentType.value != "" {
      assert |enc| == 2;
    } else {
      assert |enc| == 1;
    }
  }

  lemma {:induction false} TwoLineBlock(d: string, c: string, le: string)
    ensures Join([d, c], le) + le + le == d + (le + c) + le + le
  {
    JoinPair(d, c, le);
  }

  lemma {:induction false} OneLineBlock(d: string, le: string)
    ensures Join([d], le) + le + le == d + [] + le + le
  {
  }

  // ---------------------------------------------------------------------------
  // The escape and its inverse

  lemma {:induction false} ReplaceCharAppend(a: string, b: string, c: char, rep: string)
    ensures ReplaceAll(a + b, [c], rep) == ReplaceAll(a, [c], rep) + ReplaceAll(b, [c], rep)
    decreases |a|
  {
    if |a| == 0 {
      assert a + b == b;
    } else {
      var ab := a + b;
      assert ab[0] == a[0];
      assert ab[1..] == a[1..] + b;
      ReplaceCharHead(ab, c, rep);
      ReplaceCharHead(a, c, rep);
      ReplaceCharAppend(a[1..], b, c, rep);
      var h := if a[0] == c then rep else [a[0]];
      var x := ReplaceAll(a[1..], [c], rep);
      var y := ReplaceAll(b, [c], rep);
      assert h + (x + y) == (h + x) + y;
    }
  }

  /** Replacing one character is a character-by-character map. */
  lemma {:induction false} ReplaceCharHead(s: string, c: char, rep: string)
    requires |s| > 0
    ensures ReplaceAll(s, [c], rep) == (if s[0] == c then rep else [s[0]]) + ReplaceAll(s[1..], [c], rep)
  {
    assert StartsWith(s, [c]) <==> s[0] == c;
  }

  /** The source's two replacements equal the character-by-character escape. */
  lemma {:induction false} EscapeQuotedEach(s: string)
    ensures EscapeQuoted(s) == EscapeEach(s)
    decreases |s|
  {
    if |s| > 0 {
      var c := s[0];
      ReplaceCharHead(s, '\\', "\\\\");
      var d := if c == '\\' then "\\\\" else [c];
      var rest := ReplaceAll(s[1..], "\\", "\\\\");
      assert ReplaceAll(s, "\\", "\\\\") == d + rest;
      ReplaceCharAppend(d, rest, '"', "\\\"");
      if c == '\\' {
        assert ReplaceAll(d, "\"", "\\\"") == "\\\\" by {
          ReplaceCharHead(d, '"', "\\\"");
          ReplaceCharHead(d[1..], '"', "\\\"");
        }
      } else {
        assert ReplaceAll(d, "\"", "\\\"") == EscapeChar(c) by {
          ReplaceCharHead(d, '"', "\\\"");
        }
      }
      EscapeQuotedEach(s[1..]);
    }
  }

  /** The escape never starts with a quote. */
  lemma {:induction false} EscapeEachHead(s: string)
    ensures |EscapeEach(s)| > 0 ==> EscapeEach(s)[0] != '"'
  {
  }

  /** Backslashes doubled, nothing else changed. */
  function DoubleBackslashes(s: string): string
    decreases |s|
  {
    if |s| == 0 then [] else (if s[0] == '\\' then "\\\\" else [s[0]]) + DoubleBackslashes(s[1..])
  }

  /** `ReplaceAll` past a first character that does not start the pattern. */
  lemma {:induction false} ReplaceSkipChar(c: char, x: string, pat: string, rep: string)
    requires |pat| > 0 && pat[0] != c
    ensures ReplaceAll([c] + x, pat, rep) == [c] + ReplaceAll(x, pat, rep)
  {
    var e := [c] + x;
    assert e[0] == c;
    assert !StartsWith(e, pat);
    assert e[1..] == x;
  }

  /** `ReplaceAll` past a first character where the pattern does not start. */
  lemma {:induction false} ReplaceNoMatch(s: string, pat: string, rep: string)
    requires |pat| > 0 && |s| > 0 && !StartsWith(s, pat)
    ensures ReplaceAll(s, pat, rep) == [s[0]] + ReplaceAll(s[1..], pat, rep)
  {
  }

  /** `ReplaceAll` of a leading occurrence of the pattern. */
  lemma {:induction false} ReplaceSkipPattern(x: string, pat: string, rep: string)
    requires |pat| > 0
    ensures ReplaceAll(pat + x, pat, rep) == rep + ReplaceAll(x, pat, rep)
  {
    var e := pat + x;
    assert e[..|pat|] == pat;
    assert e[|pat|..] == x;
  }

  /** Undoing the quote escapes of `EscapeEach` leaves the doubled backslashes. */
  /** A prefix in which no occurrence of the pattern starts is kept as it is. */
  lemma {:induction false} ReplaceKeepPrefix(u: string, x: string, pat: string, rep: string)
    requires |pat| > 0
    requires forall k :: 0 <= k < |u| ==> !StartsWith((u + x)[k..], pat)
    ensures ReplaceAll(u + x, pat, rep) == u + ReplaceAll(x, pat, rep)
    decreases |u|
  {
    if |u| == 0 {
      assert u + x == x;
    } else {
      var s := u + x;
      var v := u[1..];
      assert s[0..] == s;
      ReplaceNoMatch(s, pat, rep);
      assert s[1..] == v + x;
      forall k | 0 <= k < |v| ensures !StartsWith((v + x)[k..], pat) {
        assert (v + x)[k..] == s[k + 1..];
      }
      ReplaceKeepPrefix(v, x, pat, rep);
      assert u == [s[0]] + v;
    }
  }

  /** An escaped backslash followed by anything but a quote is left alone. */
  lemma {:induction false} UnescapeBackslashPair(x: string)
    requires |x| == 0 || x[0] != '"'
    ensures ReplaceAll("\\\\" + x, "\\\"", "\"") == "\\\\" + ReplaceAll(x, "\\\"", "\"")
  {
    var z := "\\\\" + x;
    forall k | 0 <= k < 2 ensures !StartsWith(z[k..], "\\\"") {
      if |z[k..]| >= 2 {
        assert z[k..][..2][1] == z[k + 1];
      }
    }
    ReplaceKeepPrefix("\\\\", x, "\\\"", "\"");
  }

  lemma {:induction false} UnescapeQuotes(s: string)
    ensures ReplaceAll(EscapeEach(s), "\\\"", "\"") == DoubleBackslashes(s)
    decreases |s|
  {
    if |s| > 0 {
      var c := s[0];
      var x := EscapeEach(s[1..]);
      UnescapeQuotes(s[1..]);
      if c == '\\' {
        assert EscapeEach(s) == "\\\\" + x;
        EscapeEachHead(s[1..]);
        UnescapeBackslashPair(x);
      } else if c == '"' {
        assert EscapeEach(s) == "\\\"" + x;
        ReplaceSkipPattern(x, "\\\"", "\"");
      } else {
        assert EscapeEach(s) == [c] + x;
        ReplaceSkipChar(c, x, "\\\"", "\"");
      }
    }
  }

  /** Collapsing doubled backslashes undoes `DoubleBackslashes`. */
  lemma {:induction false} UndoubleBackslashes(s: string)
    ensures ReplaceAll(DoubleBackslashes(s), "\\\\", "\\") == s
    decreases |s|
  {
    if |s| > 0 {
      var c := s[0];
      var x := DoubleBackslashes(s[1..]);
      UndoubleBackslashes(s[1..]);
      if c == '\\' {
        assert DoubleBackslashes(s) == "\\\\" + x;
        ReplaceSkipPattern(x, "\\\\", "\\");
      } else {
        assert DoubleBackslashes(s) == [c] + x;
        ReplaceSkipChar(c, x, "\\\\", "\\");
      }
      assert s == [c] + s[1..];
    }
  }

  /** The parser's unquoting inverts the generator's escaping, for every string. */
  lemma {:induction false} UnquoteEscaped(s: string)
    ensures UnquoteValue("\"" + EscapeQuoted(s) + "\"") == s
  {
    var v := "\"" + EscapeQuoted(s) + "\"";
    assert v[1..|v| - 1] == EscapeQuoted(s);
    EscapeQuotedEach(s);
    UnescapeQuotes(s);
    UndoubleBackslashes(s);
  }
}
