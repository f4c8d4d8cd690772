/** What the reference parser guarantees about its result: when a message is
    valid, where the parts come from, which line endings each mode accepts, and
    that no part body holds a delimiter line. */
module ParserFacts {
  import opened Wrappers
  import opened Text
  import opened Rfc5987
  import opened Params
  import opened Parts
  import opened Parser

  // ---------------------------------------------------------------------------
  // The verdict

  /** A missing or empty boundary is rejected before the body is looked at. */
  lemma {:induction false} NoBoundaryRejected(body: string, strict: bool, charsets: CharsetTable)
    ensures Parse(body, None, strict, charsets) == Fail(InvalidBoundary)
    ensures Parse(body, Some([]), strict, charsets) == Fail(InvalidBoundary)
  {
  }

  /** A body without the delimiter is a boundary mismatch. */
  lemma {:induction false} NoDelimiterRejected(body: string, boundary: string, strict: bool, charsets: CharsetTable)
    requires boundary != [] && !Contains(body, Delimiter(boundary))
    ensures Parse(body, Some(boundary), strict, charsets) == Fail(BoundaryMismatch)
  {
  }

  /** A message is valid exactly when the scan succeeds and the close delimiter
      occurs; a scan that succeeds without it is `missing_terminator` and keeps
      the parts found, and every other failure has no parts. */
  lemma {:induction false} Verdict(body: string, boundary: string, strict: bool, charsets: CharsetTable)
    requires boundary != []
    ensures var r := Parse(body, Some(boundary), strict, charsets);
      var s := ScanBody(body, Delimiter(boundary), strict, charsets);
      && (r.valid <==> s.Scanned? && Contains(body, CloseDelimiter(boundary)))
      && (r.error == Some(MissingTerminator) <==> s.Scanned? && !Contains(body, CloseDelimiter(boundary)))
      && (s.Scanned? ==> r.parts == s.parts)
      && (s.Failed? ==> r == Fail(s.error))
  {
  }

  /** The scan of a body whose first delimiter is at `i`. */
  lemma {:induction false} ScanBodyAt(body: string, delim: string, i: nat, strict: bool, charsets: CharsetTable)
    requires Find(body, delim) == Some(i)
    ensures i + |delim| <= |body|
    ensures ScanBody(body, delim, strict, charsets) == ScanAfterDelimiter(body[i + |delim|..], delim, strict, charsets)
  {
    assert MatchAt(body, delim, i);
    var tail := body[i + |delim|..];
    assert ScanBody(body, delim, strict, charsets) == ScanAfterDelimiter(tail, delim, strict, charsets);
  }

  // ---------------------------------------------------------------------------
  // The preamble

  /** The scan does not see a preamble holding no delimiter. */
  lemma {:induction false} ScanIgnoresPreamble(preamble: string, body: string, delim: string, strict: bool, charsets: CharsetTable)
    requires forall j :: 0 <= j < |preamble| ==> !MatchAt(preamble + body, delim, j)
    ensures ScanBody(preamble + body, delim, strict, charsets) == ScanBody(body, delim, strict, charsets)
  {
    PreambleTail(preamble, body, delim);
    ScanBodySameTail(preamble + body, body, delim, strict, charsets);
  }

  /** Both texts have a first delimiter or neither has, and what follows it is the same. */
  predicate SameFirstTail(s: string, t: string, delim: string) {
    && (Find(s, delim).Some? <==> Find(t, delim).Some?)
    && (Find(s, delim).Some? ==>
          var i, j := Find(s, delim).value, Find(t, delim).value;
          i + |delim| <= |s| && j + |delim| <= |t| && s[i + |delim|..] == t[j + |delim|..])
  }

  lemma {:induction false} PreambleTail(preamble: string, body: string, delim: string)
    requires forall j :: 0 <= j < |preamble| ==> !MatchAt(preamble + body, delim, j)
    ensures SameFirstTail(preamble + body, body, delim)
  {
    FindAfterPrefix(preamble, body, delim);
    if Find(body, delim).Some? {
      var i := Find(body, delim).value;
      assert MatchAt(body, delim, i);
      DropPastPrefix(preamble, body, i + |delim|);
    }
  }

  lemma {:induction false} ScanBodySameTail(s: string, t: string, delim: string, strict: bool, charsets: CharsetTable)
    requires SameFirstTail(s, t, delim)
    ensures ScanBody(s, delim, strict, charsets) == ScanBody(t, delim, strict, charsets)
  {
  }

  lemma {:induction false} DropPastPrefix(p: string, b: string, k: nat)
    requires k <= |b|
    ensures (p + b)[|p| + k..] == b[k..]
  {
  }

  /** Nor does the search for the close delimiter, which begins with a delimiter. */
  lemma {:induction false} CloseIgnoresPreamble(preamble: string, body: string, boundary: string)
    requires forall j :: 0 <= j < |preamble| ==> !MatchAt(preamble + body, Delimiter(boundary), j)
    ensures Contains(preamble + body, CloseDelimiter(boundary)) <==> Contains(body, CloseDelimiter(boundary))
  {
    var s := preamble + body;
    forall j | 0 <= j < |preamble|
      ensures !MatchAt(s, CloseDelimiter(boundary), j)
    {
      if MatchAt(s, CloseDelimiter(boundary), j) {
        MatchAtLonger(s, Delimiter(boundary), "--", j);
      }
    }
    FindAfterPrefix(preamble, body, CloseDelimiter(boundary));
  }

  /** Text before the first delimiter is ignored: when no delimiter starts inside
      the preamble, the message parses as it would without it. */
  lemma {:induction false} PreambleIgnored(preamble: string, body: string, boundary: string, strict: bool, charsets: CharsetTable)
    requires boundary != []
    requires forall j :: 0 <= j < |preamble| ==> !MatchAt(preamble + body, Delimiter(boundary), j)
    ensures Parse(preamble + body, Some(boundary), strict, charsets) == Parse(body, Some(boundary), strict, charsets)
  {
    ScanIgnoresPreamble(preamble, body, Delimiter(boundary), strict, charsets);
    CloseIgnoresPreamble(preamble, body, boundary);
  }

  // ---------------------------------------------------------------------------
  // Line endings

  /** In strict mode a bare LF right after the first delimiter is `truncated`, as
      is a delimiter at the very end of the body in either mode. */
  lemma {:induction false} BareLfAfterFirstDelimiter(body: string, boundary: string, strict: bool, charsets: CharsetTable)
    requires boundary != []
    requires Find(body, Delimiter(boundary)).Some?
    requires var e := Find(body, Delimiter(boundary)).value + |Delimiter(boundary)|;
      e == |body| || (strict && body[e] == LF)
    ensures Parse(body, Some(boundary), strict, charsets) == Fail(Truncated)
  {
  }

  /** A header block with no complete first line is invalid. */
  lemma {:induction false} NoFirstLine(rest: string, strict: bool, h: Headers)
    requires |rest| > 0 && !StartsWith(rest, CRLF) && (strict || rest[0] != LF)
    requires LineEnd(rest, strict).None?
    ensures ParseHeaders(rest, strict, h).None?
  {
    assert ParseHeaders(rest, strict, h) == ParseHeadersFrom(rest, strict, h);
  }

  /** In `rest`, no CRLF comes before the first LF when that LF follows no CR. */
  lemma {:induction false} BareLfFirst(rest: string)
    requires IndexOf(rest, LF).Some?
    requires var k := IndexOf(rest, LF).value; k == 0 || rest[k - 1] != CR
    ensures !StartsWith(rest, CRLF)
    ensures Find(rest, CRLF).None? || Find(rest, CRLF).value > IndexOf(rest, LF).value
  {
    var k := IndexOf(rest, LF).value;
    assert forall m :: 0 <= m < k ==> rest[m] != LF by {
      forall m | 0 <= m < k ensures rest[m] != LF {
        assert rest[..k][m] == rest[m];
      }
    }
    assert |rest| < 2 || rest[0] != CR || rest[1] != LF;
    if |rest| >= 2 {
      assert rest[..2][0] == rest[0] && rest[..2][1] == rest[1];
    }
    var crlf := Find(rest, CRLF);
    if crlf.Some? {
      var c := crlf.value;
      assert rest[c..c + 2] == CRLF;
      assert rest[c..c + 2][0] == rest[c] && rest[c..c + 2][1] == rest[c + 1];
    }
  }

  /** In strict mode a header block whose first LF is not preceded by CR is invalid. */
  lemma {:induction false} StrictBareLfInHeaders(rest: string, h: Headers)
    requires IndexOf(rest, LF).Some?
    requires var k := IndexOf(rest, LF).value; k == 0 || rest[k - 1] != CR
    ensures ParseHeaders(rest, true, h).None?
  {
    BareLfFirst(rest);
    NoFirstLine(rest, true, h);
  }

  /** Either mode: a header block with no line ending at all is invalid. */
  lemma {:induction false} NoLineEndInHeaders(rest: string, strict: bool, h: Headers)
    requires LF !in rest
    ensures ParseHeaders(rest, strict, h).None?
  {
    if |rest| > 0 {
      forall j: nat | j + 2 <= |rest|
        ensures !MatchAt(rest, CRLF, j)
      {
        assert rest[j + 1] in rest;
        assert rest[j..j + 2][1] == rest[j + 1];
      }
      assert !MatchAt(rest, CRLF, 0);
      assert rest[0] in rest;
      NoFirstLine(rest, strict, h);
    }
  }

  // ---------------------------------------------------------------------------
  // Where a part comes from

  /** A `name: value` line sets the stripped name to the stripped value, in place
      of any earlier value of that name, and leaves every other header alone. */
  lemma {:induction false} HeaderLineSets(h: Headers, line: string, name: string, value: string)
    requires UniqueKeys(h)
    requires SplitFirst(line, ':') == Some((name, value))
    ensures HeaderLine(h, line).Some?
    ensures var r := HeaderLine(h, line).value;
      && Lookup(r, Strip(name)) == Some(Strip(value))
      && UniqueKeys(r)
      && forall k :: k != Strip(name) ==> Lookup(r, k) == Lookup(h, k)
  {
    var r := HeaderLine(h, line).value;
    SetHeaderLookup(h, Strip(name), Strip(value), Strip(name));
    forall k | k != Strip(name) ensures Lookup(r, k) == Lookup(h, k) {
      SetHeaderOther(h, Strip(name), Strip(value), k);
    }
  }

  /** A folded line (led by a space or tab, without a colon) extends the value of
      the last header by one space and the stripped line, in either mode. */
  lemma {:induction false} HeaderLineFolds(h: Headers, line: string)
    requires UniqueKeys(h) && |h| > 0
    requires ':' !in line && |line| > 0 && (line[0] == ' ' || line[0] == '\t')
    ensures HeaderLine(h, line).Some?
    ensures var r := HeaderLine(h, line).value;
      var last := h[|h| - 1];
      && Lookup(h, last.0) == Some(last.1)
      && Lookup(r, last.0) == Some(last.1 + " " + Strip(line))
      && UniqueKeys(r) && |r| == |h|
      && forall k :: k != last.0 ==> Lookup(r, k) == Lookup(h, k)
  {
    var last := h[|h| - 1];
    var r := HeaderLine(h, line).value;
    LookupLast(h);
    SetHeaderLookup(h, last.0, last.1 + " " + Strip(line), last.0);
    forall k | k != last.0 ensures Lookup(r, k) == Lookup(h, k) {
      SetHeaderOther(h, last.0, last.1 + " " + Strip(line), k);
    }
  }

  /** With distinct keys, the last entry is what its key looks up. */
  lemma {:induction false} LookupLast(h: Headers)
    requires UniqueKeys(h) && |h| > 0
    ensures Lookup(h, h[|h| - 1].0) == Some(h[|h| - 1].1)
    decreases |h|
  {
    if |h| > 1 {
      assert h[0].0 != h[|h| - 1].0;
      assert h[1..][|h| - 2] == h[|h| - 1];
      assert UniqueKeys(h[1..]) by {
        forall i, j | 0 <= i < j < |h[1..]| ensures h[1..][i].0 != h[1..][j].0 {
          assert h[1..][i] == h[i + 1] && h[1..][j] == h[j + 1];
        }
      }
      LookupLast(h[1..]);
    }
  }

  /** A part of one loop pass is built from the header block at the front of the
      input: its name is the `name` parameter of the first Content-Disposition
      header, its headers are that block with lower-cased keys, and its body runs
      from the blank line to the first delimiter line. */
  lemma {:induction false} StepPart(rest: string, delim: string, strict: bool, charsets: CharsetTable)
    requires |rest| > 0
    ensures var s := ScanStep(rest, delim, strict, charsets);
      var ph := ParseHeaders(rest, strict, []);
      !s.Stop? ==>
        && ph.Some?
        && var (headers, after) := ph.value;
           var cd := FirstHeader(headers, "content-disposition");
           && cd.Some?
           && var d := ParseContentDisposition(cd.value, charsets);
              var end := FindNextBoundary(after, delim, strict);
              && d.name.Some?
              && end.Some?
              && s.part == MakePart(d, headers, after[..end.value])
    ensures var s := ScanStep(rest, delim, strict, charsets);
      var ph := ParseHeaders(rest, strict, []);
      && (s == Stop(InvalidHeader) <==> ph.None?)
      && (s == Stop(MissingContentDisposition) <==>
            ph.Some? && FirstHeader(ph.value.0, "content-disposition").None?)
    ensures var s := ScanStep(rest, delim, strict, charsets);
      var ph := ParseHeaders(rest, strict, []);
      && (s == Stop(MissingName) <==>
            && ph.Some?
            && var cd := FirstHeader(ph.value.0, "content-disposition");
               cd.Some? && ParseContentDisposition(cd.value, charsets).name.None?)
      && (s == Stop(Truncated) <==>
            && ph.Some?
            && var cd := FirstHeader(ph.value.0, "content-disposition");
               && cd.Some? && ParseContentDisposition(cd.value, charsets).name.Some?
               && FindNextBoundary(ph.value.1, delim, strict).None?)
  {
    var s := ScanStep(rest, delim, strict, charsets);
    var ph := ParseHeaders(rest, strict, []);
    if ph.Some? {
      var (headers, after) := ph.value;
      assert s == StepAfterHeaders(headers, after, delim, strict, charsets);
      HeadersStepPart(headers, after, delim, strict, charsets);
    }
  }

  lemma {:induction false} HeadersStepPart(headers: Headers, after: string, delim: string, strict: bool, charsets: CharsetTable)
    ensures var s := StepAfterHeaders(headers, after, delim, strict, charsets);
      var cd := FirstHeader(headers, "content-disposition");
      && s != Stop(InvalidHeader)
      && (s == Stop(MissingContentDisposition) <==> cd.None?)
      && (s == Stop(MissingName) <==> cd.Some? && ParseContentDisposition(cd.value, charsets).name.None?)
      && (s == Stop(Truncated) <==>
            && cd.Some? && ParseContentDisposition(cd.value, charsets).name.Some?
            && FindNextBoundary(after, delim, strict).None?)
      && (!s.Stop? ==>
            && cd.Some?
            && var d := ParseContentDisposition(cd.value, charsets);
               var end := FindNextBoundary(after, delim, strict);
               && d.name.Some?
               && end.Some?
               && s.part == MakePart(d, headers, after[..end.value]))
  {
    var s := StepAfterHeaders(headers, after, delim, strict, charsets);
    var cd := FirstHeader(headers, "content-disposition");
    if cd.Some? {
      var d := ParseContentDisposition(cd.value, charsets);
      assert s == StepWithDisposition(d, headers, after, delim, strict);
      DispositionStepPart(d, headers, after, delim, strict);
    }
  }

  lemma {:induction false} DispositionStepPart(d: Disposition, headers: Headers, after: string, delim: string, strict: bool)
    ensures var s := StepWithDisposition(d, headers, after, delim, strict);
      var end := FindNextBoundary(after, delim, strict);
      && s != Stop(InvalidHeader) && s != Stop(MissingContentDisposition)
      && (s == Stop(MissingName) <==> d.name.None?)
      && (s == Stop(Truncated) <==> d.name.Some? && end.None?)
      && (s.Stop? && d.name.Some? && end.Some? ==> s == Stop(BoundaryMismatch))
      && (!s.Stop? ==> d.name.Some? && end.Some? && s.part == MakePart(d, headers, after[..end.value]))
  {
    var s := StepWithDisposition(d, headers, after, delim, strict);
    if d.name.Some? {
      var end := FindNextBoundary(after, delim, strict);
      if end.Some? {
        var p := MakePart(d, headers, after[..end.value]);
        assert s == AfterBody(p, after[end.value..], delim, strict);
      }
    }
  }

  /** No part of a parse result holds a delimiter line: in strict mode no
      CRLF + delimiter, in lenient mode no LF + delimiter either. */
  lemma {:induction false} PartBodiesClear(body: string, boundary: string, strict: bool, charsets: CharsetTable)
    requires boundary != []
    ensures var r := Parse(body, Some(boundary), strict, charsets);
      forall i :: 0 <= i < |r.parts| ==> Clear(r.parts[i].body, Delimiter(boundary), strict)
  {
    var delim := Delimiter(boundary);
    var i := Find(body, delim);
    if i.Some? {
      var after := body[i.value + |delim|..];
      ScanBodyAt(body, delim, i.value, strict, charsets);
      var rest := SkipLineEnding(after, strict);
      if rest.Some? {
        assert ScanAfterDelimiter(after, delim, strict, charsets) == ScanParts(rest.value, delim, strict, charsets);
      }
    }
    Verdict(body, boundary, strict, charsets);
  }

  /** Every key of a parsed part's headers is lower case. */
  lemma {:induction false} LowerKeysAreLower(h: Headers)
    ensures forall i :: 0 <= i < |LowerKeys(h)| ==> Lower(LowerKeys(h)[i].0) == LowerKeys(h)[i].0
    decreases |h|
  {
    if |h| > 0 {
      var init := LowerKeys(h[..|h| - 1]);
      var last := h[|h| - 1];
      LowerKeysAreLower(h[..|h| - 1]);
      LowerIdempotent(last.0);
      forall i | 0 <= i < |LowerKeys(h)|
        ensures Lower(LowerKeys(h)[i].0) == LowerKeys(h)[i].0
      {
        SetHeaderKeys(init, Lower(last.0), last.1, i);
      }
    }
  }

  // ---------------------------------------------------------------------------
  // Prefix matching of the delimiter

  /** A delimiter is recognised by prefix: whatever follows `CRLF --boundary`, the
      body ends there, provided no delimiter line starts earlier. */
  lemma {:induction false} DelimiterEndsBody(body: string, delim: string, x: string, strict: bool)
    requires forall j :: 0 <= j < |body| ==> NoDelimiterAt(body + CRLF + delim + x, delim, strict, j)
    ensures FindNextBoundary(body + CRLF + delim + x, delim, strict) == Some(|body|)
  {
    var s := body + CRLF + delim + x;
    assert s == body + (CRLF + delim) + x;
    assert s[|body|..|body| + |CRLF + delim|] == CRLF + delim;
    assert MatchAt(s, CRLF + delim, |body|);
    assert forall j :: 0 <= j < |body| ==> !MatchAt(s, CRLF + delim, j) by {
      forall j | 0 <= j < |body| ensures !MatchAt(s, CRLF + delim, j) {
        assert NoDelimiterAt(s, delim, strict, j);
      }
    }
    assert Find(s, CRLF + delim) == Some(|body|);
    if !strict {
      assert forall j :: 0 <= j < |body| ==> !MatchAt(s, [LF] + delim, j) by {
        forall j | 0 <= j < |body| ensures !MatchAt(s, [LF] + delim, j) {
          assert NoDelimiterAt(s, delim, strict, j);
        }
      }
      assert s[|body|] == CR;
      assert !MatchAt(s, [LF] + delim, |body|) by {
        if |body| + 1 + |delim| <= |s| {
          assert s[|body|..|body| + 1 + |delim|][0] == CR;
        }
      }
    }
  }

  /** So `--boundaryX` ends a part just as `--boundary` does, and the next part
      starts at `X` when `X` begins with neither `--` nor a line ending. */
  lemma {:induction false} PrefixDelimiterStartsNextPart(p: Part, delim: string, x: string, strict: bool)
    requires |delim| > 0 && |x| > 0 && x[0] != LF && !StartsWith(x, "--") && !StartsWith(x, CRLF)
    ensures AfterBody(p, CRLF + delim + x, delim, strict) == Next(p, x)
  {
    var tail := CRLF + delim + x;
    assert StartsWith(tail, CRLF);
    var t := tail[2..];
    assert t == delim + x;
    assert t[|delim|..] == x;
    assert !StartsWith(t, delim + "--") by {
      if |t| >= |delim| + 2 {
        assert t[|delim|..|delim| + 2] == x[..2];
        assert (delim + "--")[|delim|..] == "--";
      }
    }
  }
}
