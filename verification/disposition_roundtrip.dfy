/** The Content-Disposition value the generator writes, read back by the
    reference parser: `form-data`, then `name="…"` and, for a file,
    `filename="…"` with the filename escaped.  Splitting the value at the
    separators outside quotes gives back the tokens the generator joined, and
    unquoting each parameter gives back the raw name and filename. */
module DispositionRoundTrip {
  import opened Wrappers
  import opened Text
  import opened Rfc5987
  import opened Params
  import opened Builder
  import Boundary

  // ---------------------------------------------------------------------------
  // Runs of the tokenizer

  /** Inside a quoted string, no escape pending. */
  const InQuotes: ScanState := ScanState(true, false)

  /** Reading `s` from state `from` meets no separator and ends in state `to`. */
  predicate Run(s: string, from: ScanState, to: ScanState) {
    NoSeparator(s, from) && StateAfter(s, from) == to
  }

  lemma {:induction false} RunAppend(a: string, b: string, st: ScanState)
    ensures StateAfter(a + b, st) == StateAfter(b, StateAfter(a, st))
    ensures NoSeparator(a + b, st) <==> NoSeparator(a, st) && NoSeparator(b, StateAfter(a, st))
    decreases |a|
  {
    if |a| == 0 {
      assert a + b == b;
    } else {
      assert (a + b)[0] == a[0] && (a + b)[1..] == a[1..] + b;
      RunAppend(a[1..], b, Step(st, a[0]));
    }
  }

  /** Two runs one after the other are a run. */
  lemma {:induction false} RunJoin(a: string, b: string, x: ScanState, y: ScanState, z: ScanState)
    requires Run(a, x, y) && Run(b, y, z)
    ensures Run(a + b, x, z)
  {
    RunAppend(a, b, x);
  }

  /** Outside quotes, text with no quote, backslash or ';' leaves the state alone. */
  lemma {:induction false} PlainRun(s: string)
    requires Avoids(s, {'"', '\\', ';'})
    ensures Run(s, Outside, Outside)
    decreases |s|
  {
    if |s| > 0 {
      PlainRun(s[1..]);
    }
  }

  /** Inside quotes, text with no quote and no backslash leaves the state alone;
      a ';' there separates nothing. */
  lemma {:induction false} QuotedPlainRun(s: string)
    requires Avoids(s, {'"', '\\'})
    ensures Run(s, InQuotes, InQuotes)
    decreases |s|
  {
    if |s| > 0 {
      QuotedPlainRun(s[1..]);
    }
  }

  /** Inside quotes, one escaped character is read as a whole. */
  lemma {:induction false} EscapeCharRun(c: char)
    ensures Run(EscapeChar(c), InQuotes, InQuotes)
  {
    var e := EscapeChar(c);
    if c == '\\' || c == '"' {
      assert e == ['\\', c] && e[1..] == [c] && [c][1..] == [];
      var esc := ScanState(true, true);
      assert Step(InQuotes, '\\') == esc;
      assert NoSeparator([c], esc) && StateAfter([c], esc) == InQuotes;
      assert NoSeparator(e, InQuotes) && StateAfter(e, InQuotes) == StateAfter([c], esc);
    } else {
      assert e == [c] && e[1..] == [];
    }
  }

  /** Inside quotes, an escaped text is read to its end without leaving the quotes. */
  lemma {:induction false} EscapedRun(s: string)
    ensures Run(EscapeEach(s), InQuotes, InQuotes)
    decreases |s|
  {
    if |s| > 0 {
      EscapeCharRun(s[0]);
      EscapedRun(s[1..]);
      RunJoin(EscapeChar(s[0]), EscapeEach(s[1..]), InQuotes, InQuotes, InQuotes);
    }
  }

  /** A quote opens and closes a quoted string. */
  lemma {:induction false} QuoteRuns()
    ensures Run("\"", Outside, InQuotes) && Run("\"", InQuotes, Outside)
  {
  }

  // ---------------------------------------------------------------------------
  // Tokens

  /** Tokens that hold no separator and leave no quote open come back out of the
      tokenizer when joined with ';' (a final empty token would be dropped). */
  lemma {:induction false} TokenizeJoin(tokens: seq<string>)
    requires |tokens| > 0
    requires forall i :: 0 <= i < |tokens| ==> |tokens[i]| > 0 && Run(tokens[i], Outside, Outside)
    ensures Tokenize(Join(tokens, ";")) == tokens
    decreases |tokens|
  {
    var t := tokens[0];
    assert Run(t, Outside, Outside);
    if |tokens| == 1 {
      TokSkip(t, "", Outside, "");
      assert t + "" == t && "" + t == t;
    } else {
      var rest := tokens[1..];
      assert forall i :: 0 <= i < |rest| ==> rest[i] == tokens[i + 1];
      TokenizeJoin(rest);
      var j := Join(rest, ";");
      assert Join(tokens, ";") == t + (";" + j);
      TokSkip(t, ";" + j, Outside, "");
      assert "" + t == t;
      SeparatorStep(j, t);
    }
  }

  /** A ';' outside quotes ends the current token. */
  lemma {:induction false} SeparatorStep(j: string, cur: string)
    ensures Tok(";" + j, Outside, cur) == [cur] + Tok(j, Outside, "")
  {
    assert (";" + j)[0] == ';' && (";" + j)[1..] == j;
  }

  /** A parameter as the generator writes it: a space, the key, '=', then the
      escaped value in quotes. */
  function QuotedToken(key: string, raw: string): string {
    " " + key + "=\"" + EscapeQuoted(raw) + "\""
  }

  /** A parameter key the generator writes. */
  predicate GeneratedKey(key: string) {
    key == "name" || key == "filename"
  }

  /** What the parameter reader asks of a key to read it back unchanged. */
  predicate PlainKey(key: string) {
    && |key| > 0 && Avoids(key, {'"', '\\', ';', '='})
    && !IsSpace(key[0]) && !IsSpace(key[|key| - 1]) && Lower(key) == key
  }

  lemma {:induction false} GeneratedKeysPlain(key: string)
    requires GeneratedKey(key)
    ensures PlainKey(key)
  {
    if key == "name" {
      NameKeyPlain();
    } else {
      FilenameKeyPlain();
    }
  }

  lemma {:induction false} NameKeyPlain()
    ensures PlainKey("name")
  {
    NameKeyAvoids();
    NameKeyLower();
  }

  lemma {:induction false} NameKeyAvoids()
    ensures Avoids("name", {'"', '\\', ';', '='})
  {
    var k := "name";
    assert forall i | 0 <= i < |k| :: k[i] !in {'"', '\\', ';', '='};
    AvoidsByIndex(k, {'"', '\\', ';', '='});
  }

  lemma {:induction false} NameKeyLower()
    ensures Lower("name") == "name"
  {
    var k := "name";
    assert forall i | 0 <= i < |k| :: !('A' <= k[i] <= 'Z');
    Boundary.LowerOfLower(k);
  }

  lemma {:induction false} FilenameKeyPlain()
    ensures PlainKey("filename")
  {
    FilenameKeyAvoids();
    FilenameKeyLower();
  }

  lemma {:induction false} FilenameKeyAvoids()
    ensures Avoids("filename", {'"', '\\', ';', '='})
  {
    var k := "filename";
    assert forall i | 0 <= i < |k| :: k[i] !in {'"', '\\', ';', '='};
    AvoidsByIndex(k, {'"', '\\', ';', '='});
  }

  lemma {:induction false} FilenameKeyLower()
    ensures Lower("filename") == "filename"
  {
    var k := "filename";
    assert forall i | 0 <= i < |k| :: !('A' <= k[i] <= 'Z');
    Boundary.LowerOfLower(k);
  }

  /** A quoted parameter leaves no quote open and holds no separator. */
  lemma {:induction false} QuotedTokenRun(key: string, raw: string)
    requires PlainKey(key)
    ensures Run(QuotedToken(key, raw), Outside, Outside) && |QuotedToken(key, raw)| > 0
  {
    var e := EscapeQuoted(raw);
    AvoidsFewer(key, {'"', '\\', ';', '='}, {'"', '\\', ';'});
    SpaceKeyEquals(key);
    PlainRun(" " + key + "=");
    QuoteRuns();
    EscapeQuotedEach(raw);
    EscapedRun(raw);
    RunJoin(" " + key + "=", "\"", Outside, Outside, InQuotes);
    RunJoin(" " + key + "=" + "\"", e, Outside, InQuotes, InQuotes);
    RunJoin(" " + key + "=" + "\"" + e, "\"", Outside, InQuotes, Outside);
    assert " " + key + "=" + "\"" + e + "\"" == QuotedToken(key, raw);
  }

  lemma {:induction false} SpaceKeyEquals(key: string)
    requires Avoids(key, {'"', '\\', ';'})
    ensures Avoids(" " + key + "=", {'"', '\\', ';'})
  {
    AvoidsAppend(" ", key, {'"', '\\', ';'});
    AvoidsAppend(" " + key, "=", {'"', '\\', ';'});
  }

  /** The parameter reader gives back the key and the raw value. */
  lemma {:induction false} QuotedParam(key: string, raw: string)
    requires PlainKey(key)
    ensures Param(QuotedToken(key, raw)) == Some((key, raw))
  {
    var quoted := "\"" + EscapeQuoted(raw) + "\"";
    QuotedStrip(key, raw);
    AvoidsNotIn(key, {'"', '\\', ';', '='}, '=');
    StripBare(key);
    StripBare(quoted);
    ParamSplit(QuotedToken(key, raw), key, quoted, key, quoted);
    UnquoteEscaped(raw);
  }

  /** Stripping the token drops its leading space only. */
  lemma {:induction false} QuotedStrip(key: string, raw: string)
    requires |key| > 0 && !IsSpace(key[0])
    ensures Strip(QuotedToken(key, raw)) == key + "=" + ("\"" + EscapeQuoted(raw) + "\"")
  {
    var body := key + "=" + ("\"" + EscapeQuoted(raw) + "\"");
    assert QuotedToken(key, raw) == " " + body;
    assert body[|body| - 1] == '"' && body[0] == key[0];
    StripLeadingSpace(body);
  }

  // ---------------------------------------------------------------------------
  // The Content-Disposition value

  /** The tokens of the value the generator writes. */
  function DispositionTokens(name: string, filename: Option<string>): seq<string> {
    ["form-data", QuotedToken("name", name)]
    + (if filename.Some? then [QuotedToken("filename", filename.value)] else [])
  }

  /** A name with no quote and no backslash is written as it is. */
  lemma {:induction false} EscapePlain(s: string)
    requires Avoids(s, {'"', '\\'})
    ensures EscapeQuoted(s) == s
    decreases |s|
  {
    EscapeQuotedEach(s);
    if |s| > 0 {
      EscapePlain(s[1..]);
      EscapeQuotedEach(s[1..]);
      assert s == [s[0]] + s[1..];
    }
  }

  /** The value the generator writes is its tokens joined with ';'. */
  lemma {:induction false} DispositionJoin(name: string, filename: Option<string>)
    requires Avoids(name, {'"', '\\'})
    ensures "form-data; name=\"" + name + "\""
            + (if filename.Some? then "; filename=\"" + EscapeQuoted(filename.value) + "\"" else "")
         == Join(DispositionTokens(name, filename), ";")
  {
    EscapePlain(name);
    var tn := QuotedToken("name", name);
    NameText(name);
    if filename.Some? {
      var tf := QuotedToken("filename", filename.value);
      TokenText("; filename=\"", "filename", EscapeQuoted(filename.value));
      JoinThree("form-data", tn, tf);
    } else {
      JoinTwo("form-data", tn);
    }
  }

  /** The opening of the value is the type, `;` and the name token. */
  lemma {:induction false} NameText(name: string)
    requires EscapeQuoted(name) == name
    ensures "form-data; name=\"" + name + "\"" == "form-data" + ";" + QuotedToken("name", name)
  {
    TokenText("; name=\"", "name", name);
    assert "form-data; name=\"" == "form-data" + "; name=\"";
  }

  /** `; key="e"` is `;` followed by the token ` key="e"`. */
  lemma {:induction false} TokenText(prefix: string, key: string, e: string)
    requires prefix == "; " + key + "=\""
    ensures prefix + e + "\"" == ";" + (" " + key + "=\"" + e + "\"")
  {
  }

  lemma {:induction false} JoinTwo(a: string, b: string)
    ensures Join([a, b], ";") == a + ";" + b + ""
  {
    assert [a, b][1..] == [b];
  }

  lemma {:induction false} JoinThree(a: string, b: string, c: string)
    ensures Join([a, b, c], ";") == a + ";" + b + (";" + c)
  {
    assert [a, b, c][1..] == [b, c];
    JoinTwo(b, c);
  }

  /** The value the generator writes splits into its tokens. */
  lemma {:induction false} DispositionTokenized(name: string, filename: Option<string>)
    ensures Tokenize(Join(DispositionTokens(name, filename), ";")) == DispositionTokens(name, filename)
  {
    FormDataRun();
    NameTokenRun(name);
    if filename.Some? {
      FilenameTokenRun(filename.value);
      TokenizeThree("form-data", QuotedToken("name", name), QuotedToken("filename", filename.value));
    } else {
      TokenizeTwo("form-data", QuotedToken("name", name));
    }
  }

  lemma {:induction false} TokenizeTwo(a: string, b: string)
    requires |a| > 0 && Run(a, Outside, Outside) && |b| > 0 && Run(b, Outside, Outside)
    ensures Tokenize(Join([a, b], ";")) == [a, b]
  {
    TokenizeJoin([a, b]);
  }

  lemma {:induction false} TokenizeThree(a: string, b: string, c: string)
    requires |a| > 0 && Run(a, Outside, Outside) && |b| > 0 && Run(b, Outside, Outside)
    requires |c| > 0 && Run(c, Outside, Outside)
    ensures Tokenize(Join([a, b, c], ";")) == [a, b, c]
  {
    TokenizeJoin([a, b, c]);
  }

  lemma {:induction false} NameTokenRun(name: string)
    ensures Run(QuotedToken("name", name), Outside, Outside) && |QuotedToken("name", name)| > 0
  {
    NameKeyPlain();
    QuotedTokenRun("name", name);
  }

  lemma {:induction false} FilenameTokenRun(filename: string)
    ensures Run(QuotedToken("filename", filename), Outside, Outside) && |QuotedToken("filename", filename)| > 0
  {
    FilenameKeyPlain();
    QuotedTokenRun("filename", filename);
  }

  lemma {:induction false} NameParam(name: string)
    ensures Param(QuotedToken("name", name)) == Some(("name", name))
  {
    NameKeyPlain();
    QuotedParam("name", name);
  }

  lemma {:induction false} FilenameParam(filename: string)
    ensures Param(QuotedToken("filename", filename)) == Some(("filename", filename))
  {
    FilenameKeyPlain();
    QuotedParam("filename", filename);
  }

  lemma {:induction false} FormDataRun()
    ensures Run("form-data", Outside, Outside) && |"form-data"| > 0
  {
    var k := "form-data";
    assert forall i | 0 <= i < |k| :: k[i] !in {'"', '\\', ';'};
    AvoidsByIndex(k, {'"', '\\', ';'});
    PlainRun(k);
  }

  /** The parameters after the disposition type name the field and the file. */
  lemma {:induction false} DispositionParams(name: string, filename: Option<string>, charsets: CharsetTable)
    ensures var params := DispositionTokens(name, filename)[1..];
      && LastValue(params, "name") == Some(name)
      && LastValue(params, "filename") == filename
      && LastDecoded(params, charsets) == None
  {
    var tn := QuotedToken("name", name);
    if filename.Some? {
      var tf := QuotedToken("filename", filename.value);
      assert DispositionTokens(name, filename)[1..] == [tn, tf];
      NameFilenameParams(name, filename.value, charsets);
    } else {
      assert DispositionTokens(name, filename)[1..] == [tn];
      NameParams(name, charsets);
    }
  }

  lemma {:induction false} NameParams(name: string, charsets: CharsetTable)
    ensures var params := [QuotedToken("name", name)];
      && LastValue(params, "name") == Some(name)
      && LastValue(params, "filename") == None
      && LastDecoded(params, charsets) == None
  {
    NameParam(name);
    KeysDiffer();
    NameOnly(QuotedToken("name", name), name, charsets);
  }

  lemma {:induction false} NameFilenameParams(name: string, filename: string, charsets: CharsetTable)
    ensures var params := [QuotedToken("name", name), QuotedToken("filename", filename)];
      && LastValue(params, "name") == Some(name)
      && LastValue(params, "filename") == Some(filename)
      && LastDecoded(params, charsets) == None
  {
    NameParam(name);
    FilenameParam(filename);
    KeysDiffer();
    NameThenFilename(QuotedToken("name", name), QuotedToken("filename", filename), name, filename, charsets);
  }

  lemma {:induction false} KeysDiffer()
    ensures "name" != "filename" && "name" != "filename*" && "filename" != "filename*"
  {
    assert |"name"| == 4 && |"filename"| == 8 && |"filename*"| == 9;
  }

  lemma {:induction false} NameOnly(tn: string, name: string, charsets: CharsetTable)
    requires Param(tn) == Some(("name", name))
    requires "name" != "filename" && "name" != "filename*"
    ensures LastValue([tn], "name") == Some(name)
    ensures LastValue([tn], "filename") == None
    ensures LastDecoded([tn], charsets) == None
  {
    LastOne(tn, "name", name, "name");
    LastOne(tn, "name", name, "filename");
    LastOne(tn, "name", name, "filename*");
  }

  lemma {:induction false} NameThenFilename(tn: string, tf: string, name: string, filename: string, charsets: CharsetTable)
    requires Param(tn) == Some(("name", name)) && Param(tf) == Some(("filename", filename))
    requires "name" != "filename" && "name" != "filename*" && "filename" != "filename*"
    ensures LastValue([tn, tf], "name") == Some(name)
    ensures LastValue([tn, tf], "filename") == Some(filename)
    ensures LastDecoded([tn, tf], charsets) == None
  {
    LastTwo(tn, tf, "name", name, "filename", filename, "name");
    LastTwo(tn, tf, "name", name, "filename", filename, "filename");
    LastTwo(tn, tf, "name", name, "filename", filename, "filename*");
  }

  /** The last parameter of one token with this key. */
  lemma {:induction false} LastOne(t: string, k: string, v: string, key: string)
    requires Param(t) == Some((k, v))
    ensures LastValue([t], key) == if k == key then Some(v) else None
  {
    assert [t][..0] == [];
  }

  /** The last parameter of two tokens with this key: the second wins. */
  lemma {:induction false} LastTwo(t1: string, t2: string, k1: string, v1: string, k2: string, v2: string, key: string)
    requires Param(t1) == Some((k1, v1)) && Param(t2) == Some((k2, v2))
    ensures LastValue([t1, t2], key)
         == if k2 == key then Some(v2) else if k1 == key then Some(v1) else None
  {
    PairInit(t1, t2);
    LastOne(t1, k1, v1, key);
  }

  lemma {:induction false} PairInit(t1: string, t2: string)
    ensures [t1, t2][..1] == [t1] && [t1, t2][1] == t2
  {
  }

  /** The reference parser reads the value the generator writes as a form-data
      disposition with the field's name and filename and no `filename*`. */
  lemma {:induction false} DispositionRoundTrip(name: string, filename: Option<string>, charsets: CharsetTable)
    requires Avoids(name, {'"', '\\'})
    ensures ParseContentDisposition(
              "form-data; name=\"" + name + "\""
              + (if filename.Some? then "; filename=\"" + EscapeQuoted(filename.value) + "\"" else ""),
              charsets)
         == Disposition(Some("form-data"), Some(name), filename, None)
  {
    var header := Join(DispositionTokens(name, filename), ";");
    DispositionJoin(name, filename);
    DispositionTokenized(name, filename);
    ParseContentDispositionFields(header, charsets);
    DispositionParams(name, filename, charsets);
    FormDataKind();
  }

  lemma {:induction false} FormDataKind()
    ensures Lower(Strip("form-data")) == "form-data"
  {
    FormDataBare();
    FormDataLower();
  }

  lemma {:induction false} FormDataBare()
    ensures Strip("form-data") == "form-data"
  {
    StripBare("form-data");
  }

  lemma {:induction false} FormDataLower()
    ensures Lower("form-data") == "form-data"
  {
    var k := "form-data";
    assert forall i | 0 <= i < |k| :: !('A' <= k[i] <= 'Z');
    Boundary.LowerOfLower(k);
  }
}
