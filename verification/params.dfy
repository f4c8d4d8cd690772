/** The Content-Disposition header of a part: `parse_content_disposition` and
    `_tokenize_header_params` of tools/lib/multipart_utils.py.

    The header value is split at every ';' that is not inside a quoted string (a
    backslash inside quotes shields the next character), the first token is the
    disposition type and the others are `key=value` parameters, of which `name`,
    `filename` and `filename*` are kept; a later parameter overrides an earlier one. */
module Params {
  import opened Wrappers
  import opened Text
  import opened Rfc5987

  // ---------------------------------------------------------------------------
  // Tokenizer

  /** What the tokenizer remembers between characters. */
  datatype ScanState = ScanState(inQuotes: bool, escapeNext: bool)

  const Outside: ScanState := ScanState(false, false)

  /** `c` ends the current token. */
  predicate IsSeparator(st: ScanState, c: char) {
    !st.escapeNext && !st.inQuotes && c == ';'
  }

  /** The state after reading `c`: an escaped character is taken as it is, a
      backslash inside quotes escapes the next character, a quote toggles. */
  function Step(st: ScanState, c: char): ScanState {
    if st.escapeNext then ScanState(st.inQuotes, false)
    else if c == '\\' && st.inQuotes then ScanState(true, true)
    else if c == '"' then ScanState(!st.inQuotes, false)
    else st
  }

  /** The tokens of `s` read from state `st`, `cur` being the token read so far;
      a final empty token is dropped. */
  function Tok(s: string, st: ScanState, cur: string): seq<string>
    decreases |s|
  {
    if |s| == 0 then (if |cur| > 0 then [cur] else [])
    else if IsSeparator(st, s[0]) then [cur] + Tok(s[1..], st, "")
    else Tok(s[1..], Step(st, s[0]), cur + [s[0]])
  }

  // Reference definitions: which characters of `s` are separators.

  /** `s` with its separators removed. */
  function Unseparated(s: string, st: ScanState): string
    decreases |s|
  {
    if |s| == 0 then []
    else if IsSeparator(st, s[0]) then Unseparated(s[1..], st)
    else [s[0]] + Unseparated(s[1..], Step(st, s[0]))
  }

  /** The last character of `s` is a separator. */
  predicate EndsWithSeparator(s: string, st: ScanState)
    decreases |s|
  {
    if |s| == 0 then false
    else if |s| == 1 then IsSeparator(st, s[0])
    else EndsWithSeparator(s[1..], Step(st, s[0]))
  }

  /** No character of `s` is a separator. */
  predicate NoSeparator(s: string, st: ScanState)
    decreases |s|
  {
    |s| == 0 || (!IsSeparator(st, s[0]) && NoSeparator(s[1..], Step(st, s[0])))
  }

  function StateAfter(s: string, st: ScanState): ScanState
    decreases |s|
  {
    if |s| == 0 then st else StateAfter(s[1..], Step(st, s[0]))
  }

  /** Python's `_tokenize_header_params`. */
  function Tokenize(s: string): (r: seq<string>)
    ensures Concat(r) == Unseparated(s, Outside)
    ensures Rejoined(r, EndsWithSeparator(s, Outside)) == s
    ensures r == [] <==> s == []
  {
    TokConcat(s, Outside, "");
    TokJoin(s, Outside, "");
    TokEmpty(s, Outside, "");
    Tok(s, Outside, "")
  }

  /** The tokens, put back together, are the text without its separators. */
  lemma {:induction false} TokConcat(s: string, st: ScanState, cur: string)
    ensures Concat(Tok(s, st, cur)) == cur + Unseparated(s, st)
    decreases |s|
  {
    if |s| == 0 {
      if |cur| > 0 {
        assert Concat([cur]) == cur + Concat([]);
      }
    } else if IsSeparator(st, s[0]) {
      TokConcat(s[1..], st, "");
      assert ([cur] + Tok(s[1..], st, ""))[1..] == Tok(s[1..], st, "");
    } else {
      TokConcat(s[1..], Step(st, s[0]), cur + [s[0]]);
    }
  }

  /** No tokens at all only for empty input. */
  lemma {:induction false} TokEmpty(s: string, st: ScanState, cur: string)
    ensures Tok(s, st, cur) == [] <==> s == [] && cur == []
    decreases |s|
  {
    if |s| > 0 && !IsSeparator(st, s[0]) {
      TokEmpty(s[1..], Step(st, s[0]), cur + [s[0]]);
    }
  }

  /** The text `Tok` re-creates: the tokens joined with ';', and a final ';'. */
  function Rejoined(tokens: seq<string>, trailing: bool): string {
    Join(tokens, ";") + (if trailing then ";" else "")
  }

  /** The tokens joined with ';' are the text, less a final separator. */
  lemma {:induction false} TokJoin(s: string, st: ScanState, cur: string)
    ensures Rejoined(Tok(s, st, cur), EndsWithSeparator(s, st)) == cur + s
    decreases |s|
  {
    if |s| == 0 {
    } else if IsSeparator(st, s[0]) {
      var rest := Tok(s[1..], st, "");
      TokEmpty(s[1..], st, "");
      if |s| == 1 {
        assert s == ";";
      } else {
        TokJoin(s[1..], st, "");
        TokJoinSeparator(s, st, cur, rest);
      }
    } else {
      TokJoin(s[1..], Step(st, s[0]), cur + [s[0]]);
      assert EndsWithSeparator(s, st) == EndsWithSeparator(s[1..], Step(st, s[0]));
      assert cur + [s[0]] + s[1..] == cur + s;
    }
  }

  lemma {:induction false} TokJoinSeparator(s: string, st: ScanState, cur: string, rest: seq<string>)
    requires |s| > 1 && IsSeparator(st, s[0])
    requires rest == Tok(s[1..], st, "") && |rest| > 0
    requires Rejoined(rest, EndsWithSeparator(s[1..], st)) == s[1..]
    ensures Rejoined(Tok(s, st, cur), EndsWithSeparator(s, st)) == cur + s
  {
    assert Step(st, s[0]) == st;
    assert Tok(s, st, cur) == [cur] + rest;
    JoinCons(cur, rest, ";");
    assert s == ";" + s[1..];
  }

  lemma {:induction false} JoinCons(first: string, rest: seq<string>, sep: string)
    requires |rest| > 0
    ensures Join([first] + rest, sep) == first + sep + Join(rest, sep)
  {
    assert ([first] + rest)[1..] == rest;
  }

  /** A stretch without separators joins the current token, whatever follows. */
  lemma {:induction false} TokSkip(a: string, t: string, st: ScanState, cur: string)
    requires NoSeparator(a, st)
    ensures Tok(a + t, st, cur) == Tok(t, StateAfter(a, st), cur + a)
    decreases |a|
  {
    if |a| == 0 {
      assert a + t == t && cur + a == cur;
    } else {
      assert (a + t)[0] == a[0] && (a + t)[1..] == a[1..] + t;
      TokSkip(a[1..], t, Step(st, a[0]), cur + [a[0]]);
      assert cur + [a[0]] + a[1..] == cur + a;
    }
  }

  /** Inside quotes a backslash shields the next character, even a quote or ';'. */
  lemma {:induction false} TokEscapedPair(c: char, t: string, st: ScanState, cur: string)
    requires st.inQuotes && !st.escapeNext
    ensures Tok(['\\', c] + t, st, cur) == Tok(t, st, cur + ['\\', c])
  {
    var s := ['\\', c] + t;
    assert s[1..] == [c] + t && ([c] + t)[1..] == t;
    assert cur + ['\\'] + [c] == cur + ['\\', c];
  }

  /** Outside quotes every ';' separates, and no other character does. */
  lemma {:induction false} SeparatorOutsideQuotes(c: char, st: ScanState)
    requires !st.inQuotes && !st.escapeNext
    ensures IsSeparator(st, c) <==> c == ';'
  {
  }

  // ---------------------------------------------------------------------------
  // Parameters

  /** Unquoting as the source does it: the outer quotes
      are removed, then `\"` becomes `"` and `\\` becomes `\`, in that order. */
  function UnquoteValue(v: string): (r: string)
    ensures !(|v| > 0 && v[0] == '"' && v[|v| - 1] == '"') ==> r == v
    ensures |r| <= |v|
  {
    if |v| > 0 && v[0] == '"' && v[|v| - 1] == '"' then
      var inner := if |v| >= 2 then v[1..|v| - 1] else [];
      ReplaceAll(ReplaceAll(inner, "\\\"", "\""), "\\\\", "\\")
    else v
  }

  /** A stripped `key=value` token: the key stripped and lower-cased, the value
      stripped and unquoted; a token without '=' is no parameter. */
  function Param(token: string): (r: Option<(string, string)>)
    ensures r.None? <==> '=' !in Strip(token)
    ensures r.Some? ==> '=' !in r.value.0 && r.value.0 == Lower(r.value.0)
  {
    match SplitFirst(Strip(token), '=')
    case None => None
    case Some((key, value)) =>
      var k := Lower(Strip(key));
      assert Strip(key) == TrimStart(key)[..|Strip(key)|];
      assert '=' !in Strip(key);
      LowerOfLowerIsLower(Strip(key));
      Some((k, UnquoteValue(Strip(value))))
  }

  /** A token `key = value` with white space around each piece: the key is the
      text before the `=`, stripped and lower-cased, and the value is the text
      after it, stripped and unquoted. */
  lemma {:induction false} ParamPadded(a: string, k: string, b: string, c: string, v: string, d: string)
    requires AllSpace(a) && AllSpace(b) && AllSpace(c) && AllSpace(d)
    requires |k| > 0 && '=' !in k && !IsSpace(k[0]) && !IsSpace(k[|k| - 1])
    requires |v| > 0 && !IsSpace(v[0]) && !IsSpace(v[|v| - 1])
    ensures Param(a + k + b + "=" + c + v + d) == Some((Lower(k), UnquoteValue(v)))
  {
    var token, key, value := a + k + b + "=" + c + v + d, k + b, c + v;
    PaddedStrip(a, k, b, c, v, d);
    NoEqualsAfter(k, b);
    StripAround("", k, b);
    assert "" + k + b == key;
    StripAround(c, v, "");
    assert c + v + "" == value;
    ParamSplit(token, key, value, k, v);
  }

  /** White space after a key brings no `=`. */
  lemma NoEqualsAfter(k: string, b: string)
    requires '=' !in k && AllSpace(b)
    ensures '=' !in k + b
  {
    assert forall i :: 0 <= i < |b| ==> b[i] != '=';
  }

  /** Stripping the padded token leaves the key, its trailing white space, `=`,
      the value's leading white space and the value. */
  lemma {:induction false} PaddedStrip(a: string, k: string, b: string, c: string, v: string, d: string)
    requires AllSpace(a) && AllSpace(d)
    requires |k| > 0 && !IsSpace(k[0]) && |v| > 0 && !IsSpace(v[|v| - 1])
    ensures Strip(a + k + b + "=" + c + v + d) == (k + b) + "=" + (c + v)
  {
    var t := (k + b) + "=" + (c + v);
    assert a + k + b + "=" + c + v + d == a + t + d;
    assert t[0] == k[0] && t[|t| - 1] == v[|v| - 1];
    StripAround(a, t, d);
  }

  /** A token whose stripped form splits at its first `=` into `key` and `value`. */
  lemma {:induction false} ParamSplit(token: string, key: string, value: string, k: string, v: string)
    requires Strip(token) == key + "=" + value && '=' !in key
    requires Strip(key) == k && Strip(value) == v
    ensures Param(token) == Some((Lower(k), UnquoteValue(v)))
  {
    SplitFirstAt(key, '=', value);
  }

  lemma {:induction false} LowerOfLowerIsLower(s: string)
    requires '=' !in s
    ensures '=' !in Lower(s) && Lower(Lower(s)) == Lower(s)
  {
    assert forall i :: 0 <= i < |s| ==> Lower(s)[i] != '=';
  }

  /** What `parse_content_disposition` returns; `None` is Python's `None`. */
  datatype Disposition = Disposition(
    kind: Option<string>,
    name: Option<string>,
    filename: Option<string>,
    filenameStar: Option<string>)

  const NoDisposition: Disposition := Disposition(None, None, None, None)

  /** One parameter token applied to the result so far. */
  function ApplyParam(d: Disposition, token: string, charsets: CharsetTable): Disposition {
    match Param(token)
    case None => d
    case Some((key, value)) => SetField(d, key, value, charsets)
  }

  /** The field a parameter key names, set; other keys are ignored. */
  function SetField(d: Disposition, key: string, value: string, charsets: CharsetTable): Disposition {
    if key == "name" then d.(name := Some(value))
    else if key == "filename" then d.(filename := Some(value))
    else if key == "filename*" then d.(filenameStar := Some(DecodeRfc5987(value, charsets)))
    else d
  }

  /** The parameter tokens applied in order. */
  function ApplyParams(d: Disposition, tokens: seq<string>, charsets: CharsetTable): Disposition
    decreases |tokens|
  {
    if |tokens| == 0 then d
    else ApplyParam(ApplyParams(d, tokens[..|tokens| - 1], charsets), tokens[|tokens| - 1], charsets)
  }

  /** Python's `parse_content_disposition`. */
  function ParseContentDisposition(header: string, charsets: CharsetTable): (r: Disposition)
    ensures header == [] ==> r == NoDisposition
    ensures r.kind.Some? <==> header != []
  {
    if header == [] then NoDisposition
    else
      var tokens := Tokenize(header);
      ApplyParamsKeepKind(Disposition(Some(Lower(Strip(tokens[0]))), None, None, None), tokens[1..], charsets);
      ApplyParams(Disposition(Some(Lower(Strip(tokens[0]))), None, None, None), tokens[1..], charsets)
  }

  // Reference definition: the last parameter with a key wins.

  /** The value of the last parameter token with this key. */
  function LastValue(tokens: seq<string>, key: string): Option<string>
    decreases |tokens|
  {
    if |tokens| == 0 then None
    else
      var p := Param(tokens[|tokens| - 1]);
      if p.Some? && p.value.0 == key then Some(p.value.1)
      else LastValue(tokens[..|tokens| - 1], key)
  }

  function Override(earlier: Option<string>, later: Option<string>): Option<string> {
    if later.Some? then later else earlier
  }

  /** Parameters never change the disposition type. */
  lemma {:induction false} ApplyParamsKeepKind(d: Disposition, tokens: seq<string>, charsets: CharsetTable)
    ensures ApplyParams(d, tokens, charsets).kind == d.kind
    decreases |tokens|
  {
    if |tokens| > 0 {
      ApplyParamsKeepKind(d, tokens[..|tokens| - 1], charsets);
    }
  }

  /** `name` holds the value of the last `name` parameter. */
  lemma {:induction false} ApplyParamsLastName(d: Disposition, tokens: seq<string>, charsets: CharsetTable)
    ensures ApplyParams(d, tokens, charsets).name == Override(d.name, LastValue(tokens, "name"))
    decreases |tokens|
  {
    if |tokens| > 0 {
      var init := tokens[..|tokens| - 1];
      ApplyParamsLastName(d, init, charsets);
      match Param(tokens[|tokens| - 1])
      case None =>
      case Some((key, value)) => SetFieldEffect(ApplyParams(d, init, charsets), key, value, charsets);
    }
  }

  /** `filename` holds the value of the last `filename` parameter. */
  lemma {:induction false} ApplyParamsLastFilename(d: Disposition, tokens: seq<string>, charsets: CharsetTable)
    ensures ApplyParams(d, tokens, charsets).filename == Override(d.filename, LastValue(tokens, "filename"))
    decreases |tokens|
  {
    if |tokens| > 0 {
      var init := tokens[..|tokens| - 1];
      ApplyParamsLastFilename(d, init, charsets);
      match Param(tokens[|tokens| - 1])
      case None =>
      case Some((key, value)) => SetFieldEffect(ApplyParams(d, init, charsets), key, value, charsets);
    }
  }

  /** The value of the last `filename*` parameter, decoded. */
  function LastDecoded(tokens: seq<string>, charsets: CharsetTable): Option<string> {
    match LastValue(tokens, "filename*")
    case None => None
    case Some(v) => Some(DecodeRfc5987(v, charsets))
  }

  /** `filename_star` holds the decoding of the last `filename*` parameter. */
  lemma {:induction false} ApplyParamsLastFilenameStar(d: Disposition, tokens: seq<string>, charsets: CharsetTable)
    ensures ApplyParams(d, tokens, charsets).filenameStar == Override(d.filenameStar, LastDecoded(tokens, charsets))
    decreases |tokens|
  {
    if |tokens| > 0 {
      var init := tokens[..|tokens| - 1];
      ApplyParamsLastFilenameStar(d, init, charsets);
      LastFilenameStarStep(ApplyParams(d, init, charsets), tokens, charsets, d.filenameStar);
    }
  }

  /** One more parameter keeps `filename_star` the decoding of the last `filename*`. */
  lemma {:induction false} LastFilenameStarStep(before: Disposition, tokens: seq<string>, charsets: CharsetTable, prior: Option<string>)
    requires |tokens| > 0
    requires before.filenameStar == Override(prior, LastDecoded(tokens[..|tokens| - 1], charsets))
    ensures ApplyParam(before, tokens[|tokens| - 1], charsets).filenameStar
         == Override(prior, LastDecoded(tokens, charsets))
  {
    var last := tokens[|tokens| - 1];
    var p := Param(last);
    LastDecodedStep(tokens, charsets);
    ApplyParamFilenameStar(before, last, charsets);
  }

  lemma {:induction false} LastDecodedStep(tokens: seq<string>, charsets: CharsetTable)
    requires |tokens| > 0
    ensures var p := Param(tokens[|tokens| - 1]);
      LastDecoded(tokens, charsets)
        == if p.Some? && p.value.0 == "filename*" then Some(DecodeRfc5987(p.value.1, charsets))
           else LastDecoded(tokens[..|tokens| - 1], charsets)
  {
  }

  lemma {:induction false} ApplyParamFilenameStar(d: Disposition, token: string, charsets: CharsetTable)
    ensures var p := Param(token);
      ApplyParam(d, token, charsets).filenameStar
        == if p.Some? && p.value.0 == "filename*" then Some(DecodeRfc5987(p.value.1, charsets))
           else d.filenameStar
  {
    match Param(token)
    case None =>
    case Some((key, value)) => SetFieldEffect(d, key, value, charsets);
  }

  /** The one field a parameter key sets; the keys differ in length. */
  lemma {:induction false} SetFieldEffect(d: Disposition, key: string, value: string, charsets: CharsetTable)
    ensures var r := SetField(d, key, value, charsets);
      && r.kind == d.kind
      && r.name == (if key == "name" then Some(value) else d.name)
      && r.filename == (if key == "filename" then Some(value) else d.filename)
      && r.filenameStar == (if key == "filename*" then Some(DecodeRfc5987(value, charsets)) else d.filenameStar)
  {
    if key == "name" {
      assert |key| == 4;
    } else if key == "filename" {
      assert |key| == 8;
    }
  }

  /** The fields of `parse_content_disposition`'s result, in terms of the tokens. */
  lemma {:induction false} ParseContentDispositionFields(header: string, charsets: CharsetTable)
    requires header != []
    ensures var tokens := Tokenize(header);
      var r := ParseContentDisposition(header, charsets);
      && r.kind == Some(Lower(Strip(tokens[0])))
      && r.name == LastValue(tokens[1..], "name")
      && r.filename == LastValue(tokens[1..], "filename")
      && r.filenameStar == LastDecoded(tokens[1..], charsets)
  {
    var tokens := Tokenize(header);
    var d := Disposition(Some(Lower(Strip(tokens[0]))), None, None, None);
    ApplyParamsKeepKind(d, tokens[1..], charsets);
    ApplyParamsLastName(d, tokens[1..], charsets);
    ApplyParamsLastFilename(d, tokens[1..], charsets);
    ApplyParamsLastFilenameStar(d, tokens[1..], charsets);
  }

  lemma {:induction false} ApplyParamsAppend(d: Disposition, a: seq<string>, b: seq<string>, charsets: CharsetTable)
    ensures ApplyParams(d, a + b, charsets) == ApplyParams(ApplyParams(d, a, charsets), b, charsets)
    decreases |b|
  {
    if |b| == 0 {
      assert a + b == a;
    } else {
      assert (a + b)[..|a + b| - 1] == a + b[..|b| - 1];
      ApplyParamsAppend(d, a, b[..|b| - 1], charsets);
    }
  }

  /** The key a token sets, if any. */
  function KeyOf(token: string): Option<string> {
    Param(token).Map((p: (string, string)) => p.0)
  }

  /** Two parameters with different keys commute. */
  lemma {:induction false} ApplyParamCommute(d: Disposition, p: string, q: string, charsets: CharsetTable)
    requires KeyOf(p).None? || KeyOf(p) != KeyOf(q)
    ensures ApplyParam(ApplyParam(d, p, charsets), q, charsets) == ApplyParam(ApplyParam(d, q, charsets), p, charsets)
  {
    match Param(p)
    case None =>
    case Some((k1, v1)) =>
      match Param(q)
      case None =>
      case Some((k2, v2)) =>
        assert KeyOf(p) == Some(k1) && KeyOf(q) == Some(k2);
        SetFieldCommute(d, k1, v1, k2, v2, charsets);
  }

  lemma {:induction false} SetFieldCommute(d: Disposition, k1: string, v1: string, k2: string, v2: string, charsets: CharsetTable)
    requires k1 != k2
    ensures SetField(SetField(d, k1, v1, charsets), k2, v2, charsets)
         == SetField(SetField(d, k2, v2, charsets), k1, v1, charsets)
  {
  }

  lemma {:induction false} ApplyParamsPair(d: Disposition, p: string, q: string, charsets: CharsetTable)
    ensures ApplyParams(d, [p, q], charsets) == ApplyParam(ApplyParam(d, p, charsets), q, charsets)
  {
    assert [p, q][..1] == [p];
    assert [p][..0] == [];
    assert ApplyParams(d, [p], charsets) == ApplyParam(d, p, charsets);
  }

  /** Parameters with different keys may come in either order. */
  lemma {:induction false} ParamOrderIrrelevant(d: Disposition, a: seq<string>, p: string, q: string, b: seq<string>, charsets: CharsetTable)
    requires KeyOf(p).None? || KeyOf(p) != KeyOf(q)
    ensures ApplyParams(d, a + [p, q] + b, charsets) == ApplyParams(d, a + [q, p] + b, charsets)
  {
    ApplyParamsAppend(d, a + [p, q], b, charsets);
    ApplyParamsAppend(d, a + [q, p], b, charsets);
    var base := ApplyParams(d, a, charsets);
    ApplyParamsAppend(d, a, [p, q], charsets);
    ApplyParamsAppend(d, a, [q, p], charsets);
    ApplyParamsPair(base, p, q, charsets);
    ApplyParamsPair(base, q, p, charsets);
    ApplyParamCommute(base, p, q, charsets);
  }
}
