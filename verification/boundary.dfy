/** Boundary grammar of tools/lib/multipart_utils.py: validation against the
    character class of section 5.1.1 of RFC 2046 and extraction of the `boundary`
    parameter from a Content-Type header value.  The regular expressions of the
    source are written out as explicit scans. */
module Boundary {
  import opened Wrappers
  import opened Text

  /** DIGIT / ALPHA / "'" / "(" / ")" / "+" / "_" / "," / "-" / "." / "/" / ":" / "=" / "?"
      and space: the characters section 5.1.1 of RFC 2046 allows in a boundary. */
  predicate IsBoundaryChar(c: char) {
    ('0' <= c <= '9') || ('A' <= c <= 'Z') || ('a' <= c <= 'z') || c in "'()+_,-./:=? "
  }

  predicate AllBoundaryChars(b: string) {
    forall k :: 0 <= k < |b| ==> IsBoundaryChar(b[k])
  }

  /** The longest boundary the RFC allows. */
  const MaxBoundaryLength: nat := 70

  /** The first failing check, in the order the source tests them. */
  datatype BoundaryError =
    | Empty
    | TooLong(length: nat)
    | TrailingSpace
    | InvalidCharacters(chars: set<char>)

  datatype BoundaryCheck = Valid | Invalid(error: BoundaryError)

  /** The characters of `b` outside the class (the set the source reports). */
  function BadChars(b: string): set<char> {
    set k | 0 <= k < |b| && !IsBoundaryChar(b[k]) :: b[k]
  }

  /** What `re.match(r"^[...]{1,70}$", b)` decides.  Python's `$` matches at the end of
      the text and also just before a newline that ends it, so a final "\n" escapes
      the class check. */
  predicate FullPatternMatchesAsWritten(b: string) {
    || (1 <= |b| <= MaxBoundaryLength && AllBoundaryChars(b))
    || (2 <= |b| <= MaxBoundaryLength + 1 && b[|b| - 1] == '\n' && AllBoundaryChars(b[..|b| - 1]))
  }

  /** `validate_boundary` exactly as written, including the `$` behaviour above. */
  function ValidateBoundaryAsWritten(b: string): (r: BoundaryCheck)
    ensures r.Valid? ==> 1 <= |b| <= MaxBoundaryLength && !EndsWith(b, " ")
  {
    if |b| == 0 then Invalid(Empty)
    else if |b| > MaxBoundaryLength then Invalid(TooLong(|b|))
    else if EndsWith(b, " ") then Invalid(TrailingSpace)
    else if !FullPatternMatchesAsWritten(b) then Invalid(InvalidCharacters(BadChars(b)))
    else Valid
  }

  /** A newline-terminated boundary passes the as-written check although "\n" is
      outside the RFC 2046 class. */
  lemma {:induction false} NewlineBoundaryAcceptedAsWritten()
    ensures ValidateBoundaryAsWritten("a\n") == Valid
    ensures !AllBoundaryChars("a\n")
  {
    assert !IsBoundaryChar("a\n"[1]);
    assert "a\n"[..1] == "a";
    assert IsBoundaryChar("a"[0]);
  }

  /** `validate_boundary` as evidently intended: every character must be in the class. */
  function ValidateBoundary(b: string): (r: BoundaryCheck)
    ensures r == Valid <==> 1 <= |b| <= MaxBoundaryLength && !EndsWith(b, " ") && AllBoundaryChars(b)
    ensures |b| == 0 ==> r == Invalid(Empty)
    ensures |b| > MaxBoundaryLength ==> r == Invalid(TooLong(|b|))
    ensures 0 < |b| <= MaxBoundaryLength && EndsWith(b, " ") ==> r == Invalid(TrailingSpace)
    ensures 0 < |b| <= MaxBoundaryLength && !EndsWith(b, " ") && !AllBoundaryChars(b) ==>
      r == Invalid(InvalidCharacters(BadChars(b)))
    ensures r.Invalid? && r.error.InvalidCharacters? ==> r.error.chars != {}
  {
    if |b| == 0 then Invalid(Empty)
    else if |b| > MaxBoundaryLength then Invalid(TooLong(|b|))
    else if EndsWith(b, " ") then Invalid(TrailingSpace)
    else if !AllBoundaryChars(b) then
      var k :| 0 <= k < |b| && !IsBoundaryChar(b[k]);
      assert b[k] in BadChars(b);
      Invalid(InvalidCharacters(BadChars(b)))
    else Valid
  }

  /** The two readings differ only on a boundary that ends in a newline. */
  lemma {:induction false} ValidateAgreesAwayFromNewline(b: string)
    requires |b| == 0 || b[|b| - 1] != '\n'
    ensures ValidateBoundaryAsWritten(b) == ValidateBoundary(b)
  {
  }

  /** A valid boundary contains no line-ending character, so a delimiter can never
      overlap the line ending in front of it. */
  lemma {:induction false} ValidBoundaryHasNoLineBreak(b: string)
    requires ValidateBoundary(b) == Valid
    ensures CR !in b && LF !in b
  {
  }

  // ---------------------------------------------------------------------------
  // parse_boundary

  const QuotedKey: string := "boundary=\""
  const UnquotedKey: string := "boundary="

  /** `s` begins with `key`, compared case-insensitively (`re.IGNORECASE`). */
  predicate StartsWithFolded(s: string, key: string) {
    |key| <= |s| && Lower(s[..|key|]) == key
  }

  /** `boundary="([^"]+)"` anchored at the start of `s`. */
  function QuotedAt(s: string): (r: Option<string>)
    ensures r.Some? ==> |r.value| > 0 && '"' !in r.value
  {
    if StartsWithFolded(s, QuotedKey) then
      match IndexOf(s[|QuotedKey|..], '"')
      case Some(k) => if k > 0 then Some(s[|QuotedKey|..][..k]) else None
      case None => None
    else None
  }

  // What `re.search` finds, for a pattern anchored by `at` at each start position.

  /** The pattern matches at no position of `s`. */
  predicate NoMatch(s: string, at: string -> Option<string>) {
    forall i :: 0 <= i <= |s| ==> at(s[i..]).None?
  }

  /** `v` is the group of the match that starts leftmost in `s`. */
  predicate Leftmost(s: string, v: string, at: string -> Option<string>) {
    exists i :: 0 <= i <= |s| && at(s[i..]) == Some(v) && forall j :: 0 <= j < i ==> at(s[j..]).None?
  }

  /** A search that finds nothing at the first position goes on with the rest. */
  lemma {:induction false} SearchShift(s: string, at: string -> Option<string>)
    requires |s| > 0 && at(s).None?
    ensures NoMatch(s, at) <==> NoMatch(s[1..], at)
    ensures forall v :: Leftmost(s[1..], v, at) ==> Leftmost(s, v, at)
  {
    assert s[0..] == s;
    forall i | 1 <= i <= |s|
      ensures s[1..][i - 1..] == s[i..]
    {
    }
    forall v | Leftmost(s[1..], v, at)
      ensures Leftmost(s, v, at)
    {
      var i :| 0 <= i <= |s| - 1 && at(s[1..][i..]) == Some(v) && forall j :: 0 <= j < i ==> at(s[1..][j..]).None?;
      assert s[1..][i..] == s[i + 1..];
      forall j | 0 <= j < i + 1
        ensures at(s[j..]).None?
      {
        if j > 0 {
          assert s[1..][j - 1..] == s[j..];
        }
      }
    }
  }

  /** A match at the first position is the leftmost one. */
  lemma {:induction false} SearchHere(s: string, at: string -> Option<string>)
    requires at(s).Some?
    ensures !NoMatch(s, at) && Leftmost(s, at(s).value, at)
  {
    assert s[0..] == s;
  }

  /** The empty text matches nowhere when the pattern matches nothing there. */
  lemma {:induction false} SearchEmpty(s: string, at: string -> Option<string>)
    requires |s| == 0 && at(s).None?
    ensures NoMatch(s, at)
  {
    assert s[0..] == s;
  }

  /** `re.search` with the quoted pattern: `None` exactly when it matches nowhere,
      otherwise the group of the leftmost match. */
  function SearchQuoted(s: string): (r: Option<string>)
    ensures r.Some? ==> |r.value| > 0 && '"' !in r.value
    ensures r.None? <==> NoMatch(s, QuotedAt)
    ensures r.Some? ==> Leftmost(s, r.value, QuotedAt)
    decreases |s|
  {
    match QuotedAt(s)
    case Some(v) => SearchHere(s, QuotedAt); Some(v)
    case None =>
      if |s| == 0 then SearchEmpty(s, QuotedAt); None
      else SearchShift(s, QuotedAt); SearchQuoted(s[1..])
  }

  /** The longest prefix made of characters in `[^\s;]`. */
  function TokenPrefix(s: string): (r: string)
    ensures |r| <= |s| && r == s[..|r|]
    ensures forall k :: 0 <= k < |r| ==> !IsSpace(r[k]) && r[k] != ';'
    ensures |r| < |s| ==> IsSpace(s[|r|]) || s[|r|] == ';'
  {
    if |s| == 0 || IsSpace(s[0]) || s[0] == ';' then []
    else [s[0]] + TokenPrefix(s[1..])
  }

  /** `boundary=\s*([^\s;]+)` anchored at the start of `s`. */
  function UnquotedAt(s: string): (r: Option<string>)
    ensures r.Some? ==> |r.value| > 0 && forall k :: 0 <= k < |r.value| ==> !IsSpace(r.value[k]) && r.value[k] != ';'
  {
    if StartsWithFolded(s, UnquotedKey) then
      var v := TokenPrefix(TrimStart(s[|UnquotedKey|..]));
      if |v| > 0 then Some(v) else None
    else None
  }

  /** `re.search` with the unquoted pattern: `None` exactly when it matches
      nowhere, otherwise the token of the leftmost match. */
  function SearchUnquoted(s: string): (r: Option<string>)
    ensures r.Some? ==> |r.value| > 0 && forall k :: 0 <= k < |r.value| ==> !IsSpace(r.value[k]) && r.value[k] != ';'
    ensures r.None? <==> NoMatch(s, UnquotedAt)
    ensures r.Some? ==> Leftmost(s, r.value, UnquotedAt)
    decreases |s|
  {
    match UnquotedAt(s)
    case Some(v) => SearchHere(s, UnquotedAt); Some(v)
    case None =>
      if |s| == 0 then SearchEmpty(s, UnquotedAt); None
      else SearchShift(s, UnquotedAt); SearchUnquoted(s[1..])
  }

  /** `parse_boundary`: no boundary exactly when neither form matches anywhere
      (an empty header included); otherwise the leftmost quoted match when there
      is one, wherever an unquoted one stands, and the leftmost unquoted match
      only when there is none.  The source's trailing `rstrip()` is the identity
      on a value that holds no white space. */
  function ParseBoundary(contentType: string): (r: Option<string>)
    ensures contentType == "" ==> r == None
    ensures r.None? <==> NoMatch(contentType, QuotedAt) && NoMatch(contentType, UnquotedAt)
    ensures r.Some? ==> |r.value| > 0
    ensures !NoMatch(contentType, QuotedAt) ==> r.Some? && Leftmost(contentType, r.value, QuotedAt)
    ensures NoMatch(contentType, QuotedAt) && r.Some? ==> Leftmost(contentType, r.value, UnquotedAt)
  {
    if contentType == "" then SearchEmpty(contentType, QuotedAt); SearchEmpty(contentType, UnquotedAt); None
    else
      match SearchQuoted(contentType)
      case Some(v) => Some(v)
      case None => SearchUnquoted(contentType)
  }

  /** A quoted match needs a '"' nine characters after its start. */
  lemma {:induction false} QuotedAtNeedsQuote(s: string)
    requires QuotedAt(s).Some?
    ensures |s| >= 10 && s[9] == '"'
  {
    assert Lower(s[..10])[9] == QuotedKey[9];
  }

  /** A quoted match cannot start at a position whose ninth successor is not '"'. */
  lemma {:induction false} SearchQuotedSkip(s: string, j: nat)
    requires j <= |s|
    requires forall i :: 9 <= i < j + 9 && i < |s| ==> s[i] != '"'
    ensures SearchQuoted(s) == SearchQuoted(s[j..])
    decreases j
  {
    if j > 0 {
      if QuotedAt(s).Some? {
        QuotedAtNeedsQuote(s);
      }
      var t := s[1..];
      forall i | 9 <= i < j - 1 + 9 && i < |t|
        ensures t[i] != '"'
      {
        assert t[i] == s[i + 1];
      }
      SearchQuotedSkip(t, j - 1);
      assert t[j - 1..] == s[j..];
    }
  }

  /** A header holding no '"' has no quoted boundary. */
  lemma {:induction false} NoQuoteNoQuotedBoundary(s: string)
    requires '"' !in s
    ensures SearchQuoted(s) == None
    decreases |s|
  {
    if QuotedAt(s).Some? {
      QuotedAtNeedsQuote(s);
    }
    if |s| > 0 {
      NoQuoteNoQuotedBoundary(s[1..]);
    }
  }

  /** Lower-case text is its own folding. */
  lemma {:induction false} LowerOfLower(s: string)
    requires forall k :: 0 <= k < |s| ==> !('A' <= s[k] <= 'Z')
    ensures Lower(s) == s
  {
  }

  /** An unquoted match starts with a character that folds to 'b'. */
  lemma {:induction false} UnquotedAtNeedsB(s: string)
    requires UnquotedAt(s).Some?
    ensures |s| > 0 && LowerChar(s[0]) == 'b'
  {
    assert Lower(s[..9])[0] == UnquotedKey[0];
  }

  /** No unquoted match starts inside a prefix with no letter b in it. */
  lemma {:induction false} SearchUnquotedSkip(p: string, s: string)
    requires forall k :: 0 <= k < |p| ==> LowerChar(p[k]) != 'b'
    ensures SearchUnquoted(p + s) == SearchUnquoted(s)
    decreases |p|
  {
    if |p| > 0 {
      if UnquotedAt(p + s).Some? {
        UnquotedAtNeedsB(p + s);
      }
      assert (p + s)[1..] == p[1..] + s;
      SearchUnquotedSkip(p[1..], s);
    } else {
      assert p + s == s;
    }
  }

  /** The media type the generator writes in front of the boundary parameter. */
  const FormDataPrefix: string := "multipart/form-data; "

  lemma {:induction false} FormDataPrefixFacts()
    ensures '"' !in FormDataPrefix
    ensures forall k :: 0 <= k < |FormDataPrefix| ==> LowerChar(FormDataPrefix[k]) != 'b'
  {
  }

  /** `boundary=` followed by a token yields that token. */
  lemma {:induction false} UnquotedAtKey(b: string)
    requires |b| > 0 && ';' !in b
    requires forall k :: 0 <= k < |b| ==> !IsSpace(b[k])
    ensures UnquotedAt(UnquotedKey + b) == Some(b)
  {
    var u := UnquotedKey + b;
    assert u[..9] == UnquotedKey;
    LowerOfLower(UnquotedKey);
    assert u[9..] == b;
    TrimStartSpaces([], b);
    assert [] + b == b;
    TokenPrefixWhole(b);
  }

  /** The header the generator writes for a boundary, `multipart/form-data; boundary=B`,
      yields `B` back when `B` is a non-empty token without white space, ';' or '"'. */
  lemma {:induction false} ParseBoundaryUnquotedHeader(b: string)
    requires |b| > 0 && '"' !in b && ';' !in b
    requires forall k :: 0 <= k < |b| ==> !IsSpace(b[k])
    ensures ParseBoundary(FormDataPrefix + UnquotedKey + b) == Some(b)
  {
    var h := FormDataPrefix + UnquotedKey + b;
    FormDataPrefixFacts();
    assert '"' !in UnquotedKey;
    NoQuoteNoQuotedBoundary(h);
    assert h == FormDataPrefix + (UnquotedKey + b);
    SearchUnquotedSkip(FormDataPrefix, UnquotedKey + b);
    UnquotedAtKey(b);
  }

  lemma {:induction false} TokenPrefixWhole(b: string)
    requires ';' !in b
    requires forall k :: 0 <= k < |b| ==> !IsSpace(b[k])
    ensures TokenPrefix(b) == b
  {
    if |b| > 0 {
      assert b[0] in b;
      TokenPrefixWhole(b[1..]);
      assert b == [b[0]] + b[1..];
    }
  }

  /** `boundary="` followed by a value and a closing quote yields that value. */
  lemma {:induction false} QuotedAtKey(b: string)
    requires |b| > 0 && '"' !in b
    ensures QuotedAt(QuotedKey + b + "\"") == Some(b)
  {
    KeyThenRest(QuotedKey + b + "\"", b + "\"");
    ClosingQuote(b);
  }

  lemma {:induction false} KeyThenRest(t: string, rest: string)
    requires t == QuotedKey + rest
    ensures StartsWithFolded(t, QuotedKey) && t[|QuotedKey|..] == rest
  {
    assert t[..10] == QuotedKey;
    LowerOfLower(QuotedKey);
  }

  lemma {:induction false} ClosingQuote(b: string)
    requires '"' !in b
    ensures IndexOf(b + "\"", '"') == Some(|b|) && (b + "\"")[..|b|] == b
  {
    assert (b + "\"")[..|b|] == b;
    assert (b + "\"")[|b|] == '"';
  }

  /** The quoted form `boundary="B"` yields `B` for any non-empty `B` without '"',
      white space and ';' included. */
  lemma {:induction false} ParseBoundaryQuotedHeader(b: string)
    requires |b| > 0 && '"' !in b
    ensures ParseBoundary(FormDataPrefix + QuotedKey + b + "\"") == Some(b)
  {
    var t := QuotedKey + b + "\"";
    var h := FormDataPrefix + t;
    assert h == FormDataPrefix + QuotedKey + b + "\"";
    var j := |FormDataPrefix|;
    FormDataPrefixFacts();
    forall i | 9 <= i < j + 9 && i < |h| ensures h[i] != '"' {
      if i < j {
        assert h[i] == FormDataPrefix[i];
      } else {
        assert h[i] == t[i - j];
        assert i - j < 9;
        assert t[i - j] == QuotedKey[i - j];
      }
    }
    SearchQuotedSkip(h, j);
    assert h[j..] == t;
    QuotedAtKey(b);
  }

  /** The quoted form wins even when an unquoted `boundary=` comes first. */
  lemma {:induction false} QuotedBoundaryWins()
    ensures ParseBoundary(FormDataPrefix + "boundary=abc; " + QuotedKey + "xyz\"") == Some("xyz")
  {
    var p := FormDataPrefix + "boundary=abc; ";
    var t := QuotedKey + "xyz" + "\"";
    var h := p + t;
    assert h == FormDataPrefix + "boundary=abc; " + QuotedKey + "xyz\"";
    assert '"' !in p;
    forall i | 9 <= i < |p| + 9 && i < |h| ensures h[i] != '"' {
      if i < |p| {
        assert h[i] == p[i];
      } else {
        assert h[i] == t[i - |p|];
        assert t[i - |p|] == QuotedKey[i - |p|];
      }
    }
    SearchQuotedSkip(h, |p|);
    assert h[|p|..] == t;
    QuotedAtKey("xyz");
  }
}
