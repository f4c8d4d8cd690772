/** Extended parameter values of section 3.2 of RFC 5987 (`charset'language'value`),
    as `decode_rfc5987` and `encode_rfc5987` of tools/lib/multipart_utils.py handle
    them through urllib's `unquote` and `quote`.

    Octets are characters below 256.  Python's codec registry is not modelled: a
    `CharsetTable` maps a lower-cased charset name to its decoder, or to `None`
    where Python raises `LookupError`. */
module Rfc5987 {
  import opened Wrappers
  import opened Text
  import Utf8

  /** Decodes octets to text; undecodable octets are replaced (`errors='replace'`). */
  type Decoder = string -> string

  type CharsetTable = string -> Option<Decoder>

  // ---------------------------------------------------------------------------
  // Percent-encoding (urllib.parse.quote with safe='')

  /** The upper-case hexadecimal digit for `d`. */
  function HexDigit(d: nat): (c: char)
    requires d < 16
    ensures IsHexDigit(c) && HexValue(c) == d
    ensures IsUnreserved(c) && c != '\''
  {
    if d < 10 then ('0' as int + d) as char else ('A' as int + d - 10) as char
  }

  /** The characters `quote` never escapes: letters, digits and `_.-~`. */
  predicate IsUnreserved(c: char) {
    ('0' <= c <= '9') || ('A' <= c <= 'Z') || ('a' <= c <= 'z') || c == '_' || c == '.' || c == '-' || c == '~'
  }

  /** One octet: itself when unreserved, else `%XX` with upper-case hex digits. */
  function PercentOctet(c: char): (r: string)
    requires c as int < 256
    ensures Utf8.IsAscii(r)
    ensures '\'' !in r
    ensures '%' in r <==> !IsUnreserved(c)
  {
    if IsUnreserved(c) then [c]
    else
      var n := c as int;
      ['%', HexDigit(n / 16), HexDigit(n % 16)]
  }

  function PercentEncode(octets: string): (r: string)
    requires Utf8.IsOctets(octets)
    ensures Utf8.IsAscii(r)
    ensures '\'' !in r
  {
    if |octets| == 0 then [] else PercentOctet(octets[0]) + PercentEncode(octets[1..])
  }

  /** `quote(value, safe='')`: UTF-8 encode, then percent-encode. */
  function Quote(value: string): (r: string)
    ensures Utf8.IsAscii(r) && '\'' !in r
    ensures PercentDecode(r) == Utf8.Encode(value)
  {
    PercentRoundTrip(Utf8.Encode(value));
    PercentEncode(Utf8.Encode(value))
  }

  /** Without any escape, the encoding is the octets themselves. */
  lemma {:induction false} PercentEncodeNoEscape(octets: string)
    requires Utf8.IsOctets(octets)
    requires '%' !in PercentEncode(octets)
    ensures PercentEncode(octets) == octets
    ensures Utf8.IsAscii(octets)
  {
    if |octets| > 0 {
      var e := PercentOctet(octets[0]);
      assert PercentEncode(octets) == e + PercentEncode(octets[1..]);
      assert '%' !in e;
      PercentEncodeNoEscape(octets[1..]);
      assert octets == [octets[0]] + octets[1..];
    }
  }

  // ---------------------------------------------------------------------------
  // Percent-decoding (urllib.parse.unquote)

  predicate IsHexDigit(c: char) {
    ('0' <= c <= '9') || ('A' <= c <= 'F') || ('a' <= c <= 'f')
  }

  function HexValue(c: char): (v: nat)
    requires IsHexDigit(c)
    ensures v < 16
  {
    if '0' <= c <= '9' then c as int - '0' as int
    else if 'A' <= c <= 'F' then c as int - 'A' as int + 10
    else c as int - 'a' as int + 10
  }

  /** `unquote_to_bytes` on an ASCII run: `%XX` with two hex digits (either case)
      becomes that octet; any other character, a lone '%' included, stays. */
  function PercentDecode(s: string): (r: string)
    ensures |r| <= |s|
    ensures '%' !in s ==> r == s
    decreases |s|
  {
    if |s| == 0 then []
    else if s[0] == '%' && |s| >= 3 && IsHexDigit(s[1]) && IsHexDigit(s[2]) then
      [Utf8.Octet(HexValue(s[1]) * 16 + HexValue(s[2]))] + PercentDecode(s[3..])
    else [s[0]] + PercentDecode(s[1..])
  }

  /** Decoding the encoding of one octet yields that octet, whatever follows. */
  lemma {:induction false} PercentOctetDecodes(c: char, rest: string)
    requires c as int < 256
    ensures PercentDecode(PercentOctet(c) + rest) == [c] + PercentDecode(rest)
  {
    var e := PercentOctet(c);
    if IsUnreserved(c) {
      assert (e + rest)[1..] == rest;
    } else {
      EscapeDecodes(c as int / 16, c as int % 16, rest);
      assert c as int / 16 * 16 + c as int % 16 == c as int;
    }
  }

  /** `%` and two hexadecimal digits decode to the octet they spell. */
  lemma {:induction false} EscapeDecodes(hi: nat, lo: nat, rest: string)
    requires hi < 16 && lo < 16
    ensures PercentDecode(['%', HexDigit(hi), HexDigit(lo)] + rest) == [Utf8.Octet(hi * 16 + lo)] + PercentDecode(rest)
  {
    var s := ['%', HexDigit(hi), HexDigit(lo)] + rest;
    assert s[0] == '%' && s[1] == HexDigit(hi) && s[2] == HexDigit(lo);
    assert s[3..] == rest;
  }

  /** Percent-decoding inverts percent-encoding on every octet string. */
  lemma {:induction false} PercentRoundTrip(octets: string)
    requires Utf8.IsOctets(octets)
    ensures PercentDecode(PercentEncode(octets)) == octets
  {
    if |octets| > 0 {
      var rest := PercentEncode(octets[1..]);
      assert PercentEncode(octets) == PercentOctet(octets[0]) + rest;
      PercentOctetDecodes(octets[0], rest);
      PercentRoundTrip(octets[1..]);
      assert octets == [octets[0]] + octets[1..];
    }
  }

  /** Length of the leading run of ASCII characters. */
  function AsciiRun(s: string): (n: nat)
    ensures n <= |s| && Utf8.IsAscii(s[..n])
    ensures n < |s| ==> s[n] as int >= 128
  {
    if |s| == 0 || s[0] as int >= 128 then 0
    else
      var n := AsciiRun(s[1..]) + 1;
      assert s[..n] == [s[0]] + s[1..][..n - 1];
      n
  }

  /** `unquote`'s decoding loop: each maximal ASCII run is percent-decoded to octets
      and decoded with the charset; non-ASCII characters pass through. */
  function UnquoteRuns(s: string, decode: Decoder): (r: string)
    ensures (forall k :: 0 <= k < |s| ==> s[k] as int >= 128) ==> r == s
    decreases |s|
  {
    if |s| == 0 then []
    else if s[0] as int >= 128 then
      assert s == [s[0]] + s[1..];
      [s[0]] + UnquoteRuns(s[1..], decode)
    else
      var n := AsciiRun(s);
      decode(PercentDecode(s[..n])) + UnquoteRuns(s[n..], decode)
  }

  /** `unquote(s, encoding=name)`: text without '%' is returned as it is, before the
      charset is even looked up; otherwise an unknown name is a failure (`None`). */
  function Unquote(s: string, name: string, charsets: CharsetTable): (r: Option<string>)
    ensures '%' !in s ==> r == Some(s)
  {
    if '%' !in s then Some(s)
    else
      match charsets(name)
      case None => None
      case Some(decode) => Some(UnquoteRuns(s, decode))
  }

  /** The name `decode_rfc5987` looks up: the lower-cased charset, or utf-8 for none. */
  function CharsetLabel(charset: string): (r: string)
    ensures r != "" && Lower(r) == r
    ensures Lower(charset) != "" ==> r == Lower(charset)
  {
    LowerIdempotent(charset);
    if Lower(charset) == "" then
      assert forall i | 0 <= i < 5 :: !('A' <= "utf-8"[i] <= 'Z');
      "utf-8"
    else Lower(charset)
  }

  /** `decode_rfc5987`: split at the first two apostrophes into charset, language and
      encoded value, and percent-decode the value with the charset; with fewer than
      two apostrophes, or when decoding fails, the input comes back unchanged. */
  function DecodeRfc5987(value: string, charsets: CharsetTable): (r: string)
    ensures '\'' !in value ==> r == value
  {
    match SplitFirst(value, '\'')
    case None => value
    case Some((charset, tail)) =>
      match SplitFirst(tail, '\'')
      case None => value
      case Some((_, encoded)) =>
        Unquote(encoded, CharsetLabel(charset), charsets).GetOr(value)
  }

  /** `encode_rfc5987`: the charset name, two apostrophes (empty language), then the
      percent-encoded UTF-8 octets of the value, whatever charset is named. */
  function EncodeRfc5987(value: string, charset: string): (r: string)
    ensures r == charset + "''" + Quote(value)
    ensures Utf8.IsAscii(r[|charset|..])
  {
    charset + "''" + Quote(value)
  }

  /** With a single apostrophe there is no encoded segment and the input comes back. */
  lemma {:induction false} DecodeSingleApostrophe(charset: string, rest: string, charsets: CharsetTable)
    requires '\'' !in charset && '\'' !in rest
    ensures DecodeRfc5987(charset + "'" + rest, charsets) == charset + "'" + rest
  {
    SplitFirstAt(charset, '\'', rest);
  }

  /** With two apostrophes, the text after the second is decoded with the charset
      before the first; on failure the whole input comes back. */
  lemma {:induction false} DecodeSegments(charset: string, lang: string, encoded: string, charsets: CharsetTable)
    requires '\'' !in charset && '\'' !in lang
    ensures DecodeRfc5987(charset + "'" + lang + "'" + encoded, charsets)
         == Unquote(encoded, CharsetLabel(charset), charsets).GetOr(charset + "'" + lang + "'" + encoded)
  {
    var tail := lang + "'" + encoded;
    assert charset + "'" + lang + "'" + encoded == charset + "'" + tail;
    SplitFirstAt(charset, '\'', tail);
    SplitFirstAt(lang, '\'', encoded);
  }

  /** The language segment plays no part in a successful decoding. */
  lemma {:induction false} DecodeIgnoresLanguage(charset: string, lang1: string, lang2: string, encoded: string, charsets: CharsetTable)
    requires '\'' !in charset && '\'' !in lang1 && '\'' !in lang2
    requires Unquote(encoded, CharsetLabel(charset), charsets).Some?
    ensures DecodeRfc5987(charset + "'" + lang1 + "'" + encoded, charsets)
         == DecodeRfc5987(charset + "'" + lang2 + "'" + encoded, charsets)
  {
    DecodeSegments(charset, lang1, encoded, charsets);
    DecodeSegments(charset, lang2, encoded, charsets);
  }

  /** The table's decoder for `name` inverts UTF-8 encoding. */
  ghost predicate DecodesUtf8(charsets: CharsetTable, name: string) {
    && charsets(CharsetLabel(name)).Some?
    && forall s :: charsets(CharsetLabel(name)).value(Utf8.Encode(s)) == s
  }

  /** An ASCII text is one run: it is percent-decoded and decoded as a whole. */
  lemma {:induction false} UnquoteRunsAscii(s: string, decode: Decoder)
    requires |s| > 0 && Utf8.IsAscii(s)
    ensures UnquoteRuns(s, decode) == decode(PercentDecode(s))
  {
    var n := AsciiRun(s);
    assert n == |s|;
    assert s[..n] == s && s[n..] == [];
  }

  /** Quoting text is the identity exactly when it needs no escape. */
  lemma {:induction false} QuoteNoEscape(value: string)
    requires '%' !in Quote(value)
    ensures Quote(value) == value
  {
    PercentEncodeNoEscape(Utf8.Encode(value));
    Utf8.EncodeAscii(value);
  }

  /** Round trip of section 3.2 of RFC 5987: decoding what `encode_rfc5987` produced
      gives the value back, for a charset name whose decoder inverts UTF-8. */
  lemma {:induction false} Rfc5987RoundTrip(value: string, name: string, charsets: CharsetTable)
    requires '\'' !in name
    requires DecodesUtf8(charsets, name)
    ensures DecodeRfc5987(EncodeRfc5987(value, name), charsets) == value
  {
    var q := Quote(value);
    assert EncodeRfc5987(value, name) == name + "'" + "" + "'" + q;
    DecodeSegments(name, "", q, charsets);
    UnquoteQuote(value, CharsetLabel(name), charsets);
  }

  /** `unquote` inverts `quote` for a charset whose decoder inverts UTF-8. */
  lemma {:induction false} UnquoteQuote(value: string, charsetName: string, charsets: CharsetTable)
    requires charsets(charsetName).Some?
    requires forall s :: charsets(charsetName).value(Utf8.Encode(s)) == s
    ensures Unquote(Quote(value), charsetName, charsets) == Some(value)
  {
    var q := Quote(value);
    if '%' !in q {
      QuoteNoEscape(value);
    } else {
      var decode := charsets(charsetName).value;
      UnquoteRunsAscii(q, decode);
      assert decode(Utf8.Encode(value)) == value;
    }
  }
}
