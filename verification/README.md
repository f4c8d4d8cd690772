# Multipart/form-data conformance tools, modelled in Dafny

This project models the logic of the multipart/form-data conformance suite:
its reference codec and the judges that score other parsers against it.
Multipart/form-data is RFC 7578. The boundary and delimiter syntax comes from
section 5.1.1 of RFC 2046, and extended filenames from section 3.2 of RFC 5987.
Every operation is a pure function over sequences, and the lemmas state what the
tools promise.

The modules follow the repository's files:

- `Text`, `Utf8`, `Wrappers`: the string operations the Python code uses.
  They cover `find`, `strip`, `lower`, `split`, `replace`, `join`, and UTF-8
  `encode` and strict `decode`.
- `Boundary`: `validate_boundary` and `parse_boundary`
  (tools/lib/multipart_utils.py). The two regular expressions are written out
  as scans.
- `Params`: `_tokenize_header_params` and `parse_content_disposition`.
- `Rfc5987`: `decode_rfc5987` and `encode_rfc5987`, with percent-encoding
  written out. The charset decoders are a table passed in.
- `Parts`: header dictionaries, the `Part`/`ParseResult` records, the closed
  set of error tags, and `compare_parts`.
- `Parser`: `MultipartParser` (tools/run-reference.py) in strict and lenient
  mode. `ParserFacts` holds what the parser guarantees about its result.
- `RunTest`: the decision part of `run_test`, once a test's files are loaded.
- `Builder`: `MultipartBuilder` (tools/generate-raw.py).
- `RoundTrip`, `DispositionRoundTrip`, `MessageRoundTrip`: the generator
  followed by the parser gives back the fields. This is shown for one header
  block, for one Content-Disposition value, and for a whole message.
- `GoServer`: the pure decisions of examples/go-stdlib/main.go. These are
  `hasFilenameParam`, `classifyError`, the Content-Type rules, the per-part
  projection, and the read loop over the reader's events.
- `GoHarness`: `comparePart`, `isOptional`, `truncate` and the verdicts of
  `runTestCase` (examples/go-stdlib/main_test.go).
- `Starlette`: `compare_part` and the verdicts of `test_multipart_parsing`
  (examples/starlette/tests/test_conformance.py).

Octets and text share one type, `string`. An octet is the character with the
same code. Where the source converts between text and bytes, the conversion is
written out (`Utf8.Encode`, `Utf8.DecodeLine`).

## Model

| member | source | states |
|---|---|---|
| Text.Find | tools/run-reference.py:62 | `bytes.find`: the index returned is an occurrence and no earlier index is one; `None` (the source's -1) means no occurrence anywhere |
| Text.IndexOf | tools/run-reference.py:214 | the first index of a character, or `None` exactly when the character does not occur |
| Text.SplitFirst | tools/run-reference.py:244 | `split(":", 1)`: the text is the part before the first colon, the colon, and the rest; no split exactly when there is no colon |
| Text.Lower | tools/lib/multipart_utils.py:266 | `lower()` restricted to ASCII: each character is folded on its own, A-Z to a-z, and every other character is kept, so the length is kept |
| Text.Strip | tools/run-reference.py:245 | `strip()` keeps only characters of the input and leaves no white space at either end of the result |
| Text.StripAround | tools/run-reference.py:245 | stripping removes exactly the white space around a text that has none at its ends |
| Text.ReplaceAll | tools/generate-raw.py:90 | `str.replace`: a replacement no longer than the pattern never lengthens the text, and one no shorter never shortens it |
| Text.ReplaceAbsent | tools/generate-raw.py:90 | text with no occurrence of the pattern comes back unchanged |
| Utf8.EncodeChar | tools/generate-raw.py:95 | one character encodes to 1-4 octets; ASCII encodes to itself and any other character to octets that are all 0x80 or above |
| Utf8.EncodeAppend | tools/generate-raw.py:95 | the encoding of a concatenation is the concatenation of the encodings |
| Utf8.Encode | tools/generate-raw.py:95 | `encode('utf-8')` yields octets, never fewer than the characters encoded |
| Utf8.Decode | tools/run-reference.py:237-240 | strict `decode('utf-8')` never yields more characters than octets, and ASCII octets decode to themselves |
| Utf8.DecodeEncode | tools/run-reference.py:237-240 | strict UTF-8 decoding inverts encoding for every text |
| Utf8.DecodeLine | tools/run-reference.py:237-240 | a header line is read as UTF-8 when it decodes, and otherwise as Latin-1, octet for octet |
| Utf8.DecodeLineEncode | tools/run-reference.py:237-240 | a line the generator encoded reads back as the text it wrote |
| Rfc5987.PercentOctet | tools/lib/multipart_utils.py:353 | one octet is kept when unreserved and otherwise becomes `%XX`; the result is ASCII without apostrophes, and holds a `%` exactly when the octet is reserved |
| Rfc5987.PercentEncode | tools/lib/multipart_utils.py:353 | the percent-encoding of octets is ASCII and holds no apostrophe, so the charset and language segments stay separate |
| Rfc5987.PercentRoundTrip | tools/lib/multipart_utils.py:340 | percent-decoding inverts percent-encoding for every octet string |
| Rfc5987.Quote | tools/lib/multipart_utils.py:353 | `quote(value, safe='')` is ASCII without apostrophes, and percent-decoding it gives back the value's UTF-8 octets |
| Rfc5987.PercentDecode | tools/lib/multipart_utils.py:340 | percent-decoding never lengthens a text, and leaves text without `%` unchanged |
| Rfc5987.UnquoteQuote | tools/lib/multipart_utils.py:339-353 | unquoting what `quote` produced gives the value back, for any charset whose decoder inverts UTF-8 |
| Rfc5987.UnquoteRuns | tools/lib/multipart_utils.py:340 | `unquote` passes a text with no ASCII character through unchanged; UnquoteRunsAscii gives the all-ASCII case |
| Rfc5987.CharsetLabel | tools/lib/multipart_utils.py:340 | the charset name looked up is lower case and never empty: the lower-cased charset, or utf-8 for an empty one |
| Rfc5987.Unquote | tools/lib/multipart_utils.py:340 | `unquote` returns text without `%` unchanged |
| Rfc5987.DecodeRfc5987 | tools/lib/multipart_utils.py:321-343 | a value with no apostrophe is returned as it is |
| Rfc5987.DecodeSingleApostrophe | tools/lib/multipart_utils.py:331-333 | with a single apostrophe there are only two segments, and the input comes back unchanged |
| Rfc5987.DecodeSegments | tools/lib/multipart_utils.py:331-343 | with two apostrophes, the text after the second is decoded with the lower-cased charset (utf-8 when none is given); when that fails, the input comes back |
| Rfc5987.DecodeIgnoresLanguage | tools/lib/multipart_utils.py:335-341 | the language segment does not affect a successful decoding |
| Rfc5987.EncodeRfc5987 | tools/lib/multipart_utils.py:346-354 | the output is the charset, two apostrophes, then an all-ASCII percent-encoding of the value |
| Rfc5987.Rfc5987RoundTrip | tools/lib/multipart_utils.py:321-354 | decoding what `encode_rfc5987` wrote gives the value back, for any charset name whose decoder inverts UTF-8 |
| Boundary.ValidateBoundaryAsWritten | tools/lib/multipart_utils.py:129-149 | the source's check: a valid boundary has 1 to 70 characters and does not end in a space |
| Boundary.NewlineBoundaryAcceptedAsWritten | tools/lib/multipart_utils.py:16 | the source's check accepts "a\n" although "\n" is not a boundary character (see Findings) |
| Boundary.ValidateBoundary | tools/lib/multipart_utils.py:129-149 | valid exactly when the length is 1-70, there is no trailing space and every character is in the RFC 2046 class; otherwise the first failing check is reported, in the order empty, too long, trailing space, then the characters outside the class |
| Boundary.ValidateAgreesAwayFromNewline | tools/lib/multipart_utils.py:145-147 | the intended check and the check as written agree on every boundary that does not end in a newline |
| Boundary.ValidBoundaryHasNoLineBreak | tools/lib/multipart_utils.py:16 | a valid boundary holds no CR and no LF |
| Boundary.QuotedAt | tools/lib/multipart_utils.py:19 | a quoted match is non-empty and holds no `"` |
| Boundary.UnquotedAt | tools/lib/multipart_utils.py:20 | an unquoted match is non-empty and holds no white space and no `;` |
| Boundary.TokenPrefix | tools/lib/multipart_utils.py:20 | the value stops at the first white space or `;`, and before that holds neither |
| Boundary.SearchQuoted | tools/lib/multipart_utils.py:117 | `re.search` of the quoted pattern: `None` exactly when no start position matches, otherwise the group of the leftmost match |
| Boundary.SearchUnquoted | tools/lib/multipart_utils.py:122 | the same for the unquoted pattern |
| Boundary.SearchShift | tools/lib/multipart_utils.py:117-122 | a search may skip a start position that does not match: matching nowhere and the leftmost match are the same on the rest |
| Boundary.SearchQuotedSkip | tools/lib/multipart_utils.py:117 | `re.search` finds nothing at a start whose ninth following character is not `"`, so those starts can be skipped |
| Boundary.SearchUnquotedSkip | tools/lib/multipart_utils.py:122 | no unquoted match starts inside a prefix with no letter b in it |
| Boundary.ParseBoundary | tools/lib/multipart_utils.py:103-126 | empty input gives `None`; `None` exactly when neither pattern matches anywhere; when the quoted pattern matches somewhere, the result is its leftmost match, and otherwise the leftmost unquoted match; a result is never empty |
| Boundary.NoQuoteNoQuotedBoundary | tools/lib/multipart_utils.py:117-119 | a header without `"` has no quoted boundary |
| Boundary.ParseBoundaryUnquotedHeader | tools/lib/multipart_utils.py:113-126 | `multipart/form-data; boundary=B` yields B for any B without white space, `;` or `"` |
| Boundary.ParseBoundaryQuotedHeader | tools/lib/multipart_utils.py:116-119 | `multipart/form-data; boundary="B"` yields B for any non-empty B without `"`, whatever it contains |
| Boundary.QuotedBoundaryWins | tools/lib/multipart_utils.py:116-124 | a quoted boundary wins even when an unquoted `boundary=` comes first |
| Params.Tokenize | tools/lib/multipart_utils.py:288-318 | the tokens concatenated are the input without its unquoted `;`; joined with `;` (plus a final `;` when the input ends in one) they rebuild the input; there are no tokens only for empty input |
| Params.TokConcat | tools/lib/multipart_utils.py:299-316 | from any scanner state, the tokens concatenated are the pending token followed by the text without its separators |
| Params.TokJoin | tools/lib/multipart_utils.py:299-316 | from any scanner state, the tokens joined with `;` rebuild the pending token and the text; only a final empty token is lost |
| Params.TokEmpty | tools/lib/multipart_utils.py:315-318 | no token at all exactly when both the text and the pending token are empty |
| Params.TokEscapedPair | tools/lib/multipart_utils.py:300-305 | inside quotes a backslash shields the next character: a `\"` neither closes the quote nor splits |
| Params.SeparatorOutsideQuotes | tools/lib/multipart_utils.py:306-311 | outside quotes every `;` separates and no other character does |
| Params.UnquoteValue | tools/lib/multipart_utils.py:269-275 | a value not both opened and closed by a quote is left as it is, and unquoting never lengthens a value |
| Params.Param | tools/lib/multipart_utils.py:260-267 | a token is ignored exactly when it has no `=` once stripped; otherwise its key holds no `=` and is lower case; ParamPadded gives key and value |
| Params.ParamPadded | tools/lib/multipart_utils.py:260-267 | for a token `key = value` with any white space around each piece, the key is the text before the `=`, stripped and lower-cased, and the value is the text after it, stripped and unquoted |
| Params.ParseContentDisposition | tools/lib/multipart_utils.py:236-285 | an empty header gives all four fields `None`; any other header gives a disposition type |
| Params.ParseContentDispositionFields | tools/lib/multipart_utils.py:249-285 | the type is the first token, stripped and lower-cased; name, filename and filename* are the values of the last token with that key, and filename* is decoded |
| Params.ApplyParamsKeepKind | tools/lib/multipart_utils.py:260-283 | parameters never change the disposition type |
| Params.ApplyParamsLastName | tools/lib/multipart_utils.py:277-278 | `name` holds the value of the last `name` parameter, and is unchanged if there is none |
| Params.ApplyParamsLastFilename | tools/lib/multipart_utils.py:279-280 | `filename` holds the value of the last `filename` parameter (an empty one stays `""`), and is unchanged if there is none |
| Params.ApplyParamsLastFilenameStar | tools/lib/multipart_utils.py:281-283 | `filename_star` holds the decoding of the last `filename*` parameter |
| Params.SetFieldEffect | tools/lib/multipart_utils.py:277-283 | a key sets its one field and no other; unknown keys change nothing |
| Params.ApplyParamsAppend | tools/lib/multipart_utils.py:260-283 | applying two runs of parameters is applying their concatenation |
| Params.ApplyParamCommute | tools/lib/multipart_utils.py:277-283 | two parameters with different keys commute |
| Params.ParamOrderIrrelevant | tools/lib/multipart_utils.py:260-283 | parameters with different keys give the same result in either order, wherever they stand |
| Parts.Lookup | tools/run-reference.py:209 | a key is found exactly when some entry has it, and the value found belongs to an entry with that key |
| Parts.SetHeader | tools/run-reference.py:245 | assigning to an existing key keeps every key in place; a new key is appended last |
| Parts.SetHeaderLookup | tools/run-reference.py:245 | an assignment reads back, leaves every other key's value alone, and keeps keys distinct |
| Parts.SetHeaderKeys | tools/run-reference.py:245 | after an assignment every key was there before or is the assigned key |
| Parts.FirstHeader | tools/run-reference.py:98-101 | the value of the first entry whose lower-cased key is sought; `None` exactly when no key folds to it |
| Parts.LowerKeysOfLower | tools/run-reference.py:150 | lower-casing keys that are already lower case changes nothing |
| Parts.LowerKeys | tools/run-reference.py:150 | the dict comprehension stores the last entry's value under its folded key |
| Parts.LowerKeysLookup | tools/run-reference.py:150 | the folded keys are distinct; a key is absent exactly when no entry folds to it, and otherwise holds the value of the last entry that does |
| Parts.TagsDistinct | tools/run-reference.py:53-187 | the error tags are pairwise distinct strings |
| Parts.CompareParts | tools/lib/multipart_utils.py:196-198 | a count mismatch gives exactly one difference and no per-part check |
| Parts.ComparePart | tools/lib/multipart_utils.py:200-231 | one part pair yields at most five differences, each naming that pair's index and none a count mismatch |
| Parts.Part.BodySize | tools/lib/multipart_utils.py:53-55 | `body_size` is the number of octets in the body |
| Parts.ComparePartEmpty | tools/lib/multipart_utils.py:200-231 | one part pair has no difference exactly when name, filename and content type are equal (`None` included), the first body key given matches, and the size matches when the key is present; every difference carries the part's index |
| Parts.ComparePairsIndices | tools/lib/multipart_utils.py:200-201 | every per-part difference names an index within the parts compared |
| Parts.ComparePartsEmpty | tools/lib/multipart_utils.py:188-233 | `compare_parts` reports nothing exactly when the counts agree and every part pair matches |
| Parts.ContentTypeComparedWhenUnspecified | tools/lib/multipart_utils.py:212-215 | an expected part without `content_type` does not match an actual part that has one |
| Parser.Delimiter | tools/run-reference.py:58 | a delimiter starts with `--` |
| Parser.CloseDelimiter | tools/run-reference.py:59 | the close delimiter is the delimiter followed by `--` |
| Parser.SkipLineEnding | tools/run-reference.py:193-205 | CRLF is skipped, and in lenient mode a bare LF; the result is `None` exactly at the end of input or for a bare LF in strict mode; any other text is left as it is |
| Parser.LineEnd | tools/run-reference.py:213-232 | a header line ends before its first CRLF, or in lenient mode before an earlier bare LF; the line itself holds no LF |
| Parser.HeaderLine | tools/run-reference.py:243-252 | a line with a colon is always accepted; a line with no colon that is not a continuation is invalid |
| Parser.ParseHeaders | tools/run-reference.py:207-256 | a header block that is read leaves a strictly shorter suffix of the input |
| Parser.FindNextBoundary | tools/run-reference.py:258-272 | the position found starts CRLF + delimiter, or in lenient mode LF + delimiter, and none starts earlier; `None` means no such line anywhere |
| Parser.ClearBeforeBoundary | tools/run-reference.py:120-129 | the text before the delimiter line that ends a body holds no delimiter line |
| Parser.CharsetAt | tools/run-reference.py:138 | `charset=([^\s;]+)` at one position, the key in either case: a group found is non-empty and holds no white space and no `;` |
| Parser.SearchCharset | tools/run-reference.py:138 | `re.search`: `None` exactly when no position matches, otherwise the group of the leftmost match, non-empty and without white space or `;` |
| Parser.TrimQuotes | tools/run-reference.py:140 | `strip('"')`: the input is the result with quotes only before and after it, and no quote is left at either end of the result |
| Parser.ContentTypeOf | tools/run-reference.py:136 | the media type holds no `;` and no outer white space, and is the whole value stripped when the value has no `;` |
| Parser.ContentTypeBeforeSemicolon | tools/run-reference.py:136 | with a `;` in the value, the media type is the text before the first `;`, stripped |
| Parser.CharsetOf | tools/run-reference.py:138-140 | a charset is found exactly when the pattern matches somewhere, and it is then the leftmost match's group with its outer quotes stripped; it holds no white space and no `;` |
| Parser.MakePart | tools/run-reference.py:143-153 | the part takes name, filename and filename* from the disposition, the body as given, the headers with lower-cased keys, and a content type exactly when a Content-Type header is present; the content type and charset are then those of the first Content-Type header's value |
| Parser.AfterBody | tools/run-reference.py:155-180 | after a body the loop either continues on a shorter suffix, stops at the close delimiter with the same part, or stops with `boundary_mismatch` |
| Parser.DropLineEnding | tools/run-reference.py:158-162 | skipping the line ending before a delimiter leaves a suffix |
| Parser.ScanStep | tools/run-reference.py:85-153 | one pass either fails with a loop error, or yields a part whose body holds no delimiter line and continues on a shorter input |
| Parser.StepAfterHeaders | tools/run-reference.py:94-153 | the pass after the header block fails only with a loop error, and a part's body holds no delimiter line |
| Parser.StepWithDisposition | tools/run-reference.py:110-153 | the pass after the disposition fails only with a loop error, and a part's body holds no delimiter line |
| Parser.ScanParts | tools/run-reference.py:84-180 | the loop fails only with an error the loop can raise, and no part body it returns holds a delimiter line |
| Parser.ScanFrom | tools/run-reference.py:84-180 | the same, for a non-empty input |
| Parser.Prepend | tools/run-reference.py:153 | a part put in front keeps every body clear of delimiter lines |
| Parser.ScanBody | tools/run-reference.py:61-180 | everything before the terminator check fails only with a loop error |
| Parser.ScanAfterDelimiter | tools/run-reference.py:73-180 | the text after the first delimiter fails only with a loop error |
| Parser.Parse | tools/run-reference.py:48-191 | a result is valid exactly when it has no error tag, and an invalid result carries parts only when it is `missing_terminator` |
| ParserFacts.NoBoundaryRejected | tools/run-reference.py:50-55 | a missing or empty boundary is `invalid_boundary`, whatever the body |
| ParserFacts.NoDelimiterRejected | tools/run-reference.py:61-68 | a body without `--boundary` is `boundary_mismatch` |
| ParserFacts.Verdict | tools/run-reference.py:182-191 | a message is valid exactly when the scan succeeds and `--boundary--` occurs anywhere in it; a successful scan without it is `missing_terminator` and keeps the parts; any other failure is that error with no parts |
| ParserFacts.ScanBodyAt | tools/run-reference.py:61-74 | the scan starts right after the first occurrence of the delimiter |
| ParserFacts.ScanIgnoresPreamble | tools/run-reference.py:70-71 | the scan does not see a preamble in which no delimiter starts |
| ParserFacts.CloseIgnoresPreamble | tools/run-reference.py:183 | such a preamble does not change whether the close delimiter occurs |
| ParserFacts.PreambleIgnored | tools/run-reference.py:61-71 | text before the first delimiter is ignored: the whole parse result is that of the message without it |
| ParserFacts.BareLfAfterFirstDelimiter | tools/run-reference.py:73-80 | in strict mode a bare LF right after the first delimiter is `truncated` |
| ParserFacts.NoFirstLine | tools/run-reference.py:223-232 | a header block whose first line has no accepted line ending is invalid |
| ParserFacts.BareLfFirst | tools/run-reference.py:213-226 | when the first LF follows no CR, no CRLF comes before it |
| ParserFacts.StrictBareLfInHeaders | tools/run-reference.py:224-232 | in strict mode a header block whose first LF is bare is invalid |
| ParserFacts.NoLineEndInHeaders | tools/run-reference.py:256 | in either mode a header block with no line ending at all is invalid |
| ParserFacts.HeaderLineSets | tools/run-reference.py:243-245 | `name: value` sets the stripped name to the stripped value, replacing an earlier value of that name, and leaves the other headers alone |
| ParserFacts.HeaderLineFolds | tools/run-reference.py:246-249 | a folded line extends the last header's value by one space and the stripped line, in either mode, and leaves the other headers alone |
| ParserFacts.LookupLast | tools/run-reference.py:248 | with distinct keys, the last key looks up the last value |
| ParserFacts.StepPart | tools/run-reference.py:85-153 | a part comes from a header block with a Content-Disposition that has a name, with the body up to the next delimiter line; an unreadable block is exactly `invalid_header`, a block without the disposition exactly `missing_content_disposition`, a disposition without a name exactly `missing_name`, and a named part with no later delimiter line exactly `truncated` |
| ParserFacts.HeadersStepPart | tools/run-reference.py:96-153 | once the block is read, a missing disposition is exactly `missing_content_disposition`, a disposition without a name exactly `missing_name`, a named one with no later delimiter line exactly `truncated`, and a part has a named disposition and the body up to the next delimiter line |
| ParserFacts.DispositionStepPart | tools/run-reference.py:110-153 | once the disposition is read, `missing_name` is reported exactly when it has no name, `truncated` exactly when it has one and no delimiter line follows, any other stop is `boundary_mismatch`, and a part's body runs up to the delimiter line |
| ParserFacts.PartBodiesClear | tools/run-reference.py:120-129 | no part body holds CRLF + delimiter, nor in lenient mode LF + delimiter |
| ParserFacts.LowerKeysAreLower | tools/run-reference.py:150 | every key of a part's headers is lower case (in the ASCII sense of `Text.Lower`) |
| ParserFacts.DelimiterEndsBody | tools/run-reference.py:258-272 | the delimiter is matched as a prefix: whatever follows CRLF + `--boundary`, the body ends before that CRLF |
| ParserFacts.PrefixDelimiterStartsNextPart | tools/run-reference.py:155-174 | so `--boundaryX` ends a part like `--boundary`, and the next part starts at X |
| RunTest.ExpectationFor | tools/run-reference.py:331-334 | lenient mode uses `lenient_expected` when present; otherwise `expected`, or `{}` when it is absent |
| RunTest.Differences | tools/run-reference.py:355-356 | each part difference becomes one reported problem, in order |
| RunTest.Judge | tools/run-reference.py:337-356 | a validity mismatch is reported first exactly when the validities differ, and nowhere else |
| RunTest.RunTest | tools/run-reference.py:296-358 | a test passes exactly when no problem is reported, and a skipped test passes |
| RunTest.JudgeEmptyIff | tools/run-reference.py:337-358 | no problem is reported exactly when validity agrees and, for an invalid expectation, the error type given is met, or, for a valid one, every part matches |
| RunTest.ErrorTypeCheck | tools/run-reference.py:346-351 | the error type is checked only when the expectation names a non-empty one |
| RunTest.RunTestVerdict | tools/run-reference.py:296-358 | a test is skipped exactly when it is tagged lenient and run in strict mode; otherwise it passes exactly when the parse result meets the expectation chosen for the mode |
| RunTest.LenientSkippedInStrict | tools/run-reference.py:300-305 | a lenient-tagged test in strict mode is skipped and passed with nothing reported, whatever the body |
| RunTest.ChecksBySide | tools/run-reference.py:345-356 | the error type is never reported for a valid expectation, and part differences never for an invalid one |
| RunTest.ValidityDefaultsToTrue | tools/run-reference.py:338-341 | an absent `valid` key is read as true |
| Builder.NewBuilder | tools/generate-raw.py:34-47 | a new builder holds no part |
| Builder.HeaderLines | tools/generate-raw.py:86-104 | the disposition line comes first, then a Content-Type line only for a non-empty type, then one line per extra header |
| Builder.BuildHeaders | tools/generate-raw.py:77-108 | the header block ends with two line endings |
| Builder.HeaderBlockStart | tools/generate-raw.py:86-108 | the header block starts with the encoded Content-Disposition line, whatever the extra headers |
| Builder.EncodeAll | tools/generate-raw.py:95-104 | each header line is UTF-8 encoded on its own |
| Builder.AddField | tools/generate-raw.py:49-58 | `add_field` appends one part with no filename and changes nothing else |
| Builder.AddFile | tools/generate-raw.py:60-71 | `add_file` appends one part with the filename, content type and filename* given, and changes nothing else |
| Builder.AddRawPart | tools/generate-raw.py:73-75 | `add_raw_part` appends the octets exactly as given and changes nothing else |
| Builder.HeaderBlockShape | tools/generate-raw.py:86-108 | the header block is the disposition line, a Content-Type line for a non-empty type, each followed by the line ending, then one more line ending |
| Builder.SectionsSnoc | tools/generate-raw.py:122-127 | adding a last part leaves the earlier parts each followed by a line ending |
| Builder.SectionsAppend | tools/generate-raw.py:122-127 | the sections of two part lists are the sections of each |
| Builder.SectionsLengthSum | tools/generate-raw.py:122-127 | the sections are as long as their pieces together |
| Builder.BuildLayout | tools/generate-raw.py:110-137 | the output starts with the preamble, ends with the epilogue, and is as long as preamble, sections, close delimiter line (when on) and epilogue together |
| Builder.Build | tools/generate-raw.py:110-137 | the message is exactly as long as the preamble, the delimited sections, the close delimiter line when the terminator is on, and the epilogue together |
| Builder.TerminatorOff | tools/generate-raw.py:126-131 | with the terminator off there is no `--B--`, and the last part is followed only by the epilogue |
| Builder.RawPartVerbatim | tools/generate-raw.py:73-137 | a raw part appears verbatim right after its delimiter line, with no header added |
| Builder.EscapeQuotedEach | tools/generate-raw.py:90 | the two replacements escape each character on its own: a backslash is doubled and a quote gets a backslash, backslashes first |
| Builder.EscapeEachHead | tools/generate-raw.py:90 | an escaped text never starts with a quote |
| Builder.UnescapeQuotes | tools/lib/multipart_utils.py:273 | undoing the quote escapes of an escaped text leaves exactly the doubled backslashes |
| Builder.UndoubleBackslashes | tools/lib/multipart_utils.py:275 | collapsing doubled backslashes undoes the doubling |
| Builder.UnquoteEscaped | tools/lib/multipart_utils.py:270-275 | the parser's unquoting inverts the generator's escaping, for every string |
| RoundTrip.LineEndAtCrlf | tools/run-reference.py:224-226 | a line with no line break that is followed by CRLF ends at that CRLF |
| RoundTrip.HeaderLineStep | tools/run-reference.py:211-254 | an encoded single-line header with a colon is read as one header line |
| RoundTrip.BlankLineEnds | tools/run-reference.py:216-218 | the empty line ends the header block and keeps what follows |
| RoundTrip.NamedLine | tools/run-reference.py:243-245 | `Key: value` sets the key to the value |
| RoundTrip.DispositionHeader | tools/run-reference.py:243-245 | the disposition line the generator writes sets exactly the Content-Disposition header |
| RoundTrip.TypeHeader | tools/run-reference.py:243-245 | after it, the content-type line adds the second header |
| RoundTrip.EscapeEachNoLineBreak | tools/generate-raw.py:90 | escaping adds no line break |
| RoundTrip.HeaderBlockParse | tools/run-reference.py:207-256 | the header block the generator writes for a field reads back as the field's headers, and the text after it is left unread |
| DispositionRoundTrip.PlainRun | tools/lib/multipart_utils.py:306-313 | outside quotes, text without quote, backslash or `;` neither splits nor changes the scanner state |
| DispositionRoundTrip.QuotedPlainRun | tools/lib/multipart_utils.py:306-313 | inside quotes, text without quote or backslash stays inside, even with `;` |
| DispositionRoundTrip.EscapedRun | tools/lib/multipart_utils.py:300-305 | inside quotes, an escaped text is read to its end without leaving the quotes |
| DispositionRoundTrip.TokenizeJoin | tools/lib/multipart_utils.py:288-318 | tokens that hold no separator and close their quotes come back out of their `;`-join |
| DispositionRoundTrip.SeparatorStep | tools/lib/multipart_utils.py:309-311 | a `;` outside quotes ends the current token |
| DispositionRoundTrip.QuotedParam | tools/lib/multipart_utils.py:260-275 | a parameter written as ` key="<escaped value>"` reads back as the key and the raw value |
| DispositionRoundTrip.DispositionJoin | tools/generate-raw.py:87-91 | the value the generator writes is its tokens joined with `;` |
| DispositionRoundTrip.DispositionTokenized | tools/lib/multipart_utils.py:288-318 | that value splits back into those tokens |
| DispositionRoundTrip.DispositionParams | tools/lib/multipart_utils.py:260-283 | the parameters after the type set the name and the filename and no filename* |
| DispositionRoundTrip.DispositionRoundTrip | tools/lib/multipart_utils.py:236-285 | the generator's Content-Disposition value reads back as `form-data` with the field's name and filename (`None` and `""` kept apart) and no filename* |
| GoServer.ErrorResponse | examples/go-stdlib/main.go:159-166 | an error response is invalid, has the error type and no part |
| GoServer.HasFilenameParam | examples/go-stdlib/main.go:137-141 | true exactly when `filename=` or `filename*=` occurs at some position of the lower-cased header |
| GoServer.ClassifyError | examples/go-stdlib/main.go:144-156 | the tag is one of the four, and `parse_error` exactly when the lower-cased message names none of boundary, content-disposition and header |
| GoServer.HasFilenameParamFolded | examples/go-stdlib/main.go:137-141 | the filename test ignores case |
| GoServer.FilenameKeyFound | examples/go-stdlib/main.go:137-141 | any header with `filename=` or `filename*=` in it has a filename parameter |
| GoServer.NoFilenameKey | examples/go-stdlib/main.go:137-141 | a header with neither key, in any case, has none |
| GoServer.ClassifyErrorOrder | examples/go-stdlib/main.go:144-156 | each of the four tags is returned exactly when its test is the first to succeed, in the order boundary, content-disposition, header, otherwise `parse_error` |
| GoServer.TagsDiffer | examples/go-stdlib/main.go:147-154 | the four tags are distinct |
| GoServer.DispositionBeforeHeader | examples/go-stdlib/main.go:149-152 | a message naming both content-disposition and header, and no boundary, is `missing_content_disposition` |
| GoServer.StartFor | examples/go-stdlib/main.go:44-59 | every rejection is an invalid response with an error type and no part |
| GoServer.StartIff | examples/go-stdlib/main.go:44-59 | reading starts exactly for a parsed `multipart/` type with a boundary parameter, with that boundary; a missing boundary is `boundary_mismatch` |
| GoServer.Project | examples/go-stdlib/main.go:85-125 | a part keeps its form name and its size in octets, and has exactly one of body_text and body_base64 |
| GoServer.ProjectFields | examples/go-stdlib/main.go:88-125 | the filename (possibly empty) is reported exactly when the disposition has a filename parameter; the content type exactly when non-empty; text exactly when the body is valid UTF-8, as the reference parser reads it, and base64 otherwise |
| GoServer.ReadParts | examples/go-stdlib/main.go:65-126 | the loop answers valid with one part per event read, or invalid with an error type and no part |
| GoServer.Serve | examples/go-stdlib/main.go:39-134 | an invalid answer has an error type and no part, and a valid one has no error type |
| GoServer.ReadPartsResult | examples/go-stdlib/main.go:65-131 | the loop succeeds exactly when every event is a part, and then returns their projections in order |
| GoServer.ServeResult | examples/go-stdlib/main.go:39-134 | the server answers valid exactly when the Content-Type passes and every event is a part, with the parts projected in order |
| GoHarness.ComparePartEmpty | examples/go-stdlib/main_test.go:176-231 | no mismatch exactly when name, filename and size are equal, the content type is equal when one is expected, and the body check that applies passes; there are at most five mismatches |
| GoHarness.ComparePart | examples/go-stdlib/main_test.go:176-231 | one part yields at most five mismatches, all distinct |
| GoHarness.NilFilenameIsNotEmpty | examples/go-stdlib/main_test.go:185-193 | a nil filename and an empty one mismatch, in either direction |
| GoHarness.ContentTypeUncheckedWhenUnexpected | examples/go-stdlib/main_test.go:196-202 | without an expected content type, any actual one is accepted |
| GoHarness.IsOptional | examples/go-stdlib/main_test.go:155-162 | a test is optional exactly when "optional" is among its tags |
| GoHarness.Truncate | examples/go-stdlib/main_test.go:235-240 | a string up to the bound is kept; a longer one becomes its first `maxLen` octets and "..." |
| GoHarness.TruncateBound | examples/go-stdlib/main_test.go:235-240 | a truncated string is at most three longer than the bound, and truncating it again to that length changes nothing |
| GoHarness.AllMismatches | examples/go-stdlib/main_test.go:321-329 | every collected mismatch names an existing part |
| GoHarness.Tagged | examples/go-stdlib/main_test.go:325-327 | each mismatch of a part is tagged with that part's index, in order |
| GoHarness.AllMismatchesEmpty | examples/go-stdlib/main_test.go:321-331 | nothing is collected exactly when every part agrees |
| GoHarness.AllMismatchesCover | examples/go-stdlib/main_test.go:321-329 | every mismatch of part i is collected, tagged i |
| GoHarness.ValidExpectationVerdict | examples/go-stdlib/main_test.go:299-336 | for a valid expectation a test passes exactly when the answer is valid, has as many parts and each agrees; otherwise it fails, or is skipped when optional |
| GoHarness.InvalidExpectationVerdict | examples/go-stdlib/main_test.go:337-346 | for an invalid expectation a valid answer is a skip, whatever the tags, and an invalid one passes, with the error type unchecked |
| GoHarness.OptionalOnlyDowngrades | examples/go-stdlib/main_test.go:263-347 | being optional only turns failures into skips; it never yields a pass, and an undecodable answer still fails |
| GoHarness.RunCase | examples/go-stdlib/main_test.go:263-347 | a pass needs an answer whose validity is the expected one; a skip of a required test is a valid answer to an invalid expectation; an optional test fails only when the answer cannot be decoded |
| Starlette.ComparePartEmpty | examples/starlette/tests/test_conformance.py:120-184 | no mismatch exactly when name and filename are equal (`None` differs from `""`), the content type is equal when one is expected, the first body key expected is met, and the size is equal when its key is present |
| Starlette.ComparePart | examples/starlette/tests/test_conformance.py:120-184 | one part yields at most five mismatches, all distinct |
| Starlette.TextReplacesBase64 | examples/starlette/tests/test_conformance.py:159-173 | in the base64 path, text sent by the server is re-encoded and compared instead of its base64 |
| Starlette.AbsentKeys | examples/starlette/tests/test_conformance.py:128-182 | an absent size or content type is not checked; an absent name or filename differs from an empty one |
| Starlette.AllMismatchesEmpty | examples/starlette/tests/test_conformance.py:225-233 | no mismatch over all parts exactly when each part agrees |
| Starlette.ValidExpectationVerdict | examples/starlette/tests/test_conformance.py:211-233 | a valid expectation passes exactly when `valid` is true, the counts agree and every part agrees; otherwise it fails and is never skipped |
| Starlette.InvalidExpectationVerdict | examples/starlette/tests/test_conformance.py:234-244 | an invalid expectation is skipped exactly when the answer is valid, and passes otherwise |
| Starlette.Judge | examples/starlette/tests/test_conformance.py:210-244 | a skip is a valid answer to an invalid expectation, and a pass has the expected validity |
| MessageRoundTrip.AddFieldOf | tools/generate-raw.py:49-71 | adding a field appends its wire form, through `add_field` or `add_file`, and changes nothing else |
| MessageRoundTrip.Generate | tools/generate-raw.py:34-71 | the generator holds the fields' wire forms in order, with CRLF line endings and the terminator on |
| MessageRoundTrip.TailLayout | tools/generate-raw.py:122-135 | the sections, the close delimiter line and the epilogue form the message from its first delimiter on |
| MessageRoundTrip.BuildLayout | tools/generate-raw.py:110-137 | the generated message is the preamble followed by that text |
| MessageRoundTrip.BodyStaysClear | tools/run-reference.py:258-272 | with no CR in the delimiter, a body without CRLF + delimiter stays clear of delimiter lines when followed by CRLF |
| MessageRoundTrip.NextSection | tools/run-reference.py:155-174 | between two parts, CRLF, the delimiter and its CRLF lead to the next part |
| MessageRoundTrip.CloseSection | tools/run-reference.py:155-167 | after the last part, the close delimiter ends the loop |
| MessageRoundTrip.ReadBacksAt | tools/run-reference.py:153 | each field's part keeps its place |
| MessageRoundTrip.DispositionReadBack | tools/lib/multipart_utils.py:236-285 | a field's disposition value reads back as `form-data` with the field's name and filename |
| MessageRoundTrip.BodyEnds | tools/run-reference.py:258-272 | a field's body ends at the CRLF before the next delimiter |
| MessageRoundTrip.FieldStep | tools/run-reference.py:85-153 | one pass over a field's wire form yields the field's part and stops at the delimiter after its body |
| MessageRoundTrip.ScanFields | tools/run-reference.py:84-180 | from a field's wire form on, the loop reads back one part per field, in order |
| MessageRoundTrip.TailCloses | tools/run-reference.py:183 | the generated message holds the close delimiter |
| MessageRoundTrip.ParseTail | tools/run-reference.py:48-191 | from the first delimiter on, the strict parser reads the fields back as a valid result |
| MessageRoundTrip.ParseFromDelimiter | tools/run-reference.py:61-191 | a message that opens with the delimiter line and holds the close delimiter is valid, with the parts the loop reads |
| MessageRoundTrip.PreambleClear | tools/run-reference.py:61-71 | no delimiter starting inside the preamble is met later in the message |
| MessageRoundTrip.ReadBackRecovers | tools/run-reference.py:131-153 | the part read for a field has its name, filename, no filename*, the content type when one was written, and its content as the body |
| MessageRoundTrip.BareType | tools/run-reference.py:136 | a content type without `;` or outer white space is kept whole |
| MessageRoundTrip.ZeroPartsRejected | tools/generate-raw.py:122-131 | a build with no part is only the close delimiter line, and the parser rejects it as `invalid_header` in either mode, so the round trip needs a part |
| MessageRoundTrip.CloseLineRejected | tools/run-reference.py:74-92 | after the first delimiter, `--` and a line ending are not skipped as a line ending, and are then read as an invalid header line |
| MessageRoundTrip.DashLineInvalid | tools/run-reference.py:243-252 | the line `--` has no colon and is no continuation, so it is an invalid header line |
| MessageRoundTrip.MessageRoundTrip | tools/run-reference.py:48-191 | a message generated with CRLF and the terminator from at least one field parses in strict mode as valid, with one part per field in order, each with the field's name, filename, content type when written, and content |

## Left out

- HTTP, the test servers and the clients: Go's `parseMultipart` request handling, `startTestServer`, the request building in `runTestCase`, the uvicorn fixture and `healthCheck`. Only the shape of their results is modelled. The Go server's reader events and its parsed Content-Type are inputs.
- Go's `mime/multipart` reader and `mime.ParseMediaType`: foreign library code. The model takes their results (`GoServer.ReaderEvent`, `GoServer.MediaType`) as given.
- File and CLI code: loading of test.json, headers.json and input.raw, `read_test_case`, `hash_file`, `find_tests`, `collectTestCases`, `loadTestCase`, argument parsing, `hex_dump`, and the path getters of `src/multipart_form_data_conformance/__init__.py`. A missing file is a case the decision functions are never given.
- examples/starlette/src/app.py: a wrapper over Starlette's form parser, which is not part of this model. The Starlette answer is an input (`Starlette.StarResult`).
- tools/validate-suite.py: a directory walk with JSON Schema validation.
- Error messages: only error tags are modelled.
- SHA-256 and base64 (section 4 of RFC 4648): opaque functions passed in (`Parts.BodyCodec`, `base64` parameters). Only their use in comparisons is modelled.
- urllib's charset decoders: a table passed in (`Rfc5987.CharsetTable`). The round trip assumes that the table's entry for the charset inverts UTF-8.
- The regular expressions of `parse_boundary`, `validate_boundary` and the charset search are written as scans; no regex engine is modelled. The boundary scans accept the same languages as the patterns: `boundary` has no letter whose case partner lies outside ASCII. The charset scan differs for non-ASCII input (see Parser.SearchCharset below).
- Text.Lower folds ASCII letters only. Python's `str.lower` folds all of Unicode and can lengthen a text: U+0130 becomes two characters. For ASCII text the two agree. Parser.MakePart, Parser.SearchCharset, Params.ParseContentDispositionFields, ParserFacts.LowerKeysAreLower and Rfc5987.CharsetLabel inherit this.
- Params.ParseContentDispositionFields folds the disposition type and the parameter keys with the ASCII `Text.Lower`. For a type with non-ASCII letters the reported type differs from Python's. The keys `name`, `filename` and `filename*` are matched as Python matches them, because no non-ASCII character lowers to text made of those letters alone.
- Parser.SearchCharset compares `charset=` case-insensitively for ASCII letters only. Python's `re.IGNORECASE` also lets U+017F (long s) match `s`, so `charſet=utf-8` yields a charset in the source and none in the model.
- Rfc5987.CharsetLabel lower-cases the charset with the ASCII `Text.Lower`. A charset name spelled with a non-ASCII letter whose lower case is ASCII, such as `KOI8-R` with the Kelvin sign U+212A for the K, is found by Python and not by the model, which then returns the raw value.
- Parser.MakePart folds header keys with the ASCII `Text.Lower`. Two keys that differ only in the case of a non-ASCII letter are merged into one by the source and kept apart by the model.
- ParserFacts.LowerKeysAreLower states lower case in the ASCII sense only, because keys are folded by `Text.Lower`.
- `Part.to_dict` and `ParseResult.to_dict`: the JSON rendering of results is not modelled.
- GoServer.HasFilenameParam folds ASCII letters only; Go's `strings.ToLower` folds all of Unicode. The same holds for GoServer.ClassifyError. For a header or message that is ASCII the two agree.
- GoHarness.Truncate counts octets, as Go's slicing does. A string is one octet per element here.
- MessageRoundTrip.MessageRoundTrip assumes more than the bare round-trip conditions:
  - a boundary without CR;
  - names, filenames and content types on one line (`RoundTrip.HeadersFit`);
  - names without `"` or `\`;
  - content types without `;` and without outer white space;
  - no extra headers and no filename*;
  - no delimiter starting inside the preamble followed by the first delimiter.

  LF line endings and builds with the terminator off are not covered.
- Lenient-mode round trips are not stated.

## Findings

| source | as written | input that shows it | evidently intended | confidence | as-written member | corrected member |
|---|---|---|---|---|---|---|
| tools/lib/multipart_utils.py:16 | `BOUNDARY_CHAR_PATTERN` ends in `$`, which in Python also matches just before a final newline, so `validate_boundary` accepts a boundary whose last character is LF | `"a\n"` | every character of the boundary, the last one included, is in the RFC 2046 boundary class (`\Z`, or `re.fullmatch`) | high, not executed | Boundary.NewlineBoundaryAcceptedAsWritten | Boundary.ValidateBoundary |
