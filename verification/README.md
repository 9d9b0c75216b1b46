# export-file naming helpers in Dafny

This project models the four pure helpers of `src/index.js` in export-file, an axios
based download library. Together they decide what a downloaded file is called.

- **MIME registry** (`mime_registry.dfy`). This is the constant `MIME_MAP` and
  `getExtensionFromMime`. A `Content-Type` value is cut at its first `;`, trimmed and
  lower-cased, then looked up; a missing or unknown type gives `"bin"`.
- **Header filename extractor** (`content_disposition.dfy`, `uri_component.dfy`). This is
  `extractFilenameFromHeader`. It searches the `Content-Disposition` value first for the
  extended `filename*=UTF-8''<value>` parameter (RFC 6266 section 4.3, value syntax from
  RFC 5987 section 3.2) and percent-decodes it with `decodeURIComponent`. If that
  parameter is absent or fails to decode, it uses the plain `filename=` parameter,
  decoded when possible and raw otherwise. Both regular expressions are modelled as a
  search over start positions 0, 1, 2, …; the first match wins.
- **Content sniffer** (`sniffer.dfy`). This is `detectFileTypeByHeader`. The first eight
  bytes are written as lower-case hexadecimal and tested against five magic-number
  prefixes. The detector is proved equal to a byte-level signature table, which shows the
  hex step is a plain prefix test on bytes.
- **Timestamp formatter** (`timestamp.dfy`). This is `generateTimestamp`, with the local
  clock reading passed in as a value. Seven tokens are replaced in a fixed order, each
  only at its first occurrence.

`text.dfy` holds the JavaScript string built-ins the helpers use: `split(';')[0]`,
`trim`, `indexOf`, `replace` with a string pattern, `padStart` and `String(n)`.
`wrappers.dfy` holds `Option`; None stands for JavaScript's `null` and for a thrown
`URIError`.

The helpers neither loop nor mutate state, so the model is made of datatypes, functions
and lemmas only.

Two behaviours of the timestamp formatter are easy to misread, and the model follows
the code in both:

- **Timestamp tokens.** src/index.js:76-83 calls `replace` with a string pattern, and
  `replace` rewrites only the first occurrence of such a pattern. A token that appears
  twice is therefore replaced once (`Timestamp.DayReplacedOnce`).
- **Timestamp year.** The type declarations describe `YYYY` as a four-digit year
  (src/index.d.ts:47), but src/index.js:68 and 77 write `getFullYear()` as `String`
  converts it, without padding. A year below 1000 comes out shorter
  (`Timestamp.ShortYearUnpadded`).

## Model

| member | source | states |
|---|---|---|
| MimeRegistry.ExtensionFromMime | src/index.js:122-129 | The result is always one of the table's extensions. A type whose normal form is a table key gives that key's extension; an absent or empty type, or one not in the table, gives "bin". |
| MimeRegistry.Normalize | src/index.js:126 | `split(';')[0].trim().toLowerCase()`. Its result is characterised by MimeRegistry.NormalFormIsClean, MimeRegistry.NormalFormCharacterized and MimeRegistry.NormalizeIdempotent. |
| MimeRegistry.Lower | src/index.js:126 | `toLowerCase` keeps the length and lower-cases each character on its own. |
| MimeRegistry.LowerFacts | src/index.js:126 | Lower-casing neither adds nor removes a `;` or surrounding whitespace, and lower-casing twice is lower-casing once. |
| MimeRegistry.TrimKeepsOutSemicolon | src/index.js:126 | Trimming a text without `;` cannot produce one. |
| MimeRegistry.NormalFormIsClean | src/index.js:126 | Every normalised type has no `;`, no whitespace at either end and nothing left to lower-case. |
| MimeRegistry.CleanTypeIsNormal | src/index.js:126 | A type without `;`, already trimmed and lower-case, is its own normal form. |
| MimeRegistry.NormalFormCharacterized | src/index.js:126 | A type is its own normal form exactly when it has no `;`, no surrounding whitespace and no character lower-casing changes. |
| MimeRegistry.NormalizeIdempotent | src/index.js:126 | Normalising twice gives the same type as normalising once. |
| MimeRegistry.ExtensionDependsOnNormalizedType | src/index.js:126-128 | The extension of a type equals the extension of its normal form. |
| MimeRegistry.ParametersNormalizedAway | src/index.js:126 | Anything after the first `;` disappears in normalisation. |
| MimeRegistry.ParametersIgnored | src/index.js:126-128 | Appending `;` and parameters to a type does not change its extension. |
| MimeRegistry.SameNormalFormSameExtension | src/index.js:126-128 | Two types with the same normal form get the same extension. |
| MimeRegistry.TableFacts | src/index.js:11-58 | "application/json" maps to "json"; every extension is non-empty; "bin" is an extension of the table; "", "constructor" and "__proto__" are not keys. |
| MimeRegistry.KeyTextIsNormal | src/index.js:126 | A type made only of lower-case letters, digits, `/`, `.`, `+` and `-` is its own normal form. |
| MimeRegistry.KeysAreNormal | src/index.js:11-58 | Every key of `MIME_MAP` is already lower case, trimmed and free of `;`, so normalisation maps it to itself. |
| MimeRegistry.EveryEntryReachable | src/index.js:11-58 | Looking up any key of `MIME_MAP` gives that key's own extension, so no entry is dead. |
| MimeRegistry.JsonEntry | src/index.js:43 | The table maps "application/json" to "json". |
| MimeRegistry.ExtensionsNonEmpty | src/index.js:11-58 | Every extension in the table is non-empty, so every table hit is truthy. |
| MimeRegistry.FallbackIsAnExtension | src/index.js:57 | "bin" is itself the extension of application/octet-stream. |
| MimeRegistry.MissingKeys | src/index.js:11-58 | "", "constructor" and "__proto__" are not own keys of the table. |
| MimeRegistry.JsonTypeNormalizes | src/index.js:126 | "Application/JSON" normalises to "application/json". |
| MimeRegistry.JsonKeyNormalizes | src/index.js:126 | "application/json" is already in normal form. |
| MimeRegistry.ParameterisedJsonExample | src/index.js:122-129 | "Application/JSON; charset=utf-8" and "application/json" both give "json". |
| MimeRegistry.ConstructorNormalizes | src/index.js:126 | "Constructor" normalises to "constructor". |
| MimeRegistry.ExtensionFromMimeAsWritten | src/index.js:122-129 | The lookup as written, returning a JavaScript value; the as-written half of the finding below. What it returns is stated by MimeRegistry.AsWrittenReturnsNonString and MimeRegistry.AsWrittenAgreesElsewhere. |
| MimeRegistry.AsWrittenReturnsNonString | src/index.js:128 | As written, a type normalising to "constructor" returns the inherited Object constructor (a non-string); the corrected lookup returns "bin". |
| MimeRegistry.AsWrittenAgreesElsewhere | src/index.js:122-129 | For every input except types normalising to "constructor" or "__proto__", the lookup as written returns the same string as the corrected one. |
| Text.TrimStart | src/index.js:126 | The start of `trim`: a suffix of the text that is empty or does not start with whitespace, and the whole text when that does not start with whitespace. |
| Text.TrimEnd | src/index.js:126 | The end of `trim`: a prefix of the text that is empty or does not end with whitespace, and the whole text when that does not end with whitespace. |
| Text.TrimStartDropsWhitespace | src/index.js:126 | Every character the start of `trim` cuts off is JavaScript whitespace. |
| Text.TrimEndDropsWhitespace | src/index.js:126 | Every character the end of `trim` cuts off is JavaScript whitespace. |
| Text.Trim | src/index.js:126 | `trim` returns a slice of its input: everything cut off on either side is JavaScript whitespace, and what remains has no whitespace at either end. An already trimmed text is left unchanged. |
| Text.BeforeFirst | src/index.js:126 | `split(';')[0]` is the longest prefix without `;`: it contains no `;` and is followed by `;` or the end. |
| Text.IndexOf | src/index.js:77-83 | The first occurrence of the pattern at or after the start position, or None when there is none. |
| Text.ReplaceFirst | src/index.js:77-83 | `replace` with a string pattern that does not occur returns the text unchanged; where it occurs, Text.ReplaceFirstOccurrence says the first occurrence is rewritten. |
| Text.ReplaceFirstOccurrence | src/index.js:77-83 | `replace` with a string pattern rewrites exactly its first occurrence and keeps the text before and after it. |
| Text.ReplaceFirstAt | src/index.js:77-83 | Replacing the first occurrence of a pattern whose first character is absent from the text before it replaces exactly that occurrence. |
| Text.AbsentFirstChar | src/index.js:77-83 | A pattern whose first character is absent from a text never occurs in it. |
| Text.PadStart | src/index.js:69-74 | `padStart` yields the original at the end, fill characters before it, and length max(width, original length). |
| Text.NatToDecimal | src/index.js:69-74 | `String(n)` of a natural number is a non-empty string of digits. |
| Text.DecimalRoundTrip | src/index.js:68-74 | The decimal text of a number reads back as that number. |
| Text.LeadingZerosIgnored | src/index.js:69-74 | Zero padding does not change the value a digit string denotes. |
| Text.DecimalWidth | src/index.js:69-74 | A number below 10^w is written with at most w digits. |
| Text.DecimalWidthExact | src/index.js:68 | A number from 10^(w-1) up to but excluding 10^w is written with exactly w digits. |
| UriComponent.EscapedOctet | src/index.js:98 | A `%XX` escape is read exactly when there is one at the start, and its octet is below 256. |
| UriComponent.EscapedOctets | src/index.js:98 | A run of n escapes yields n octets, each below 256, from at least 3n characters. |
| UriComponent.ScalarFromUtf8 | src/index.js:98 | Reads the character from one UTF-8 sequence. UriComponent.Utf8RoundTrip and UriComponent.Utf8Canonical prove it is exactly the inverse of the UTF-8 encoder, so bad continuation octets, overlong forms, surrogates and values past U+10FFFF are rejected. |
| UriComponent.Utf8Canonical | src/index.js:98 | Whatever a UTF-8 sequence is read as, the sequence is that character's UTF-8 encoding: only canonical encodings are accepted. |
| UriComponent.Decode | src/index.js:98 | `decodeURIComponent` either fails or returns a string no longer than its input. |
| UriComponent.DecodeWithoutPercent | src/index.js:108-110 | A string without `%` decodes to itself. |
| UriComponent.DecodedEscapesAreWellFormed | src/index.js:98-101 | If decoding succeeds, every `%` in the input begins a well-formed `%XX` escape. |
| UriComponent.EscapeRunIsWellFormed | src/index.js:98 | Inside a successfully read escape run, every `%` begins a well-formed escape. |
| UriComponent.MalformedEscapesRejected | src/index.js:98-101 | A lone `%` and `%zz` make decoding fail. |
| UriComponent.TruncatedSequenceRejected | src/index.js:98-101 | A UTF-8 sequence cut short (`%E6%96`) makes decoding fail. |
| UriComponent.OverlongFormRejected | src/index.js:98-101 | An overlong UTF-8 form (`%C0%AF`) makes decoding fail. |
| UriComponent.EncodedSurrogateRejected | src/index.js:98-101 | An encoded surrogate (`%ED%A0%80`) makes decoding fail. |
| UriComponent.Utf8Encode | src/index.js:98 | The UTF-8 form of a character is one to four octets whose lead octet announces the length. This is part of the RFC 5987 encoder whose output the decoder at src/index.js:98 inverts. |
| UriComponent.EscapeOctets | src/index.js:98 | Escaping octets triples the length and uses only `%` and attr-chars. This is part of the RFC 5987 encoder whose output the decoder at src/index.js:98 inverts. |
| UriComponent.EncodeChar | src/index.js:98 | The RFC 5987 encoding of a character is non-empty and uses only `%` and attr-chars. This is part of the RFC 5987 encoder whose output the decoder at src/index.js:98 inverts. |
| UriComponent.Encode | src/index.js:98 | The RFC 5987 encoding of a string is at least as long as it and uses only `%` and attr-chars. This is part of the RFC 5987 encoder whose output the decoder at src/index.js:98 inverts. |
| UriComponent.ValueCharsConcat | src/index.js:98 | Encoded texts stay encoded texts when joined. |
| UriComponent.Utf8RoundTrip | src/index.js:98 | Decoding the UTF-8 form of a character gives the character back. |
| UriComponent.EscapedOctetsRoundTrip | src/index.js:98 | Reading back escaped octets gives the octets, whatever follows them. |
| UriComponent.EncodedCharDecodes | src/index.js:98 | Decoding an encoded character followed by a text is that character followed by the decoding of the text. |
| UriComponent.DecodeEncode | src/index.js:98 | `decodeURIComponent` undoes the RFC 5987 encoder on every string. |
| UriComponent.DecodeTwoEncoded | src/index.js:98 | Two encoded characters followed by text without `%` decode to the two characters and that text. |
| UriComponent.EncodeWen | src/index.js:98 | 文 encodes to `%E6%96%87`. |
| UriComponent.EncodeDang | src/index.js:98 | 档 encodes to `%E6%A1%A3`. |
| UriComponent.DecodeChineseName | src/index.js:98 | `%E6%96%87%E6%A1%A3.pdf` decodes to 文档.pdf. |
| ContentDisposition.NextStop | src/index.js:95 | The lazy extended value stops at the first `;` after its first character, or at the end of the header. |
| ContentDisposition.PlainRunEnd | src/index.js:105 | `[^"';]+` is greedy: it takes every character up to the first quote or `;`. |
| ContentDisposition.ExtendedValueAt | src/index.js:95 | An extended match at a position begins with the keyword (case-insensitive) and captures a non-empty value. |
| ContentDisposition.ExtendedCaptureShape | src/index.js:95 | The extended capture follows the keyword and ends at a `;` or the end of the header. It holds no `;` after its first character and no line terminator. |
| ContentDisposition.PlainValueAt | src/index.js:105 | A plain match at a position begins with `filename=` (case-insensitive) and captures a non-empty value. |
| ContentDisposition.PlainCaptureShape | src/index.js:105 | The plain capture starts after the keyword and one optional opening quote. It holds no quote or `;` and is followed by a quote, a `;` or the end. |
| ContentDisposition.ValueAt | src/index.js:95-105 | A capture at a position implies the parameter's keyword is there. |
| ContentDisposition.FirstMatch | src/index.js:95-105 | `match` finds the earliest matching position, and no position at all when nothing matches. |
| ContentDisposition.Capture | src/index.js:95-105 | Group 1 of `match`. ContentDisposition.CaptureAt and ContentDisposition.NoCapture state that it is the value at the first matching position, or nothing. |
| ContentDisposition.ExtendedFilename | src/index.js:95-101 | The first step yields a name exactly when an extended value is found and decodes. |
| ContentDisposition.PlainFilename | src/index.js:105-111 | The second step yields a name exactly when a plain value is found. A value that decodes is returned decoded; an undecodable one is returned raw. |
| ContentDisposition.ExtractFilename | src/index.js:91-115 | A null or empty header gives null. When the extended step yields a name, that name is the result; otherwise the result is the plain step's. |
| ContentDisposition.NoParameterNoFilename | src/index.js:92-114 | A header containing neither parameter name gives null. |
| ContentDisposition.NullMeansNoPlainValue | src/index.js:105-114 | A null result means no position holds a plain value. |
| ContentDisposition.CaptureAt | src/index.js:95-105 | The capture is the value at the first position where the expression matches. |
| ContentDisposition.NoCapture | src/index.js:95-105 | No matching position means no capture. |
| ContentDisposition.NoMatchWithoutF | src/index.js:95-105 | No match starts inside a stretch of text containing no `f` or `F`. |
| ContentDisposition.NoMatchInPrefix | src/index.js:95-105 | No match starts inside a prefix containing no `f` or `F`. |
| ContentDisposition.ShiftValueAt | src/index.js:95-105 | Matching at a position is unaffected by text put in front. |
| ContentDisposition.SkipPrefix | src/index.js:95-105 | If no match starts in a prefix, the capture is the capture of the rest. |
| ContentDisposition.CapturesIgnorePrefix | src/index.js:95-105 | A prefix without `f`/`F` changes neither capture. |
| ContentDisposition.EmptyHasNoCapture | src/index.js:95-105 | The empty text has no capture. |
| ContentDisposition.SameCapturesSameFilename | src/index.js:91-115 | Two non-empty headers with the same two captures give the same filename. |
| ContentDisposition.PrefixWithoutF | src/index.js:91-115 | A prefix without `f`/`F` does not change the extracted filename. |
| ContentDisposition.ExtendedValueFound | src/index.js:95 | A keyword followed by a value that runs to a `;` or the end is captured as that value. |
| ContentDisposition.PlainValueFound | src/index.js:105 | A keyword, optional quote and maximal run of value characters is captured as that run. |
| ContentDisposition.ExtendedCaptureAtStart | src/index.js:95 | A header that starts with the extended keyword captures the value after it. |
| ContentDisposition.ExtendedDecodes | src/index.js:95-98 | If the extended capture decodes, the decoded text is the result. |
| ContentDisposition.ExtendedWins | src/index.js:95-98 | After a prefix without `f`, an extended value that decodes is returned decoded, whatever plain parameter follows. |
| ContentDisposition.ExtendedRoundTrip | src/index.js:95-98 | A server that RFC 5987-encodes a non-empty name in `filename*=UTF-8''` gets exactly that name back. |
| ContentDisposition.ValueCharsFitExtended | src/index.js:95 | Encoded values contain no `;` and no line terminator, so the extended expression captures them whole. |
| ContentDisposition.UpperCaseExtendedKeyword | src/index.js:95 | `filename*=UTF-8''` in upper case matches the case-insensitive keyword. |
| ContentDisposition.ChineseFilenameExample | src/index.js:95-98 | `attachment; filename*=UTF-8''%E6%96%87%E6%A1%A3.pdf` names the file 文档.pdf. |
| ContentDisposition.PlainCaptureAtStart | src/index.js:95-105 | A header starting with a plain parameter and holding no `*` has that plain capture and no extended one. |
| ContentDisposition.PlainDecides | src/index.js:105-111 | With no extended capture, the plain capture is returned decoded when it decodes and raw otherwise. |
| ContentDisposition.PlainValue | src/index.js:105-111 | A plain parameter's value, with an optional opening quote skipped, is returned decoded when it decodes and raw otherwise. |
| ContentDisposition.PlainWithoutPercent | src/index.js:105-108 | A plain value without `%` is returned unchanged. |
| ContentDisposition.QuotedFilenameExample | src/index.js:105-108 | `attachment; filename="report.pdf"` names the file report.pdf. |
| ContentDisposition.NoPlainMatchInExtendedKeyword | src/index.js:105 | No plain match starts inside the extended keyword. |
| ContentDisposition.FailedExtendedCaptures | src/index.js:95-105 | For a header starting with an extended value and `;`, the extended capture is that value and the plain capture is the one from after the `;`. |
| ContentDisposition.ExtendedFailureDefers | src/index.js:99-105 | If the extended capture does not decode, the plain step decides. |
| ContentDisposition.ExtendedFailureFallsThrough | src/index.js:99-111 | When the first extended value fails to decode, the result is the plain search over the rest; a later extended parameter is never used. |
| Sniffer.ToHex | src/index.js:145 | `toString(16)` is one digit exactly for values below 16. |
| Sniffer.HexPair | src/index.js:145 | Each byte becomes exactly two characters. |
| Sniffer.HexPairIsPaddedToString | src/index.js:145 | `toString(16).padStart(2, '0')` is the byte's high and low hexadecimal digit. |
| Sniffer.HexPairInjective | src/index.js:145 | Different bytes are written as different digit pairs. |
| Sniffer.HexOf | src/index.js:144-146 | The joined hex text is twice as long as the bytes. |
| Sniffer.HeaderHex | src/index.js:144-146 | The hex text of the first eight bytes; Sniffer.SignatureInHeader states that a magic number of at most eight bytes is a prefix of it exactly when it starts the data. |
| Sniffer.DetectFileType | src/index.js:136-178 | `detectFileTypeByHeader` itself, the `startsWith` chain on the hex text. Sniffer.DetectIsFirstSignature proves it equal to the byte-level table lookup. |
| Sniffer.HeaderBytes | src/index.js:144 | `subarray(0, 8)` is a prefix of the data of length min(8, length). |
| Sniffer.FirstSignature | src/index.js:149-173 | The table lookup finds a signature exactly when some magic number is a prefix of the data. |
| Sniffer.HexPrefixIffBytePrefix | src/index.js:144-171 | One hex text is a prefix of another exactly when the bytes are. |
| Sniffer.SignatureInHeader | src/index.js:144-171 | A magic number of at most eight bytes is a prefix of the header hex exactly when it is a prefix of the data. |
| Sniffer.PdfText | src/index.js:149 | The PDF bytes 25 50 44 46 are written "25504446". |
| Sniffer.ZipText | src/index.js:154 | The ZIP bytes 50 4B 03 04 are written "504b0304". |
| Sniffer.PngText | src/index.js:159 | The PNG bytes 89 50 4E 47 are written "89504e47". |
| Sniffer.JpegText | src/index.js:164 | The JPEG bytes FF D8 FF are written "ffd8ff". |
| Sniffer.GifText | src/index.js:169 | The GIF bytes 47 49 46 38 are written "47494638". |
| Sniffer.SignatureTest | src/index.js:149-171 | Each `startsWith` test on the header is the byte-prefix test of its signature. |
| Sniffer.FirstSignatureStep | src/index.js:149-173 | The table is tried entry by entry, in source order. |
| Sniffer.DetectIsFirstSignature | src/index.js:136-173 | `detectFileTypeByHeader` equals the byte-level table lookup: the first magic number that starts the data names the extension, none gives null. |
| Sniffer.DetectIffSignature | src/index.js:149-173 | A payload is recognised exactly when one of the five magic numbers starts it. |
| Sniffer.SignaturesExclusive | src/index.js:149-171 | The five magic numbers begin with different bytes, so at most one starts any payload. |
| Sniffer.FirstSignatureIs | src/index.js:149-173 | The lookup answers with the first matching entry. |
| Sniffer.DetectFindsSignature | src/index.js:149-171 | Whichever magic number starts the payload decides the extension, so the order of the tests does not matter. |
| Sniffer.SignatureLengths | src/index.js:149-171 | Every magic number is three or four bytes long. |
| Sniffer.ShortPayloadUnknown | src/index.js:164-173 | Fewer than three bytes, the empty payload included, give null. |
| Sniffer.PrefixStable | src/index.js:144 | Appending bytes beyond a magic number's length does not change whether it starts the data. |
| Sniffer.PrefixChoiceAgrees | src/index.js:149-173 | Payloads that agree on which magic numbers start them get the same lookup result. |
| Sniffer.TrailingBytesIgnored | src/index.js:144-173 | Only the first four bytes decide, so in particular nothing past the first eight does. |
| Sniffer.PdfExample | src/index.js:149-150 | The bytes of `%PDF-1.7` are recognised as "pdf". |
| Timestamp.Field | src/index.js:69-74 | `String(n).padStart(width, '0')`; Timestamp.PaddedField states its digits, width and value. |
| Timestamp.ReplaceDateTime | src/index.js:76-82 | The first six replacements; Timestamp.DateTimeInPlace states where they land. |
| Timestamp.Render | src/index.js:76-83 | All seven replacements; Timestamp.AllTokensInPlace, Timestamp.DayReplacedOnce and Timestamp.NoTokenPassesThrough state the result. |
| Timestamp.GenerateTimestamp | src/index.js:65-83 | `generateTimestamp` with the clock reading as a parameter; Timestamp.DefaultTimestamp and Timestamp.DefaultTimestampFields state its result for the default pattern. |
| Timestamp.PaddedField | src/index.js:69-74 | A padded field is all digits and at least the width long; it is exactly the width when the value fits, and it reads back as the value. |
| Timestamp.FourDigitYear | src/index.js:68 | A year from 1000 to 9999 is written as exactly four digits that read back as the year. |
| Timestamp.ShortYearUnpadded | src/index.js:68-77 | A year below 1000 is written with fewer than four characters, since the year is not padded. |
| Timestamp.FieldIsInert | src/index.js:69-74 | A padded field contains no token letter. |
| Timestamp.YearIsInert | src/index.js:68 | The year text, a minus sign included, contains no token letter. |
| Timestamp.FieldsAreInert | src/index.js:68-74 | No field the formatter writes contains a token letter, so no replacement can create a token. |
| Timestamp.InertConcat | src/index.js:76-83 | Texts without token letters stay so when joined. |
| Timestamp.NoTokenNoChange | src/index.js:76-83 | A token whose first letter is absent leaves the text unchanged. |
| Timestamp.InertPatternUnchanged | src/index.js:76-83 | A pattern without token letters is returned unchanged. |
| Timestamp.NoTokenPassesThrough | src/index.js:76-83 | A pattern in which none of the seven tokens occurs is returned unchanged, whatever letters it holds. |
| Timestamp.ReplaceAfterInert | src/index.js:76-83 | A token preceded only by text without token letters is replaced in place. |
| Timestamp.DateTimeInPlace | src/index.js:76-82 | In a pattern with YYYY, MM, DD, HH, mm and ss in this order, separated by text without token letters, each token becomes its field in place and the text after `ss` is kept. |
| Timestamp.DateTimePrefixInert | src/index.js:76-82 | The rendered text up to the seconds contains no token letter. |
| Timestamp.AllTokensInPlace | src/index.js:76-83 | With all seven tokens in order and separated by text without token letters, each becomes its field in place. |
| Timestamp.DefaultRendered | src/index.js:65-83 | The default pattern renders as year, month, day, `_`, hours, minutes, seconds. |
| Timestamp.DefaultTimestamp | src/index.js:65-83 | With the pattern omitted, the result is year, month, day, `_`, hours, minutes, seconds. |
| Timestamp.Layout | src/index.js:65 | Where each of the seven default pieces sits in their concatenation. |
| Timestamp.DefaultTimestampFields | src/index.js:65-83 | For in-range fields and a four-digit year the default timestamp is 15 characters: 8 digits, `_`, 6 digits. Each field reads back as its clock value, the month counted from 1. |
| Timestamp.DayLettersConcat | src/index.js:79 | Texts whose only token letter is `D` stay so when joined. |
| Timestamp.DayReplacedOnce | src/index.js:79 | Only the first `DD` is replaced; everything after it, further `DD`s included, is kept. |
| Timestamp.RepeatedDayExample | src/index.js:79 | `DD/DD` becomes the day, `/`, and `DD`. |

## Left out

- `exportFile`, the request wrapper that calls these helpers and picks the final name, is
  not part of this model: its body is not in `src/index.js` (lines 180-182 are a cut-off
  comment and line 187 only exports the name).
- The axios request, filesystem writes and browser downloads are network and platform
  I/O.
- The clock read `new Date()` (src/index.js:66) is replaced by the `Timestamp.LocalTime`
  parameter. Its field ranges (`Timestamp.ValidTime`) are assumed by the layout lemmas,
  not derived from an epoch time.
- The `console.warn` calls (src/index.js:100, 175) are logging only.
- The conversion of an `ArrayBuffer` or `Buffer` to bytes (src/index.js:139-141) is out:
  the sniffer starts from a byte sequence, which stands for the bytes of the
  `Uint8Array` view built there. That view is not always the payload. For a Node
  `Buffer` or a typed-array view with a non-zero `byteOffset`, such as a small pooled
  `Buffer`, `new Uint8Array(data.buffer || data)` views the whole underlying
  `ArrayBuffer` from offset 0, so the sniffer reads bytes that precede the payload.
  Inputs that make the conversion throw, which the `catch` at src/index.js:174-177
  turns into null, are not modelled either.
- MimeRegistry.Normalize: lower-cases ASCII letters and KELVIN SIGN (U+212A) only. This
  is exact for table membership, because no other character lower-cases to ASCII, but the
  normal form of other non-ASCII text differs from JavaScript's `toLowerCase`.
- Strings are sequences of Unicode scalar values, not UTF-16 code units. A decoded
  four-byte UTF-8 sequence is one character where JavaScript holds a surrogate pair, and
  headers containing lone surrogates cannot be written down.
- The regular expressions' `i` flag folds ASCII letters only. Without the `u` flag,
  JavaScript never folds a non-ASCII character onto an ASCII one, so this is exact for
  the two keywords.
- Timestamp.GenerateTimestamp: takes a string pattern or an omitted one. A non-string
  pattern, for which `replace` is missing and the call throws, is not modelled.
- Sniffer.DetectFileType: models the `startsWith` chain on the hex text. The hex text is
  tied to the JavaScript expression by `Sniffer.HexPairIsPaddedToString` rather than
  built from `ToHex` and `PadStart` directly.

## Findings

| source | as written | input that shows it | evidently intended | confidence | as-written member | corrected member |
|---|---|---|---|---|---|---|
| src/index.js:128 | The lookup indexes a plain object literal, so normalised keys that name inherited `Object.prototype` members ("constructor", "__proto__") return a truthy non-string value instead of falling back. | the MIME type `Constructor` | "bin", as for any type not in the table | high (not executed) | MimeRegistry.AsWrittenReturnsNonString | MimeRegistry.ExtensionFromMime |
