# Accept-Encoding negotiation of compressedhandler, in Dafny

This project models the content-coding negotiation of the Go HTTP
middleware `compressedhandler` (section 14.3 of RFC 2616; qvalues as in
section 3.9), and proves properties of the model.

- `parseCoding` reads one token such as `gzip;q=0.5`. The first
  `;`-segment, trimmed and lower-cased, is the coding name. Every segment
  resets the qvalue to `DefaultQValue` (1.0), and a `q=` segment sets it to
  the parsed number clamped to [0,1]. So the LAST segment alone decides the
  weight.
- `parseEncodings` splits the header value on `,`. It folds each token into
  a record of three weights (`identity`, `gzip`, `deflate`). Any other name
  leaves the record unchanged.
- `accepts` picks Gzip if gzip has a positive weight, otherwise Deflate if
  deflate has one, otherwise Identity. The identity weight is never read.
- `Handle` always adds `Vary: Accept-Encoding`. On Gzip or Deflate it sets
  `Content-Encoding` and hands the wrapped handler a compressing writer. On
  Identity it hands over the original writer.
- `responseWriter.Hijack` delegates to the wrapped writer when that writer
  can hijack. Otherwise it fails with `ErrUnHijackable`.

Modules:

- `Strings` (`strings.dfy`): the parts of Go's `strings` package the
  parser uses, on ASCII. These are Split, TrimSpace, ToLower, HasPrefix and
  TrimPrefix. Split comes with its inverse Join and both round trips.
- `Negotiate` (`negotiate.dfy`): `flateType`, `codings`, parseCoding,
  parseEncodings and accepts. The two loops are methods (`ParseCoding`,
  `ParseEncodings`). Each is proved equal to a pure function (`CodingOf`,
  `Encodings`), and the lemmas state the properties of those functions.
- `Handler` (`handler.dfy`): the header decision of `Handle` and the
  capability check of `Hijack`.
- `TestTable` (`examples_table.dfy`): the table of `TestParseEncodings`
  and the two requests of `TestGzipHandler`, stated as lemmas. Two extra
  header values show the last-segment rule and the unused identity weight.

`strconv.ParseFloat` is a parameter `parseFloat: string -> real` of every
operation, and the general properties hold for every such function. The
table lemmas that need numbers require `ParsesTableLiterals`. It fixes
ParseFloat only on "0.5", "1.0", "1" and "0".

Behaviour of the code worth knowing:

- A `q=` value ParseFloat cannot read gives ParseFloat's result (0 in Go).
  The error is discarded, so the weight does not stay at the default 1.0.
- A token whose name is empty after trimming is not rejected. It is a
  name like any other, and it is ignored because it is not one of the three.
- `parseEncodings` returns no error, although its doc comment
  (compress.go:145-149) says it does.
- accepts never reads the identity weight (compress.go:136-142), so
  `identity;q=0` refuses nothing, although section 14.3 of RFC 2616 says it
  makes the unencoded response unacceptable.

## Model

| member | source | states |
|---|---|---|
| Strings.Split | compress.go:153 | strings.Split always returns at least one piece; the empty string gives one empty piece |
| Strings.SplitPiecesFree | compress.go:153 | no piece of a Split contains the separator |
| Strings.JoinSplit | compress.go:153 | joining the pieces of a Split with the separator gives back the original string |
| Strings.SplitJoin | compress.go:171 | pieces free of the separator survive Join then Split unchanged (the other round trip) |
| Strings.SplitNoSep | compress.go:171 | a string without the separator is a single piece |
| Strings.SplitConcat | compress.go:153 | splitting `a + sep + b` gives the pieces of `a` followed by those of `b` |
| Strings.TrimLeft | compress.go:172 | dropping leading white space never lengthens the string |
| Strings.TrimRight | compress.go:172 | dropping trailing white space never lengthens the string |
| Strings.TrimSpace | compress.go:172 | strings.TrimSpace never lengthens the string |
| Strings.TrimLeftDropsLeadingSpace | compress.go:172 | TrimLeft keeps a suffix that does not start with white space, and everything it drops is white space |
| Strings.TrimRightDropsTrailingSpace | compress.go:172 | TrimRight keeps a prefix that does not end with white space, and everything it drops is white space |
| Strings.TrimSpaceKeepsMiddle | compress.go:172 | TrimSpace keeps a contiguous middle part that neither starts nor ends with white space, and drops only white space on either side |
| Strings.TrimSpaceIdempotent | compress.go:172 | trimming an already trimmed segment changes nothing |
| Strings.TrimSpaceLeading | compress.go:172 | white space in front of a segment does not change its trimmed form |
| Strings.TrimLeftSnoc | compress.go:172 | appending white space to a string either leaves nothing after dropping leading white space (when the string is all white space) or is kept after what TrimLeft keeps |
| Strings.TrimSpaceTrailing | compress.go:172 | white space after any segment does not change its trimmed form |
| Strings.IsSpace | compress.go:172 | the white space TrimSpace drops on ASCII is exactly space and the control characters 9 to 13 |
| Strings.HasPrefix | compress.go:177 | strings.HasPrefix holds exactly when the prefix is no longer than the string and equals its first characters |
| Strings.LowerChar | compress.go:176 | an ASCII upper-case letter maps to the letter 32 code points later; every other character is kept |
| Strings.ToLower | compress.go:176 | strings.ToLower on ASCII keeps the length and lower-cases each character in place |
| Strings.TrimPrefix | compress.go:179 | strings.TrimPrefix removes the prefix exactly when the string starts with it, and otherwise returns the string unchanged |
| Negotiate.Clamp | compress.go:180-184 | the result lies in [0,1]; values below 0 become 0, above 1 become 1, and values inside are kept |
| Negotiate.SegmentWeight | compress.go:172-185 | the weight a later segment leaves behind always lies in [0,1] |
| Negotiate.CodingOf | compress.go:170-188 | the qvalue of every parsed token lies in [0,1] |
| Negotiate.ParseCoding | compress.go:170-188 | the loop over `;`-segments, which resets the qvalue on each one, returns exactly the name and weight of CodingOf |
| Negotiate.NameIgnoresLaterSegments | compress.go:171-176 | segments after the first never change the coding name |
| Negotiate.WeightFromLastSegment | compress.go:171-186 | the weight depends only on the last segment, whatever segments come before it |
| Negotiate.TrailingSegmentResetsWeight | compress.go:173-185 | a last segment that is not a `q=` segment gives the default weight and discards any earlier `q=` |
| Negotiate.NoParametersDefaultWeight | compress.go:173 | a token without `;` is all name, trimmed and lower-cased, with weight DefaultQValue = 1.0 |
| Negotiate.LastWeightIsLastOccurrence | compress.go:153-163 | LastWeight is 0 for a name no coding has; otherwise it is the weight of the last coding with that name |
| Negotiate.LastWeightAppend | compress.go:153-163 | codings appended later that carry a name override all earlier ones with that name; codings without it leave its weight alone |
| Negotiate.ParseTokens | compress.go:153-154 | each token of the header value is parsed by parseCoding, one coding per token, in order |
| Negotiate.Overwrite | compress.go:155-162 | the switch of parseEncodings: a known name gets the token's weight, every other name keeps its weight, and an unknown name leaves the record unchanged |
| Negotiate.Fold | compress.go:153-163 | applying the tokens in order to a record in [0,1], with every qvalue in [0,1], gives a record in [0,1] |
| Negotiate.Encodings | compress.go:152-165 | every weight of the record parseEncodings returns lies in [0,1] |
| Negotiate.ParseEncodings | compress.go:152-165 | the loop over `,`-tokens with its switch on the name returns exactly Encodings |
| Negotiate.FoldWeight | compress.go:155-162 | after the fold, a known field holds the weight of the last coding with its name, or its earlier value when none has it |
| Negotiate.EncodingsAreLastWeights | compress.go:153-163 | each field of the record is the weight of the last token naming that coding, 0 if no token names it |
| Negotiate.FoldAppend | compress.go:153-163 | folding `p + q` is folding `p` and then `q` |
| Negotiate.CodingsOfToken | compress.go:153 | a header value without commas is one token |
| Negotiate.FoldSingle | compress.go:155-162 | folding one coding applies the switch once |
| Negotiate.SingleToken | compress.go:152-165 | a one-token header value puts that token's weight in the field its name selects and 0 in the others |
| Negotiate.AppendToken | compress.go:153-163 | one more token applies the switch to the record of the tokens before it (one loop step, on header values) |
| Negotiate.CodingsOfConcat | compress.go:153 | the tokens of `s + "," + t` are those of `s` followed by those of `t` |
| Negotiate.ParseTokensConcat | compress.go:153-154 | parsing concatenated token lists concatenates the results |
| Negotiate.LaterTokensOverride | compress.go:153-163 | in `s + "," + t`, a coding named in `t` takes its weight from `t`; any other coding keeps its weight from `s` |
| Negotiate.OtherCodingsIgnored | compress.go:155-162 | tokens naming only other codings give the all-zero record, and leave any record unchanged before or after other tokens |
| Negotiate.UnmentionedIsZero | compress.go:152-165 | a coding that no token names has weight 0 |
| Negotiate.Level | compress.go:50-59 | the iota constants: Identity is 0, Deflate 1, Gzip 2, so Gzip is the highest level and Identity the lowest |
| Negotiate.Accepts | compress.go:134-143 | accepts returns a decision the parsed header supports (Identity always, a compressing one only with a positive weight), and no supported decision has a higher level |
| Negotiate.CodingName | compress.go:104-116 | the Content-Encoding name of every decision is one of the three names parseEncodings keeps |
| Negotiate.Select | compress.go:136-142 | the decision has a positive weight (or is Identity), and no decision with a positive weight has a higher compression level |
| Negotiate.IdentityWeightUnused | compress.go:134-143 | changing the identity weight never changes the decision |
| Negotiate.IdentityTokensNeverDecide | compress.go:134-143 | appending tokens that name neither gzip nor deflate never changes what accepts decides |
| Negotiate.GzipPreferred | compress.go:136-138 | a positive gzip weight always gives Gzip, whatever the deflate weight |
| Negotiate.DecisionWasOffered | compress.go:134-143 | a compressing decision names a coding the header mentions with a positive weight; Identity is chosen exactly when neither gzip nor deflate has a positive weight |
| Handler.Get | compress_test.go:50-61 | Header.Get gives the first value under the key, and "" when the key is absent or has no values |
| Handler.Add | compress.go:93 | Header.Add appends a value under its key and leaves every other key alone |
| Handler.Set | compress.go:104 | Header.Set replaces the values of its key with one value and leaves every other key alone |
| Handler.Handle | compress.go:93-122 | Vary gets Accept-Encoding appended. Gzip and Deflate set Content-Encoding to that coding's name and give a compressing writer. Identity gives the original writer and leaves Content-Encoding as it was. No other header changes |
| Handler.ContentEncodingMatchesWriter | compress.go:93-143 | for a response without Content-Encoding, the header is empty exactly when the body is not compressed; otherwise it names the encoder's coding, which the client's header lists with a positive weight |
| Handler.Serve | compress.go:93-95 | for a request with a given Accept-Encoding value: Vary gets Accept-Encoding; the original writer is used exactly when neither gzip nor deflate has a positive weight; otherwise Content-Encoding names the encoder's coding, which the client weighted positively |
| Handler.HijackerOf | compress.go:78 | the type assertion fails only on a plain writer that is not a Hijacker; a compressing wrapper always passes it, and its Hijack reports ErrUnHijackable or the innermost writer's own result |
| Handler.Hijack | compress.go:77-83 | a wrapped writer that cannot hijack gives ErrUnHijackable; one that can returns exactly what its own Hijack returns, through any number of wrappers |
| TestTable.CompressGzip | compress_test.go:18 | "compress, gzip" gives gzip 1.0 and nothing else |
| TestTable.EmptyAndWildcard | compress_test.go:19-20 | "" and "*" give the all-zero record |
| TestTable.CompressHalfGzipOne | compress_test.go:21 | "compress;q=0.5, gzip;q=1.0" gives gzip 1.0 and nothing else |
| TestTable.GzipIdentityWildcard | compress_test.go:22 | "gzip;q=1.0, identity; q=0.5, *;q=0" gives gzip 1.0 and identity 0.5 |
| TestTable.UnknownNames | compress_test.go:25-26 | "AAA;q=1" and "BBB ; q = 2" give the all-zero record |
| TestTable.GzipDeflateSdch | compress_test.go:27 | "gzip, deflate, sdch" gives gzip 1.0 and deflate 1.0 |
| TestTable.TrailingSegmentAfterZero | compress.go:171-186 | "gzip;q=0;x" parses to gzip with weight 1.0: the segment after `q=0` resets it |
| TestTable.ZeroWeights | compress.go:134-143 | "gzip;q=0" and "identity;q=0" both give Identity, and "gzip, identity;q=0" still gives Gzip |
| TestTable.RequestWithoutAcceptEncoding | compress_test.go:43-51 | without Accept-Encoding there is no Content-Encoding, the original writer is used, and Vary is Accept-Encoding |
| TestTable.RequestAcceptingGzip | compress_test.go:53-61 | with `Accept-Encoding: gzip`, Content-Encoding is gzip and the body goes through a gzip encoder |
| TestTable.HijackCases | compress.go:77-83 | hijacking through one or two wrappers of a writer that cannot hijack gives ErrUnHijackable; with one that can, the writer's own result comes back |

## Left out

- strconv.ParseFloat is a parameter, not a model. Its rounding, NaN and ±Inf
  are out of scope, and so are hex floats. A NaN would pass both clamp tests
  of compress.go:180-184 unchanged, so the [0,1] bounds hold only for
  non-NaN values. Weights are exact reals, not float64.
- ToLower and TrimSpace are ASCII only. Go also lower-cases non-ASCII
  letters and trims Unicode white space such as U+0085 and U+00A0. So the
  model decides differently on such input: Go lower-cases "GZİP" to "gzip"
  (U+0130 becomes i) and trims "gzip" followed by U+00A0 to "gzip", and
  selects Gzip for both, where the model keeps the names as they are and
  selects Identity.
- The sync.Pool pools and GetGzip/GetWriter (compress.go:16-40) are left
  out: they are concurrency and library objects. In Handle the deferred
  function returns the encoder to its pool before closing it
  (compress.go:100-103, 112-115). That ordering only matters under
  concurrent use, so the model does not capture it.
- The gzip and flate codecs, the compressed body bytes and the response
  status of the handler test are left out: they are library compression
  and I/O. The comment at compress.go:54 says Deflate uses the zlib format,
  but GetWriter (compress.go:26-39) draws from a compress/flate pool, which
  writes raw RFC 1951 data with no zlib wrapper.
- responseWriter.Write (compress.go:85-87), ServeHTTP and the closing of
  the encoders are left out: they are net/http and codec I/O. Handle is
  modelled only up to the headers and the writer the wrapped handler
  receives.
- Handler.Hijack: the connection and buffered reader/writer are one
  opaque `Conn` value.
- accepts reads the header with http.Header.Get, which canonicalises the
  key. The model takes the Accept-Encoding value as a string, "" when the
  request has none.
- The `String` method generated by stringer for flateType is not part of
  this model.
