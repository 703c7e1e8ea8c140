# slack-translate: the request-authenticity gate, modelled in Dafny

slack-translate is a webhook endpoint for a Slack slash command. It translates the
command text between English and Korean. Before it does anything, it checks that the
request really comes from Slack. `verifySlackSignature` does this check; it rejects
for four reasons:

- the request has no body;
- the `X-Slack-Request-Timestamp` header is not a signed base-10 int64;
- the timestamp is more than five minutes away from now, in either direction, unless it lies
  so far in the future that `time.Since` saturates (see Findings);
- `X-Slack-Signature` is not `"v0=" + lowercase-hex(HMAC-SHA256(secret, "v0:" + timestamp + ":" + body))`.

The body is read once and put back, so the handler can parse it afterwards. The
handler then chooses the target language: English for text that contains a Hangul
syllable, Korean otherwise.

The model has one module per concept:

- `Int64`: Go's int64, and the three operators `abs64` is made of. `>>` is an
  arithmetic shift, i.e. floor division by 2^63. `^` is exclusive or on the
  two's-complement bit pattern, defined bit by bit. `-` wraps around modulo 2^64. The
  `abs64` contract is proved from these definitions, including its fixed point
  `abs64(MinInt64) == MinInt64`.
- `Decimal`: `strconv.ParseInt(s, 10, 64)`. `FormatInt` is a right inverse of it: parsing
  undoes formatting. `IsNumeralOf` characterises every text `ParseInt` accepts.
- `Hex`: `hex.EncodeToString`, the base16 of section 8 of RFC 4648 with a lowercase
  alphabet. A decoder stands beside it as its inverse.
- `Mac`: `checkMAC`. The hasher is a class driven through `Write`/`Sum`. HMAC-SHA256
  itself is a parameter `hmac: HmacFunction`: any function from key and message to
  32 bytes. Every result therefore holds for every such function.
- `Freshness`: the timeout check. `now` is a parameter in Unix nanoseconds.
  `time.Since` is the saturating int64 difference.
- `Verifier`: the request object, its body reader, the decision `Decide` and the
  method `VerifySlackSignature`. `Decide` takes the freshness test as an argument:
  `AsWritten` is the source's, `Corrected` the evidently intended one.
- `Hangul`: `isHangul` and the choice of target language.

`VerifySlackSignature` follows the source guard by guard. It is proved to return
exactly `Decide(...) == Accepted`. It is also proved to drain the original reader and to
leave a fresh reader holding the same bytes. The properties of the protocol are lemmas about `Decide`.

Two consequences of the code are worth stating plainly:

- The freshness check does not reject a timestamp so far in the future that
  `time.Since` saturates (see Findings).
- There is no special case for an empty secret: a signature computed with the empty
  key is accepted like any other.

## Model

| member | source | states |
|---|---|---|
| Int64.Wrap | api/translation.go:163 | the int64 result differs from the exact value by a multiple of 2^64, and equals it when it fits |
| Int64.ShiftRight63 | api/translation.go:162 | `n >> 63` is the sign mask: -1 for negative n, 0 otherwise |
| Int64.XorBits | api/translation.go:163 | bitwise exclusive or of k-bit patterns stays below 2^k |
| Int64.Xor | api/translation.go:163 | int64 `^` on bit patterns: xor with 0 is the identity, xor with -1 the ones' complement -a-1 |
| Int64.XorSignMask | api/translation.go:162-163 | xor with the sign mask gives n for n >= 0 and the ones' complement -n-1 for n < 0 |
| Int64.Abs64 | api/translation.go:161-164 | abs64(n) is n for n >= 0, -n for MinInt64 < n < 0, MinInt64 for MinInt64, and is negative only there |
| Int64.Abs64Negate | api/translation.go:161-164 | abs64(-n) == abs64(n) wherever -n does not overflow |
| Int64.Saturate | api/translation.go:150 | the elapsed-time Duration is the int64 nearest the exact difference, and the difference itself when it fits |
| Freshness.Since | api/translation.go:150 | `time.Since(time.Unix(ts, 0))` is the exact nanosecond difference when it fits, MinInt64 exactly when the timestamp is at least 2^63 ns ahead, MaxInt64 exactly when it is at least 2^63-1 ns behind |
| Freshness.TimedOut | api/translation.go:150-152 | `abs64` of the elapsed Duration over five minutes; a timeout only ever rejects instants more than five minutes apart |
| Freshness.TimedOutIff | api/translation.go:150-155 | below saturation, the check times out iff now and the timestamp are more than five minutes apart |
| Freshness.ExactlyFiveMinutes | api/translation.go:151-152 | a difference of exactly five minutes, past or future, is not a timeout |
| Freshness.AroundTheBound | api/translation.go:150-155 | 299 s off either way passes; 301 s off either way times out |
| Freshness.PastFutureSymmetric | api/translation.go:150-152 | swapping past for future gives the same decision while the difference fits an int64 |
| Freshness.FarFutureNeverTimesOut | api/translation.go:150-152 | as written, a timestamp at least 2^63 ns in the future never times out |
| Freshness.FarFutureExample | api/translation.go:150-152 | timestamp 20000000000 passes at the reference instant 1531420618, though it is centuries off |
| Freshness.TimedOutCorrected | api/translation.go:150-155 | the corrected two-sided check times out iff the instants are more than five minutes apart, for every input |
| Freshness.CorrectedAgrees | api/translation.go:150-155 | the corrected and the written check agree unless the Duration is MinInt64 |
| Decimal.ParseInt | api/translation.go:144-148 | a parsed timestamp is non-empty, a sign or digit followed by digits, and negative only with a leading `-` |
| Decimal.ParseFormat | api/translation.go:144 | every int64 formatted in decimal parses back to itself |
| Decimal.ParseIntIff | api/translation.go:144-148 | ParseInt(s) is Some(v) iff s is an optional `+` (or `-` when v <= 0), zeros, then the canonical digits of the magnitude of v |
| Decimal.ParsedIsNumeral | api/translation.go:144-148 | every text ParseInt accepts is a numeral of the value it yields |
| Decimal.NumeralParses | api/translation.go:144-148 | every numeral of an int64 value parses to that value |
| Decimal.ParseIntOutOfRange | api/translation.go:144-148 | every well-formed numeral whose value is outside [MinInt64, MaxInt64] is an error |
| Decimal.ZerosThenCanonical | api/translation.go:144 | every digit string is zeros followed by the canonical digits of its value |
| Decimal.ZerosIgnored | api/translation.go:144 | any number of leading zeros leaves the digit value unchanged |
| Decimal.LeadingZeroIgnored | api/translation.go:144 | a leading zero does not change the parsed value |
| Decimal.PlusSignIgnored | api/translation.go:144 | `+` before the digits parses to the same value as the digits alone |
| Decimal.ParseEmpty | api/translation.go:139-148 | an empty timestamp (missing header) is an error |
| Decimal.ParseLoneSign | api/translation.go:144-148 | a lone `+` or `-` is an error |
| Decimal.ParseNonDigit | api/translation.go:144-148 | a non-digit anywhere after the first byte is an error |
| Decimal.ParseNotANumber | api/translation.go:144-148 | `"not-a-number"` is an error |
| Decimal.ParseRangeEdges | api/translation.go:144-148 | -9223372036854775808 parses to MinInt64; 9223372036854775808 and -9223372036854775809 are range errors |
| Hex.Encode | api/translation.go:123 | the encoding is twice as long and every character is in `[0-9a-f]` |
| Hex.DecodeEncode | api/translation.go:123 | decoding the encoding gives the digest back |
| Hex.EncodeDecode | api/translation.go:123 | every decodable text is the encoding of what it decodes to |
| Hex.EncodeInjective | api/translation.go:123 | distinct digests have distinct encodings |
| Mac.Hasher.constructor | api/translation.go:118 | a new keyed hasher has the secret as key and nothing written |
| Mac.Hasher.Write | api/translation.go:119 | writing appends the message to what the hasher has absorbed |
| Mac.Hasher.Sum | api/translation.go:123 | the sum is the 32-byte HMAC of the key and everything written |
| Mac.SignatureFor | api/translation.go:123 | the calculated signature has length 67, starts with `v0=`, is lowercase hex after it, and decodes to the HMAC digest |
| Mac.SignatureDeterminesDigest | api/translation.go:123-124 | equal calculated signatures carry equal digests |
| Mac.CheckMAC | api/translation.go:117-125 | checkMAC is true iff the received MAC equals `"v0=" + hex(HMAC(secret, message))` |
| Verifier.HeaderGet | api/translation.go:139-140 | a missing header, or one with no values, reads as the empty string; otherwise its first value |
| Verifier.BodyReader.constructor | api/translation.go:136 | the replacement reader holds exactly the bytes read |
| Verifier.BodyReader.ReadAll | api/translation.go:135 | reading yields all unread bytes and leaves the stream exhausted |
| Verifier.Request.constructor | api/translation.go:129 | a request is its body reader (possibly nil) and its headers |
| Verifier.SigningMessage | api/translation.go:141 | the message is `v0:`, the raw timestamp header, `:`, then the body bytes |
| Verifier.ParsedTimestampHasNoColon | api/translation.go:141-148 | a timestamp that parses contains no `:` |
| Verifier.SigningMessageInjective | api/translation.go:141 | for colon-free timestamps the message determines both timestamp and body |
| Verifier.PlusSignChangesMessage | api/translation.go:139-144 | `+5` and `5` parse alike but are signed as different messages |
| Verifier.Decide | api/translation.go:129-159 | the verdict is NoBody iff there is no body; acceptance implies a parsed timestamp that passes the chosen freshness test and a signature equal to the MAC over this timestamp and body |
| Verifier.AcceptedIff | api/translation.go:129-159 | accepted iff body present, timestamp parses, not timed out and the MAC matches |
| Verifier.EarlyRejectIgnoresMac | api/translation.go:130-155 | a nil body, a bad timestamp or a timeout rejects whatever the signature, secret and hash |
| Verifier.GuardOrder | api/translation.go:130-148 | the nil-body guard comes first, the parse guard before the timeout |
| Verifier.UnparsableTimestampRejected | api/translation.go:139-148 | a missing timestamp header or `not-a-number` is rejected as malformed |
| Verifier.SignedRequestAccepted | api/translation.go:129-159 | a fresh request carrying the signature of its own timestamp and body is accepted |
| Verifier.MutatedSignatureRejected | api/translation.go:123-124 | changing any one byte of the correct signature makes it rejected |
| Verifier.AroundTheBoundAccepted | api/translation.go:150-158 | a signed request 299 s old is accepted, 301 s old is rejected as stale |
| Verifier.AcceptedSignatureBindsRequest | api/translation.go:141-158 | one signature accepted for two requests means equal HMAC digests, and equal messages mean equal timestamp and body |
| Verifier.FarFutureAccepted | api/translation.go:150-158 | as written, a correctly signed request with a far-future timestamp is accepted; the corrected decision rejects it as stale |
| Verifier.CorrectedAcceptedIsFresh | api/translation.go:150-158 | with the corrected test, acceptance implies a parsed timestamp within five minutes of now and a matching MAC |
| Verifier.CorrectedAgreesAwayFromSaturation | api/translation.go:150-158 | the corrected decision equals the source's unless the Duration saturates at MinInt64 |
| Verifier.VerifySlackSignature | api/translation.go:129-159 | returns true iff the as-written decision accepts; drains the original body reader and installs a fresh one with the same bytes (a nil body stays nil) |
| Verifier.VerifyThenReadBody | api/translation.go:54-62 | the handler reads a body only after acceptance, and gets the original bytes |
| Hangul.IsHangul | api/translation.go:36-44 | true iff some code point lies in [0xAC00, 0xD7A4) |
| Hangul.ChooseTargetLanguage | api/translation.go:77-82 | the target is `en` iff the text contains Hangul, and is always `en` or `ko` |
| Hangul.HangulBounds | api/translation.go:29-44 | U+AC00 and U+D7A3 count, U+ABFF, U+D7A4 and U+FFFD do not, and the empty text has none |
| Hangul.ContainsHangulAppend | api/translation.go:36-44 | text contains Hangul iff one of its parts does |

## Findings

| source | as written | input that shows it | evidently intended | confidence | as-written member | corrected member |
|---|---|---|---|---|---|---|
| api/translation.go:150-155 | `time.Since` saturates at MinInt64 for a timestamp 2^63 ns (about 292 years) or more in the future; `abs64(MinInt64)` is MinInt64, which is negative, so the request is never timed out | timestamp header `20000000000` checked at 1531420618 s | reject every timestamp more than five minutes from now, e.g. by testing `tSince > 5*time.Minute \|\| tSince < -5*time.Minute` | high; not executed | Freshness.FarFutureNeverTimesOut | Freshness.TimedOutCorrected |

Only a holder of the secret can sign such a timestamp, so the finding weakens the
replay window, not the signature check. `Verifier.FarFutureAccepted` exhibits the
discrepancy on the whole decision. `Verifier.Decide` with the `Corrected` test is the decision with
the corrected check; `Verifier.CorrectedAcceptedIsFresh` proves the five-minute
guarantee for it. `Verifier.VerifySlackSignature` keeps the behaviour as written.

## Left out

- The keyed hash: HMAC (RFC 2104) over SHA-256 is not computed. It is the parameter `hmac`, constrained only to return 32 bytes.
- Mac.CheckMAC: `hmac.Equal` compares in constant time; the model compares by plain equality, and timing cannot be stated.
- The `mac.Write` error branch (api/translation.go:119-122) is not modelled: writing to a hash never fails.
- The error of `ioutil.ReadAll` (api/translation.go:135) is discarded by the source; the model reads the whole body.
- The wall clock: `now` is a parameter.
- Freshness.Since: the exact saturating difference. Two things are not modelled: the int64 wrap of the internal epoch offset that `time.Unix` adds for timestamps near ±2^63 s, and the precise overflow test of `Time.Sub`.
- Header names are taken as already canonical; the case-insensitive lookup of `Header.Get` is not modelled.
- Decimal.ParseInt: syntax errors and range errors are both `None`; the source only tests for an error.
- Logging (`log.Printf`, `log.Println`) is left out.
- The rest of `TranslateEnglish2Korean` (api/translation.go:52-75, 84-114) is left out: slash-command parsing, the Google Translate client, `language.Parse`, `log.Fatalf`, JSON marshalling and writing the response. These are foreign calls and I/O.
- `init` (api/translation.go:46-49), which reads the secret from the environment, is left out; the secret is a parameter.
- `main.go` is left out: it only registers the handler and starts the HTTP server.
- The UTF-8 decoding done by `range` over a Go string is not modelled; the command text is given as a sequence of code points.
