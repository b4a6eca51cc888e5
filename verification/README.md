# gov-jwt-signer in Dafny

A model of the token pipeline of gov-jwt-signer: a signer publishes its public
key as a JWK, the token service assembles a claim set and prints it, the signer
signs it into a compact JWS, and a verifier built from a key set accepts it or
not. The main results say what the two ends undo of each other, for byte
strings, key sets, option lists, claim sets and clock readings of any size.

`dafny verify dfyconfig.toml` checks the whole project (Dafny 4.11).

## Modules

| module | what it covers |
|---|---|
| `BigEndian`, `Base64Url`, `Utf8` | integers, octets and text: `big.Int`, `base64.RawURLEncoding`, UTF-8 |
| `Double`, `Number`, `Numerals`, `Json`, `JsonParser`, `JsonStrings`, `JsonGrammar`, `JsonRoundTrip`, `GoValue`, `SortedObject`, `Fields` | `encoding/json`: printer, reader, the grammar the reader takes, key-sorted maps, `omitempty`; doubles and maps of any |
| `Keys` | algorithms, keys, the ideal primitives and the assumptions about them |
| `Jwk`, `JwkLaws`, `Thumbprints`, `JwksDocument` | publication, reconstruction, the in-place point buffer, the default kid, the JWKS text |
| `Options`, `Signing`, `SigningLaws` | the option list, `NewSigner`, `Sign`, `JWKS` |
| `Payload`, `Service`, `ServiceLaws` | `tokenClaims.MarshalJSON`, the five `Issue` methods, the validity window |
| `Compact`, `Verifying`, `VerifyingLaws`, `Pinning` | the compact form, `NewVerifier`, `Verify`, which algorithm a key is used with |
| `EndToEnd` | issue, publish, verify |

Code that works by assignment keeps that form: the option closures change a
`Config`, `NewVerifier` fills a `Verifier` in loops with early exits,
`ecUncompressedPoint` and `leftPad` copy into buffers, `MarshalJSON` updates a
map of raw messages, and a `Signer` hands out a fresh slice per `JWKS` call.

## Assumptions

Cryptography is ideal. `Keys.Crypto` holds the hash, curve membership, private-key
parsing, signing and verification as arbitrary functions; `Keys.Crypto.Sound`
lists all that is assumed of them: digests have 32 octets, parsed keys are well
formed, and verification accepts what a key that some PEM holds and that is strong
signed under an algorithm that fits it. `SigningLaws.CurveCryptoSound` gives instances of it, and `EndToEnd.SampleRunAccepted` a run that meets every hypothesis.
No hash is assumed collision-free: where it matters the statement names the collision.

Six conditions of the end-to-end result come from the code and are stated, not repaired:

- `WithTokenTypeClaim` rejects only the empty name, so a setting such as `iss` or
  `exp` overwrites a claim. `ServiceLaws.OverwriteFreeExactly` gives the exact
  settings under which no request loses a claim, and `EndToEnd.HonouredExactly` those
  under which every token is accepted in time. `EndToEnd.OverlaidDateRejected` and
  `EndToEnd.OverlaidTokenExactly` say what happens otherwise.
- `checkKeyMatchesAlgorithm` compares the key family only. An ES256 signer with a
  P-384 key is built and then fails every `Sign`
  (`SigningLaws.MismatchedCurveNeverSigns`); `SigningLaws.SignsExactly` is the exact condition.
- The verifier's allowlist is the union over all keys, not per kid. A key's family still
  limits it, so algorithms are pinned exactly for the sets with one algorithm per
  family (`Pinning.PinnedExactly`): RS256 beside ES256 is, RS256 beside PS256 is not,
  and then every holder of a strong key may use either (`Pinning.OtherAlgorithmAccepted`).
- The JWT library reads a date of 0 as absent: a token expiring at the epoch is never
  accepted, and a not-before of 0 is no bound. Both are in `EndToEnd.InTime`.
- A payload may hold a number beyond the range of a double, such as 1e400
  (`Number.BeyondDoubles`). The token is issued, and no verifier can read it
  (`EndToEnd.SignedParses`).
- Verified claims hold doubles. An identifier such as 9007199254740993 comes back as
  9007199254740992 (`GoValue.InexactIdentifier`); `EndToEnd.ClaimsReturnedExactly` is
  the exact condition.

Where documentation and code differ, the code is followed: `docs/threat-model.md`
calls the allowlist always applied, while the library skips it for an empty key
set; no key can then be found, so nothing is accepted either way.

## Model

| member | source | states |
|---|---|---|
| BigEndian.FromToBytes | keys.go:143-144 | the octets of a non-negative integer read back as the integer |
| BigEndian.ToFromBytes | keys.go:143-144 | an octet string is re-encoded unchanged if and only if it has no leading zero octet |
| BigEndian.LeftPaddedValue | keys.go:216-225 | left padding never changes the big-endian value, for any length and size |
| Base64Url.DecodeEncode | keys.go:211-214 | unpadded base64url decoding undoes encoding, for every length |
| Base64Url.EncodeInAlphabet | keys.go:211-214 | the text is in the 64-letter alphabet and has ceil(4n/3) letters |
| Base64Url.EncodeInjective | keys.go:211-214 | different octet strings have different texts |
| Base64Url.DecodeCharacterised | verify.go:106-130 | exactly which texts decode, and exactly when re-encoding gives the same text back rather than another spelling |
| Base64Url.AlphabetExactly | keys.go:211-214 | each letter is the one the 64-letter URL-safe alphabet has at its place, and only those letters have a value |
| Base64Url.StripExactly | verify.go:106-130 | line breaks are skipped wherever they stand, and nothing else is |
| Base64Url.SpareBitsIgnored | verify.go:106-130 | a text with spare bits decodes to the octets of the text with the bits cleared |
| Utf8.DecodeEncode | keys.go:199 | text survives its UTF-8 octets |
| Utf8.DecodeCharExactly | verify.go:86 | any octets decode step by step to the character whose encoding they start with, or to U+FFFD for one octet when they start with none |
| Jwk.LeftPad | keys.go:216-225 | the slice itself when long enough, else a fresh padded copy; the input is untouched |
| Jwk.EcUncompressedPoint | verify.go:158-168 | the two in-place copies build tag, x slot and y slot, for coordinates of any length, and leave both inputs alone |
| Jwk.TwoCopies | verify.go:165-166 | whatever an over-long x spills into the y slot is replaced by the second copy |
| JwkLaws.PointBuild | verify.go:158-168 | the buffer is 1+2*size octets starting with 4, and each slot holds its own coordinate's value with the excess low octets shifted out |
| JwkLaws.SlotKeepsValue | verify.go:158-168 | a slot keeps its coordinate's value if and only if the coordinate fits or is zero |
| JwkLaws.PublishedExactly | keys.go:136-192 | which keys publicJWK publishes: every RSA key, and EC points on an approved curve |
| JwkLaws.PublishedShape | keys.go:139-145 | a published JWK is a signing key with its family's members and no others, EC coordinates of the curve's fixed width |
| JwkLaws.PublishedKeyReconstructs | verify.go:103-143 | the rebuilt key is the published one, exactly when an RSA exponent is non-negative or the least int |
| JwkLaws.Republication | verify.go:103-143 | a published JWK decodes and re-encodes to itself under its alg and kid |
| JwkLaws.PublishedMinimal | keys.go:139-145 | RSA integers are spelt with the fewest octets |
| JwkLaws.RsaDecodesExactly | verify.go:103-119 | exactly which RSA JWKs decode, whoever made them, and to which modulus and exponent, the latter reduced to 64 signed bits |
| JwkLaws.EcDecodesExactly | verify.go:120-168 | exactly which EC JWKs decode, and to which point: a named curve, two base64url coordinates, and a valid point in the two slots |
| JwkLaws.OtherKindsRefused | verify.go:140-142 | a JWK of any other kty is refused |
| JwkLaws.OtherMembersIgnored | verify.go:103-143 | use, alg, kid and the other family's members never decide what a JWK decodes to |
| JwkLaws.ForeignRepublication | keys.go:136-176 | a JWK published elsewhere re-publishes unchanged exactly when it is a signing key without members of the other family and its RSA integers are minimal with an exponent of at most 2^63, or its EC coordinates have exactly the curve's width, all in canonical text |
| JwkLaws.DefaultKidStable | keys.go:146-149 | the default kid does not depend on alg and survives reconstruction and re-publication |
| Thumbprints.ThumbprintOfJwk | keys.go:194-209 | the default kid hashes the compact key-sorted JSON of the JWK's required members (section 3 of RFC 7638) |
| Thumbprints.RsaInputIsCanonicalJson | keys.go:197-201 | the RSA format string is that canonical JSON |
| Thumbprints.EcInputIsCanonicalJson | keys.go:205-209 | the EC format string is that canonical JSON |
| Thumbprints.HashInputInjective | keys.go:194-209 | hash inputs are equal if and only if the keys are, within and across the two families |
| Thumbprints.DefaultKidIdentifies | keys.go:146-173 | default kids are equal if and only if the keys are, or the hash collides on the two named inputs |
| Thumbprints.KidOf | keys.go:146-149 | a configured kid is used as it is, an empty one becomes the thumbprint |
| Thumbprints.KidNonEmpty | keys.go:146-149 | no published key is without a kid, and a default kid has 43 letters |
| JwksDocument.UnmarshalMarshal | keys.go:227-235 | the JWKS text reads back as the same keys, whatever their fields hold; a nil slice reads as an empty set |
| JwksDocument.JwkMembersExactly | keys.go:112-126 | a printed JWK has kty and the other members that are not empty, under their names, and nothing else |
| JwksDocument.JwkMembersOrdered | keys.go:112-126 | they stand in the order of the struct |
| JwksDocument.DocumentExactly | keys.go:227-235 | the text holds, under keys, one object per JWK with exactly those members, and an empty array for a nil slice |
| JsonRoundTrip.ParseDocumentPrint | pkg/token/service.go:121-139 | every JSON value survives printing and reading, escapes included |
| JsonRoundTrip.UnmarshalRawPrint | pkg/token/service.go:136-139 | reading a printed object into raw messages keeps the exact text of every member's value |
| JsonRoundTrip.PrintStringInjective | pkg/token/service.go:121-157 | no two strings print alike |
| JsonRoundTrip.EscapedExactly | pkg/token/service.go:157 | which characters are written bare, which with a short escape and which with a six-character one in lower case |
| JsonRoundTrip.PlainPrintsBare | pkg/token/service.go:157 | a string without quotes, backslashes, controls, line separators and HTML-sensitive characters is written as itself, slashes included |
| JsonRoundTrip.PrintedStringPlain | pkg/token/service.go:157 | no written string holds such a character raw, but for the quotes around it and the backslashes and quotes of escapes |
| JsonRoundTrip.PrintedCompact | pkg/token/service.go:157 | the written text is a text of the value without a blank between tokens |
| JsonStrings.StringsReadExactly | verify.go:86 | exactly which texts are read as a given string: its spellings with bare characters, short escapes, code units and surrogate pairs |
| JsonGrammar.DocumentsReadExactly | verify.go:86 | exactly which texts are read as a given value: the texts of RFC 8259 for it, with blanks and spellings, and no others |
| Numerals.NumbersSpelt | verify.go:86 | exactly which texts are numbers: sign, whole part without leading zeros, fraction and exponent |
| Numerals.RealOfSpelt | verify.go:86 | what each stands for: whole part plus fraction, times or over the power of ten, negated after a minus |
| SortedObject.LessIsByteOrder | pkg/token/service.go:157 | the key order by scalar values is the byte order of the UTF-8 keys |
| SortedObject.AscendingUnique | pkg/token/service.go:157 | a key set has one ascending listing |
| SortedObject.PrintMapCanonical | pkg/token/service.go:157 | any object text with ascending keys that reads as a map is that map's printed text |
| SortedObject.UnmarshalPrintMap | pkg/token/service.go:157 | a printed map reads back as the map |
| Number.RealOfFormatInt | pkg/token/service.go:363-371 | a date printed in decimal stands for itself, in digits alone and with a minus sign only when negative |
| Double.RoundNearest | verify.go:86 | a number read from a token is rounded so that no double is nearer |
| Double.TiesToEven | verify.go:86 | and between two equally near ones the choice is even in its last place |
| Double.RoundFixesExactly | verify.go:86 | within the range, rounding keeps exactly the numbers m * 2^e of binary64 |
| Double.InRangeExactly | verify.go:86 | a number is refused exactly from halfway between the greatest double and 2^1024 on |
| GoValue.RoundedFixesExactly | verify.go:73-90 | a value read into an any says what its text says exactly when its numbers are doubles, at any depth |
| GoValue.ReadBackExactly | verify.go:73-90 | the same for a whole printed claim map |
| GoValue.SaysExactly | verify.go:73-90 | what reading starts from is what the text says: under each key its last member, each number the value of its parts |
| GoValue.RoundedToNearest | verify.go:73-90 | and reading gives that with every number replaced by a double no other is nearer than |
| Options.Config.constructor | options.go:27-38 | the default configuration |
| Options.Config.Apply | options.go:40-144 | an option either refuses and changes nothing, or sets its one field |
| Options.Configure | signer.go:39-45 | the loop over the options computes the fold the next four rows are about |
| Options.ConfiguredWhenAccepted | signer.go:39-45 | a list is applied if and only if no option refuses |
| Options.FirstRefusalReported | signer.go:41-45 | otherwise the error is that of the first refusing option |
| Options.LastWriteWins | options.go:27-144 | each field holds what the last option targeting it wrote, or its default |
| Options.OrderAcrossFields | options.go:27-144 | only the order among options on one field matters |
| Options.DefaultsDocumented | options.go:27-38 | an issuer and a key alone give RS256, no key id, five minutes, the system clock, token_type and JWT |
| Options.AlgorithmsExactly | options.go:52-61 | exactly the nine algorithms are accepted, and the families are told by their first letter |
| Signing.NewSigner | signer.go:39-87 | a fresh signer in the state the options and key determine, or the error they determine |
| SigningLaws.BuiltExactly | signer.go:39-87 | NewSigner succeeds if and only if all options are accepted, an issuer is set, the key parses, is of the algorithm's family and is strong |
| SigningLaws.RefusedSigner | signer.go:39-87 | otherwise the error is that of the first of these conditions that fails |
| SigningLaws.WeaknessIsShortness | signer.go:183-203 | the strength check passes exactly for moduli of at least 2^2047 and approved curves |
| SigningLaws.BuiltWell | signer.go:59-86 | every built signer has issuer, kid, typ, token-type name, positive ttl, a supported matching algorithm, and publishes the key it signs with |
| Signing.Signer.Sign | signer.go:91-96 | the header built by assignment and the payload become the specified compact token |
| SigningLaws.SignedHeader | signer.go:91-96 | the header read back from any token has exactly the signer's alg, kid and typ |
| SigningLaws.DefaultTokens | options.go:27-38 | with an issuer and a key alone, every token is an RS256 token of type JWT |
| SigningLaws.SignsExactly | signer.go:167-181 | a built signer can sign if and only if its key is RSA or its curve is the algorithm's |
| SigningLaws.MismatchedCurveNeverSigns | signer.go:167-181 | a concrete signer that is built and can never sign |
| Signing.Signer.Jwks | signer.go:131-134 | a fresh slice holding the one key, for every call |
| Signing.Run | signer.go:18-34 | over any sequence of calls and caller writes into returned slices, earlier ones included, every answer is the one given at the start and the signer is unchanged |
| Payload.MarshalJson | pkg/token/service.go:108-158 | print, re-read, overlay, re-print gives the text of the claim map printed once, or its error |
| Payload.StandardClaims | pkg/token/service.go:109-139 | the first pass puts each non-empty standard claim under its own name and nothing else |
| Payload.PayloadReadsBack | pkg/token/service.go:108-158 | the text reads back as variant over token type over standard claims, under every name |
| Payload.PayloadTextDetermined | pkg/token/service.go:136-157 | the bytes depend on the claims alone, not on the order members were inserted |
| ServiceLaws.RequestedExactly | pkg/token/service.go:229-329 | exactly which requests pass the checks of the five Issue methods and checkNested |
| ServiceLaws.PayloadSpelledOut | pkg/token/service.go:227-344 | for every request and name, the issued payload holds what the request and signer ask for |
| ServiceLaws.PayloadDomain | pkg/token/service.go:121-157 | exactly which names a payload has |
| ServiceLaws.PayloadFinite | pkg/token/service.go:121-157 | with dates a Go time can hold, a payload has a number no double can hold exactly when the caller's variant has |
| ServiceLaws.PayloadDoubles | pkg/token/service.go:121-157 | with dates up to 2^53 seconds, all numbers of a payload are doubles exactly when those of the caller's variant are |
| ServiceLaws.LateCollision | pkg/token/service.go:148-150 | the late collision check fires exactly for a built-in variant whose key is the token-type claim, never for a caller-chosen key |
| ServiceLaws.NoClaimOverwritten | pkg/token/service.go:140-157 | with a token-type claim outside the standard names every standard claim keeps its value |
| ServiceLaws.OverlaysPresent | pkg/token/service.go:140-156 | token type and variant stand under their own names |
| ServiceLaws.OverwriteFreeExactly | options.go:110-118 | no request loses a standard claim if and only if the configured name is not a standard name |
| ServiceLaws.ValidityWindow | pkg/token/service.go:354-371 | ttl is positive, exp >= nbf = iat, the window is within one second of the ttl and exact for whole seconds, exp > iat exactly when the ttl crosses a second boundary |
| ServiceLaws.AuthTimeOmitted | pkg/token/service.go:374-379 | auth_time is absent exactly for the zero time and for times in the epoch's first second |
| ServiceLaws.ZeroTimeIsYearOne | pkg/token/service.go:374-379 | the zero time is 1 January of year 1 by the Gregorian calendar |
| ServiceLaws.DerivedAcr | pkg/claims/assurance.go:56-102 | the payload's acr is the eIDAS level of the rank asked for, so DigiD and eHerkenning agree rank by rank |
| Service.TokenService.Issue | pkg/token/service.go:334-344 | filling in the shared claims, marshalling and signing give the issued token the laws are about |
| ServiceLaws.IssuesExactly | pkg/token/service.go:227-344 | exactly when an Issue call returns a token |
| ServiceLaws.IssueRefusedExactly | pkg/token/service.go:227-344 | otherwise the error is that of the first of these conditions that fails |
| Compact.SplitJoined | verify.go:86 | a token splits into three segments exactly when it is their join |
| Compact.CompactRoundTrip | signer.go:91-96 | header, payload and signature come back from the token, since no base64url letter is a period |
| Verifying.NewVerifier | verify.go:45-68 | succeeds exactly on inoffensive sets, with the exact map, a duplicate-free listing of exactly the algorithms and the last option values; else reports the earliest offence |
| Verifying.Verifier.ReadKeys | verify.go:48-60 | the loop with its three early exits, in the order kid, alg, duplicate |
| Verifying.Verifier.ListAlgs | verify.go:61-63 | the second loop lists the set once, in any order |
| Verifying.Verifier.Verify | verify.go:72-100 | the library's steps with their early exits, the allowlist loop and keyfunc decide as the specification the acceptance laws are about; the claims come back as Go values, numbers as doubles |
| VerifyingLaws.InoffensiveExactly | verify.go:48-60 | a set is accepted if and only if every key has kid and alg and all kids differ |
| VerifyingLaws.OffenceUnique | verify.go:48-60 | the reported offence is determined by the set |
| VerifyingLaws.OffenceExactly | verify.go:48-60 | which error a bad key gives, and for which kid |
| VerifyingLaws.LastOptionWins | verify.go:32-40 | each expectation is the one set last, and empty when unset |
| VerifyingLaws.ReadObjectExactly | verify.go:86 | exactly which segments are read: base64url of a JSON object, or null, in any spelling, whose numbers have doubles |
| VerifyingLaws.DateSecondsExactly | verify.go:75-86 | the whole second a date counts as |
| VerifyingLaws.RefusalExactly | verify.go:72-100 | which error a refused token gives: that of the first check that fails, in the library's order |
| VerifyingLaws.AcceptanceExactly | verify.go:72-100 | Verify accepts if and only if the token carries all the evidence: well-formed parts whose numbers are read as doubles, a key named by a non-empty kid of the set, a listed algorithm of its family, a valid signature, dates, issuer and audience |
| Pinning.PinnedExactly | verify.go:61-78 | accepted tokens use the algorithm their own key lists, whatever signatures verify beyond the honest ones, if and only if no listed algorithm of a decodable key's family differs from that key's own |
| Pinning.PinnedBetween | verify.go:61-78 | for one sound crypto: one algorithm per family is enough, one per holder of a key is needed |
| Pinning.RsaPinnedExactly | verify.go:61-78 | for one sound crypto and a set of strong RSA keys somebody holds: pinned if and only if all keys and algorithms agree |
| Pinning.EmptyKeysPinned | verify.go:61-78 | keys nobody holds do not count: two RSA JWKs with empty integers list two algorithms, and primitives that refuse a zero modulus accept nothing under them |
| Pinning.OtherAlgorithmAccepted | verify.go:61-78 | the holder of a strong key in the set is accepted under every listed algorithm the key can sign with, for all claims that pass |
| VerifyingLaws.OrderIndependence | verify.go:45-100 | permuting the set changes neither its acceptance nor any outcome |
| VerifyingLaws.AcceptanceMonotone | verify.go:45-100 | a key added anywhere under a fresh kid keeps every accepted token accepted with the same claims |
| EndToEnd.PublishedSetAccepted | signer.go:131-134 | NewVerifier accepts every signer's JWKS |
| EndToEnd.SignedParses | signer.go:91-96 | a signed claim map is read from the token alone, with header and signed text, exactly when its numbers have doubles, each rounded to the nearest |
| EndToEnd.IssuedTokenAccepted | pkg/token/service.go:334-344 | an issued token is accepted, under any key set holding the signer's JWK and any expectations, exactly when no date is overlaid, the time is within its dates, issuer and audience are not expected or are as stated, and its numbers have doubles; it returns the assembled claims, each number rounded to a double |
| EndToEnd.ClaimsReturnedExactly | verify.go:73-90 | the claims returned are exactly the assembled ones if and only if all their numbers are doubles, which for dates up to 2^53 seconds depends on the caller's payload alone |
| EndToEnd.AcceptedInWindow | pkg/token/service.go:354-371 | from the epoch's second second on and up to 2^53 seconds, an issued token is accepted exactly at the times t with floor(now) <= floor(t) < floor(now + ttl) in seconds; in general the dates count as rounded, and 0 as none |
| EndToEnd.PublishedTextVerifies | signer.go:136-140 | a verifier built from the key set read back from the JWKS text has the same outcome |
| EndToEnd.UnknownSignerRefused | verify.go:93-100 | a token is refused at every time, by any primitives, by every verifier whose set lacks the signer's kid |
| EndToEnd.OverlaidDateRejected | options.go:110-118 | a token type written over exp or nbf: no verifier whatever ever accepts the token |
| EndToEnd.OverlaidTokenExactly | options.go:110-118 | a token type written over iss or aud: accepted in time if and only if the verifier expects nothing of that claim or expects the type |
| EndToEnd.HonouredExactly | options.go:110-118 | every token of a signer whose numbers have doubles is accepted in time by the verifiers that expect its issuer and a requested audience if and only if its token-type claim is none of exp, nbf, iss, aud, or it cannot sign at all |
| EndToEnd.SelfTest | examples/basic/main.go:101-119 | the whole flow through the objects, NewSigner, issue, JWKS, NewVerifier, Verify, ends well exactly when each step does and the token is admitted |

## Left out

- PEM, PKCS#8, PKCS#1 and SEC1 parsing, and the RSA, ECDSA, PSS and SHA-256 arithmetic: library code, functions of `Keys.Crypto` here.
- Values of `jti`: the random octets are an input; no uniqueness is claimed, and their number is not fixed at sixteen.
- Reading the key file and the system clock: their results are inputs.
- Field checks of `pkg/claims`: a variant's `Validate` is a flag of the payload, and its error one error. Struct tags of the variants are not modelled; a payload is any JSON value or a marshalling failure.
- Typed nil pointers and reflection in `checkNested`: a payload is absent or present.
- Strings are sequences of Unicode scalar values; a Go string holding invalid UTF-8, which the JSON printer would rewrite, is not modelled.
- `strconv.Quote` of unprintable characters beyond ASCII: they never reach it here.
- Reading a JWKS document: member names match exactly, while `encoding/json` also matches them case-insensitively. The repository only writes the document.
- The depth limit of the JSON reader, and the messages of errors: only their kinds are kept.
- Parser options, `none` and HMAC methods of the JWT library beyond their rejection for RSA and EC keys; clock leeway, which is zero.
- Overflow of Go times and durations, of dates beyond 64 bits in a token, and 32-bit ints: times are mathematical integers of nanoseconds, ints have 64 bits.
- Concurrent use of a signer: `Signing.Run` covers interleavings at call granularity.
