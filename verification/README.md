# ntlm-client in Dafny

A model of the core of `ntlm-client`, a TypeScript HTTP client that authenticates with
NTLM (falling back to Basic). The model covers four parts:

- **The NTLM message codec** (`src/ntlm.ts`):
  - the Basic authorization value;
  - the Type1 (negotiate) token;
  - the Type2 (challenge) decoder, including its walk over the target-information pairs;
  - the Type3 (authenticate) token, in its v1 and v2 layouts.
- **The hash and response derivations** (`src/hash.ts`):
  - the DES key spread and its parity step;
  - the LM and NT hashes and the 24-byte v1 responses;
  - the NTLMv2 hash, the LMv2 and NTLMv2 responses;
  - the client nonce.
- **The authentication decision** (`src/fetch.ts`): what the client does with each response.
  It can start NTLM (step 1), send Basic, answer the challenge (step 2), or resolve.
  The model also covers `setHeaders`, `getAuthMethods`, `deleteCredentials` and the three
  `execute*` helpers.
- **The negotiate flags** (`src/flags.ts`), as unsigned 32-bit masks.

Modules, one file each:

- `Wrappers`: `Option`, `Result`.
- `Buffers`: Node `Buffer` semantics — little-endian fields, security buffers, and the
  'ascii', 'ucs2', 'utf8' and 'hex' encodings.
- `Flags`.
- `Hash`.
- `Type2`: the decoder, plus a server-side encoder as its partner.
- `Ntlm`: Basic and Type1.
- `Type3`: the builder, plus a server-side parser as its partner.
- `Fetch`: the decision step.

Representation choices:

- Messages are byte sequences before base64.
- JavaScript strings are sequences of UTF-16 code units, so `.length` is the sequence length.
- DES, MD4, HMAC-MD5 and base64 are function-valued parameters (`Crypto`, `Base64`). Only
  the output lengths of DES, MD4 and HMAC-MD5 are fixed; base64 is left unconstrained.
- `os.hostname()`, `Math.random()` and `Date.now()` become inputs: a `hostname`, sixteen
  random digits `draws`, and a clock value `nowMs`.
- One `Fetch.Step` consumes one response. It returns the retry it sends (`Retry`), settles
  the request (`Resolved`), or reports the exception the response callback throws (`Failed`).

These definitions have no row of their own because they carry no contract. The rows named after each one state what is proved about it:

- `Hash.NTHash` is MD4 over the password's 'ucs2' bytes (`src/hash.ts:102-106`). MD4 is a parameter, so nothing more is stated about it.
- `Hash.NTLMv2Hash` models createNTLMv2Hash (`src/hash.ts:115-119`). See `Hash.NTLMv2HashIgnoresUserCase`, and `Hash.LMv2Response` and `Hash.NTLMv2Response`, which key their HMAC with it.
- `Hash.SpreadKey`, `Hash.AdjustParity` and `Hash.DesKey` model the key expansion and parity of `src/hash.ts:55-72`. See `Hash.SetParity`, `Hash.CountHighOnes`, `Hash.AdjustParityKeepsHighBits`, `Hash.AdjustParitySetsLowBit`, `Hash.DesKeyCarriesMaterial`, `Hash.DesKeyInjective`, `Hash.DesKeyOuterBytesOdd` and `Hash.DesKeyInnerByteMayBeEven`.
- `Hash.FileTime` and `Hash.TimestampBytes` model the timestamp of `src/hash.ts:184-189`. See `Hash.TimestampReadsBack` and `Hash.NTLMv2Response`, and the `Hash.FileTime` line under "Left out".
- `Type2.Walk` is the recursive reading of the target-information loop (`src/ntlm.ts:158-199`). See `Type2.WalkTargetInfo`, `Type2.WalkListAt` and `Type2.WalkAvList`.
- `Fetch.Transition` is the options each action leaves behind (`src/fetch.ts:119-167`). See `Fetch.TransitionCredentials`, `Fetch.TransitionAuthMethod`, `Fetch.TransitionAuthorization`, `Fetch.TransitionAgent`, `Fetch.TransitionSpendsBudget` and `Fetch.DecidedTransitionKeepsTagsUnique`.
- `Type2.AvList` is a server's encoding of the target information, ending in a type-0 pair.

## Model

| member | source | states |
|---|---|---|
| Flags.PositionInjective | src/flags.ts:1-100 | two flags share a bit position exactly when they are the same flag |
| Flags.MaskNonzero | src/flags.ts:100 | every mask `1 << k` is a nonzero unsigned 32-bit value, including bit 31 (0x80000000) |
| Flags.MasksDisjoint | src/flags.ts:1-100 | the masks of two distinct flags have no bit in common |
| Flags.DecoderFlagBits | src/flags.ts:5-100 | OEM is 0x2, NTLM2 key is 0x80000, target info is 0x800000, and 56-bit is 0x80000000 |
| Flags.Type1FlagsValue | src/ntlm.ts:41-45 | OEM, request-target, NTLM key, always-sign and NTLM2 key OR together to 0x00088206 |
| Buffers.ReadU32LEOfWrite | src/ntlm.ts:108 | a 32-bit little-endian field reads back as the value written there |
| Buffers.SecBufDataOfWrite | src/ntlm.ts:49-54 | a security buffer (length, length, offset) describing bytes at that offset reads back as exactly those bytes |
| Buffers.Ucs2RoundTrip | src/ntlm.ts:195 | 'ucs2' decoding inverts 'ucs2' encoding for every string |
| Buffers.AsciiRoundTrip | src/ntlm.ts:103 | 'ascii' decoding inverts the 'ascii' write exactly when every code unit is below 0x80 |
| Buffers.DecodeEncodeText | src/ntlm.ts:135 | decoding in either encoding undoes encoding, when the text fits the encoding |
| Buffers.Utf8AsciiByte | src/ntlm.ts:16 | a 7-bit byte occurs in the 'utf8' bytes of a string exactly when that character occurs in the string |
| Buffers.Utf8SplitsAtAscii | src/ntlm.ts:16 | the 'utf8' bytes of `a + ':' + b` are those of `a`, a colon, then those of `b` |
| Hash.CountHighOnes | src/hash.ts:65-69 | the inner loop's sum of `(b >> j) % 2` for j = 1..7 is the number of ones in bits 7..1 |
| Hash.SetParity | src/hash.ts:64-72 | after the loop every key byte is its spread byte with 1 ORed in exactly when bits 7..1 hold an even number of ones |
| Hash.AdjustParityKeepsHighBits | src/hash.ts:71 | the parity OR never changes bits 7..1, and leaves a byte whose bit 0 is set unchanged |
| Hash.DesKeyCarriesMaterial | src/hash.ts:55-72 | bits 7..1 of the eight key bytes, read in order, are exactly the 56 input bits |
| Hash.DesKeyInjective | src/hash.ts:55-72 | two 7-byte key materials give the same DES key exactly when they are equal |
| Hash.AdjustParitySetsLowBit | src/hash.ts:71 | bit 0 ends up set whenever bits 7..1 hold an even number of ones |
| Hash.DesKeyOuterBytesOdd | src/hash.ts:55-72 | key bytes 0 and 7 start with bit 0 clear, so they always end with odd parity |
| Hash.DesKeyInnerByteMayBeEven | src/hash.ts:56-71 | material 00 06 00 00 00 00 00 gives key byte 1 = 0x03, which has even parity: no odd-parity claim holds for bytes 1..6 |
| Hash.CalculateDes | src/hash.ts:52-76 | an 8-byte message yields an 8-byte block; a shorter one (a challenge cut short by `slice`) yields nothing |
| Hash.LmPasswordBlock | src/hash.ts:37-38 | the LM password buffer is 14 bytes |
| Hash.LMHash | src/hash.ts:27-44 | a password longer than 14 gives 16 zero bytes; otherwise the two halves are DES of "KGS!@#$%" under the upper-cased, zero-padded characters 0..6 and 7..13 |
| Hash.LMHashIgnoresCase | src/hash.ts:38 | passwords that differ only in the case of ASCII letters have the same LM hash |
| Hash.ChallengeResponse | src/hash.ts:9-20 | the response is 24 bytes; bytes 8i..8i+7 are DES of the challenge under bytes 7i..7i+6 of the hash zero-padded to 21 bytes (the same function serves `createNTLMResponse`) |
| Hash.ThirdKeyIsMostlyPadding | src/hash.ts:86-92 | the third key is the hash's last two bytes followed by five zero bytes |
| Hash.NTLMv2HashIgnoresUserCase | src/hash.ts:115-119 | user names that differ only in the case of ASCII letters give the same v2 hash |
| Hash.LMv2Response | src/hash.ts:130-150 | 24 bytes: bytes 16..23 are the hex-decoded nonce, and bytes 0..15 the HMAC-MD5 under the v2 hash of the challenge slot followed by bytes 16..23 |
| Hash.TimestampReadsBack | src/hash.ts:184-189 | the low word plus 2^32 times the high word gives back the tick count |
| Hash.NTLMv2Response | src/hash.ts:161-209 | 48 + \|ti\| bytes: 01 01 00 00 at 16, zeros at 20..23, timestamp at 24, nonce at 32, zeros at 40..43, ti at 44, zeros after; bytes 0..15 are the HMAC over the challenge slot and bytes 16.. |
| Hash.PseudoRandomValue | src/hash.ts:216-222 | exactly n characters for n >= 0 (none for n <= 0), character i being the hex digit of draw i |
| Hash.PseudoRandomValueIsHex | src/hash.ts:216-222 | every character is a hex digit |
| Hash.NonceBytesFromDraws | src/hash.ts:192 | writing the nonce as 'hex' gives byte i = 16 * draw 2i + draw 2i+1 |
| Type2.AvIdOf | src/ntlm.ts:173-192 | a pair type names an attribute exactly when it is 1..5 |
| Type2.AvIdOfCode | src/ntlm.ts:173-192 | the code of each named attribute maps back to it |
| Type2.WalkTargetInfo | src/ntlm.ts:158-199 | the loop as written computes the recursive walk (stop at the end or a type-0 pair, advance 4 + length, skip unnamed types) |
| Type2.TargetName | src/ntlm.ts:122-136 | length 0 gives '' without looking at the offset; otherwise an offset below 32 or past the end fails, else bytes offset..offset+length are decoded |
| Type2.TargetInfoOf | src/ntlm.ts:140-205 | a short buffer fails; length 0 gives the bare object; a non-empty block out of bounds fails with 'Bad type 2 message'; an in-bounds block succeeds exactly when the walk does, failing with the walk's error otherwise, and then copies exactly its bytes and holds the walk's map |
| Type2.DecodeType2Bytes | src/ntlm.ts:99-209 | a bad signature, a short buffer and a type other than 2 each fail; on success the flags are the word at 20, the encoding and version follow bits 1 and 19, the challenge is bytes 24..31, and target info is present exactly when bit 23 is set |
| Type2.DecodeType2BytesSucceeds | src/ntlm.ts:102-208 | a buffer that passes every check decodes to exactly the fields it holds |
| Type2.TokenRun | src/ntlm.ts:93 | the longest prefix of characters matching `[^,\s]` |
| Type2.ExtractToken | src/ntlm.ts:93-97 | when `^NTLM ([^,\s]+)` matches, the group that follows the prefix; otherwise the whole text |
| Type2.ExtractTokenOfHeader | src/ntlm.ts:93-97 | "NTLM " followed by a token and then a comma, white space or nothing yields that token |
| Type2.DecodeType2Message | src/ntlm.ts:79-99 | `undefined` and a non-string without `www-authenticate` fail with an invalid argument; text and the header are base64-decoded after the prefix is stripped |
| Type2.WalkListAt | src/ntlm.ts:158-199 | the walk over pairs laid out one after another yields the map they describe, a later pair overriding an earlier one |
| Type2.WalkAvList | src/ntlm.ts:158-199 | the walk over an encoded list yields exactly the map the list describes |
| Type2.TargetNameLaidOut | src/ntlm.ts:122-136 | a target-name buffer pointing at an encoded name decodes to that name |
| Type2.TargetInfoLaidOut | src/ntlm.ts:140-205 | a target-information buffer pointing at an encoded list yields its map and a copy of its bytes |
| Type2.DecodeLaidOutType2 | src/ntlm.ts:102-208 | a buffer laid out as header, name and list decodes to those fields |
| Type2.DecodeBuiltType2 | src/ntlm.ts:79-209 | decoding inverts the server-side encoder: flags, encoding, version, challenge, target name and (exactly when bit 23 is set) target information come back |
| Ntlm.BasicCredentials | src/ntlm.ts:16 | 'utf8'(user + ':' + pwd) is 'utf8'(user), a colon byte, then 'utf8'(pwd) |
| Ntlm.CreateBasicMessage | src/ntlm.ts:15-17 | "Basic " followed by the base64 of those bytes |
| Ntlm.SplitAtColon | src/ntlm.ts:16 | a server's split at the first colon: the part before has no colon, and it is either the whole input or rejoins the rest around a colon |
| Ntlm.BasicCredentialsRecoverable | src/ntlm.ts:15-17 | splitting the credentials at the first colon gives back 'utf8'(user) and 'utf8'(pwd) when the user has no colon |
| Ntlm.Type1Bytes | src/ntlm.ts:24-71 | the message is exactly 32 + \|target\| + \|workstation\| bytes |
| Ntlm.CreateType1Message | src/ntlm.ts:24-72 | "NTLM " and the base64 of the Type1 bytes, the workstation defaulting to the host name and the target to '' |
| Ntlm.Type1Layout | src/ntlm.ts:33-69 | signature at 0, 1 at 8, the flags at 12, the domain buffer at 16 (offset 0 when empty, else 32), the workstation buffer at 24 (offset 0 when empty, else 32 + \|target\|), then both names |
| Ntlm.FieldReadsBack | src/ntlm.ts:49-58 | a field written with offset 0 when empty, else where its data is, reads back as its data |
| Ntlm.Type1ReadsBack | src/ntlm.ts:33-71 | a receiver finds the signature, type 1, flags 0x00088206 and both names where the buffers point |
| Ntlm.Type1NamesRecoverable | src/ntlm.ts:56-69 | 7-bit names come back as text |
| Type3.Responses | src/ntlm.ts:240-284 | version 2 gives exactly `createLMv2Response` and `createNTLMv2Response` (so the full blob layout) and fails without a target-information block; every other version gives the two v1 responses under the LM and NT hashes |
| Type3.Type3Bytes | src/ntlm.ts:223-317 | fails exactly for v2 without target information; otherwise the header (64 bytes for v2, 52 else), both responses and the three names |
| Type3.CreateType3Message | src/ntlm.ts:220-318 | fails exactly for v2 without target information; otherwise "NTLM " and the base64 of the Type3 bytes, with workstation defaulting to the host name and target to the challenge's target name |
| Type3.V2TrailerReadsBack | src/ntlm.ts:307-315 | for v2, bytes 52..59 are zero and the Type2 flags are at 60 |
| Type3.Type3LaidOutParses | src/ntlm.ts:249-305 | each of the five buffers at 12, 20, 28, 36, 44 points at its field in the payload |
| Type3.Type3LayoutParses | src/ntlm.ts:234-315 | a server parsing the laid-out message finds every field where its buffer points, plus the v2 trailer |
| Type3.Type3BytesParse | src/ntlm.ts:235-315 | a server finds the two responses, then target, user and workstation in the challenge's encoding, and for v2 the zero session key and the flags |
| Type3.Type3NamesRecoverable | src/ntlm.ts:286-305 | the names a server reads decode to the names sent (7-bit names for 'ascii') |
| Fetch.SetHeaders | src/fetch.ts:88-90 | headers and `authMethod` are present afterwards; present ones are kept, absent ones become `{}` and `[]`; nothing else changes |
| Fetch.SetHeadersIdempotent | src/fetch.ts:88-90 | defaulting twice is defaulting once and changes no guard of the decision |
| Fetch.DeleteCredentials | src/fetch.ts:146-151 | user, password, workstation and domain are gone, and nothing else changes |
| Fetch.InitialOptions | src/index.ts:49-55 | credentials set, the method kept if truthy else GET, Authorization removed and every other header kept with its value; absent headers become `{}` |
| Fetch.SplitOn | src/fetch.ts:182 | `split` yields at least one piece |
| Fetch.SplitOnSeparatorFree | src/fetch.ts:182 | no piece contains the separator |
| Fetch.JoinSplit | src/fetch.ts:182 | joining the pieces with the separator restores the text |
| Fetch.SplitJoin | src/fetch.ts:182 | splitting a join of separator-free pieces gives them back |
| Fetch.Trim | src/fetch.ts:182 | the result has no white space at either end, and trimmed text is unchanged; `Fetch.TrimIsSlice` states that only white space is cut |
| Fetch.TrimIsSlice | src/fetch.ts:182 | the result is a contiguous part of the text, and everything cut off on either side is white space |
| Fetch.LowerAt | src/fetch.ts:182 | lowercasing works character by character |
| Fetch.NormalizeAt | src/fetch.ts:182 | scheme i is piece i, trimmed and lowercased |
| Fetch.AuthMethods | src/fetch.ts:178-183 | the schemes are absent exactly when the header is, and a present header yields at least one |
| Fetch.AuthMethodsOfList | src/fetch.ts:182 | a header of comma-separated entries offers exactly those entries, trimmed and lowercased |
| Fetch.MissingHeaderAdvertisesAll | src/fetch.ts:46 | a response without `www-authenticate` counts every scheme as advertised |
| Fetch.Decide | src/fetch.ts:43-68 | any action but resolving needs credentials; step 1 and Basic need 401 and an unattempted scheme; step 2 needs a 4xx status, an Authorization header and ntlm attempted |
| Fetch.DecidePrecedence | src/fetch.ts:43-68 | step 1 exactly when its guard holds, Basic when its guard holds and step 1's does not, step 2 when neither does, otherwise resolve |
| Fetch.DecideIgnoresDefaults | src/fetch.ts:88-90 | defaulting headers and `authMethod` does not change the decision |
| Fetch.MissingHeaderAfterNtlm1IsBasic | src/fetch.ts:50-56 | a 401 without `www-authenticate` after step 1 falls back to Basic |
| Fetch.WithAuthorization | src/fetch.ts:118 | Authorization holds the value, and nothing else changes |
| Fetch.DestroyAgent | src/fetch.ts:65 | an agent present before is present and destroyed; nothing else changes |
| Fetch.TransitionCredentials | src/fetch.ts:119-167 | credentials survive step 1 and resolving, and are gone after Basic and step 2 |
| Fetch.TransitionAuthMethod | src/fetch.ts:135-164 | step 1 appends ntlm, Basic appends basic, the others leave `authMethod` alone |
| Fetch.TransitionAuthorization | src/fetch.ts:118-167 | every retry sends its header as Authorization; resolving leaves the headers alone |
| Fetch.TransitionAgent | src/fetch.ts:65-166 | only resolving destroys the agent; step 1 creates a keep-alive agent when there is none |
| Fetch.DecidedTransitionKeepsTagsUnique | src/fetch.ts:43-56 | the guard before each push keeps every tag in `authMethod` at most once |
| Fetch.DecodedChallengeLength | src/ntlm.ts:119 | a decoded challenge has at most eight bytes |
| Fetch.ExecuteNtlm1 | src/fetch.ts:160-170 | Authorization is "NTLM " and the base64 of the Type1 bytes for the options' workstation and domain; the options are the step-1 transition |
| Fetch.ExecuteBasic | src/fetch.ts:132-140 | Authorization is "Basic " and the base64 of 'utf8'(user or '') + ':' + 'utf8'(pwd or ''); the options are the Basic transition |
| Fetch.ExecuteNtlm2 | src/fetch.ts:108-122 | an undecodable challenge fails with its error; a decoded one fails exactly when it is v2 without target information; otherwise Authorization is the Type3 token `createType3Message` builds for the decoded challenge with `user \|\| ''`, `pwd \|\| ''`, the workstation and the domain, and the options are the step-2 transition |
| Fetch.Step | src/fetch.ts:33-69 | a retry needs credentials and sends Authorization; the step resolves exactly when the chain picks resolve, with the response's status or 0 |
| Fetch.StepFollowsDecide | src/fetch.ts:43-63 | a retry takes the action the chain picks on the defaulted options; only step 2 can throw |
| Fetch.StepTransition | src/fetch.ts:49-63 | the options a retry leaves are its action's transition, with the header it sends |
| Fetch.StepResolves | src/fetch.ts:64-68 | a resolving step destroys the agent and changes nothing else |
| Fetch.NoCredentialsResolves | src/fetch.ts:43-68 | without credentials every response resolves |
| Fetch.TransitionSpendsBudget | src/fetch.ts:119-164 | every action but resolving lowers the budget: 2 before ntlm is attempted, 1 after, 0 without credentials |
| Fetch.StepSpendsBudget | src/fetch.ts:43-68 | every retry lowers the budget |
| Fetch.RetryChainWithinBudget | src/fetch.ts:43-68 | a chain of consecutive retries is no longer than the budget it starts from |
| Fetch.AtMostTwoRetries | src/fetch.ts:43-68 | whatever the server answers, a request is retried at most twice before it resolves or throws |

## Left out

- HTTP and HTTPS transport is left out because it is I/O: `Fetch.request`, `protocol.request`, `req.on`, `write`, `end`, `response.resume`, the stream listeners and the promise plumbing. The `Resolved` outcome stands for "`resolve` is set, so the body is delivered when the stream ends"; the body itself is not modelled.
- Cookies are an external collaborator and are left out: the cookie jar branch of `setHeaders` and `setCookie`.
- The `url`, `tough`, `cookie` and `cookieJar` options of `setOptions` are left out; `Fetch.InitialOptions` covers only the fields the decision reads.
- Logging is left out.
- Redirects, the request counter and a loop limit are left out; `src/fetch.ts` has no code for them.
- DES, MD4 and HMAC-MD5 are parameters with fixed output lengths, and base64 is an unconstrained parameter. None of their algorithms is modelled.
- Node's lenient base64 decoding is a parameter too. The decoder's properties are stated on the decoded bytes.
- `os.hostname()`, `Math.random()` and `Date.now()` are inputs.
- Hash.PseudoRandomValue: takes the sixteen `Math.floor(Math.random() * 16)` values as a parameter, because randomness cannot be modelled.
- Hash.FileTime: computes `(now + 11644473600000) * 10000` exactly. The original multiplies in floating point, which is exact while `(now + 11644473600000) * 625` stays below 2^53, that is until September 2057; later clock values can be rounded.
- Fetch.Lower: lowercases only ASCII letters. JavaScript's full Unicode case mapping is not modelled.
- Hash.LMHash: upper-cases only ASCII letters. JavaScript's full Unicode case mapping is not modelled.
- Hash.NTLMv2HashIgnoresUserCase: the same ASCII-only restriction applies to the user name.
- Ntlm.CreateType1Message: requires the message to fit the 1024-byte scratch buffer. The original silently cuts longer writes short while each name is at most 65535 code units; a longer name makes `buf.writeUInt16LE` of its length (`src/ntlm.ts:49` and `src/ntlm.ts:61`) throw a RangeError. Neither the truncation nor the exception is modelled.
- Type3.CreateType3Message: requires the message to fit the 1024-byte scratch buffer. Here an overflow is not silently cut short: a response `copy` is truncated, but `dataPos` still advances by the full length (`src/ntlm.ts:262`), so the next `buf.write` of a name at an offset past 1024 (`src/ntlm.ts:291`) throws a RangeError. That exception is not modelled. `Fetch.Type1FitsFor`, `Fetch.Type3FitsFor` and `Fetch.StepFits` carry these limits to the fetch step.
- Type3.CreateType3Message: requires a 16-digit nonce and a FILETIME below 2^64 (`Fetch.ValidEnv`). Node's handling of a malformed hex nonce is not modelled.
- Type2.TargetInfoOf: `buf.copy` of the target-information bytes runs before the length check. It is taken not to throw, so its bounds behaviour is not modelled.
- Fetch.Step: an exception inside the response callback (a bad challenge, or a v2 challenge without target information) is the `Failed` outcome. What the runtime does with an exception escaping that callback is not modelled.
- The keep-alive agent is reduced to two facts: whether it keeps sockets alive and whether it was destroyed.
- `src/utils.ts`, `src/fetch.interface.ts` and the tests are left out. `IType2` is mirrored as `Type2.Type2`.
