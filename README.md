# go-pwdhash in Dafny

A model of the core of `go-pwdhash`, a Go library that hashes passwords
with Argon2id and stores each hash as a PHC string:

    $argon2id$v=19$m=65536,p=4,t=3$<salt>$<digest>

Salt and digest are in unpadded standard base64. The model covers:

- **The PHC codec.** `EncodedHash.String` writes the record with its
  parameter keys sorted. `Parse` reads it back. The main theorem is the
  round trip `Parse(String(e)) == e`, under the side conditions the format
  needs.
- **The Argon2id hasher.** It covers the bounds check `validate` and the
  `Hash`, `Verify` and `NeedsRehash` decision logic, including the zeroing
  of the caller's password buffer. The key derivation function
  `argon2.IDKey` is a parameter `kdf`. The bytes `crypto/rand` would
  supply are a parameter `random`, where `None` stands for a failed read.
- **The policy table** that maps tiers 0, 1 and 2 to cost triples.
- **The `PasswordHasher` facade.** `New` applies the options. `Verify` and
  `NeedsRehash` are routed by the algorithm the stored string names.
- **The small helpers.** These are the range-checked conversions of
  `internal/cast`, the comparison of `internal/subtle` and the in-place
  zeroing of `internal/zero`.

Library code the core calls is specified by its behaviour, in its own
modules:

- `Strings` models `strings.Split`, `strings.Join` and
  `strings.SplitN(_, _, 2)`.
- `Strconv` models `strconv.Itoa` and the base-10 syntax of
  `strconv.ParseInt` and `Atoi`.
- `Sort` models `sort.Strings` through its result: the keys in strictly
  ascending order.
- `Base64` models `base64.RawStdEncoding`, which is section 4 of RFC 4648
  without the padding of section 3.2, with Go's lenient decoder.

Imperative code stays imperative. The loops are methods with loop
invariants: `Zero.Bytes`, the salt copy in `Argon2.Hash`, `CollectKeys`
and `ClauseList` in `String`, the parameter loop of `Parse` and the option
loop of `New`. The methods that work on the password and other buffers
(`Argon2.Hash`, `Argon2.Verify`, `Argon2.Check`, `Pwdhash.Hash`,
`Pwdhash.Verify`) are proved equal to the functions `HashResult`,
`VerifyResult`, `Decide`, `HasherHash` and `Pwdhash.VerifyResult` (routed by `Routed`), and the
properties are proved about those functions.

Salt and digest use the standard base64 alphabet (`RawStdEncoding`). The
only construction option is `WithHasher`. The parser splits on every `$`,
uses the first six pieces and ignores any later segments.

## Model

| member | source | states |
|---|---|---|
| PhcFormat.String | internal/encoding/phc.go:21-41 | the output is `"$" + algorithm + "$v=" + decimal(version) + "$" + clauses joined by ',' + "$" + b64(salt) + "$" + b64(hash)`, with the keys in ascending order, whatever order the map is iterated in |
| PhcFormat.CollectKeys | internal/encoding/phc.go:22-25 | the first loop lists every key of the map exactly once |
| PhcFormat.ClauseList | internal/encoding/phc.go:28-31 | the second loop yields one "k=v" clause per key, in key order |
| Sort.Sort | internal/encoding/phc.go:26 | sorting keeps exactly the same keys with the same multiplicities, and a duplicate-free list comes out strictly ascending |
| Sort.SortedSet | internal/encoding/phc.go:26 | the sorted keys are strictly ascending and are exactly the map's keys |
| Sort.SortIsCanonical | internal/encoding/phc.go:22-26 | sorting any duplicate-free listing of the keys gives the same sequence, so the output depends only on the map's contents |
| Base64.Encode | internal/encoding/phc.go:38-39 | the encoding of n bytes has ceil(4n/3) characters, all from the standard alphabet |
| Base64.Decode | internal/encoding/parse.go:43-51 | after skipping '\r' and '\n', the input is refused exactly when a character lies outside the alphabet or the character count leaves a final group of one; otherwise n characters give 3n/4 bytes |
| Base64.PaddingRejected | internal/encoding/parse.go:43-51 | a '=' anywhere is refused, since the raw encoding has no padding |
| Base64.DecodeEncode | internal/encoding/parse.go:43-51 | decoding the unpadded encoding of any byte string gives back the same bytes |
| PhcRoundTrip.FormatShape | internal/encoding/phc.go:33-40 | if no field contains '$', the output starts with '$', holds exactly five '$' and splits into the six segments it was built from |
| PhcRoundTrip.ParsedFields | internal/encoding/parse.go:12-32 | parsing an output whose fields are free of '$' passes the prefix, split and version checks, and goes on to the parameters, salt and digest as written |
| PhcRoundTrip.ParamsFromClauses | internal/encoding/parse.go:34-41 | reading back the clauses of '='-free keys stores each key's value on top of what was read before |
| PhcRoundTrip.ParamsSegmentRoundTrip | internal/encoding/parse.go:34-41 | the parameter segment of a non-empty map with ','-free keys and values and '='-free keys reads back as that map |
| PhcRoundTrip.ParseFormat | internal/encoding/encoding_test.go:10-33 | round trip: when params is non-empty, keys and values hold no '$' or ',', keys hold no '=' and the algorithm holds no '$', parsing the output gives back the same algorithm, version, params, salt and hash |
| PhcRoundTrip.FormatInjective | internal/encoding/phc.go:21-41 | under the same conditions, two records serialize to the same string exactly when they are equal |
| PhcRoundTrip.EmptyParamsRejected | internal/encoding/parse.go:34-39 | a record with no parameters serializes to an empty segment, which the parser rejects as an invalid parameter |
| PhcRoundTrip.SingleParamFormat | internal/encoding/phc.go:28-40 | a record with the single parameter k=v serializes with "k=v" alone between the version and salt segments |
| PhcRoundTrip.MetadataExample | internal/encoding/encoding_test.go:40-55 | argon2id, v=19, m=65536 serializes to "$argon2id$v=19$m=65536$" followed by salt and digest |
| PhcParse.Parse | internal/encoding/parse.go:12-60 | the parser, with its loop that fills the parameter map, returns exactly the outcome of the step-by-step definition of the format's checks |
| PhcParse.FromParts | internal/encoding/parse.go:17-32 | the format error arises exactly when there are fewer than six '$'-separated parts |
| PhcParse.FromFields | internal/encoding/parse.go:34-59 | past the version check only the parameter and base64 errors remain; on success the algorithm and version are taken over unchanged and salt and digest are the decoded bytes |
| PhcParse.ParamsFrom | internal/encoding/parse.go:34-41 | the only error the parameter loop raises is the invalid-parameter error |
| PhcParse.ParamsFromFails | internal/encoding/parse.go:35-39 | the parameters are rejected exactly when some clause lacks an '=' |
| PhcParseFacts.MissingDollarRejected | internal/encoding/parse.go:13-15 | a string is rejected as not being a PHC string exactly when it is empty or does not start with '$' (the `strings.HasPrefix` test, modelled by `Strings.HasPrefix`) |
| PhcParseFacts.TooFewPartsRejected | internal/encoding/parse.go:17-20 | a string that starts with '$' is rejected as malformed exactly when it holds fewer than five '$' |
| PhcParseFacts.TruncatedStringRejected | internal/encoding/encoding_test.go:35-38 | "$" + algorithm + "$" is rejected as malformed |
| PhcParseFacts.TrailingSegmentIgnored | internal/encoding/parse.go:17-25 | once there are six pieces, appending another '$' segment does not change the outcome |
| PhcParseFacts.VersionPrefixRequired | internal/encoding/parse.go:25-28 | a version segment without the "v=" prefix (tested with `Strings.HasPrefix`) gives the missing-version error |
| PhcParseFacts.VersionSyntax | internal/encoding/parse.go:29-32 | after "v=", the version error arises exactly when the rest is not an optionally signed base-10 integer |
| PhcParseFacts.ValueMayContainEquals | internal/encoding/parse.go:36 | a clause is split at its first '=', so "k=a=b" stores "a=b" under "k" |
| PhcParseFacts.LastClauseWins | internal/encoding/parse.go:35-41 | for a repeated key the last clause's value is stored |
| PhcParseFacts.EmptySegmentRejected | internal/encoding/parse.go:34-39 | an empty parameter segment is rejected as an invalid parameter |
| Strings.Split | internal/encoding/parse.go:17 | splitting gives one more piece than there are separators, and no piece contains the separator |
| Strings.JoinCount | internal/encoding/phc.go:37 | `strings.Join` (`Strings.Join`) of one or more separator-free pieces gives a string with exactly one separator fewer than there are pieces; `SplitJoin` splits it back into the pieces |
| Strings.SplitAtFirst | internal/encoding/parse.go:36 | `SplitN(s, "=", 2)` gives `s` alone exactly when it has no '='; otherwise an '='-free part and the rest, which joined by '=' give back `s` |
| Strings.SplitJoin | internal/encoding/parse.go:17 | splitting a join of separator-free pieces gives back the pieces |
| Strings.JoinSplit | internal/encoding/phc.go:37 | joining the pieces of a split gives back the string |
| Strings.SplitAppend | internal/encoding/parse.go:17 | appending a separator and a tail to a string adds pieces after the existing ones and leaves those unchanged |
| Strings.SplitAtFirstOf | internal/encoding/parse.go:36 | a string with a first '=' splits into the part before and everything after it |
| Strconv.ParseDecimal | internal/encoding/parse.go:29 | the base-10 parse succeeds exactly on an optional sign followed by one or more digits |
| Strconv.ParseIntToString | internal/encoding/phc.go:35 | parsing the `%d` rendering of any integer (`Strconv.IntToString`, a sign before `Strconv.NatToString`) gives the integer back |
| Strconv.NatToStringInjective | argon2/argon2id.go:152-158 | two naturals render the same exactly when they are equal |
| Cast.ParseInt32 | internal/cast/cast.go:11-14 | the 32-bit signed parse accepts exactly the decimal forms of -2^31 .. 2^31-1, with a syntax error for non-decimals and a range error otherwise |
| Cast.ConvertStringToUint32 | internal/cast/cast.go:10-17 | the conversion succeeds exactly for the decimal forms of 0 .. 2^31-1 and then returns that value |
| Cast.ConvertStringToUint8 | internal/cast/cast.go:20-27 | the conversion succeeds exactly for the decimal forms of 0 .. 255 and then returns that value |
| Cast.ConvertIntToUint32 | internal/cast/cast.go:30-32 | the conversion succeeds exactly on 0 .. 2^32-1 and keeps the value; otherwise it is a conversion error |
| Cast.Uint32RoundTrip | internal/cast/cast.go:10-17 | the decimal form of any n up to 2^31-1 reads back as n; above that it is a range error |
| Cast.Uint8RoundTrip | internal/cast/cast.go:20-27 | the decimal form of any n up to 255 reads back as n; from 256 to 2^31-1 it is a conversion error |
| Cast.NegativeRejected | internal/cast/cast.go:10-27 | a minus sign before a positive number is refused by both string conversions |
| Cast.TwoToThe31Rejected | internal/cast/cast.go:11-14 | 2^31 fits a uint32 but its decimal form is refused with a range error |
| Cast.TestVectors | internal/cast/cast_test.go:9-85 | "12345" gives 12345; "abc" and "-1" fail; "255" gives 255; "hello" and "512" fail; 0 and 65535 convert; -1 fails |
| Subtle.ConstantTimeCompare | internal/subtle/compare.go:7-12 | the result is true exactly when the two byte strings are equal, so different lengths give false |
| Subtle.TestVectors | internal/subtle/compare_test.go:5-17 | "same-length" equals itself and differs from "different" |
| Zero.Bytes | internal/zero/zero.go:7-14 | a nil buffer is left alone; otherwise every byte of the buffer is 0 afterwards |
| Zero.ZeroedIsZeros | internal/zero/zero.go:11-13 | a buffer holds only zeros exactly when it equals the zero buffer of its length, so zeroing again changes nothing |
| Argon2.Default | argon2/argon2id.go:27-35 | the default configuration passes the bounds check |
| Argon2.ID | argon2/argon2id.go:37-40 | the identifier is non-empty and has no '$' or ',', so records carrying it meet the round trip's condition on the algorithm |
| Argon2.Validate | argon2/argon2id.go:163-183 | the check passes exactly when memory is in 32768 .. 1048576, iterations in 2 .. 100 and parallelism in 2 .. 32 (the lower bound being MinIterations); memory below the minimum is reported first |
| Argon2.NeedsRehash | argon2/argon2id.go:142-161 | an error is returned exactly when parsing fails, and then it is the parse error |
| Argon2.Hash | argon2/argon2id.go:43-81 | the result is `Argon2.HashResult`: the bounds error, the random-source error, or the serialized record; the password buffer is untouched when the bounds fail and all zeros otherwise |
| Argon2.Verify | argon2/argon2id.go:84-139 | the result is `Argon2.VerifyResult`: bounds, parse, algorithm, version and parameter outcomes, then the comparison; the password buffer is untouched when the bounds fail and all zeros otherwise |
| Argon2.Check | argon2/argon2id.go:99-138 | after parsing, the checks and the comparison of the re-derived key on the decoded buffers give `Argon2.Decide` |
| Argon2Facts.ParseHashOutput | argon2/argon2id.go:68-80 | the record `Hash` writes parses back unchanged |
| Argon2Facts.StoredCostsReadBack | argon2/argon2id.go:107-120 | for in-bounds costs, the stored m, t and p convert back to the configured values |
| Argon2Facts.VerifyHashed | argon2/argon2id.go:122-138 | verifying a fresh hash, under any in-bounds configuration, compares the key the stored costs and salt derive for the offered password with the stored one |
| Argon2Facts.HashThenVerify | argon2/argon2id_test.go:84-97 | what `Hash` returns for a password, `Verify` accepts for the same password |
| Argon2Facts.RehashAfterHash | argon2/argon2id_test.go:165-180 | a fresh hash needs a rehash exactly when the checking configuration's memory or iterations differ; parallelism and lengths play no part |
| Argon2Facts.RehashOfRecord | argon2/argon2id.go:142-161 | the same rehash decision for the record `Hash` writes, for any salt and key |
| Argon2Facts.OtherAlgorithm | argon2/argon2id.go:99-101 | a well-formed record of another algorithm makes `Verify` return false without an error, and `NeedsRehash` true |
| Argon2Facts.OtherVersion | argon2/argon2id.go:103-105 | a well-formed argon2id record of another version is an error for `Verify` |
| Argon2Facts.MalformedMemory | argon2/argon2id.go:107-110 | a well-formed argon2id record whose m is missing or not decimal is a syntax error for `Verify` |
| Argon2Facts.ValidationFirst | argon2/argon2id.go:44-46 | an out-of-bounds configuration fails `Hash` and `Verify` with the bounds error, whatever the input |
| Argon2Facts.SingleLaneRefused | argon2/argon2id.go:170 | parallelism 1 is refused although the declared minimum parallelism is 1 |
| Argon2Policy.ParamsForPolicy | argon2/policy.go:13-38 | tiers 0, 1 and 2 succeed; any other tier returns the zero parameters together with the unknown-policy error |
| Argon2Policy.PolicyTable | argon2/argon2id_test.go:21-82 | tier 0 is (65536, 3, 4), tier 1 is (131072, 4, 4), tier 2 is (262144, 5, 8), and tier 3 is an error |
| Argon2Policy.TiersIncrease | argon2/policy.go:14-34 | memory and iterations strictly increase with the tier, and parallelism never decreases |
| Argon2Policy.TiersInBounds | argon2/policy.go:14-34 | every defined tier passes the bounds check, whatever the salt and key lengths |
| Argon2Policy.TierZeroIsDefault | argon2/policy.go:15-20 | tier 0 has the memory, iterations and parallelism of the default configuration |
| Pwdhash.PolicyTiers | policy.go:7-13 | the presets name tiers 0, 1 and 2, all defined in the policy table, and distinct presets name distinct tiers |
| Pwdhash.New | password.go:16-30 | `New` never fails; the current hasher is the last `WithHasher`, or the default Argon2id hasher without one; the registry holds exactly that hasher under its id |
| Pwdhash.Hash | password.go:33-35 | the result is exactly what the current hasher's `Hash` returns (`HasherHash`); the password buffer ends all zeros when the current hasher is an in-bounds Argon2id one and is left as it was otherwise |
| Pwdhash.Verify | password.go:38-50 | the result is `Pwdhash.VerifyResult`: parse errors propagate, an unregistered algorithm is an error, and otherwise the registered hasher answers; the password buffer is left as it was on a parse error or an unregistered algorithm, and ends all zeros when the string reaches an in-bounds Argon2id hasher |
| Pwdhash.NeedsRehash | password.go:53-65 | an error arises exactly from a parse error or from the registered hasher's error, and an unregistered algorithm gives true |
| Pwdhash.Routing | password.go:38-65 | parse errors propagate unchanged from both operations; an unregistered algorithm fails `Verify` with the algorithm's name and makes `NeedsRehash` true; a registered one answers both alone |
| Pwdhash.HashVerifyRehash | password_test.go:25-55 | with an in-bounds Argon2id hasher as `New` registers it, a fresh hash verifies for the same password and needs no rehash |

## Left out

- The Argon2id key derivation (`argon2.IDKey`) is a foreign cryptographic primitive. It is the parameter `kdf`. The lemmas that verify a fresh hash assume it returns as many bytes as asked for.
- `crypto/rand.Read` is nondeterministic input. Its bytes are the parameter `random`, `None` for a failed read. `Argon2.Hash` requires them to be as long as the configured salt, as the real read fills the buffer.
- The timing of the comparison cannot be stated. Only its result is modelled.
- The compiler may remove the zeroing stores. The model states only the buffer's contents afterwards.
- Argon2.Hash: the zeroing of its own salt and key buffers is performed but not stated in the ensures.
- Argon2.Verify: the zeroing of its decoded salt, digest and key buffers is performed but not stated in the ensures.
- Cast.ParseInt32: Go's `strconv.ParseInt` stops at the first digit that takes the value past 2^32-1 and reports a range error, even when a non-digit follows (`"99999999999x"`); the model, like the function's documentation, reports a syntax error for any string that is not decimal.
- `strconv.Atoi` rejects versions outside int64 with a range error; the model's version parse is unbounded and accepts them.
- Errors are kinds, not message strings. A Go call that returns a value together with an error is modelled as one `Result`. The zero value `ConvertStringToUint32` and `ConvertStringToUint8` return beside an error is therefore not modelled.
- Argon2.Decide: `argon2.IDKey` panics when the passes or lanes are 0 and, inside its BLAKE2b step, when the key length is 0. `Verify` hands the stored t and p and the digest length to it after only the range conversions, so a stored `t=0` or `p=0`, or an empty digest segment, crashes the Go program; the model returns the comparison instead. The same holds for `Hash` with a configured key length of 0, which `Argon2Facts.HashThenVerify` accepts. Nor does the model reflect the memory a stored m of up to 2^31-1 KiB would make the derivation allocate.
- Pwdhash.New: `WithHasher(nil)` makes Go's `New` panic when it asks the nil hasher for its id; the model's `Hasher` has no nil value, so `New` always succeeds.
- Go strings are byte strings; the model's strings are sequences of Unicode scalar values, so input that is not valid UTF-8 cannot be expressed. For valid UTF-8 the byte order and the code point order used by `Sort.Less` agree.
- `sort.Strings` is modelled by its result, not by its algorithm.
- Hashers supplied by a caller are functions of the password's bytes. Whatever such a hasher does to the caller's buffer is not modelled.
- `errors.go` declares an error that nothing uses, so it is not part of this model.
- Nothing in the core is concurrent. Concurrent use is not modelled.
