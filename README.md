# Compact signed tokens (JWT-style) in Dafny

This project models the PHP library `Auth\JWT\Parser`. The library writes and reads compact tokens in the style of JSON Web Tokens (RFC 7519). A token is `header.payload.signature`: the JWS Compact Serialization of section 7.1 of RFC 7515, signed with an HMAC (RFC 2104).

The library has three classes, and each becomes a Dafny module of pure functions:

- `Algorithm` (`algorithm.dfy`) is the registry. It holds the three names `sha256`, `sha384` and `sha512`, which are hash-function names rather than the `HS256` labels of section 3.1 of RFC 7518. `IsValid` is the membership test.
- `Signature` (`signature.dfy`) holds the codec and the signature:
  - `Encrypt` is unpadded base64url: section 5 of RFC 4648, with the `=` removed.
  - `Decrypt` is its inverse.
  - `Stamp` is the guarded HMAC.
  - `Verify` decodes an encoded signature and compares it with the stamp of the `.`-joined segments.
- `Parser` (`parser.dfy`) holds `Serialize` and `Unserialize`. Both return either a value or one of the library's exceptions.

The rest is the PHP the library calls, written out:

- `php.dfy` holds PHP byte strings, PHP values, `empty()`, property access and the exceptions.
- `strings.dfy` holds `strtr`, `str_replace`, `rtrim`, `str_pad`, `substr_count`, `explode` and `implode`.
- `base64.dfy` holds `base64_encode` and PHP's non-strict `base64_decode`.

The other library calls are parameters, grouped in the datatype `Parser.Runtime`:

- `hash_hmac`;
- `json_encode`;
- `json_decode`, which returns `Null` both for the JSON literal `null` and for text that is not JSON.

The clock `time()` is the parameter `now`.

Errors are the datatype `Php.Error`. The source names its exception classes without qualification inside the namespace `Auth\JWT\Parser`, so they are that namespace's classes, not PHP's global ones:

- `InvalidArgument` is `new InvalidArgumentException`.
- `UnexpectedValue` is `new UnexpectedValueException`.
- `EmptyAlgorithm`, `SignatureFailed` and `TokenFailed` are `new Exception(...)` with the messages 'Empty Algorithm', 'Signature verification failed' and 'Token verification failed'.

What the code does, possibly against what a reader expects:

- Decoding never fails. PHP's non-strict `base64_decode` skips `=` and every character outside the alphabet. It also drops the leftover bits of an incomplete last group. A malformed segment therefore decodes to some bytes, and the problem shows up only when `json_decode` gives null or the signature does not match.
- `str_pad` in `decrypt` pads to `strlen % 4` characters. That length is never more than the string's own length, so the step does nothing (`Signature.PadIsNoOp`). Padding to a multiple of 4 would not change the result either, because the decoder skips `=` (`Base64.SkippedCharacter`).
- Changing a token does not always make it fail. Appending `=` to an accepted token leaves the result of `Unserialize` unchanged (`Parser.PaddedTokenAccepted`), so the signature segment is not unique. The same holds for any other character the decoder skips, except the separator `.`, and for the spare low bits of an incomplete last group. Appending `.` gives a third separator, and `unserialize` then raises `UnexpectedValue` (Parser.php:93-94).
- An empty key, or a header `alg` that is not registered, raises `InvalidArgument` from `stamp` during verification. It is not a signature failure. A missing or empty `alg` raises 'Empty Algorithm'.
- The header's `alg` is the hash name (`sha256`), not `HS256`.

## Model

| member | source | states |
|---|---|---|
| `Algorithm.IsValid` | src/Auth/JWT/Parser/Algorithm.php:34-36 | true exactly when the value is the string name of one of the three registered hashes, for every input of every type |
| `Algorithm.Lookup` | src/Auth/JWT/Parser/Algorithm.php:25-27 | the registry as a closed enumeration: a value has a member exactly when `isValid` accepts it, and it is that member's name |
| `Algorithm.LookupName` | src/Auth/JWT/Parser/Algorithm.php:25-27 | the three constant names are distinct, so a name identifies its hash |
| `Algorithm.RejectsOthers` | src/Auth/JWT/Parser/Algorithm.php:35 | `''`, the labels `HS256`/`HS384`/`HS512` and null are rejected; `true` is rejected too, which is the model's strict reading of `in_array` (PHP's loose comparison accepts `true`, see Left out) |
| `Parser.DefaultIsValid` | src/Auth/JWT/Parser/Parser.php:50 | the default algorithm of `serialize` (`ALGORITHM_HS256` = `sha256`) is accepted by `isValid` |
| `Signature.Encrypt` | src/Auth/JWT/Parser/Signature.php:34-37 | base64_encode, `strtr`, removing `=` and `rtrim` give exactly the unpadded base64url encoding; every character is in `A-Z a-z 0-9 - _`, so never the separator `.` |
| `Signature.EncryptLength` | src/Auth/JWT/Parser/Signature.php:36 | 4 characters per 3 bytes plus 0, 2 or 3; never 1 character long; `empty()` only for empty input |
| `Signature.Decrypt` | src/Auth/JWT/Parser/Signature.php:46-48 | decrypt is the non-strict decoding of the back-translated text; the `str_pad` step has no effect |
| `Signature.PadIsNoOp` | src/Auth/JWT/Parser/Signature.php:47 | `str_pad` to `strlen % 4` characters never lengthens its input |
| `Signature.DecryptEncrypt` | src/Auth/JWT/Parser/Signature.php:34-48 | round trip: decrypt(encrypt(b)) == b for every byte string |
| `Signature.DecryptIgnoresPadding` | src/Auth/JWT/Parser/Signature.php:47 | a `=` appended to an encoded text decodes to the same bytes |
| `Base64.DecodeEncode` | src/Auth/JWT/Parser/Signature.php:34-48 | PHP's non-strict base64_decode undoes base64_encode |
| `Base64.SkippedCharacter` | src/Auth/JWT/Parser/Signature.php:47 | a character outside the alphabet, `=` included, appended to the input does not change what base64_decode yields |
| `Signature.Stamp` | src/Auth/JWT/Parser/Signature.php:61-67 | InvalidArgument exactly when the data or the key is `empty()` or the algorithm is unregistered; otherwise the HMAC of that algorithm over data and key |
| `Signature.StampSize` | src/Auth/JWT/Parser/Signature.php:66 | a successful stamp has the digest size of its hash (32, 48 or 64 bytes) |
| `Signature.Verify` | src/Auth/JWT/Parser/Signature.php:82-90 | 'Empty Algorithm' first, then InvalidArgument for an empty signature, then stamp's InvalidArgument for an empty key, an unregistered algorithm or an `empty()` joined list (never false); otherwise exactly whether the decoded signature equals the HMAC of the `.`-joined list, so a mismatch is false |
| `Signature.VerifyOwnStamp` | src/Auth/JWT/Parser/Signature.php:89 | verify(alg, encrypt(stamp(join(parts), key, alg)), parts, key) is true for a registered alg, a non-empty key and non-empty joined parts |
| `PhpString.Explode` | src/Auth/JWT/Parser/Parser.php:101 | explode gives one more piece than the string has separators, none of them holding the separator |
| `PhpString.ImplodeExplode` | src/Auth/JWT/Parser/Parser.php:101 | joining the pieces explode cut gives back the string |
| `PhpString.ExplodeImplode` | src/Auth/JWT/Parser/Parser.php:74 | cutting joined pieces that hold no separator gives back the pieces |
| `Parser.Serialize` | src/Auth/JWT/Parser/Parser.php:50-75 | InvalidArgument, and nothing else, exactly when the payload is `empty()` or not an array or object, the key is `empty()`, or the algorithm is unregistered |
| `Parser.SerializeShape` | src/Auth/JWT/Parser/Parser.php:58-74 | the token is `h.p.s` with exactly two `.`: `h` encodes the JSON of `{typ: JWT, alg}`, `p` the JSON of the payload, `s` the HMAC of the encoded text `h.p` |
| `Parser.SerializeSelfVerifies` | src/Auth/JWT/Parser/Parser.php:72 | the signature segment of a fresh token verifies against its first two segments under the same key and algorithm |
| `Parser.Unserialize` | src/Auth/JWT/Parser/Parser.php:90-121 | InvalidArgument for an `empty()` token or a non-boolean flag, before UnexpectedValue for a separator count other than 2; a result is never null; without verification only those two errors occur |
| `Parser.UnserializeNullSegment` | src/Auth/JWT/Parser/Parser.php:104-107 | with two separators, UnexpectedValue exactly when the header or the payload decodes to null |
| `Parser.UnserializeUnverified` | src/Auth/JWT/Parser/Parser.php:111-120 | without verification, a well-formed token yields its decoded payload, independent of the key and the time |
| `Parser.SignatureBeforeIssuedAt` | src/Auth/JWT/Parser/Parser.php:111-117 | with verification, a signature mismatch is 'Signature verification failed' whatever `iat` holds; a match leads to the `iat` rule (an integer `iat` not after now, else 'Token verification failed'); errors of verify pass through |
| `Parser.UnserializeAuthentic` | src/Auth/JWT/Parser/Parser.php:101-120 | an accepted verified token is three segments whose third decodes to the HMAC, under the header's registered algorithm and the key, of the first two joined by `.`, and whose payload meets the `iat` rule |
| `Parser.RoundTrip` | src/Auth/JWT/Parser/Parser.php:50-120 | a serialized token parses back to the decoded payload without verification, and with verification under the same key exactly when `iat` is an integer not after now (else 'Token verification failed') |
| `Parser.PaddedTokenAccepted` | src/Auth/JWT/Parser/Parser.php:101-111 | appending `=` to an accepted token leaves the result of unserialize unchanged |

## Left out

- The model as a whole describes PHP 7. Several lines below fix a PHP version: the decoder follows PHP 7 and 8, and the static calls and `property_exists` follow PHP 5 and 7.
- The exception classes: the model assumes that `InvalidArgumentException`, `UnexpectedValueException` and `Exception` exist in the namespace `Auth\JWT\Parser`. The library's three files do not define them and have no `use` line. PHP does not fall back to the global namespace for class names. If these classes do not exist, every guard throws `Error` ("Class … not found") instead. The five kinds of `Php.Error` then collapse into that one `Error`, and the order of the error kinds that the lemmas prove is no longer observable.
- HMAC and SHA-2 internals (`hash_hmac`) are foreign cryptography. They are the parameter `Runtime.hmac`. Where a lemma needs a non-empty signature, it assumes `Signature.DigestSizes`: 32, 48 and 64 bytes for the three hashes.
- JSON encoding and decoding are library code. They are the parameters `Runtime.jsonEncode` and `Runtime.jsonDecode`. A failing `json_encode` is covered only in that the function returns some bytes. `Parser.RoundTrip` assumes two things of the library: the header decodes to an object whose `alg` is the algorithm, and the payload does not decode to null.
- The clock `time()` is the parameter `now`.
- Algorithm.IsValid: uses strict membership. PHP's loose `in_array` would also accept `true`, and before PHP 8 also `0` and `0.0`, as a registered name. `hash_hmac` then warns and returns false, so `serialize(..., true)` writes an empty signature segment. Worse, in `unserialize` a header `{"alg":true}` with the signature segment `A` is accepted under any non-empty key: `decrypt('A')` is `''`, and `'' == false` holds (Algorithm.php:35 with Signature.php:89). This is a signature bypass, and the model's strict reading excludes it.
- Signature.Verify: compares the two byte strings exactly. PHP's `==` would compare two numeric-looking strings as numbers.
- Signature.Verify: does not model whether the comparison takes constant time. Timing cannot be expressed in this model.
- The `!is_array` guard of `verify` is not modelled. The parameter's `array` type declaration means it can never fire.
- Parser.Unserialize: gives `property_exists` and `->alg` on a value that is not an object the PHP 5/7 behaviour: false or null, with a warning.
- Base64.Decode: models the non-strict decoder of PHP 7 and 8. PHP 5's decoder stops at a NUL byte and rejects some placements of `=`.
- Secret keys are byte strings. A null key behaves as `''`, because both are `empty()` and stop `stamp` before any HMAC is computed. Keys of other types are not modelled.
- PHP arrays and objects are maps, so the order of their members is not modelled. Order only affects the text `json_encode` produces, and that function is a parameter.
- The string built-ins are modelled only as the library calls them:
  - `str_replace` with a one-character search and an empty replacement;
  - `explode` and `implode` with a one-character delimiter;
  - `rtrim` with its default character list;
  - `str_pad` to the right with a one-character pad.
- The `Parser` constructor only creates the two helper objects. No state results, so it is not modelled.
- The static calls `Algorithm::IsValid(...)` to the instance method `isValid` (Parser.php:51, Signature.php:62) are modelled as PHP 5 and 7 run them: with a deprecation notice, as ordinary calls. PHP 8 refuses such a call and throws `Error`. On PHP 8, `serialize` therefore throws `Error` for every input that passes its `empty()` and type guards. `stamp` throws it for all non-empty data and key, so `verify` never returns a boolean, and `unserialize` with verification never reaches the `iat` check. `unserialize` without verification makes no such call and behaves as modelled.
