# HashedSessions token codec in Dafny

A model of `SessionManager` in `main.py`. The class issues and checks stateless session tokens.

- **Issuing a token.** `generate_session_token` builds a payload from the user id. When a maximum session age is configured, it appends `-` and the expiry time in seconds. It then appends the first `hashlen` bytes of SHA-256 of the payload followed by the secret. Finally it encodes everything in URL-safe base 64 (section 5 of RFC 4648, with `=` padding).
- **Reading a token.** `read_session_token` decodes the token and splits off the last `hashlen` bytes as the signature. It recomputes the digest and rejects the token on a mismatch. It decodes the payload as UTF-8. If a maximum age is set, it compares the text after the last `-` with the clock. It then returns everything before the last `-`.

The model is made of pure functions over a `Config` value. The three settings are fixed once by the constructor and never change.

Modules:

- `Basics`: bytes, `Option`, `Result`, `Min` and `Max`.
- `Base64Url`:
  - the alphabet;
  - the encoder;
  - a strict decoder that accepts exactly the encoder's output;
  - both round trips;
  - the length formula.
- `Utf8`: well-formed UTF-8 following table 3-7 of the Unicode Standard, which is what `bytes.decode()` accepts.
- `Decimal`: the numeral `f"{n}"` writes, and the parse that reads it back.
- `Fields`:
  - `bytes.split` and `join` on one separator byte;
  - the "everything before the last `-`" and "after the last `-`" views.
- `SessionManager`:
  - the configuration;
  - payload, signature, `Generate` and the reader;
  - the reader is `Verify` (decode, signature, UTF-8) followed by `Recover` (expiry and the returned id), combined in `Read`.
- `SessionProperties`: what the two token operations promise together.

Modelling choices:

- **SHA-256** is a parameter `H` of type `Sha256`: any function from bytes to 32 bytes. Every property holds for every such function, so it holds for SHA-256 in particular.
- **The clock** is a parameter in whole seconds.
- **User ids and payloads** are UTF-8 bytes. Splitting on the byte `0x2D` matches splitting the text on `"-"`, because no multi-byte UTF-8 sequence contains that byte.
- **Errors.** `Read` returns one of three errors:
  - `Malformed`: the token is not base 64, or the payload is not UTF-8, or the timestamp is not a number;
  - `InvalidSignature`;
  - `Expired`.
- **Where the model follows the code rather than its docstrings:**
  - The reader's docstring (main.py:53) promises the user id. Without a maximum age, the code strips everything from the last `-` onwards (main.py:71), and the model does the same (see Findings).
- **Short tokens.** With `hashlen <= 32`, a token whose decoded form is shorter than `hashlen` fails the signature comparison. The reader then raises "Invalid session token", so the model reports `InvalidSignature`.
- **Configuration edge cases** are modelled as the code treats them:
  - A maximum age of `0` means no expiry, because the test is truthiness.
  - With `hashlen == 0`, the reader cuts at the front (`session[:-0]` is empty) and compares the whole token with the full digest.
  - A `hashlen` above 32 keeps the whole 32-byte digest in the generator, but the reader takes `hashlen` bytes.

## Model

| member | source | states |
|---|---|---|
| `Base64Url.IndexOf` | main.py:55 | a character has an alphabet index exactly when it is one of `A-Z a-z 0-9 - _`, and that index maps back to the character |
| `Base64Url.Decode` | main.py:55 | every string the strict decoder accepts is exactly as long as the encoding of what it decodes to, and a non-empty accepted string never decodes to nothing |
| `Base64Url.Encode` | main.py:49 | the encoding has the length the length function gives, and is made only of alphabet characters with `=` padding in its last `PadCount` places |
| `Base64Url.EncodedLengthFormula` | main.py:49 | the encoding of `n` bytes has `4 * ceil(n / 3)` characters, always a multiple of four |
| `Base64Url.DecodeEncode` | main.py:49-55 | decoding the encoding of any byte string gives that byte string back |
| `Base64Url.EncodeDecode` | main.py:55 | every string the strict decoder accepts is the encoding of what it decodes to |
| `Base64Url.DecodeIff` | main.py:49-55 | a string decodes to `b` if and only if it is the encoding of `b` |
| `Base64Url.TestVectorsShort` | main.py:49 | the encoder gives the test vectors of section 10 of RFC 4648 for "", "f", "fo" and "foo" |
| `Base64Url.TestVectorFoobar` | main.py:49 | the encoder gives "Zm9vYmFy" for "foobar", as section 10 of RFC 4648 lists |
| `Base64Url.UrlSafeVector` | main.py:49 | the bytes FB FF encode as "-_8=", using the two characters in which section 5 of RFC 4648 differs from the standard alphabet |
| `Utf8.ValidUtf8` | main.py:65 | well-formed UTF-8 never holds the bytes C0, C1 or F5 to FF |
| `Utf8.ConcatValid` | main.py:43 | joining two well-formed UTF-8 byte strings gives a well-formed one |
| `Utf8.AsciiValid` | main.py:41 | ASCII bytes, such as a decimal timestamp, are well-formed UTF-8 |
| `Decimal.Format` | main.py:41 | the timestamp text is one or more ASCII digits, with no leading zero unless the number is 0 |
| `Decimal.Value` | main.py:68 | leading zeros do not change the value of a numeral |
| `Decimal.Parse` | main.py:68 | a number is read exactly from a non-empty string of digits |
| `Decimal.ParseFormat` | main.py:41-68 | reading back the timestamp the generator wrote gives the same number |
| `Fields.Split` | main.py:71 | splitting gives at least one field, and no field holds the separator |
| `Fields.Join` | main.py:71 | splitting the join of one or more fields that hold no separator gives those fields back |
| `Fields.JoinSplit` | main.py:71 | joining the fields of a split with the separator gives the original bytes |
| `Fields.BeforeLast` | main.py:71 | without a `-` the rebuilt id is empty; otherwise the payload is the rebuilt id, `-` and the last field |
| `Fields.AfterLast` | main.py:67 | the last field never holds `-`, and is the whole payload when the payload has none |
| `Fields.BeforeLastAppend` | main.py:41-71 | appending `-` and a dash-free tail, then taking the part before the last `-` and the last field, gives back the original and the tail, whatever dashes the original holds |
| `SessionManager.Expires` | main.py:40 | a maximum age counts exactly when it is truthy: neither `None` nor `0` |
| `SessionManager.Payload` | main.py:39-43 | without a maximum age the payload is the user id; with one, the part before its last `-` is the user id and the part after it reads back as the expiry time `now + max_session_age` |
| `SessionManager.Tag` | main.py:44-60 | the signature is the first `min(hashlen, 32)` bytes of the hash of payload and secret (all 32 when `hashlen` is 0) |
| `SessionManager.Generate` | main.py:33-49 | a generated token decodes to the payload followed by its signature |
| `SessionManager.SignatureStart` | main.py:56 | with Python's slice clamping, the signature is the last `hashlen` bytes when there are that many; otherwise the whole token is signature and the payload is empty |
| `SessionManager.Signed` | main.py:56-62 | with `1 <= hashlen <= 32`, a decoded token passes the comparison exactly when it has at least `hashlen` bytes and ends with the digest of the rest and the secret, cut to `hashlen` bytes |
| `SessionManager.Verify` | main.py:55-65 | never `Expired`; `Malformed` when the token does not decode; `InvalidSignature` exactly when it decodes but its tail is not the signature of its head; success exactly when it decodes, is signed and the head is UTF-8, and then the result is the head |
| `SessionManager.Recover` | main.py:66-73 | `Expired` only with a maximum age; success returns the text before the last `-`; without a maximum age it always succeeds; with one, `Malformed` exactly when the text after the last `-` is not a number, and otherwise `Expired` exactly when the clock is past that number |
| `SessionManager.Read` | main.py:51-73 | `Expired` only with a maximum age; success or `Expired` only for a verified token; success returns the part of the verified payload before its last `-` |
| `SessionManager.ReadIntended` | main.py:71 | the corrected reader changes only the returned id, never the verdict: it fails exactly when `Read` does, with the same error; with a maximum age it returns what `Read` returns; without one, `Read` returns the part of its result before the last `-` |
| `SessionProperties.DashNotInDigits` | main.py:41 | a timestamp holds no `-` and is well-formed UTF-8 |
| `SessionProperties.PayloadValid` | main.py:39-43 | the payload of a text user id is text |
| `SessionProperties.DecodedTokenLength` | main.py:39-49 | a generated token decodes to `len(payload) + min(hashlen, 32)` bytes |
| `SessionProperties.VerifyGenerated` | main.py:39-65 | with `1 <= hashlen <= 32`, a generated token passes decoding, the signature check and UTF-8 decoding, and yields its payload |
| `SessionProperties.RecoverPayload` | main.py:39-73 | on a generated payload: without a maximum age, the id before its own last `-`; with one, the id up to the expiry second and `Expired` after it |
| `SessionProperties.ReadGenerated` | main.py:33-73 | the verdict of reading a generated token at any later time, in both modes |
| `SessionProperties.RoundTripWithExpiry` | main.py:39-73 | with a maximum age and `1 <= hashlen <= 32`, any user id, dashes included, comes back unchanged at any time up to expiry |
| `SessionProperties.UnparsableTimestampMalformed` | main.py:66-68 | with a maximum age, a verified payload whose text after the last `-` is not a number is `Malformed` at any time |
| `SessionProperties.TokenWithoutTimestampMalformed` | main.py:39-68 | a token issued for "ab" without a maximum age, read by a manager with the same secret and `hashlen` but a maximum age, is `Malformed` |
| `SessionProperties.StrictExpiry` | main.py:66-69 | for a signed token with a numeric timestamp, `Expired` exactly when the clock is past the timestamp; at the timestamp itself the id is still returned |
| `SessionProperties.TokenLength` | main.py:46-49 | the token has `4 * ceil(n / 3)` characters for `n = len(payload) + min(hashlen, 32)`, a multiple of four, all in the URL-safe alphabet except for the closing `=` padding |
| `SessionProperties.EncodedLengthGrows` | main.py:49 | three more bytes make at least four more characters |
| `SessionProperties.TruncationShortensToken` | main.py:46-49 | a signature three or more bytes shorter gives a token at least four characters shorter |
| `SessionProperties.InvalidSignatureExactly` | main.py:56-63 | with `hashlen >= 1`, `InvalidSignature` exactly when the token decodes and its last `hashlen` bytes differ from the truncated hash of the rest with the secret, at any time |
| `SessionProperties.AcceptedIsSigned` | main.py:55-63 | with `1 <= hashlen <= 32`, a token that passes verification (by `Read`'s contract, every accepted or merely expired one) decodes to a payload followed by `H(payload + secret)[:hashlen]` |
| `SessionProperties.ShortTokenRejected` | main.py:56-63 | with `1 <= hashlen <= 32`, a token that decodes to fewer than `hashlen` bytes is `InvalidSignature` at any time |
| `SessionProperties.AcceptedIdIsPrefix` | main.py:66-71 | an accepted id is a prefix of the payload: either the payload is the id, `-` and a dash-free tail, or the payload has no `-` and the id is empty |
| `SessionProperties.NoExpiryIgnoresTime` | main.py:40-69 | without a maximum age (none or 0), the verdict is the same at every time and never `Expired` |
| `SessionProperties.NoExpiryTokenTimeless` | main.py:39-41 | without a maximum age, the payload is the user id and the token does not depend on the issue time |
| `SessionProperties.NoExpiryDropsUserId` | main.py:71 | as written: without a maximum age, a non-empty dash-free user id comes back as the empty id |
| `SessionProperties.IntendedRoundTrip` | main.py:39-73 | the corrected reader returns every user id unchanged in both modes, until expiry when there is one |
| `SessionProperties.OversizedHashlenRejectsOwnTokens` | main.py:46-62 | with `hashlen` above 32, every token with a non-empty payload is refused as `InvalidSignature`, because 32 signature bytes are written and `hashlen` are read |
| `SessionProperties.DefaultConfigRoundTrip` | main.py:4-28 | with the constructor's defaults (30 days, 16 bytes), any user id comes back for 2592000 seconds and is `Expired` after that |
| `SessionProperties.UserScenario` | main.py:4-73 | secret "s3cr3t", 3600 s, 16 bytes, id "user-42": read back one second after issue, and `Expired` 3601 s after |

## Left out

- SHA-256 itself: it is the parameter `H`, any 32-byte function. Collision and forgery resistance cannot be stated, so the model does not claim that a token signed under another secret is rejected.
- The equality test on the signature at main.py:62 is not constant-time. Timing is outside the model.
- `time.time()` returns a float. The clock is whole seconds here, passed in as a parameter.
- `float(timestamp)` accepts more than digits: signs, a decimal point, exponents, `inf`, `nan`, underscores, surrounding whitespace, and decimal digits of other scripts (`float("١٢٣") == 123.0`). It also rounds large numbers. Here the timestamp is a plain decimal natural number, and anything else is `Malformed`. Leading zeros are accepted, as `float` accepts them.
- `urlsafe_b64decode` is lenient:
  - it drops characters outside the alphabet;
  - it accepts the standard `+` and `/` characters;
  - it ignores non-zero bits left over by padding;
  - it stops at the first completed padding and ignores what follows, so `"YQ=="` followed by anything decodes to `b"a"`.

  The model's decoder is strict. It rejects all of these as `Malformed`, so it is exactly the inverse of the encoder.
- `random_string` (main.py:30-31) and `user_id=None`: the user id is always supplied.
- The `__main__` demonstration (main.py:75-85) and the docstring example: output only.
- A negative `max_session_age` is outside the model. The maximum age is a `nat`.
- A negative `hashlen` is outside the model. The constructor accepts it, and then main.py:47 keeps `digest()[:-n]` and main.py:56 cuts at `session[:n]`. `hashlen` is a `nat`.
- `hashlen=None`, and `hashlen=0` in the generator, make Python fail. `Generate` requires `hashlen >= 1`. The reader handles `hashlen == 0` as Python does.
- `str.encode()` fails on text holding lone surrogates. User ids are well-formed UTF-8 bytes, so that failure cannot arise.
- Python raises `ValueError` (or its subclass `UnicodeDecodeError`) for all errors. The model's three error values separate what these messages and exceptions separate.

## Findings

| source | as written | input that shows it | evidently intended | confidence | as-written member | corrected member |
|---|---|---|---|---|---|---|
| main.py:71 | without a maximum age, the id is still rebuilt as everything before the last `-` of the payload, although no timestamp was appended | `max_session_age=None`, user id `"ab"`: the token reads back as `""` (and `"a-b"` reads back as `"a"`) | return the whole verified payload when no timestamp was added | high; not executed | `SessionProperties.NoExpiryDropsUserId` | `SessionProperties.IntendedRoundTrip` |
