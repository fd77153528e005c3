# xk6-hex parser: a verified model

xk6-hex is a k6 extension whose `parser.go` seals and opens messages in an
authenticated-encryption envelope. `Encoder.Encode` takes a payload and two keys and works in this order:

- it signs the payload with HMAC-SHA256 under the signing key;
- it wraps payload and signature (in lowercase hexadecimal) in a JSON object `{"data", "signature"}`;
- it appends one NUL byte;
- it pads to the AES block size with PKCS #7 padding (section 6.3 of RFC 5652);
- it encrypts with AES-CBC (section 6.2 of NIST SP 800-38A) under a random IV, which it sends in front of the ciphertext.

`Decoder.Decode` undoes this and stops at the first error:

- `Decrypt` splits off the IV, decrypts and unpads;
- `jsonUnmarshalPlainText` drops trailing NULs and parses the JSON;
- it then applies a compatibility rule that trims "=0" to "=" and "=equest" to "=" at the end of `data`;
- `VerifySignature` hex-decodes the signature and compares it with a recomputed HMAC.

The model has one module per concern:

- `Bytes`: the byte type, Go's `byte(n)` conversion and `TrimRight`.
- `Errors`: the errors the code can return and a `Result` type.
- `Hex`: `encoding/hex` as the parser uses it.
- `Utf8`: well-formed UTF-8, the condition under which `encoding/json` keeps a string.
- `Padding`: `PKCS7Padding` and `PKCS7UnPadding`.
- `Cbc`: CBC chaining over an abstract block cipher, as functions, plus methods that write into arrays the way `CryptBlocks` does.
- `Envelope`: `SignedPayload`, the JSON codec and `jsonUnmarshalPlainText`.
- `Parser`: `Decrypt`, `VerifySignature`, `Decode` and `Encode`.

`Decrypt`, `Decode` and `Encode` are methods proved equal to the functions
`Decrypted`, `Decoded` and `Encoded`. `Decrypt` and `Encode` allocate their
output arrays and fill them as the Go code does. The lemmas about those
functions give the end-to-end results:

- Decode undoes Encode for every valid UTF-8 payload that ends in neither "=0" nor "=equest".
- A payload with one of those endings never comes back unchanged.
- Decode returns data only when its signature checks.
- Decode reports the first failing stage's error unchanged.

Where the code and its description disagree, the model follows the code:

- No error for a short blob: `Decrypt` slices `payload[:16]` without checking the length. So a blob shorter than one block panics and never produces an error. The model makes at least 16 bytes a precondition (`Parser.Decryptable`). A blob of exactly 16 bytes gives the padding error (`Parser.DecodedBareIv`).
- Only one '0' is ever trimmed: under the "=0" rule, `strings.TrimRight(data, "0")` can remove only one '0', because the byte before it is '='. `Envelope.SuffixQuirk` states that exactly one '0' goes.

## Model

| member | source | states |
|---|---|---|
| Bytes.ByteOf | parser.go:144 | Go's `byte(n)` keeps the value of any n below 256 |
| Bytes.TrimRight | parser.go:63 | `bytes.TrimRight(s, b)` gives a prefix of s that does not end in b, and everything it removed equals b |
| Bytes.TrimRightAbsorbs | parser.go:63 | adding any run of b to the end does not change what TrimRight returns |
| Bytes.TrimRightOfRun | parser.go:63 | a text that does not end in b, followed by a run of b, trims back to exactly that text |
| Hex.Encode | parser.go:101 | `hex.EncodeToString` writes two lowercase hexadecimal digits per byte |
| Hex.Decode | parser.go:79 | `hex.DecodeString` succeeds exactly on even-length text made only of hexadecimal digits (either case), and returns half as many bytes; its only errors are an invalid byte or the length error |
| Hex.DecodeEncode | parser.go:79 | decoding the signature text that Encode wrote gives back the HMAC bytes |
| Hex.EncodeDecode | parser.go:101 | lowercase hexadecimal text of even length is exactly what EncodeToString writes for its decoding |
| Hex.DecodeIgnoresCase | parser.go:79 | text decodes, or fails, exactly as its lowercase form does |
| Hex.DecodeAnyCase | parser.go:79 | even-length hexadecimal text in either case decodes to the bytes whose EncodeToString is its lowercase form |
| Hex.DecodeReportsFirstInvalidByte | parser.go:79-82 | the decoding error names the leftmost byte that is not a hexadecimal digit |
| Hex.DecodeOddLength | parser.go:79-82 | all digits but an odd count gives the length error |
| Utf8.AsciiIsValid | parser.go:101 | the hexadecimal signature is valid UTF-8, so JSON carries it unchanged |
| Padding.Pkcs7Padding | parser.go:142-146 | the result has the data as a prefix, is a whole number of blocks, and adds between 1 and blockSize bytes, each equal to `byte` of the added count |
| Padding.PaddingAddsFullBlock | parser.go:143-145 | data that already fills whole blocks gets a full block of blockSize-valued bytes |
| Padding.Pkcs7Unpadding | parser.go:130-140 | fails exactly on empty input or a last byte greater than the length, always with the padding error; otherwise it drops as many bytes as the last byte says and keeps a prefix |
| Padding.PaddingRoundTrip | parser.go:130-146 | unpadding undoes padding for every block size from 1 to 255 |
| Padding.PaddingWrapsAt256 | parser.go:135-144 | with block size 256 the pad byte wraps to 0, so for data filling whole blocks unpadding strips nothing and block size 256 does not round-trip |
| Padding.UnpaddingZeroCount | parser.go:135-139 | a last byte of 0 returns the input unchanged |
| Padding.UnpaddingIgnoresPadBytes | parser.go:135-139 | only the last byte is read; the other pad bytes may hold anything |
| Cbc.DecryptEncrypt | parser.go:50-54 | CBC decryption under the same key and IV undoes CBC encryption, for every key size NewCipher accepts |
| Cbc.EncryptBlocks | parser.go:124-125 | CryptBlocks of the encrypter writes the CBC encryption of the source into its range of the array and leaves the rest of the array as it was |
| Cbc.DecryptBlocks | parser.go:50-54 | CryptBlocks of the decrypter writes the CBC decryption of the source into its range of the array and leaves the rest of the array as it was |
| Envelope.SuffixQuirk | parser.go:70-74 | "=0" at the end loses its one trailing '0'; otherwise "=equest" at the end loses "equest"; otherwise data is unchanged; after either trim the result ends in '=' |
| Envelope.SuffixQuirkFixedPoint | parser.go:70-74 | the rule changes data if and only if it ends in "=0" or "=equest" |
| Envelope.SuffixQuirkIdempotent | parser.go:70-74 | applying the rule twice is the same as applying it once |
| Envelope.SuffixQuirkPrefix | parser.go:70-74 | the rule only ever removes bytes from the end |
| Envelope.SuffixQuirkExamples | parser.go:69-74 | "dGVzdA=0" and "dGVzdA=equest" both become "dGVzdA=" |
| Envelope.UnmarshalPlainText | parser.go:62-76 | every payload it returns is already a fixed point of the suffix rule |
| Envelope.UnmarshalIgnoresTrailingNuls | parser.go:63 | any number of trailing NUL bytes leaves the result unchanged |
| Envelope.UnmarshalMarshalled | parser.go:62-76 | the NUL-terminated JSON of a valid UTF-8 payload parses back to that payload, with the suffix rule applied to data |
| Parser.VerifySignature | parser.go:78-87 | fails, with the hex error, exactly when the signature is not hexadecimal; it answers true exactly when the signature decodes to the HMAC of data |
| Parser.Decrypt | parser.go:42-60 | the IV is the first block; a key size other than 16, 24 or 32 is a key-size error; otherwise the result is the unpadded CBC decryption of the rest, computed into a fresh array |
| Parser.Decode | parser.go:25-40 | the method returns what the decrypt, parse, verify ladder defines |
| Parser.Encode | parser.go:96-127 | the method returns the IV followed by the CBC encryption of the padded, NUL-terminated JSON envelope, or the first error among JSON, key size, random source and short read |
| Parser.EncodedFailsFast | parser.go:102-122 | with a codec that marshals every payload, Encode fails with the key-size error for a bad key, else with the read error, else with the short-read error, and otherwise succeeds |
| Parser.EncodedShape | parser.go:106-125 | an encoded blob is the IV that was read, followed by at least one whole block, so Decode can always take it apart |
| Parser.DecodeEncoded | parser.go:25-127 | Decode of Encode returns the payload after the suffix rule, or the signature error when the rule changed the payload's HMAC |
| Parser.DecryptedEncrypted | parser.go:42-60 | Decrypt of the IV followed by the CBC encryption of padded text gives back the text |
| Parser.DecodeEncodeRoundTrip | parser.go:25-127 | Decode of Encode returns the payload itself when it is valid UTF-8 and ends in neither "=0" nor "=equest" |
| Parser.QuirkedPayloadDoesNotRoundTrip | parser.go:70-74 | a payload that ends in "=0" or "=equest" never comes back as itself |
| Parser.DecodedBareIv | parser.go:43-44 | a 16-byte blob decrypts to nothing and gives the padding error, or the key-size error for a bad key |
| Parser.DecodedFailsFast | parser.go:25-40 | errors from decryption, unpadding, JSON parsing and hex decoding are returned unchanged, and a signature that decodes to the wrong tag gives "invalid signature" |
| Parser.DecodedInvalidSignature | parser.go:34-39 | with a codec whose failures are JSON errors, Decode gives "invalid signature" if and only if decryption and parsing succeeded and the signature decoded to a tag other than the HMAC of data |
| Parser.DecodedAuthentic | parser.go:34-35 | returned data is the parsed data, its signature decodes to the HMAC of that data, and it never ends in "=0" or "=equest" |

## Left out

- AES: `crypto/aes` is a parameter (`Cbc.BlockCipher`). The model only assumes that decryption undoes encryption block by block for 16-, 24- and 32-byte keys. The key-size check of `aes.NewCipher` is modelled.
- Go's CBC decrypter works from the last block backwards so that it can decrypt in place. The model goes forwards. Both give the same output, because source and destination never overlap here.
- HMAC-SHA256: a parameter function from key and message to 32 bytes. The constant-time comparison of `hmac.Equal` is not expressible; the model compares for equality.
- `crypto/rand`: the IV is a parameter holding either the read error or the bytes read. A read of more than 16 bytes is excluded, because the source reads into a 16-byte slice.
- `encoding/json`: a parameter codec. The model assumes only the following:
  - Marshal succeeds;
  - its output ends in '}';
  - Unmarshal of Marshal returns the struct when both strings are valid UTF-8;
  - every error of Unmarshal is a JSON error.
- `encoding/json` details not modelled: escaping, replacing invalid UTF-8 with U+FFFD, and the exact text.
- Panics are preconditions, not behaviour: a blob shorter than 16 bytes, and a ciphertext that is not whole blocks under an accepted key.
- Error texts are not modelled. The `fmt.Errorf` messages and the errors from `aes`, `hex`, `json` and `rand` are constructors of `Errors.Error`.
- Security properties are not modelled, because they are probabilistic:
  - that a tampered blob or a wrong key is detected;
  - that the IV is unpredictable.
- The `Parser` singleton (parser.go:16-21) holds no state and is not modelled.
- The module's other code is not part of this model:
  - helper.go: k6 registration and wrappers that drop errors;
  - hex.go: a hex wrapper;
  - the tests.
- Concurrency: there is no shared mutable state.
