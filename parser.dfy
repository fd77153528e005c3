/** Encoder.Encode and Decoder.Decode of parser.go: HMAC-SHA256 over the
    payload, a {data, signature} JSON envelope, one NUL terminator, PKCS #7
    padding, and AES-CBC under a random IV that is sent in front. */
module Parser {
  import opened Bytes
  import opened Errors
  import opened Envelope
  import opened Padding
  import Cbc
  import Hex
  import Utf8

  /** An HMAC-SHA256 tag. */
  type Digest = s: seq<byte> | |s| == 32 witness seq(32, _ => 0)

  /** The standard-library routines parser.go calls: the AES block cipher
      (crypto/aes), HMAC-SHA256 (crypto/hmac over crypto/sha256) and
      encoding/json. None of them is part of this model. */
  datatype Stdlib = Stdlib(aes: Cbc.BlockCipher, hmacSha256: (seq<byte>, seq<byte>) -> Digest, json: JsonCodec)
  {
    ghost predicate Valid() {
      aes.Valid() && json.Valid()
    }
  }

  /** What Decrypt needs not to panic: payload[:16] needs 16 bytes, and once
      aes.NewCipher has accepted the key, CryptBlocks needs whole blocks. */
  predicate Decryptable(payload: seq<byte>, key: seq<byte>) {
    |payload| >= Cbc.BlockSize && (Cbc.KeySizeOk(|key|) ==> (|payload| - Cbc.BlockSize) % Cbc.BlockSize == 0)
  }

  /** Decoder.Decrypt: the first block is the IV, the rest is CBC-decrypted
      under the key and then unpadded. */
  function Decrypted(aes: Cbc.BlockCipher, payload: seq<byte>, key: seq<byte>): Result<seq<byte>>
    requires Decryptable(payload, key)
  {
    var iv: Cbc.Block := payload[..Cbc.BlockSize];
    var cipherText := payload[Cbc.BlockSize..];
    if !Cbc.KeySizeOk(|key|) then Err(KeySize(|key|))
    else Pkcs7Unpadding(Cbc.Decrypt(aes, key, iv, cipherText))
  }

  /** Decoder.Decrypt as the source runs it: a fresh plainText buffer filled by CryptBlocks. */
  method Decrypt(aes: Cbc.BlockCipher, payload: seq<byte>, key: seq<byte>) returns (r: Result<seq<byte>>)
    requires Decryptable(payload, key)
    ensures r == Decrypted(aes, payload, key)
  {
    var iv: Cbc.Block := payload[..Cbc.BlockSize];
    var cipherText := payload[Cbc.BlockSize..];
    if !Cbc.KeySizeOk(|key|) {
      return Err(KeySize(|key|));
    }
    var plainText := new byte[|cipherText|];
    Cbc.DecryptBlocks(aes, key, iv, plainText, 0, cipherText);
    assert plainText[..] == plainText[0..|cipherText|];
    r := Pkcs7Unpadding(plainText[..]);
  }

  /** Decoder.VerifySignature: the signature field must be hexadecimal, and the
      answer is whether it decodes to the HMAC of `data` (hmac.Equal compares
      length and contents; its constant timing is not modelled). */
  function VerifySignature(lib: Stdlib, payload: SignedPayload, signKey: seq<byte>): (r: Result<bool>)
    ensures r.Ok? <==> Hex.Decode(payload.signature).Ok?
    ensures r.Err? ==> r == Err(Hex.Decode(payload.signature).error)
    ensures r == Ok(true) <==> Hex.Decode(payload.signature) == Ok(lib.hmacSha256(signKey, payload.data))
  {
    match Hex.Decode(payload.signature)
    case Err(e) => Err(e)
    case Ok(signature) => Ok(lib.hmacSha256(signKey, payload.data) == signature)
  }

  /** Decoder.Decode: decrypt, parse, verify, stopping at the first error. */
  function Decoded(lib: Stdlib, payload: seq<byte>, encKey: seq<byte>, signKey: seq<byte>): Result<seq<byte>>
    requires Decryptable(payload, encKey)
  {
    var plainText :- Decrypted(lib.aes, payload, encKey);
    var signed :- UnmarshalPlainText(lib.json, plainText);
    var valid :- VerifySignature(lib, signed, signKey);
    if valid then Ok(signed.data) else Err(InvalidSignature)
  }

  method Decode(lib: Stdlib, payload: seq<byte>, encKey: seq<byte>, signKey: seq<byte>) returns (r: Result<seq<byte>>)
    requires Decryptable(payload, encKey)
    ensures r == Decoded(lib, payload, encKey, signKey)
  {
    var plainText :- Decrypt(lib.aes, payload, encKey);
    var signed :- UnmarshalPlainText(lib.json, plainText);
    var verified := VerifySignature(lib, signed, signKey);
    if verified == Ok(true) {
      return Ok(signed.data);
    } else if verified.Err? {
      return Err(verified.error);
    }
    return Err(InvalidSignature);
  }

  /** What rand.Read delivered into the first 16 bytes of Encode's output:
      its error, or the n bytes it read. */
  datatype Entropy = ReadError(reason: string) | Read(bytes: seq<byte>)

  /** Encoder.Encode. */
  function Encoded(lib: Stdlib, inputsText: seq<byte>, encKey: seq<byte>, signKey: seq<byte>, entropy: Entropy): Result<seq<byte>>
  {
    var signature := lib.hmacSha256(signKey, inputsText);
    var payload := SignedPayload(inputsText, Hex.Encode(signature));
    var plainText :- lib.json.marshal(payload);
    var paddedPlainText := Pkcs7Padding(plainText + [Nul], Cbc.BlockSize);
    if !Cbc.KeySizeOk(|encKey|) then Err(KeySize(|encKey|))
    else
      match entropy
      case ReadError(reason) => Err(RandomSource(reason))
      case Read(iv) =>
        if |iv| != Cbc.BlockSize then Err(ShortRead(|iv|))
        else Ok(iv + Cbc.Encrypt(lib.aes, encKey, iv, paddedPlainText))
  }

  /** Encoder.Encode as the source runs it: one buffer of IV plus ciphertext,
      the IV read into its head and CryptBlocks writing the rest. */
  method Encode(lib: Stdlib, inputsText: seq<byte>, encKey: seq<byte>, signKey: seq<byte>, entropy: Entropy)
    returns (r: Result<seq<byte>>)
    requires entropy.Read? ==> |entropy.bytes| <= Cbc.BlockSize
    ensures r == Encoded(lib, inputsText, encKey, signKey, entropy)
  {
    var signature := lib.hmacSha256(signKey, inputsText);
    var payload := SignedPayload(inputsText, Hex.Encode(signature));
    var plainText :- lib.json.marshal(payload);
    plainText := plainText + [Nul];
    var paddedPlainText := Pkcs7Padding(plainText, Cbc.BlockSize);
    if !Cbc.KeySizeOk(|encKey|) {
      return Err(KeySize(|encKey|));
    }
    var cipherText := new byte[Cbc.BlockSize + |paddedPlainText|];
    // read IV
    if entropy.ReadError? {
      return Err(RandomSource(entropy.reason));
    }
    var read := entropy.bytes;
    forall j | 0 <= j < |read| {
      cipherText[j] := read[j];
    }
    if |read| != Cbc.BlockSize {
      return Err(ShortRead(|read|));
    }
    var iv: Cbc.Block := cipherText[..Cbc.BlockSize];
    assert iv == read;
    Cbc.EncryptBlocks(lib.aes, encKey, iv, cipherText, Cbc.BlockSize, paddedPlainText);
    assert cipherText[..Cbc.BlockSize] == iv;
    assert cipherText[..] == cipherText[..Cbc.BlockSize] + cipherText[Cbc.BlockSize..Cbc.BlockSize + |paddedPlainText|];
    r := Ok(cipherText[..]);
  }

  /** An encoded blob is the 16-byte IV followed by at least one whole block,
      so Decode can always take it apart. */
  lemma EncodedShape(lib: Stdlib, inputsText: seq<byte>, encKey: seq<byte>, signKey: seq<byte>, entropy: Entropy)
    ensures var r := Encoded(lib, inputsText, encKey, signKey, entropy);
      r.Ok? ==>
        && Cbc.KeySizeOk(|encKey|)
        && entropy == Read(r.value[..Cbc.BlockSize])
        && |r.value| >= 2 * Cbc.BlockSize
        && |r.value| % Cbc.BlockSize == 0
        && Decryptable(r.value, encKey)
  {
  }

  /** With a codec that marshals every payload, Encode's error names the stage
      that failed, in the order of the source: key size, then the read of the
      IV, then its length. */
  lemma EncodedFailsFast(lib: Stdlib, inputsText: seq<byte>, encKey: seq<byte>, signKey: seq<byte>, entropy: Entropy)
    requires lib.json.Valid()
    ensures var r := Encoded(lib, inputsText, encKey, signKey, entropy);
      && (!Cbc.KeySizeOk(|encKey|) ==> r == Err(KeySize(|encKey|)))
      && (Cbc.KeySizeOk(|encKey|) && entropy.ReadError? ==> r == Err(RandomSource(entropy.reason)))
      && (Cbc.KeySizeOk(|encKey|) && entropy.Read? && |entropy.bytes| != Cbc.BlockSize ==> r == Err(ShortRead(|entropy.bytes|)))
      && (Cbc.KeySizeOk(|encKey|) && entropy.Read? && |entropy.bytes| == Cbc.BlockSize ==> r.Ok?)
  {
    var payload := SignedPayload(inputsText, Hex.Encode(lib.hmacSha256(signKey, inputsText)));
    assert lib.json.marshal(payload).Ok?;
  }

  /** Encode then Decode under the same keys returns the payload after the
      suffix rule, or "invalid signature" when that changed its HMAC. */
  lemma DecodeEncoded(lib: Stdlib, inputsText: seq<byte>, encKey: seq<byte>, signKey: seq<byte>, iv: Cbc.Block)
    requires lib.Valid() && Cbc.KeySizeOk(|encKey|) && Utf8.Valid(inputsText)
    ensures Encoded(lib, inputsText, encKey, signKey, Read(iv)).Ok?
    ensures var blob := Encoded(lib, inputsText, encKey, signKey, Read(iv)).value;
      var kept := SuffixQuirk(inputsText);
      && Decryptable(blob, encKey)
      && Decoded(lib, blob, encKey, signKey)
         == if lib.hmacSha256(signKey, kept) == lib.hmacSha256(signKey, inputsText) then Ok(kept) else Err(InvalidSignature)
  {
    var signature := lib.hmacSha256(signKey, inputsText);
    var hex := Hex.Encode(signature);
    var sp := SignedPayload(inputsText, hex);
    assert IsAscii(hex);
    Utf8.AsciiIsValid(hex);
    UnmarshalMarshalled(lib.json, sp);
    var text := lib.json.marshal(sp).value + [Nul];
    var blob := iv + Cbc.Encrypt(lib.aes, encKey, iv, Pkcs7Padding(text, Cbc.BlockSize));
    assert Encoded(lib, inputsText, encKey, signKey, Read(iv)) == Ok(blob);
    DecryptedEncrypted(lib.aes, text, encKey, iv);
    Hex.DecodeEncode(signature);
  }

  /** Decrypt undoes the padding and encryption steps of Encode. */
  lemma DecryptedEncrypted(aes: Cbc.BlockCipher, text: seq<byte>, key: seq<byte>, iv: Cbc.Block)
    requires aes.Valid() && Cbc.KeySizeOk(|key|)
    ensures var blob := iv + Cbc.Encrypt(aes, key, iv, Pkcs7Padding(text, Cbc.BlockSize));
      Decryptable(blob, key) && Decrypted(aes, blob, key) == Ok(text)
  {
    var padded := Pkcs7Padding(text, Cbc.BlockSize);
    PaddingRoundTrip(text, Cbc.BlockSize);
    var blob := iv + Cbc.Encrypt(aes, key, iv, padded);
    assert blob[..Cbc.BlockSize] == iv && blob[Cbc.BlockSize..] == Cbc.Encrypt(aes, key, iv, padded);
    Cbc.DecryptEncrypt(aes, key, iv, padded);
  }

  /** The round trip: Decode(Encode(p)) == p for every valid UTF-8 payload that
      ends in neither "=0" nor "=equest". */
  lemma DecodeEncodeRoundTrip(lib: Stdlib, inputsText: seq<byte>, encKey: seq<byte>, signKey: seq<byte>, iv: Cbc.Block)
    requires lib.Valid() && Cbc.KeySizeOk(|encKey|) && Utf8.Valid(inputsText)
    requires !HasSuffix(inputsText, ZeroSuffix) && !HasSuffix(inputsText, RequestSuffix)
    ensures Encoded(lib, inputsText, encKey, signKey, Read(iv)).Ok?
    ensures var blob := Encoded(lib, inputsText, encKey, signKey, Read(iv)).value;
      Decryptable(blob, encKey) && Decoded(lib, blob, encKey, signKey) == Ok(inputsText)
  {
    DecodeEncoded(lib, inputsText, encKey, signKey, iv);
    SuffixQuirkFixedPoint(inputsText);
  }

  /** A payload that ends in "=0" or "=equest" never comes back as itself. */
  lemma QuirkedPayloadDoesNotRoundTrip(lib: Stdlib, inputsText: seq<byte>, encKey: seq<byte>, signKey: seq<byte>, iv: Cbc.Block)
    requires lib.Valid() && Cbc.KeySizeOk(|encKey|) && Utf8.Valid(inputsText)
    requires HasSuffix(inputsText, ZeroSuffix) || HasSuffix(inputsText, RequestSuffix)
    ensures Encoded(lib, inputsText, encKey, signKey, Read(iv)).Ok?
    ensures var blob := Encoded(lib, inputsText, encKey, signKey, Read(iv)).value;
      Decryptable(blob, encKey) && Decoded(lib, blob, encKey, signKey) != Ok(inputsText)
  {
    DecodeEncoded(lib, inputsText, encKey, signKey, iv);
    SuffixQuirkFixedPoint(inputsText);
  }

  /** A blob that is only an IV decrypts to nothing, which unpadding rejects. */
  lemma DecodedBareIv(lib: Stdlib, payload: seq<byte>, encKey: seq<byte>, signKey: seq<byte>)
    requires |payload| == Cbc.BlockSize
    ensures Decryptable(payload, encKey)
    ensures Decoded(lib, payload, encKey, signKey)
         == if Cbc.KeySizeOk(|encKey|) then Err(InvalidPaddingSize) else Err(KeySize(|encKey|))
  {
    assert payload[Cbc.BlockSize..] == [];
  }

  /** Decode stops at the first failing stage and returns its error unchanged. */
  lemma DecodedFailsFast(lib: Stdlib, payload: seq<byte>, encKey: seq<byte>, signKey: seq<byte>)
    requires Decryptable(payload, encKey)
    ensures var plain := Decrypted(lib.aes, payload, encKey);
      && (plain.Err? ==> Decoded(lib, payload, encKey, signKey) == Err(plain.error))
      && (plain.Ok? && UnmarshalPlainText(lib.json, plain.value).Err? ==>
            Decoded(lib, payload, encKey, signKey) == Err(UnmarshalPlainText(lib.json, plain.value).error))
      && (plain.Ok? && UnmarshalPlainText(lib.json, plain.value).Ok? ==>
            var signed := UnmarshalPlainText(lib.json, plain.value).value;
            && (Hex.Decode(signed.signature).Err? ==>
                  Decoded(lib, payload, encKey, signKey) == Err(Hex.Decode(signed.signature).error))
            && (Hex.Decode(signed.signature).Ok? && Hex.Decode(signed.signature).value != lib.hmacSha256(signKey, signed.data) ==>
                  Decoded(lib, payload, encKey, signKey) == Err(InvalidSignature)))
  {
  }

  /** With a codec whose failures are JSON errors, "invalid signature" means
      exactly that every stage succeeded and the signature decoded to a tag
      other than the HMAC of the data. */
  lemma DecodedInvalidSignature(lib: Stdlib, payload: seq<byte>, encKey: seq<byte>, signKey: seq<byte>)
    requires lib.json.Valid() && Decryptable(payload, encKey)
    ensures Decoded(lib, payload, encKey, signKey) == Err(InvalidSignature) <==>
      && Decrypted(lib.aes, payload, encKey).Ok?
      && UnmarshalPlainText(lib.json, Decrypted(lib.aes, payload, encKey).value).Ok?
      && var signed := UnmarshalPlainText(lib.json, Decrypted(lib.aes, payload, encKey).value).value;
         && Hex.Decode(signed.signature).Ok?
         && Hex.Decode(signed.signature).value != lib.hmacSha256(signKey, signed.data)
  {
    var plain := Decrypted(lib.aes, payload, encKey);
    if plain.Ok? {
      var text := TrimRight(plain.value, Nul);
      assert lib.json.unmarshal(text).Err? ==> lib.json.unmarshal(text).error.Json?;
    }
  }

  /** Decode returns data only when the signature field decodes to the HMAC of
      exactly that data under the signing key, and such data never ends in
      "=0" or "=equest". */
  lemma DecodedAuthentic(lib: Stdlib, payload: seq<byte>, encKey: seq<byte>, signKey: seq<byte>)
    requires Decryptable(payload, encKey)
    ensures var r := Decoded(lib, payload, encKey, signKey);
      r.Ok? ==>
        && Decrypted(lib.aes, payload, encKey).Ok?
        && UnmarshalPlainText(lib.json, Decrypted(lib.aes, payload, encKey).value).Ok?
        && var signed := UnmarshalPlainText(lib.json, Decrypted(lib.aes, payload, encKey).value).value;
           && r.value == signed.data
           && Hex.Decode(signed.signature) == Ok(lib.hmacSha256(signKey, r.value))
           && !HasSuffix(r.value, ZeroSuffix) && !HasSuffix(r.value, RequestSuffix)
  {
    var r := Decoded(lib, payload, encKey, signKey);
    if r.Ok? {
      SuffixQuirkFixedPoint(r.value);
    }
  }
}
