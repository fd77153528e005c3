/** The errors parser.go returns or passes through, and a failure-compatible result. */
module Errors {
  import opened Bytes

  datatype Error =
    | InvalidPaddingSize          // fmt.Errorf("invalid padding size") in PKCS7UnPadding
    | InvalidSignature            // fmt.Errorf("invalid signature") in Decode
    | KeySize(size: int)          // aes.KeySizeError from aes.NewCipher
    | HexInvalidByte(b: byte)     // hex.InvalidByteError from hex.DecodeString
    | HexLength                   // hex.ErrLength from hex.DecodeString
    | Json(reason: string)        // an error of json.Marshal or json.Unmarshal
    | RandomSource(reason: string)// an error of rand.Read
    | ShortRead(n: int)           // "expected to read 16 bytes, read n" in Encode

  /** A value, or the error a Go function returned beside nil. */
  datatype Result<+T> = Ok(value: T) | Err(error: Error) {
    predicate IsFailure() {
      Err?
    }

    function PropagateFailure<U>(): Result<U>
      requires Err?
    {
      Err(error)
    }

    function Extract(): T
      requires Ok?
    {
      value
    }
  }
}
