/** Base16 (section 8 of RFC 4648) as Go's encoding/hex does it: EncodeToString
    writes lowercase digits, DecodeString accepts either case and reports the
    first bad byte before an odd length. */
module Hex {
  import opened Bytes
  import opened Errors

  predicate IsLowerHexDigit(c: byte) {
    0x30 <= c <= 0x39 || 0x61 <= c <= 0x66   // '0'..'9', 'a'..'f'
  }

  predicate IsHexDigit(c: byte) {
    IsLowerHexDigit(c) || 0x41 <= c <= 0x46   // or 'A'..'F'
  }

  /** The lowercase digit of a nibble. */
  function Digit(n: byte): (c: byte)
    requires n < 16
    ensures IsLowerHexDigit(c)
  {
    if n < 10 then 0x30 + n else 0x57 + n
  }

  /** The nibble a digit stands for. */
  function Value(c: byte): (n: byte)
    requires IsHexDigit(c)
    ensures n < 16
  {
    if c <= 0x39 then c - 0x30 else if c <= 0x46 then c - 0x37 else c - 0x57
  }

  /** hex.EncodeToString: two lowercase digits per byte, high nibble first. */
  function Encode(s: seq<byte>): (r: seq<byte>)
    ensures |r| == 2 * |s|
    ensures forall i :: 0 <= i < |r| ==> IsLowerHexDigit(r[i])
    decreases |s|
  {
    if s == [] then [] else [Digit(s[0] >> 4), Digit(s[0] & 0x0F)] + Encode(s[1..])
  }

  /** hex.DecodeString: pairs of digits left to right; the first byte that is
      not a digit is reported, and only then a dangling odd digit. */
  function Decode(s: seq<byte>): (r: Result<seq<byte>>)
    ensures r.Ok? <==> |s| % 2 == 0 && forall i :: 0 <= i < |s| ==> IsHexDigit(s[i])
    ensures r.Ok? ==> 2 * |r.value| == |s|
    ensures r.Err? ==> r.error.HexInvalidByte? || r.error == HexLength
    decreases |s|
  {
    if |s| == 0 then Ok([])
    else if !IsHexDigit(s[0]) then Err(HexInvalidByte(s[0]))
    else if |s| == 1 then Err(HexLength)
    else if !IsHexDigit(s[1]) then Err(HexInvalidByte(s[1]))
    else
      match Decode(s[2..])
      case Err(e) => Err(e)
      case Ok(rest) => Ok([(Value(s[0]) << 4) | Value(s[1])] + rest)
  }

  /** The two digits written for a byte decode to that byte. */
  lemma DigitsJoin(b: byte)
    ensures (Value(Digit(b >> 4)) << 4) | Value(Digit(b & 0x0F)) == b
  {
  }

  /** Two lowercase digits decode to the byte that is written as exactly those digits. */
  lemma DigitsSplit(hi: byte, lo: byte)
    requires IsLowerHexDigit(hi) && IsLowerHexDigit(lo)
    ensures var v := (Value(hi) << 4) | Value(lo);
      Digit(v >> 4) == hi && Digit(v & 0x0F) == lo
  {
  }

  /** Decoding what EncodeToString wrote gives the bytes back. */
  lemma {:induction false} DecodeEncode(s: seq<byte>)
    ensures Decode(Encode(s)) == Ok(s)
    decreases |s|
  {
    if s != [] {
      var e := Encode(s);
      var hi, lo := Digit(s[0] >> 4), Digit(s[0] & 0x0F);
      assert e[..2] == [hi, lo] && e[2..] == Encode(s[1..]);
      DigitsJoin(s[0]);
      DecodeEncode(s[1..]);
      assert [s[0]] + s[1..] == s;
    }
  }

  /** Lowercase hexadecimal text of even length is what EncodeToString writes for its decoding. */
  lemma {:induction false} EncodeDecode(s: seq<byte>)
    requires |s| % 2 == 0 && forall i :: 0 <= i < |s| ==> IsLowerHexDigit(s[i])
    ensures Decode(s).Ok? && Encode(Decode(s).value) == s
    decreases |s|
  {
    if s != [] {
      EncodeDecode(s[2..]);
      var v := (Value(s[0]) << 4) | Value(s[1]);
      DigitsSplit(s[0], s[1]);
      assert Decode(s).value == [v] + Decode(s[2..]).value;
      assert s == [s[0], s[1]] + s[2..];
    }
  }

  /** The lowercase form of a digit 'A'..'F'; every other byte is kept. */
  function ToLower(c: byte): byte {
    if 0x41 <= c <= 0x46 then c + 0x20 else c
  }

  function Lower(s: seq<byte>): (r: seq<byte>)
    ensures |r| == |s| && forall i :: 0 <= i < |s| ==> r[i] == ToLower(s[i])
  {
    seq(|s|, i requires 0 <= i < |s| => ToLower(s[i]))
  }

  /** Case does not matter: text decodes, or fails, exactly as its lowercase form does. */
  lemma {:induction false} DecodeIgnoresCase(s: seq<byte>)
    ensures Decode(s) == Decode(Lower(s))
    decreases |s|
  {
    var t := Lower(s);
    if |s| >= 2 {
      assert t[2..] == Lower(s[2..]);
      DecodeIgnoresCase(s[2..]);
    }
  }

  /** Hexadecimal text of even length in either case decodes to the bytes
      whose EncodeToString is its lowercase form. */
  lemma DecodeAnyCase(s: seq<byte>)
    requires |s| % 2 == 0 && forall i :: 0 <= i < |s| ==> IsHexDigit(s[i])
    ensures Decode(s).Ok? && Encode(Decode(s).value) == Lower(s)
  {
    DecodeIgnoresCase(s);
    EncodeDecode(Lower(s));
  }

  /** The error names the leftmost byte that is not a hexadecimal digit. */
  lemma {:induction false} DecodeReportsFirstInvalidByte(s: seq<byte>, k: nat)
    requires k < |s| && !IsHexDigit(s[k])
    requires forall i :: 0 <= i < k ==> IsHexDigit(s[i])
    ensures Decode(s) == Err(HexInvalidByte(s[k]))
    decreases |s|
  {
    if k >= 2 {
      DecodeReportsFirstInvalidByte(s[2..], k - 2);
    }
  }

  /** Digits only, but an odd number of them: the length error. */
  lemma {:induction false} DecodeOddLength(s: seq<byte>)
    requires |s| % 2 == 1 && forall i :: 0 <= i < |s| ==> IsHexDigit(s[i])
    ensures Decode(s) == Err(HexLength)
    decreases |s|
  {
    if |s| > 1 {
      DecodeOddLength(s[2..]);
    }
  }
}
