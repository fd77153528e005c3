/** PKCS7Padding and PKCS7UnPadding (parser.go), PKCS #7 block padding as in
    section 6.3 of RFC 5652, with the source's permissive unpadding. */
module Padding {
  import opened Bytes
  import opened Errors

  /** Appends n = blockSize - len(data) % blockSize bytes, each `byte(n)`:
      a full block when `data` already fills whole blocks. Go panics for a
      blockSize of zero (division) or below (a negative bytes.Repeat count). */
  function Pkcs7Padding(data: seq<byte>, blockSize: int): (r: seq<byte>)
    requires blockSize > 0
    ensures |r| % blockSize == 0
    ensures |data| < |r| <= |data| + blockSize
    ensures r[..|data|] == data
    ensures forall i :: |data| <= i < |r| ==> r[i] as int == (|r| - |data|) % 256
  {
    var padding := blockSize - |data| % blockSize;
    PadCount(|data|, blockSize);
    data + seq(padding, _ => ByteOf(padding % 256))
  }

  /** n = blockSize - len % blockSize is between 1 and blockSize and completes a block. */
  lemma PadCount(len: nat, blockSize: int)
    requires blockSize > 0
    ensures 1 <= blockSize - len % blockSize <= blockSize
    ensures (len + (blockSize - len % blockSize)) % blockSize == 0
  {
    var q := len / blockSize;
    assert len == q * blockSize + len % blockSize;
    assert len + (blockSize - len % blockSize) == (q + 1) * blockSize;
    ModOfMultiple(q + 1, blockSize);
  }

  lemma ModOfMultiple(k: nat, m: int)
    requires m > 0
    ensures (k * m) % m == 0
  {
    var a := k * m;
    var q, r := a / m, a % m;
    assert a == q * m + r;
    assert (k - q) * m == r;
    if k - q >= 1 {
      assert false;
    } else if k - q <= -1 {
      assert false;
    }
  }

  /** Trusts the last byte as the pad length: fails only on empty input or a
      count beyond the length; never looks at the other pad bytes. */
  function Pkcs7Unpadding(data: seq<byte>): (r: Result<seq<byte>>)
    ensures r.Ok? <==> |data| > 0 && data[|data| - 1] as int <= |data|
    ensures r.Err? ==> r.error == InvalidPaddingSize
    ensures r.Ok? ==> r.value <= data && |data| - |r.value| == data[|data| - 1] as int
  {
    var length := |data|;
    if length == 0 then Err(InvalidPaddingSize)
    else
      var unPadding := data[length - 1] as int;
      if unPadding > length then Err(InvalidPaddingSize)
      else Ok(data[..length - unPadding])
  }

  /** Unpadding undoes padding for every block size a byte can count. */
  lemma PaddingRoundTrip(data: seq<byte>, blockSize: int)
    requires 0 < blockSize <= 255
    ensures Pkcs7Unpadding(Pkcs7Padding(data, blockSize)) == Ok(data)
  {
    var r := Pkcs7Padding(data, blockSize);
    assert r[|r| - 1] as int == |r| - |data|;
  }

  /** Data that fills whole blocks gets a full extra block of bytes equal to blockSize. */
  lemma PaddingAddsFullBlock(data: seq<byte>, blockSize: int)
    requires 0 < blockSize <= 255 && |data| % blockSize == 0
    ensures Pkcs7Padding(data, blockSize) == data + seq(blockSize, _ => ByteOf(blockSize))
  {
    var padding := blockSize - |data| % blockSize;
    assert padding == blockSize && padding % 256 == blockSize;
  }

  /** The byte(padding) conversion wraps: with blockSize 256 a full pad block is all
      zeros, which unpadding reads as "nothing to strip", so the bound 255 is tight. */
  lemma PaddingWrapsAt256(data: seq<byte>)
    requires |data| % 256 == 0
    ensures Pkcs7Unpadding(Pkcs7Padding(data, 256)) == Ok(data + seq(256, _ => 0))
  {
    var zeros: seq<byte> := seq(256, _ => 0);
    assert 256 - |data| % 256 == 256;
    assert Pkcs7Padding(data, 256) == data + zeros;
    var r := data + zeros;
    assert r[|r| - 1] == 0;
    assert r[..|r| - 0] == r;
  }

  /** A last byte of zero strips nothing. */
  lemma UnpaddingZeroCount(data: seq<byte>)
    requires |data| > 0 && data[|data| - 1] == 0
    ensures Pkcs7Unpadding(data) == Ok(data)
  {
    assert data[..|data|] == data;
  }

  /** Only the count byte matters: whatever the other n - 1 pad bytes hold, the result is the same. */
  lemma UnpaddingIgnoresPadBytes(prefix: seq<byte>, x: seq<byte>, y: seq<byte>, n: byte)
    requires |x| == |y| && |x| + 1 == n as int
    ensures Pkcs7Unpadding(prefix + x + [n]) == Pkcs7Unpadding(prefix + y + [n]) == Ok(prefix)
  {
    assert (prefix + x + [n])[..|prefix|] == prefix;
    assert (prefix + y + [n])[..|prefix|] == prefix;
  }
}
