/** AES in cipher-block-chaining mode (section 6.2 of NIST SP 800-38A), as
    parser.go uses it through crypto/aes and crypto/cipher. The AES block
    permutation itself is a parameter; the chaining is modelled exactly. */
module Cbc {
  import opened Bytes

  /** aes.BlockSize. */
  const BlockSize: nat := 16

  type Block = s: seq<byte> | |s| == BlockSize witness seq(BlockSize, _ => 0)

  /** aes.NewCipher accepts 16-, 24- and 32-byte keys (AES-128, -192, -256). */
  predicate KeySizeOk(n: int) {
    n == 16 || n == 24 || n == 32
  }

  /** The AES block permutation under a key, and its inverse. */
  datatype BlockCipher = BlockCipher(encrypt: (seq<byte>, Block) -> Block, decrypt: (seq<byte>, Block) -> Block)
  {
    /** Decryption undoes encryption under every key aes.NewCipher accepts. */
    ghost predicate Valid() {
      forall key: seq<byte>, b: Block :: KeySizeOk(|key|) ==> decrypt(key, encrypt(key, b)) == b
    }
  }

  /** Byte-wise exclusive or of two equally long strings. */
  function Xor(a: seq<byte>, b: seq<byte>): (r: seq<byte>)
    requires |a| == |b|
    ensures |r| == |a|
    decreases |a|
  {
    if a == [] then [] else [a[0] ^ b[0]] + Xor(a[1..], b[1..])
  }

  lemma {:induction false} XorTwice(a: seq<byte>, b: seq<byte>)
    requires |a| == |b|
    ensures Xor(Xor(a, b), b) == a
    decreases |a|
  {
    if a != [] {
      var x := Xor(a, b);
      assert x[1..] == Xor(a[1..], b[1..]);
      XorTwice(a[1..], b[1..]);
      assert [a[0]] + a[1..] == a;
    }
  }

  /** CBC encryption: C_1 = E(P_1 xor IV), C_j = E(P_j xor C_(j-1)). */
  function Encrypt(c: BlockCipher, key: seq<byte>, iv: Block, src: seq<byte>): (r: seq<byte>)
    requires |src| % BlockSize == 0
    ensures |r| == |src|
    decreases |src|
  {
    if src == [] then []
    else
      var out := c.encrypt(key, Xor(src[..BlockSize], iv));
      out + Encrypt(c, key, out, src[BlockSize..])
  }

  /** CBC decryption: P_1 = D(C_1) xor IV, P_j = D(C_j) xor C_(j-1). */
  function Decrypt(c: BlockCipher, key: seq<byte>, iv: Block, src: seq<byte>): (r: seq<byte>)
    requires |src| % BlockSize == 0
    ensures |r| == |src|
    decreases |src|
  {
    if src == [] then []
    else
      var block: Block := src[..BlockSize];
      Xor(c.decrypt(key, block), iv) + Decrypt(c, key, block, src[BlockSize..])
  }

  /** CBC decryption with the same key and IV recovers the plaintext. */
  lemma {:induction false} DecryptEncrypt(c: BlockCipher, key: seq<byte>, iv: Block, src: seq<byte>)
    requires c.Valid() && KeySizeOk(|key|)
    requires |src| % BlockSize == 0
    ensures Decrypt(c, key, iv, Encrypt(c, key, iv, src)) == src
    decreases |src|
  {
    if src != [] {
      var p := src[..BlockSize];
      var out := c.encrypt(key, Xor(p, iv));
      var rest := Encrypt(c, key, out, src[BlockSize..]);
      var e: seq<byte> := out + rest;
      assert e[..BlockSize] == out && e[BlockSize..] == rest;
      XorTwice(p, iv);
      DecryptEncrypt(c, key, out, src[BlockSize..]);
      assert p + src[BlockSize..] == src;
    }
  }

  /** Regrouping a concatenation; the loops below call it so that each
      iteration's step is stated once rather than rediscovered. */
  lemma AppendAssoc(a: seq<byte>, b: seq<byte>, c: seq<byte>)
    ensures (a + b) + c == a + (b + c)
  {
  }

  /** dst[off..off + |done|] holds `done`. */
  ghost predicate Holds(dst: array<byte>, off: nat, done: seq<byte>)
    reads dst
  {
    off + |done| <= dst.Length && forall j :: 0 <= j < |done| ==> dst[off + j] == done[j]
  }

  /** Outside dst[off..off + len], `dst` still holds `orig`. */
  ghost predicate SameOutside(dst: array<byte>, off: nat, len: nat, orig: seq<byte>)
    reads dst
  {
    |orig| == dst.Length && forall j :: 0 <= j < dst.Length && !(off <= j < off + len) ==> dst[j] == orig[j]
  }

  /** Stores the next block of output right after the filled part of
      dst[off..off + len]; nothing outside that region changes. */
  method PutBlock(dst: array<byte>, off: nat, len: nat, i: nat, block: Block, ghost done: seq<byte>, ghost orig: seq<byte>)
    requires Holds(dst, off, done) && SameOutside(dst, off, len, orig)
    requires i == |done| && i + BlockSize <= len && off + len <= dst.Length
    modifies dst
    ensures Holds(dst, off, done + block) && SameOutside(dst, off, len, orig)
    ensures dst[off + i + BlockSize..off + len] == old(dst[off + i + BlockSize..off + len])
  {
    var at := off + i;
    forall j | 0 <= j < BlockSize {
      dst[at + j] := block[j];
    }
  }

  /** CryptBlocks of a CBC encrypter: enciphers `src` block by block into
      dst[off..off + |src|], chaining each output block into the next; the rest
      of `dst` is untouched. Go panics when `src` is not whole blocks or `dst`
      is shorter. */
  method EncryptBlocks(c: BlockCipher, key: seq<byte>, iv: Block, dst: array<byte>, off: nat, src: seq<byte>)
    requires |src| % BlockSize == 0 && off + |src| <= dst.Length
    modifies dst
    ensures dst[off..off + |src|] == Encrypt(c, key, iv, src)
    ensures forall j :: 0 <= j < dst.Length && !(off <= j < off + |src|) ==> dst[j] == old(dst[j])
  {
    ghost var orig := dst[..];
    ghost var done := [];
    var rest, i, chain := src, 0, iv;
    while rest != []
      invariant |rest| % BlockSize == 0 && i + |rest| == |src| && |done| == i
      invariant Holds(dst, off, done) && SameOutside(dst, off, |src|, orig)
      invariant done + Encrypt(c, key, chain, rest) == Encrypt(c, key, iv, src)
      decreases |rest|
    {
      var out := c.encrypt(key, Xor(rest[..BlockSize], chain));
      PutBlock(dst, off, |src|, i, out, done, orig);
      AppendAssoc(done, out, Encrypt(c, key, out, rest[BlockSize..]));
      done := done + out;
      rest, i, chain := rest[BlockSize..], i + BlockSize, out;
    }
    assert dst[off..off + |src|] == done;
  }

  /** CryptBlocks of a CBC decrypter into dst[off..off + |src|]. Go's decrypter
      walks the blocks from last to first; each plaintext block depends only on
      the ciphertext, so the order does not change the result. */
  method DecryptBlocks(c: BlockCipher, key: seq<byte>, iv: Block, dst: array<byte>, off: nat, src: seq<byte>)
    requires |src| % BlockSize == 0 && off + |src| <= dst.Length
    modifies dst
    ensures dst[off..off + |src|] == Decrypt(c, key, iv, src)
    ensures forall j :: 0 <= j < dst.Length && !(off <= j < off + |src|) ==> dst[j] == old(dst[j])
  {
    ghost var orig := dst[..];
    ghost var done := [];
    var rest, i, chain := src, 0, iv;
    while rest != []
      invariant |rest| % BlockSize == 0 && i + |rest| == |src| && |done| == i
      invariant Holds(dst, off, done) && SameOutside(dst, off, |src|, orig)
      invariant done + Decrypt(c, key, chain, rest) == Decrypt(c, key, iv, src)
      decreases |rest|
    {
      var block: Block := rest[..BlockSize];
      var out := Xor(c.decrypt(key, block), chain);
      PutBlock(dst, off, |src|, i, out, done, orig);
      AppendAssoc(done, out, Decrypt(c, key, block, rest[BlockSize..]));
      done := done + out;
      rest, i, chain := rest[BlockSize..], i + BlockSize, block;
    }
    assert dst[off..off + |src|] == done;
  }
}
