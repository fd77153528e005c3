/** Byte strings as Go's []byte and string hold them, and the standard-library
    helpers over them that the parser relies on. */
module Bytes {

  /** An 8-bit byte; XOR and shifts are native on bit-vectors. */
  type byte = bv8

  /** Go's byte(n) for an n that fits keeps the value. */
  function ByteOf(n: nat): (b: byte)
    requires n < 256
    ensures b as int == n
  {
    if n == 0 then 0
    else
      var below := ByteOf(n - 1);
      Successor(below);
      below + 1
  }

  /** Adding one to a byte below 255 adds one to its value. ByteOf calls it
      so that the bit-vector step is proved once, apart from the recursion. */
  lemma Successor(b: byte)
    requires b as int < 255
    ensures (b + 1) as int == b as int + 1
  {
  }

  /** Go's strings.HasSuffix / bytes.HasSuffix. */
  predicate HasSuffix(s: seq<byte>, suffix: seq<byte>) {
    |suffix| <= |s| && s[|s| - |suffix|..] == suffix
  }

  /** Every byte is below 0x80. */
  predicate IsAscii(s: seq<byte>) {
    forall i :: 0 <= i < |s| ==> s[i] < 0x80
  }

  /** Every byte equals `b`. */
  predicate AllEqual(s: seq<byte>, b: byte) {
    forall i :: 0 <= i < |s| ==> s[i] == b
  }

  /** Go's bytes.TrimRight / strings.TrimRight with a one-byte cutset: the
      longest prefix of `s` that does not end in `b`, everything cut being `b`. */
  function TrimRight(s: seq<byte>, b: byte): (r: seq<byte>)
    ensures r <= s
    ensures r == [] || r[|r| - 1] != b
    ensures AllEqual(s[|r|..], b)
    decreases |s|
  {
    if |s| > 0 && s[|s| - 1] == b then TrimRight(s[..|s| - 1], b) else s
  }

  /** Appending bytes equal to `b` does not change what TrimRight keeps. */
  lemma {:induction false} TrimRightAbsorbs(s: seq<byte>, tail: seq<byte>, b: byte)
    requires AllEqual(tail, b)
    ensures TrimRight(s + tail, b) == TrimRight(s, b)
    decreases |tail|
  {
    if tail != [] {
      var shorter := tail[..|tail| - 1];
      assert (s + tail)[|s + tail| - 1] == b;
      assert (s + tail)[..|s + tail| - 1] == s + shorter;
      assert AllEqual(shorter, b);
      TrimRightAbsorbs(s, shorter, b);
    } else {
      assert s + tail == s;
    }
  }

  /** A sequence that does not end in `b`, followed by any run of `b`, trims back to itself. */
  lemma TrimRightOfRun(s: seq<byte>, tail: seq<byte>, b: byte)
    requires s == [] || s[|s| - 1] != b
    requires AllEqual(tail, b)
    ensures TrimRight(s + tail, b) == s
  {
    TrimRightAbsorbs(s, tail, b);
  }
}
