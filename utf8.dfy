/** Well-formed UTF-8, the condition under which Go's encoding/json carries a
    string field through Marshal and Unmarshal unchanged (invalid bytes are
    replaced by U+FFFD). */
module Utf8 {
  import opened Bytes

  predicate IsContinuation(b: byte) {
    0x80 <= b <= 0xBF
  }

  /** The length of the well-formed character at the head of `s` (section 4 of
      RFC 3629), or 0 when `s` does not start with one. */
  function LeadLength(s: seq<byte>): (n: nat)
    requires s != []
    ensures n <= |s| && n <= 4
  {
    var b := s[0];
    if b < 0x80 then 1
    else if 0xC2 <= b <= 0xDF then
      if |s| >= 2 && IsContinuation(s[1]) then 2 else 0
    else if 0xE0 <= b <= 0xEF then
      var lo: byte := if b == 0xE0 then 0xA0 else 0x80;
      var hi: byte := if b == 0xED then 0x9F else 0xBF;
      if |s| >= 3 && lo <= s[1] <= hi && IsContinuation(s[2]) then 3 else 0
    else if 0xF0 <= b <= 0xF4 then
      var lo: byte := if b == 0xF0 then 0x90 else 0x80;
      var hi: byte := if b == 0xF4 then 0x8F else 0xBF;
      if |s| >= 4 && lo <= s[1] <= hi && IsContinuation(s[2]) && IsContinuation(s[3]) then 4 else 0
    else 0
  }

  /** `s` is a sequence of well-formed UTF-8 characters. */
  predicate Valid(s: seq<byte>)
    decreases |s|
  {
    s == [] || (LeadLength(s) > 0 && Valid(s[LeadLength(s)..]))
  }

  /** ASCII text, such as the hexadecimal signature, is valid UTF-8. */
  lemma {:induction false} AsciiIsValid(s: seq<byte>)
    requires IsAscii(s)
    ensures Valid(s)
    decreases |s|
  {
    if s != [] {
      assert LeadLength(s) == 1;
      AsciiIsValid(s[1..]);
    }
  }
}
