/** The signed envelope of parser.go: SignedPayload, its JSON form as
    encoding/json gives it, and jsonUnmarshalPlainText with its suffix rule. */
module Envelope {
  import opened Bytes
  import opened Errors
  import Utf8

  /** SignedPayload: `data` is the payload as a Go string, `signature` its
      HMAC in hexadecimal; Go strings are byte strings. */
  datatype SignedPayload = SignedPayload(data: seq<byte>, signature: seq<byte>)

  const Nul: byte := 0x00
  const CloseBrace: byte := 0x7D   // '}'
  const Zero: byte := 0x30         // '0'
  const Equals: byte := 0x3D       // '='
  /** "=0" */
  const ZeroSuffix: seq<byte> := [Equals, Zero]
  /** "equest" */
  const Equest: seq<byte> := [0x65, 0x71, 0x75, 0x65, 0x73, 0x74]
  /** "=equest" */
  const RequestSuffix: seq<byte> := [Equals] + Equest

  /** json.Marshal and json.Unmarshal for SignedPayload; encoding/json is not
      part of this model. */
  datatype JsonCodec = JsonCodec(marshal: SignedPayload -> Result<seq<byte>>, unmarshal: seq<byte> -> Result<SignedPayload>)
  {
    /** What encoding/json guarantees for a struct of two strings: Marshal
        succeeds with an object text, which ends in '}', and Unmarshal gives
        the struct back when both strings are valid UTF-8; whatever Unmarshal
        rejects, it rejects with a JSON error. */
    ghost predicate Valid() {
      && (forall sp: SignedPayload ::
            && marshal(sp).Ok?
            && marshal(sp).value != []
            && marshal(sp).value[|marshal(sp).value| - 1] == CloseBrace
            && (Utf8.Valid(sp.data) && Utf8.Valid(sp.signature) ==> unmarshal(marshal(sp).value) == Ok(sp)))
      && (forall text: seq<byte> :: unmarshal(text).Err? ==> unmarshal(text).error.Json?)
    }
  }

  /** The compatibility rule of jsonUnmarshalPlainText: "=0" at the end loses its
      trailing '0's (strings.TrimRight), else "=equest" at the end loses "equest"
      (strings.TrimSuffix), else nothing changes. Since the byte before the
      last '0' is '=', exactly one '0' goes. */
  function SuffixQuirk(data: seq<byte>): (r: seq<byte>)
    ensures HasSuffix(data, ZeroSuffix) ==> r + [Zero] == data
    ensures !HasSuffix(data, ZeroSuffix) && HasSuffix(data, RequestSuffix) ==> r + Equest == data
    ensures !HasSuffix(data, ZeroSuffix) && !HasSuffix(data, RequestSuffix) ==> r == data
    ensures HasSuffix(data, ZeroSuffix) || HasSuffix(data, RequestSuffix) ==> r != [] && r[|r| - 1] == Equals
  {
    if HasSuffix(data, ZeroSuffix) then
      var kept := data[..|data| - 1];
      assert kept + [Zero] == data;
      TrimRightOfRun(kept, [Zero], Zero);
      TrimRight(data, Zero)
    else if HasSuffix(data, RequestSuffix) then
      data[..|data| - |Equest|]
    else
      data
  }

  /** The rule changes `data` exactly when it ends in "=0" or "=equest". */
  lemma SuffixQuirkFixedPoint(data: seq<byte>)
    ensures SuffixQuirk(data) == data <==> !HasSuffix(data, ZeroSuffix) && !HasSuffix(data, RequestSuffix)
  {
    var r := SuffixQuirk(data);
    if HasSuffix(data, ZeroSuffix) {
      assert |r| < |data|;
    } else if HasSuffix(data, RequestSuffix) {
      assert |r| < |data|;
    }
  }

  /** Applying the rule twice is applying it once. */
  lemma SuffixQuirkIdempotent(data: seq<byte>)
    ensures SuffixQuirk(SuffixQuirk(data)) == SuffixQuirk(data)
  {
    var r := SuffixQuirk(data);
    if HasSuffix(data, ZeroSuffix) || HasSuffix(data, RequestSuffix) {
      assert r[|r| - 1] == Equals;
    }
  }

  /** The result is always a prefix of the input. */
  lemma SuffixQuirkPrefix(data: seq<byte>)
    ensures SuffixQuirk(data) <= data
  {
    var r := SuffixQuirk(data);
    if HasSuffix(data, ZeroSuffix) {
      assert data[..|r|] == r;
    } else if HasSuffix(data, RequestSuffix) {
      assert data[..|r|] == r;
    }
  }

  /** The two cases the rule exists for: "dGVzdA=0" and "dGVzdA=equest" both become "dGVzdA=". */
  lemma SuffixQuirkExamples()
    ensures var base: seq<byte> := [0x64, 0x47, 0x56, 0x7A, 0x64, 0x41, Equals];   // "dGVzdA="
      SuffixQuirk(base + [Zero]) == base && SuffixQuirk(base + Equest) == base
  {
    var base: seq<byte> := [0x64, 0x47, 0x56, 0x7A, 0x64, 0x41, Equals];
    assert HasSuffix(base + [Zero], ZeroSuffix);
    assert (base + Equest)[|base + Equest| - 1] == 0x74;
    assert HasSuffix(base + Equest, RequestSuffix);
  }

  /** jsonUnmarshalPlainText: drop every trailing NUL (bytes.TrimRight), parse
      the JSON, then apply the suffix rule to `data`. */
  function UnmarshalPlainText(json: JsonCodec, plainText: seq<byte>): (r: Result<SignedPayload>)
    ensures r.Ok? ==> SuffixQuirk(r.value.data) == r.value.data
  {
    match json.unmarshal(TrimRight(plainText, Nul))
    case Err(e) => Err(e)
    case Ok(payload) =>
      SuffixQuirkIdempotent(payload.data);
      Ok(payload.(data := SuffixQuirk(payload.data)))
  }

  /** Any number of trailing NULs are ignored. */
  lemma UnmarshalIgnoresTrailingNuls(json: JsonCodec, plainText: seq<byte>, nuls: seq<byte>)
    requires AllEqual(nuls, Nul)
    ensures UnmarshalPlainText(json, plainText + nuls) == UnmarshalPlainText(json, plainText)
  {
    TrimRightAbsorbs(plainText, nuls, Nul);
  }

  /** Parsing the NUL-terminated JSON text of a payload gives the payload back,
      up to the suffix rule on `data`. */
  lemma UnmarshalMarshalled(json: JsonCodec, sp: SignedPayload)
    requires json.Valid()
    requires Utf8.Valid(sp.data) && Utf8.Valid(sp.signature)
    ensures json.marshal(sp).Ok?
    ensures UnmarshalPlainText(json, json.marshal(sp).value + [Nul])
         == Ok(SignedPayload(SuffixQuirk(sp.data), sp.signature))
  {
    var text := json.marshal(sp).value;
    TrimRightOfRun(text, [Nul], Nul);
  }
}
