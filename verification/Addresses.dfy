/** packages/vrf-client/src/addresses.ts and the client's view of the library, the hash and the program. */
module Addresses {
  import opened Common
  import opened Ciphersuite
  import opened Registry

  /** What the client computes with: the ciphersuite, SHA-256 and the program it talks to. */
  datatype Client = Client(g: Suite, sha256: Hash32, program: Program)

  /** deriveAuthorityAddress: throws on a label that is not 32 bytes long. */
  function DeriveAuthorityAddress(owner: bytes32, labelBytes: bytes, p: Program): Outcome<bytes32> {
    if |labelBytes| != 32 then Throws(BadLabelLength) else Returns(p.AuthorityAddress(owner, labelBytes))
  }

  /** The label padded with zeroes on the right. */
  function PaddedLabel(text: bytes): (r: bytes32)
    requires |text| <= 32
  {
    text + seq<byte>(32 - |text|, i => 0)
  }

  /** encodeLabel: copy the text into a zeroed buffer of 32 bytes. */
  method EncodeLabel(text: bytes) returns (r: Outcome<bytes>)
    ensures r == if |text| > 32 then Throws(BadLabelLength) else Returns(PaddedLabel(text))
    ensures |text| <= 32 ==>
      |r.value| == 32 && r.value[..|text|] == text && forall i :: |text| <= i < 32 ==> r.value[i] == 0
  {
    if |text| > 32 { return Throws(BadLabelLength); }
    var padded := new byte[32](i => 0);
    forall i | 0 <= i < |text| { padded[i] := text[i]; }
    assert padded[..] == PaddedLabel(text);
    return Returns(padded[..]);
  }

  /** The text without its trailing zero bytes. */
  function Trimmed(text: bytes): bytes {
    if text != [] && text[|text| - 1] == 0 then Trimmed(text[..|text| - 1]) else text
  }

  /** Two texts name the same authority of an owner exactly when they agree up to trailing zero bytes. */
  lemma LabelsCollideIff(a: bytes, b: bytes)
    requires |a| <= 32 && |b| <= 32
    ensures PaddedLabel(a) == PaddedLabel(b) <==> Trimmed(a) == Trimmed(b)
  {
    TrimmedOfPadded(a, 32 - |a|);
    TrimmedOfPadded(b, 32 - |b|);
    PaddedOfTrimmed(a);
    PaddedOfTrimmed(b);
  }

  lemma {:induction false} TrimmedOfPadded(a: bytes, n: nat)
    ensures Trimmed(a + seq<byte>(n, i => 0)) == Trimmed(a)
  {
    var p := a + seq<byte>(n, i => 0);
    if n == 0 {
      assert p == a;
    } else {
      TrimmedOfPadded(a, n - 1);
      assert p[..|p| - 1] == a + seq<byte>(n - 1, i => 0);
    }
  }

  lemma {:induction false} PaddedOfTrimmed(a: bytes)
    requires |a| <= 32
    ensures |Trimmed(a)| <= |a| && PaddedLabel(Trimmed(a)) == PaddedLabel(a)
  {
    if a != [] && a[|a| - 1] == 0 {
      PaddedOfTrimmed(a[..|a| - 1]);
      assert PaddedLabel(a[..|a| - 1]) == PaddedLabel(a);
    }
  }
}
