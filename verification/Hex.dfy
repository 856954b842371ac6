/** packages/ecvrf/src/encoding.ts: the hex codec. */
module Hex {
  import opened Common

  predicate IsHexDigit(c: char) {
    '0' <= c <= '9' || 'a' <= c <= 'f' || 'A' <= c <= 'F'
  }

  function DigitValue(c: char): (v: nat)
    requires IsHexDigit(c)
    ensures v < 16
  {
    if '0' <= c <= '9' then c as int - '0' as int
    else if 'a' <= c <= 'f' then c as int - 'a' as int + 10
    else c as int - 'A' as int + 10
  }

  function Digit(v: nat): (c: char)
    requires v < 16
    ensures IsHexDigit(c) && DigitValue(c) == v
  {
    if v < 10 then (v + '0' as int) as char else (v - 10 + 'a' as int) as char
  }

  /** The digits in order, and both cases of the letters read the same. */
  lemma DigitTable(v: nat)
    requires v < 16
    ensures Digit(v) == "0123456789abcdef"[v]
    ensures DigitValue("0123456789abcdef"[v]) == v && DigitValue("0123456789ABCDEF"[v]) == v
  {
  }

  function LowerCase(s: string): (t: string)
    ensures |t| == |s|
  {
    seq(|s|, i requires 0 <= i < |s| => if 'A' <= s[i] <= 'F' then (s[i] as int + 32) as char else s[i])
  }

  /** The text after an optional "0x". */
  function Unprefixed(hex: string): string {
    if |hex| >= 2 && hex[0] == '0' && hex[1] == 'x' then hex[2..] else hex
  }

  predicate AllHex(s: string) {
    forall i :: 0 <= i < |s| ==> IsHexDigit(s[i])
  }

  /** bytesToHex: two lower-case digits for every byte. */
  function BytesToHex(b: bytes): (s: string)
    ensures |s| == 2 * |b|
  {
    if b == [] then "" else [Digit(b[0] / 16), Digit(b[0] % 16)] + BytesToHex(b[1..])
  }

  /** The digits of byte i stand at 2i and 2i + 1, the high half first. */
  lemma {:induction false} TextAt(b: bytes, i: nat)
    requires i < |b|
    ensures BytesToHex(b)[2 * i] == "0123456789abcdef"[b[i] / 16]
    ensures BytesToHex(b)[2 * i + 1] == "0123456789abcdef"[b[i] % 16]
  {
    if i > 0 {
      TextAt(b[1..], i - 1);
    } else {
      DigitTable(b[0] / 16);
      DigitTable(b[0] % 16);
    }
  }

  /** Two digits give one byte, the first digit its high half. */
  function PairValues(clean: string): (b: bytes)
    requires AllHex(clean) && |clean| % 2 == 0
    ensures |b| == |clean| / 2
  {
    if clean == "" then [] else [16 * DigitValue(clean[0]) + DigitValue(clean[1])] + PairValues(clean[2..])
  }

  lemma {:induction false} PairAt(clean: string, i: nat)
    requires AllHex(clean) && |clean| % 2 == 0 && i < |clean| / 2
    ensures PairValues(clean)[i] == 16 * DigitValue(clean[2 * i]) + DigitValue(clean[2 * i + 1])
  {
    if i > 0 { PairAt(clean[2..], i - 1); }
  }

  function Decode(hex: string): (r: Outcome<bytes>) {
    var clean := Unprefixed(hex);
    if |clean| % 2 != 0 then Throws(OddHexLength)
    else if !AllHex(clean) then Throws(NonHexCharacter)
    else Returns(PairValues(clean))
  }

  /** hexToBytes: strip "0x", check the length and the alphabet, then fill the buffer pair by pair. */
  method HexToBytes(hex: string) returns (r: Outcome<bytes>)
    ensures r == Decode(hex)
  {
    var clean := if "0x" <= hex then hex[2..] else hex;
    if |clean| % 2 != 0 { return Throws(OddHexLength); }
    if !AllHex(clean) { return Throws(NonHexCharacter); }
    var out := new byte[|clean| / 2](i => 0);
    ghost var all := PairValues(clean);
    for i := 0 to out.Length
      invariant out[..i] == all[..i]
    {
      PairAt(clean, i);
      ghost var prefix := out[..i];
      out[i] := 16 * DigitValue(clean[2 * i]) + DigitValue(clean[2 * i + 1]);
      assert out[..i + 1] == prefix + [out[i]];
    }
    assert out[..] == out[..out.Length] == all;
    return Returns(out[..]);
  }

  /** An odd length is reported before a character that is no hex digit, and a prefix "0x" counts for neither. */
  lemma DecodeErrors(clean: string)
    requires !("0x" <= clean)
    ensures Decode("0x" + clean) == Decode(clean)
    ensures |clean| % 2 == 1 <==> Decode(clean) == Throws(OddHexLength)
    ensures |clean| % 2 == 0 && (exists c :: c in clean && !IsHexDigit(c)) <==> Decode(clean) == Throws(NonHexCharacter)
  {
    assert Unprefixed("0x" + clean) == clean && Unprefixed(clean) == clean;
    hide PairValues;
  }

  /** The text of a byte string is even-length hex text that reads back as the same bytes. */
  lemma {:induction false} PairsOfHex(b: bytes)
    ensures AllHex(BytesToHex(b)) && PairValues(BytesToHex(b)) == b
  {
    if b != [] {
      PairsOfHex(b[1..]);
      var s := BytesToHex(b);
      assert s[2..] == BytesToHex(b[1..]);
      forall k | 0 <= k < |s| ensures IsHexDigit(s[k]) {
        assert k >= 2 ==> s[k] == s[2..][k - 2];
      }
      assert b == [b[0]] + b[1..];
    }
  }

  lemma PairCanonical(c: char, d: char)
    requires IsHexDigit(c) && IsHexDigit(d)
    ensures var b := 16 * DigitValue(c) + DigitValue(d);
      b < 256 && [Digit(b / 16), Digit(b % 16)] == LowerCase([c, d])
  {
    var b := 16 * DigitValue(c) + DigitValue(d);
    assert b / 16 == DigitValue(c) && b % 16 == DigitValue(d);
  }

  lemma {:induction false} HexOfPairs(clean: string)
    requires AllHex(clean) && |clean| % 2 == 0
    ensures BytesToHex(PairValues(clean)) == LowerCase(clean)
  {
    if clean != "" {
      hide Digit, DigitValue;
      HexOfPairs(clean[2..]);
      var pairs := PairValues(clean);
      assert pairs[1..] == PairValues(clean[2..]);
      PairCanonical(clean[0], clean[1]);
      assert LowerCase(clean) == LowerCase([clean[0], clean[1]]) + LowerCase(clean[2..]);
    }
  }

  /** Decoding undoes encoding: the text of a byte string always decodes, and to that byte string. */
  lemma HexRoundTrip(b: bytes)
    ensures Decode(BytesToHex(b)) == Returns(b)
  {
    PairsOfHex(b);
    var s := BytesToHex(b);
    assert |s| >= 2 ==> IsHexDigit(s[1]);
    assert Unprefixed(s) == s;
  }

  /** Decoding succeeds exactly on even-length hex text, and re-encoding gives its lower-cased unprefixed form. */
  lemma HexCanonical(hex: string)
    ensures Decode(hex).Returns? <==> |Unprefixed(hex)| % 2 == 0 && AllHex(Unprefixed(hex))
    ensures Decode(hex).Returns? ==> BytesToHex(Decode(hex).value) == LowerCase(Unprefixed(hex))
  {
    if Decode(hex).Returns? { HexOfPairs(Unprefixed(hex)); }
  }
}
