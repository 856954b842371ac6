/** packages/ecvrf/src/encoding.ts: byte concatenation, integer codecs, hex codec, comparison. */
module Encoding {
  import opened Common
  import Bits

  // ---------------------------------------------------------------- specification

  function Pow256(n: nat): (p: nat)
    ensures p >= 1
  {
    if n == 0 then 1 else 256 * Pow256(n - 1)
  }

  /** The little-endian value of a byte string. */
  function LE(s: bytes): nat {
    if s == [] then 0 else s[0] + 256 * LE(s[1..])
  }

  /** The big-endian value of a byte string. */
  function BE(s: bytes): nat {
    if s == [] then 0 else 256 * BE(s[..|s| - 1]) + s[|s| - 1]
  }

  /** The low `length` base-256 digits of n, least significant first. */
  function EncodeLE(n: nat, length: nat): (s: bytes)
    ensures |s| == length
  {
    if length == 0 then [] else [n % 256] + EncodeLE(n / 256, length - 1)
  }

  /** The low `length` base-256 digits of n, most significant first. */
  function EncodeBE(n: nat, length: nat): (s: bytes)
    ensures |s| == length
  {
    if length == 0 then [] else EncodeBE(n / 256, length - 1) + [n % 256]
  }

  lemma {:induction false} LEBound(s: bytes)
    ensures LE(s) < Pow256(|s|)
  {
    if s != [] { LEBound(s[1..]); }
  }

  lemma {:induction false} Pow256Add(a: nat, b: nat)
    ensures Pow256(a + b) == Pow256(a) * Pow256(b)
  {
    if a > 0 {
      Pow256Add(a - 1, b);
      ScaledProduct(256, Pow256(a - 1), Pow256(b));
    }
  }

  lemma ScaledProduct(k: int, a: int, b: int)
    ensures (k * a) * b == k * (a * b)
  {
  }

  lemma {:induction false} LEAppend(a: bytes, b: bytes)
    ensures LE(a + b) == LE(a) + Pow256(|a|) * LE(b)
  {
    if a == [] {
      assert a + b == b;
    } else {
      LEAppend(a[1..], b);
      assert (a + b)[1..] == a[1..] + b;
      ScaledProduct(256, Pow256(|a| - 1), LE(b));
    }
  }

  /** Decoding undoes encoding for every integer that fits. */
  lemma {:induction false} DecodeEncodeLE(n: nat, length: nat)
    requires n < Pow256(length)
    ensures LE(EncodeLE(n, length)) == n
  {
    if length > 0 {
      DecodeEncodeLE(n / 256, length - 1);
      assert EncodeLE(n, length)[1..] == EncodeLE(n / 256, length - 1);
    }
  }

  /** Encoding undoes decoding for every byte string. */
  lemma {:induction false} EncodeDecodeLE(s: bytes)
    ensures EncodeLE(LE(s), |s|) == s
  {
    if s != [] {
      EncodeDecodeLE(s[1..]);
      assert LE(s) % 256 == s[0] && LE(s) / 256 == LE(s[1..]);
      assert s == [s[0]] + s[1..];
    }
  }

  /** Byte i of a string is digit i of its little-endian value. */
  lemma {:induction false} DigitOfLE(s: bytes, i: nat)
    requires i < |s|
    ensures LE(s) / Pow256(i) % 256 == s[i]
  {
    if i > 0 {
      DigitOfLE(s[1..], i - 1);
      DividedTwice(LE(s), s[0], LE(s[1..]), Pow256(i - 1));
    }
  }

  /** Counted from the end, it is a digit of its big-endian value. */
  lemma DigitOfBE(s: bytes, i: nat)
    requires i < |s|
    ensures BE(s) / Pow256(|s| - 1 - i) % 256 == s[i]
  {
    hide LE, BE, Pow256;
    var r, j := Reverse(s), |s| - 1 - i;
    assert BE(s) == LE(r) by {
      assert Reverse(r) == s;
      LEIsBEReversed(r);
    }
    DigitOfLE(r, j);
  }

  lemma DividedTwice(n: nat, low: nat, high: nat, p: nat)
    requires low < 256 && n == low + 256 * high && p > 0
    ensures n / (256 * p) == high / p
  {
    ScaledProduct(256, p, high / p);
    assert high == p * (high / p) + high % p;
    Bits.DivModUnique(n, 256 * p, high / p, 256 * (high % p) + low);
  }

  /** The two byte orders read each other's reversed strings. */
  lemma {:induction false} LEIsBEReversed(s: bytes)
    ensures LE(s) == BE(Reverse(s))
  {
    if s != [] {
      LEIsBEReversed(s[1..]);
      var r := Reverse(s);
      assert r[..|r| - 1] == Reverse(s[1..]);
    }
  }

  lemma {:induction false} EncodeBEIsReversed(n: nat, length: nat)
    ensures EncodeBE(n, length) == Reverse(EncodeLE(n, length))
  {
    if length > 0 {
      EncodeBEIsReversed(n / 256, length - 1);
      ReverseConcat([n % 256], EncodeLE(n / 256, length - 1));
      assert Reverse<byte>([n % 256]) == [n % 256];
    }
  }

  lemma DecodeEncodeBE(n: nat, length: nat)
    requires n < Pow256(length)
    ensures BE(EncodeBE(n, length)) == n
  {
    EncodeBEIsReversed(n, length);
    LEIsBEReversed(EncodeLE(n, length));
    DecodeEncodeLE(n, length);
  }

  lemma EncodeDecodeBE(s: bytes)
    ensures EncodeBE(BE(s), |s|) == s && BE(s) < Pow256(|s|)
  {
    var r := Reverse(s);
    assert Reverse(r) == s;
    LEIsBEReversed(r);
    LEBound(r);
    EncodeDecodeLE(r);
    EncodeBEIsReversed(LE(r), |r|);
  }

  /** Encoding in a fixed width keeps the residue modulo 256^length and nothing else. */
  lemma {:induction false} EncodeBEResidue(n: nat, length: nat)
    ensures BE(EncodeBE(n, length)) == n % Pow256(length)
  {
    if length > 0 {
      var s := EncodeBE(n, length);
      assert s[..length - 1] == EncodeBE(n / 256, length - 1);
      EncodeBEResidue(n / 256, length - 1);
      ResidueSplit(n, Pow256(length - 1));
    }
  }

  lemma ResidueSplit(n: nat, p: nat)
    requires p > 0
    ensures n % (256 * p) == 256 * ((n / 256) % p) + n % 256
  {
    var h := n / 256;
    ScaledProduct(256, p, h / p);
    Bits.DivModUnique(n, 256 * p, h / p, 256 * (h % p) + n % 256);
  }

  // ---------------------------------------------------------------- the code

  /** concatBytes: sum the lengths, then copy every part behind the previous one. */
  method ConcatBytes(parts: seq<bytes>) returns (r: bytes)
    ensures r == Flatten(parts)
  {
    var total := 0;
    for i := 0 to |parts|
      invariant total == |Flatten(parts[..i])|
    {
      FlattenStep(parts, i);
      total := total + |parts[i]|;
    }
    assert parts[..|parts|] == parts;
    var out := new byte[total](i => 0);
    var offset := 0;
    for i := 0 to |parts|
      invariant offset == |Flatten(parts[..i])| <= total
      invariant out[..offset] == Flatten(parts[..i])
    {
      FlattenStep(parts, i);
      FlattenPrefix(parts, i + 1);
      var p := parts[i];
      forall k | 0 <= k < |p| { out[offset + k] := p[k]; }
      assert out[..offset + |p|] == out[..offset] + p;
      offset := offset + |p|;
    }
    assert parts[..|parts|] == parts;
    r := out[..];
    assert out[..] == out[..offset];
  }

  lemma FlattenStep(parts: seq<bytes>, i: nat)
    requires i < |parts|
    ensures Flatten(parts[..i + 1]) == Flatten(parts[..i]) + parts[i]
  {
    assert parts[..i + 1] == parts[..i] + [parts[i]];
    FlattenConcat(parts[..i], [parts[i]]);
    assert Flatten([parts[i]]) == parts[i] + Flatten<byte>([]);
  }

  lemma FlattenPrefix(parts: seq<bytes>, i: nat)
    requires i <= |parts|
    ensures |Flatten(parts[..i])| <= |Flatten(parts)|
  {
    assert parts == parts[..i] + parts[i..];
    FlattenConcat(parts[..i], parts[i..]);
  }

  /** bytesToBigIntBE. Shifting n left by eight bits and or-ing a byte in is 256 * n + b. */
  method BytesToBigIntBE(s: bytes) returns (n: nat)
    ensures n == BE(s)
    ensures n < Pow256(|s|) && EncodeBE(n, |s|) == s
  {
    n := 0;
    for i := 0 to |s|
      invariant n == BE(s[..i])
    {
      n := 256 * n + s[i];
      assert s[..i + 1][..i] == s[..i];
    }
    assert s[..|s|] == s;
    EncodeDecodeBE(s);
  }

  /** bytesToBigIntLE: the same loop from the last byte down. */
  method BytesToBigIntLE(s: bytes) returns (n: nat)
    ensures n == LE(s)
    ensures n < Pow256(|s|) && EncodeLE(n, |s|) == s
  {
    n := 0;
    for i := |s| downto 0
      invariant n == LE(s[i..])
    {
      n := 256 * n + s[i];
    }
    LEBound(s);
    EncodeDecodeLE(s);
  }

  lemma FirstDigit(n: nat, length: nat)
    requires length > 0
    ensures EncodeLE(n, length) == [n % 256] + EncodeLE(n / 256, length - 1)
    ensures n < Pow256(length) <==> n / 256 < Pow256(length - 1)
  {
  }

  lemma NoDigits(n: nat)
    ensures EncodeLE(n, 0) == [] && (n < Pow256(0) <==> n == 0)
  {
  }

  /** bigIntToBytesLE: succeeds exactly on the integers that fit, and is then inverse to LE. */
  method BigIntToBytesLE(n: int, length: nat) returns (r: Outcome<bytes>)
    ensures r.Returns? <==> 0 <= n < Pow256(length)
    ensures r.Returns? ==> |r.value| == length && LE(r.value) == n && r.value == EncodeLE(n, length)
    ensures r.Throws? ==> r.error == if n < 0 then NegativeInteger else IntegerOverflow
  {
    hide EncodeLE, Pow256, LE;
    if n < 0 { return Throws(NegativeInteger); }
    var out := new byte[length](i => 0);
    var v := n;
    for i := 0 to length
      invariant v >= 0
      invariant out[..i] + EncodeLE(v, length - i) == EncodeLE(n, length)
      invariant v < Pow256(length - i) <==> n < Pow256(length)
    {
      FirstDigit(v, length - i);
      var prefix := out[..i];
      out[i] := v % 256;
      assert out[..i + 1] == prefix + [v % 256];
      v := v / 256;
    }
    NoDigits(v);
    if v != 0 { return Throws(IntegerOverflow); }
    assert out[..] == out[..length] + EncodeLE(v, 0);
    DecodeEncodeLE(n, length);
    return Returns(out[..]);
  }

  /** bigIntToBytesBE: the same digits written from the last position down. */
  method BigIntToBytesBE(n: int, length: nat) returns (r: Outcome<bytes>)
    ensures r.Returns? <==> 0 <= n < Pow256(length)
    ensures r.Returns? ==> |r.value| == length && BE(r.value) == n && r.value == EncodeBE(n, length)
    ensures r.Throws? ==> r.error == if n < 0 then NegativeInteger else IntegerOverflow
  {
    if n < 0 { return Throws(NegativeInteger); }
    var out := new byte[length](i => 0);
    var v := n;
    for i := length downto 0
      invariant v >= 0
      invariant EncodeBE(v, i) + out[i..] == EncodeBE(n, length)
      invariant v < Pow256(i) <==> n < Pow256(length)
    {
      var suffix := out[i + 1..];
      out[i] := v % 256;
      assert out[i..] == [v % 256] + suffix;
      v := v / 256;
    }
    if v != 0 { return Throws(IntegerOverflow); }
    assert out[..] == EncodeBE(v, 0) + out[0..];
    DecodeEncodeBE(n, length);
    return Returns(out[..]);
  }

  /** bytesEqual: or together the xor of every pair of bytes. */
  method BytesEqual(a: bytes, b: bytes) returns (equal: bool)
    ensures equal <==> a == b
  {
    if |a| != |b| { return false; }
    var diff := 0;
    for i := 0 to |a|
      invariant 0 <= diff < 256
      invariant diff == 0 <==> a[..i] == b[..i]
    {
      assert a[..i + 1] == a[..i] + [a[i]] && b[..i + 1] == b[..i] + [b[i]];
      Bits.OrXorZero(diff, a[i], b[i], 8);
      diff := Bits.Or(diff, Bits.Xor(a[i], b[i], 8), 8);
    }
    assert a[..|a|] == a && b[..|a|] == b;
    return diff == 0;
  }
}
