/** packages/ecvrf/src/expand.ts: the hash input of one stream block. */
module ExpandInput {
  import opened Common
  import opened Encoding

  const U32_LIMIT: nat := 0x1_0000_0000
  const U64_LIMIT: nat := 0x1_0000_0000_0000_0000

  /** The bytes of "ecvrf-expand-v1". */
  const EXPAND_TAG: bytes := [101, 99, 118, 114, 102, 45, 101, 120, 112, 97, 110, 100, 45, 118, 49]

  // ---------------------------------------------------------------- specification

  function EncodeSegments(path: seq<bytes>): bytes {
    if path == [] then [] else EncodeBE(|path[0]|, 4) + path[0] + EncodeSegments(path[1..])
  }

  /** The segment count, then every segment behind its length. */
  function EncodePath(path: seq<bytes>): bytes {
    EncodeBE(|path|, 4) + EncodeSegments(path)
  }

  /** SHA-512 input of block i. */
  function BlockInput(beta: bytes, path: seq<bytes>, i: nat): bytes {
    EXPAND_TAG + beta + EncodePath(path) + EncodeBE(i, 8)
  }

  // ---------------------------------------------------------------- the code

  /** u32be: four shifted and masked bytes. */
  method U32be(n: nat) returns (r: bytes)
    ensures r == EncodeBE(n, 4)
  {
    r := [n / 0x100_0000 % 256, n / 0x1_0000 % 256, n / 0x100 % 256, n % 256];
    assert EncodeBE(n, 4) == EncodeBE(n / 256 / 256, 2) + [n / 256 % 256, n % 256];
    assert EncodeBE(n / 256 / 256, 2) == [n / 256 / 256 / 256 % 256, n / 256 / 256 % 256];
  }

  /** u64be: eight bytes written from the last position down; higher bits are dropped. */
  method U64be(n: nat) returns (r: bytes)
    ensures r == EncodeBE(n, 8)
  {
    var out := new byte[8](i => 0);
    var v := n;
    for i := 8 downto 0
      invariant v >= 0
      invariant EncodeBE(v, i) + out[i..] == EncodeBE(n, 8)
    {
      var suffix := out[i + 1..];
      out[i] := v % 256;
      assert out[i..] == [v % 256] + suffix;
      v := v / 256;
    }
    assert out[..] == EncodeBE(v, 0) + out[0..];
    return out[..];
  }

  /** encodePath: collect the parts, then concatenate them. */
  method EncodePathParts(path: seq<bytes>) returns (r: bytes)
    ensures r == EncodePath(path)
  {
    var count := U32be(|path|);
    var parts := [count];
    assert Flatten(parts) == count && path[0..] == path;
    for i := 0 to |path|
      invariant Flatten(parts) + EncodeSegments(path[i..]) == EncodePath(path)
    {
      var length := U32be(|path[i]|);
      FlattenConcat(parts, [length, path[i]]);
      FlattenPair(length, path[i]);
      assert path[i..][1..] == path[i + 1..];
      parts := parts + [length, path[i]];
    }
    assert EncodeSegments(path[|path|..]) == [];
    r := ConcatBytes(parts);
  }

  // ---------------------------------------------------------------- injectivity

  /** Lengths and counts that four bytes can hold. */
  predicate WellSized(path: seq<bytes>) {
    |path| < U32_LIMIT && forall i :: 0 <= i < |path| ==> |path[i]| < U32_LIMIT
  }

  lemma EncodeBEInjective(m: nat, n: nat, length: nat)
    requires m < Pow256(length) && n < Pow256(length)
    requires EncodeBE(m, length) == EncodeBE(n, length)
    ensures m == n
  {
    DecodeEncodeBE(m, length);
    DecodeEncodeBE(n, length);
  }

  lemma Pow256Of4And8()
    ensures Pow256(4) == U32_LIMIT && Pow256(8) == U64_LIMIT
  {
    assert Pow256(0) == 1;
    assert Pow256(1) == 0x100 && Pow256(2) == 0x1_0000;
    assert Pow256(3) == 0x100_0000 && Pow256(4) == 0x1_0000_0000;
    assert Pow256(5) == 0x100_0000_0000 && Pow256(6) == 0x1_0000_0000_0000;
    assert Pow256(7) == 0x100_0000_0000_0000 && Pow256(8) == 0x1_0000_0000_0000_0000;
  }

  lemma {:induction false} SegmentsUnique(p: seq<bytes>, p': seq<bytes>, x: bytes, x': bytes)
    requires WellSized(p) && WellSized(p') && |p| == |p'|
    requires EncodeSegments(p) + x == EncodeSegments(p') + x'
    ensures p == p' && x == x'
  {
    hide EncodeBE, BE;
    if p == [] {
      assert EncodeSegments(p) + x == x && EncodeSegments(p') + x' == x';
    } else {
      var rest, rest' := EncodeSegments(p[1..]) + x, EncodeSegments(p'[1..]) + x';
      var n, n' := EncodeBE(|p[0]|, 4), EncodeBE(|p'[0]|, 4);
      assert EncodeSegments(p) + x == n + (p[0] + rest);
      assert EncodeSegments(p') + x' == n' + (p'[0] + rest');
      SplitUnique(n, p[0] + rest, n', p'[0] + rest');
      Pow256Of4And8();
      EncodeBEInjective(|p[0]|, |p'[0]|, 4);
      SplitUnique(p[0], rest, p'[0], rest');
      SegmentsUnique(p[1..], p'[1..], x, x');
      assert p == [p[0]] + p[1..] && p' == [p'[0]] + p'[1..];
    }
  }

  /** The path encoding is injective, and no encoding is a proper prefix of another. */
  lemma PathPrefixFree(p: seq<bytes>, p': seq<bytes>, x: bytes, x': bytes)
    requires WellSized(p) && WellSized(p')
    requires EncodePath(p) + x == EncodePath(p') + x'
    ensures p == p' && x == x'
  {
    var n, n' := EncodeBE(|p|, 4), EncodeBE(|p'|, 4);
    var s, s' := EncodeSegments(p), EncodeSegments(p');
    Regroup(n, s, x);
    Regroup(n', s', x');
    SplitUnique(n, s + x, n', s' + x');
    Pow256Of4And8();
    EncodeBEInjective(|p|, |p'|, 4);
    SegmentsUnique(p, p', x, x');
  }

  /** Beta, path and block index can all be read back from the hash input. */
  lemma BlockInputInjective(beta: bytes, beta': bytes, p: seq<bytes>, p': seq<bytes>, i: nat, i': nat)
    requires |beta| == |beta'| && WellSized(p) && WellSized(p') && i < U64_LIMIT && i' < U64_LIMIT
    requires BlockInput(beta, p, i) == BlockInput(beta', p', i')
    ensures beta == beta' && p == p' && i == i'
  {
    var t, t' := EncodePath(p) + EncodeBE(i, 8), EncodePath(p') + EncodeBE(i', 8);
    assert BlockInput(beta, p, i) == (EXPAND_TAG + beta) + t;
    assert BlockInput(beta', p', i') == (EXPAND_TAG + beta') + t';
    SplitUnique(EXPAND_TAG + beta, t, EXPAND_TAG + beta', t');
    SplitUnique(EXPAND_TAG, beta, EXPAND_TAG, beta');
    PathPrefixFree(p, p', EncodeBE(i, 8), EncodeBE(i', 8));
    Pow256Of4And8();
    EncodeBEInjective(i, i', 8);
  }

  /** The block counter is written in eight bytes: two blocks of a stream share their hash input exactly when their
      indices agree modulo 2^64. */
  lemma BlocksRepeatIff(beta: bytes, p: seq<bytes>, i: nat, i': nat)
    ensures BlockInput(beta, p, i) == BlockInput(beta, p, i') <==> i % U64_LIMIT == i' % U64_LIMIT
  {
    hide EncodePath, EncodeBE;
    var prefix := EXPAND_TAG + beta + EncodePath(p);
    Pow256Of4And8();
    EncodeBEResidue(i, 8);
    EncodeBEResidue(i', 8);
    EncodeDecodeBE(EncodeBE(i, 8));
    EncodeDecodeBE(EncodeBE(i', 8));
    if BlockInput(beta, p, i) == BlockInput(beta, p, i') {
      SplitUnique(prefix, EncodeBE(i, 8), prefix, EncodeBE(i', 8));
    }
  }

  // ---------------------------------------------------------------- reading a block input back

  /** The first n length-prefixed segments of m, and what follows them. */
  function ReadSegments(m: bytes, n: nat): Option<(seq<bytes>, bytes)> {
    if n == 0 then Some(([], m))
    else if |m| < 4 || |m| - 4 < BE(m[..4]) then None
    else
      var end := 4 + BE(m[..4]);
      match ReadSegments(m[end..], n - 1)
      case None => None
      case Some(r) => Some(([m[4..end]] + r.0, r.1))
  }

  function ReadPath(m: bytes): Option<(seq<bytes>, bytes)> {
    if |m| < 4 then None else ReadSegments(m[4..], BE(m[..4]))
  }

  /** The block input, read from the front: the tag's text, beta, a path, and an index of eight bytes. */
  predicate IsBlockInput(m: bytes, beta: bytes, path: seq<bytes>, i: nat) {
    && |m| >= 15 + |beta| && m[..15] == Ascii("ecvrf-expand-v1") && m[15..15 + |beta|] == beta
    && var r := ReadPath(m[15 + |beta|..]);
    r.Some? && r.value.0 == path && |r.value.1| == 8 && BE(r.value.1) == i % 0x1_0000_0000_0000_0000
  }

  lemma {:induction false} SegmentsReadBack(p: seq<bytes>, x: bytes)
    requires WellSized(p)
    ensures ReadSegments(EncodeSegments(p) + x, |p|) == Some((p, x))
  {
    hide EncodeBE, BE;
    if p == [] {
      assert EncodeSegments(p) + x == x;
    } else {
      var n, rest := EncodeBE(|p[0]|, 4), EncodeSegments(p[1..]) + x;
      Pow256Of4And8();
      DecodeEncodeBE(|p[0]|, 4);
      var m := EncodeSegments(p) + x;
      assert m == n + (p[0] + rest);
      assert m[..4] == n && m[4..4 + |p[0]|] == p[0] && m[4 + |p[0]|..] == rest;
      SegmentsReadBack(p[1..], x);
      assert p == [p[0]] + p[1..];
    }
  }

  lemma {:induction false} ReadSegmentsUnique(m: bytes, n: nat)
    requires ReadSegments(m, n).Some?
    ensures var r := ReadSegments(m, n).value; |r.0| == n && WellSegmented(r.0) && EncodeSegments(r.0) + r.1 == m
  {
    hide EncodeBE, BE;
    if n > 0 {
      var length := BE(m[..4]);
      var rest := m[4 + length..];
      ReadSegmentsUnique(rest, n - 1);
      var r := ReadSegments(rest, n - 1).value;
      EncodeDecodeBE(m[..4]);
      Pow256Of4And8();
      SegmentInFront(m[..4], m[4..4 + length], r.0, r.1);
      assert m == m[..4] + m[4..4 + length] + rest;
    }
  }

  lemma SegmentInFront(n: bytes, s: bytes, p: seq<bytes>, x: bytes)
    requires n == EncodeBE(|s|, 4)
    ensures EncodeSegments([s] + p) + x == n + s + (EncodeSegments(p) + x)
  {
    hide EncodeBE;
    assert ([s] + p)[1..] == p;
  }

  predicate WellSegmented(path: seq<bytes>) {
    forall i :: 0 <= i < |path| ==> |path[i]| < U32_LIMIT
  }

  /** An encoded path reads back, whatever follows it. */
  lemma PathReadsBack(p: seq<bytes>, x: bytes)
    requires WellSized(p)
    ensures ReadPath(EncodePath(p) + x) == Some((p, x))
  {
    var n, m := EncodeBE(|p|, 4), EncodePath(p) + x;
    Pow256Of4And8();
    DecodeEncodeBE(|p|, 4);
    assert m == n + (EncodeSegments(p) + x);
    assert m[..4] == n && m[4..] == EncodeSegments(p) + x;
    SegmentsReadBack(p, x);
  }

  /** Whatever reads as a path is the encoding of that path. */
  lemma ReadPathUnique(m: bytes)
    requires ReadPath(m).Some?
    ensures var r := ReadPath(m).value; WellSized(r.0) && EncodePath(r.0) + r.1 == m
  {
    hide EncodeBE, BE, ReadSegments;
    ReadSegmentsUnique(m[4..], BE(m[..4]));
    EncodeDecodeBE(m[..4]);
    Pow256Of4And8();
    assert m == m[..4] + m[4..];
  }

  /** The hash input of a block is the one byte string that reads back as that block. */
  lemma BlockInputIff(m: bytes, beta: bytes, path: seq<bytes>, i: nat)
    requires WellSized(path)
    ensures m == BlockInput(beta, path, i) <==> IsBlockInput(m, beta, path, i)
  {
    hide EncodePath, EncodeBE, BE, ReadPath;
    TagText();
    Pow256Of4And8();
    var index := EncodeBE(i, 8);
    EncodeBEResidue(i, 8);
    PathReadsBack(path, index);
    var tail := EncodePath(path) + index;
    assert BlockInput(beta, path, i) == EXPAND_TAG + (beta + tail);
    if m == BlockInput(beta, path, i) {
      assert m[..15] == EXPAND_TAG && m[15..15 + |beta|] == beta && m[15 + |beta|..] == tail;
    }
    if IsBlockInput(m, beta, path, i) {
      var rest := m[15 + |beta|..];
      ReadPathUnique(rest);
      EncodeDecodeBE(ReadPath(rest).value.1);
      EncodeDecodeBE(index);
      assert m == m[..15] + (m[15..15 + |beta|] + rest);
    }
  }

  lemma TagText()
    ensures EXPAND_TAG == Ascii("ecvrf-expand-v1")
  {
  }
}
