/** packages/ecvrf/src/suite.ts, challenge.ts and the library primitives: the ciphersuite and its hash inputs. */
module Ciphersuite {
  import opened Common
  import opened Encoding
  import opened ExpandInput
  import opened Group
  import opened Modular

  const TWO_128: nat := 0x1_0000_0000_0000_0000_0000_0000_0000_0000
  const TWO_248: nat := 0x100_0000_0000_0000_0000_0000_0000_0000_0000_0000_0000_0000_0000_0000_0000_0000
  const TWO_252: nat := 0x1000_0000_0000_0000_0000_0000_0000_0000_0000_0000_0000_0000_0000_0000_0000_0000
  const TWO_256: nat := 0x1_0000_0000_0000_0000_0000_0000_0000_0000_0000_0000_0000_0000_0000_0000_0000_0000

  lemma LargePowers()
    ensures Pow256(16) == TWO_128 && Pow256(31) == TWO_248 && Pow256(32) == TWO_256
    ensures TWO_252 == 16 * TWO_248 && TWO_256 == 16 * TWO_252 && TWO_128 < TWO_248
  {
    hide Pow256;
    Pow256Of4And8();
    Pow256Add(8, 8);
    Pow256Add(16, 16);
    Pow256Step(31);
  }

  lemma Pow256Step(n: nat)
    ensures Pow256(n + 1) == 256 * Pow256(n)
  {
  }

  const SUITE_STRING: byte := 3
  const PT_LEN: nat := 32
  const C_LEN: nat := 16
  const PROOF_LEN: nat := 80

  /** The curve library and SHA-512: q is the prime order, points are numbers below 8q with base the generator,
      and points are written as 32 bytes. */
  datatype Suite = Suite(
    q: nat,
    base: int,
    sha512: Hash64,
    encodePoint: int -> bytes,
    decodePoint: bytes -> Option<int>)
  {
    /** The generator is a nonzero multiple of eight: a point of prime order, by BaseIsPrimeOrder. */
    ghost predicate Valid() {
      && Prime(q) && TWO_252 < q < 2 * TWO_252
      && IsPoint(q, base) && base % 8 == 0 && base != 0
      && (forall P :: IsPoint(q, P) ==> |encodePoint(P)| == 32 && decodePoint(encodePoint(P)) == Some(P))
      && (forall b: bytes :: decodePoint(b).Some? ==>
            IsPoint(q, decodePoint(b).value) && encodePoint(decodePoint(b).value) == b)
    }

    /** noble's multiply: scalars outside [1, q) are rejected. */
    function Multiply(P: int, n: nat): Outcome<int> {
      if 1 <= n < q then Returns(Scale(q, n, P)) else Throws(ScalarOutOfRange)
    }

    /** The guarded multiplication of verifyVRF: zero times a point is the identity. */
    function MultiplyOrZero(P: int, n: nat): (r: Outcome<int>)
      ensures n < q ==> r == Returns(Scale(q, n, P))
    {
      if n == 0 then Returns(0) else Multiply(P, n)
    }

    function ChallengeInput(Y: int, H: int, Gamma: int, U: int, V: int): bytes {
      [SUITE_STRING, 2] + encodePoint(Y) + encodePoint(H) + encodePoint(Gamma) + encodePoint(U) + encodePoint(V) + [0]
    }

    /** challengeGeneration: the first 16 hash bytes, little-endian. */
    function Challenge(Y: int, H: int, Gamma: int, U: int, V: int): (c: nat)
      ensures c < TWO_128
    {
      LEBound(sha512(ChallengeInput(Y, H, Gamma, U, V))[..16]);
      LargePowers();
      LE(sha512(ChallengeInput(Y, H, Gamma, U, V))[..16])
    }

    function ToCurveInput(salt: bytes, alpha: bytes, ctr: byte): bytes {
      [SUITE_STRING, 1] + salt + alpha + [ctr, 0]
    }

    function BetaInput(Gamma: int): bytes {
      [SUITE_STRING, 3] + encodePoint(Scale(q, 8, Gamma)) + [0]
    }

    function NonceInput(sk: bytes, hString: bytes): bytes {
      sha512(sk)[32..64] + hString
    }

    /** generateNonce */
    function Nonce(sk: bytes, hString: bytes): Outcome<nat>
      requires q > 0
    {
      if |sk| != 32 then Throws(BadSeedLength)
      else Returns(LE(sha512(NonceInput(sk, hString))) % q)
    }
  }

  lemma BaseIsPrimeOrder(g: Suite)
    requires g.Valid()
    ensures PrimeOrder(g.q, g.base)
  {
    PrimeOrderMeaning(g.q, g.base);
  }

  /** Every hash input names its purpose: no expander, challenge, hash-to-curve and proof-to-hash inputs coincide. */
  lemma PurposesDisjoint(g: Suite, beta: bytes, path: seq<bytes>, i: nat,
                         Y: int, H: int, Gamma: int, U: int, V: int,
                         salt: bytes, alpha: bytes, ctr: byte, Gamma': int)
    ensures var expand := BlockInput(beta, path, i);
      var challenge := g.ChallengeInput(Y, H, Gamma, U, V);
      var toCurve := g.ToCurveInput(salt, alpha, ctr);
      var toHash := g.BetaInput(Gamma');
      && expand != challenge && expand != toCurve && expand != toHash
      && challenge != toCurve && challenge != toHash && toCurve != toHash
  {
    assert BlockInput(beta, path, i)[0] == 101;
    assert g.ChallengeInput(Y, H, Gamma, U, V)[..2] == [3, 2];
    assert g.ToCurveInput(salt, alpha, ctr)[..2] == [3, 1];
    assert g.BetaInput(Gamma')[..2] == [3, 3];
  }

  /** Behind a key of fixed length, the hash-to-curve input determines the key, the input and the counter. */
  lemma ToCurveInputInjective(g: Suite, salt: bytes, alpha: bytes, ctr: byte, salt': bytes, alpha': bytes, ctr': byte)
    requires |salt| == |salt'|
    requires g.ToCurveInput(salt, alpha, ctr) == g.ToCurveInput(salt', alpha', ctr')
    ensures salt == salt' && alpha == alpha' && ctr == ctr'
  {
    var front: bytes := [SUITE_STRING, 1];
    assert |g.ToCurveInput(salt, alpha, ctr)| == 4 + |salt| + |alpha|;
    assert |g.ToCurveInput(salt', alpha', ctr')| == 4 + |salt'| + |alpha'|;
    SplitUnique(front + salt + alpha, [ctr, 0], front + salt' + alpha', [ctr', 0]);
    SplitUnique(front + salt, alpha, front + salt', alpha');
    SplitUnique(front, salt, front, salt');
  }

  /** The challenge input determines all five points. */
  lemma ChallengeInputInjective(g: Suite, Y: int, H: int, Gamma: int, U: int, V: int,
                                Y': int, H': int, Gamma': int, U': int, V': int)
    requires g.Valid()
    requires IsPoint(g.q, Y) && IsPoint(g.q, H) && IsPoint(g.q, Gamma) && IsPoint(g.q, U) && IsPoint(g.q, V)
    requires IsPoint(g.q, Y') && IsPoint(g.q, H') && IsPoint(g.q, Gamma') && IsPoint(g.q, U') && IsPoint(g.q, V')
    requires g.ChallengeInput(Y, H, Gamma, U, V) == g.ChallengeInput(Y', H', Gamma', U', V')
    ensures Y == Y' && H == H' && Gamma == Gamma' && U == U' && V == V'
  {
    var a, b := g.ChallengeInput(Y, H, Gamma, U, V), g.ChallengeInput(Y', H', Gamma', U', V');
    EncodedLengths(g, Y, H, Gamma, U, V);
    EncodedLengths(g, Y', H', Gamma', U', V');
    hide Suite.Valid;
    FiveFields(a, g.encodePoint(Y), g.encodePoint(H), g.encodePoint(Gamma), g.encodePoint(U), g.encodePoint(V));
    FiveFields(b, g.encodePoint(Y'), g.encodePoint(H'), g.encodePoint(Gamma'), g.encodePoint(U'), g.encodePoint(V'));
    EncodePointInjective(g, Y, Y');
    EncodePointInjective(g, H, H');
    EncodePointInjective(g, Gamma, Gamma');
    EncodePointInjective(g, U, U');
    EncodePointInjective(g, V, V');
  }

  lemma EncodedLengths(g: Suite, Y: int, H: int, Gamma: int, U: int, V: int)
    requires g.Valid()
    requires IsPoint(g.q, Y) && IsPoint(g.q, H) && IsPoint(g.q, Gamma) && IsPoint(g.q, U) && IsPoint(g.q, V)
    ensures |g.encodePoint(Y)| == |g.encodePoint(H)| == |g.encodePoint(Gamma)| == 32
    ensures |g.encodePoint(U)| == |g.encodePoint(V)| == 32
  {
  }

  lemma EncodePointInjective(g: Suite, P: int, Q: int)
    requires g.Valid() && IsPoint(g.q, P) && IsPoint(g.q, Q)
    ensures g.encodePoint(P) == g.encodePoint(Q) <==> P == Q
  {
    assert g.decodePoint(g.encodePoint(P)) == Some(P) && g.decodePoint(g.encodePoint(Q)) == Some(Q);
  }

  lemma FiveFields(s: bytes, y: bytes, h: bytes, g: bytes, u: bytes, v: bytes)
    requires s == [SUITE_STRING, 2] + y + h + g + u + v + [0]
    requires |y| == |h| == |g| == |u| == |v| == 32
    ensures |s| == 163
    ensures s[2..34] == y && s[34..66] == h && s[66..98] == g && s[98..130] == u && s[130..162] == v
  {
  }
}
