/** packages/ecvrf/src/keypair.ts: the secret scalar and the public key. */
module Keypair {
  import opened Common
  import opened Bits
  import opened Encoding
  import opened Modular
  import opened Group
  import opened Ciphersuite

  /** Clear the low three bits and the top bit, set the bit below it. */
  function Clamp(h: bytes): (x: bytes)
    requires |h| == 32
    ensures |x| == 32
  {
    [LowBitsCleared(h[0])] + h[1..31] + [TopBitsSet(h[31])]
  }

  /** byte & 248 */
  function LowBitsCleared(b: byte): (r: byte)
    ensures r % 8 == 0
  {
    LowBits(b);
    And(b, 248, 8)
  }

  lemma LowBits(b: byte)
    ensures And(b, 248, 8) < 256 && And(b, 248, 8) % 8 == 0
  {
    hide And;
    AndEven(b, 124, 8);
    AndEven(b / 2, 62, 7);
    AndEven(b / 2 / 2, 31, 6);
    assert Pow2(8) == 256;
  }

  /** byte & 127 | 64 */
  function TopBitsSet(b: byte): (r: byte)
    ensures 64 <= r < 128
  {
    TopBits(b);
    Or(And(b, 127, 8), 64, 8)
  }

  lemma TopBits(b: byte)
    ensures And(b, 127, 8) < 128 && 64 <= Or(And(b, 127, 8), 64, 8) < 128
  {
    hide And, Or;
    assert Pow2(7) == 128 && Pow2(8) == 256;
    AndOnesMod(b, 7, 8);
    OrBelow(And(b, 127, 8), 64, 7, 8);
    OrKeeps(0, And(b, 127, 8), 64, 7, 8);
  }

  /** The scalar deriveScalar returns for a 32-byte seed. */
  function SecretScalar(g: Suite, sk: bytes): nat
    requires g.q > 0
  {
    LE(Clamp(g.sha512(sk)[..32])) % g.q
  }

  function PublicPoint(g: Suite, sk: bytes): int
    requires g.q > 0
  {
    Scale(g.q, SecretScalar(g, sk), g.base)
  }

  /** deriveScalar */
  function DeriveScalar(g: Suite, sk: bytes): Outcome<(nat, int)>
    requires g.q > 0
  {
    if |sk| != 32 then Throws(BadSeedLength)
    else
      var x := SecretScalar(g, sk);
      var Y :- g.Multiply(g.base, x);
      Returns((x, Y))
  }

  /** publicKeyFromSeed */
  function PublicKeyFromSeed(g: Suite, sk: bytes): Outcome<bytes>
    requires g.q > 0
  {
    var d :- DeriveScalar(g, sk);
    Returns(g.encodePoint(d.1))
  }

  /** The clamping of deriveScalar, in place on a copy of the first half of the hash. */
  method ClampHash(g: Suite, sk: bytes) returns (x: bytes)
    ensures x == Clamp(g.sha512(sk)[..32])
  {
    var h := g.sha512(sk);
    var xBytes := new byte[32](i requires 0 <= i < |h| => h[i]);
    assert xBytes[..] == h[..32];
    xBytes[0] := LowBitsCleared(xBytes[0]);
    xBytes[31] := And(xBytes[31], 127, 8);
    assert xBytes[31] == And(h[31], 127, 8);
    assert TopBitsSet(h[31]) == Or(xBytes[31], 64, 8);
    xBytes[31] := Or(xBytes[31], 64, 8);
    return xBytes[..];
  }

  /** The clamped integer is 8m with 2^251 <= m < 2^252. */
  lemma ClampedValue(h: bytes) returns (m: nat)
    requires |h| == 32
    ensures LE(Clamp(h)) == 8 * m && TWO_252 <= 2 * m < 2 * TWO_252
  {
    hide LowBitsCleared, TopBitsSet;
    var x := Clamp(h);
    MultipleOfEight(x);
    TopByteBounds(x);
    LargePowers();
    m := LE(x) / 8;
  }

  lemma MultipleOfEight(x: bytes)
    requires x != [] && x[0] % 8 == 0
    ensures LE(x) % 8 == 0
  {
    assert LE(x) == x[0] + 8 * (32 * LE(x[1..]));
  }

  lemma TopByteBounds(x: bytes)
    requires |x| == 32 && 64 <= x[31] < 128
    ensures 64 * Pow256(31) <= LE(x) < 128 * Pow256(31)
  {
    hide Pow256;
    var low, top := x[..31], [x[31]];
    assert x == low + top;
    LEAppend(low, top);
    assert LE(top) == x[31];
    LEBound(low);
    BetweenMultiples(Pow256(31), x[31], LE(low));
  }

  lemma BetweenMultiples(p: nat, t: nat, r: nat)
    requires 64 <= t < 128 && r < p
    ensures 64 * p <= r + p * t < 128 * p
  {
  }

  /** The secret scalar is never zero, so deriving a key from a 32-byte seed never throws. */
  lemma ScalarNeverZero(g: Suite, sk: bytes)
    requires g.Valid()
    ensures 1 <= SecretScalar(g, sk) < g.q
  {
    var m := ClampedValue(g.sha512(sk)[..32]);
    SmallIsReduced(g.q, 8);
    SmallIsReduced(g.q, m);
    if (8 * m) % g.q == 0 { NoZeroDivisors(g.q, 8, m); }
    ReduceCongruent(g.q, 8 * m);
  }

  /** A key is derived exactly from 32-byte seeds, and every public key passes the verifier's gates. */
  lemma KeyPassesGates(g: Suite, sk: bytes)
    requires g.Valid()
    ensures DeriveScalar(g, sk) ==
      if |sk| == 32 then Returns((SecretScalar(g, sk), PublicPoint(g, sk))) else Throws(BadSeedLength)
    ensures PrimeOrder(g.q, PublicPoint(g, sk))
    ensures g.decodePoint(g.encodePoint(PublicPoint(g, sk))) == Some(PublicPoint(g, sk))
  {
    ScalarNeverZero(g, sk);
    SmallIsReduced(g.q, SecretScalar(g, sk));
    BaseIsPrimeOrder(g);
    ScalePrimeOrder(g.q, SecretScalar(g, sk), g.base);
  }
}
