/** Sections 5.1 to 5.4 of RFC 9381 and section 5.1.5 of RFC 8032 as relations between byte strings and numbers, and
    the proof that the code decides exactly these relations. */
module Rfc9381 {
  import opened Common
  import opened Bits
  import opened Encoding
  import opened Modular
  import opened Group
  import opened Ciphersuite
  import opened Keypair
  import opened HashToCurve
  import opened Ecvrf

  // ---------------------------------------------------------------- the standards

  /** n times a point of the group of order 8q. */
  function Times(g: Suite, n: int, P: int): int
    requires g.q > 0
  {
    (n * P) % (8 * g.q)
  }

  /** The points of order q. */
  predicate OfPrimeOrder(P: int) {
    P % 8 == 0 && P != 0
  }

  /** Section 5.1.5 of RFC 8032: of the first half of the hash, the low three bits and the top bit are cleared and the
      bit below the top is set. */
  predicate IsClamped(h: bytes, x: bytes)
    requires |h| == 64
  {
    && |x| == 32 && (forall i :: 1 <= i < 31 ==> x[i] == h[i])
    && x[0] == h[0] - h[0] % 8 && x[31] == 64 + h[31] % 64
  }

  ghost predicate KeyOf(g: Suite, sk: bytes, x: int, Y: int)
    requires g.q > 0
  {
    |sk| == 32 && exists b :: IsClamped(g.sha512(sk), b) && x == LE(b) % g.q && Y == Times(g, x, g.base)
  }

  /** Section 5.4.1.1: suite, 1, salt, alpha, counter, 0. */
  predicate IsCurveInput(m: bytes, salt: bytes, alpha: bytes, ctr: nat) {
    && |m| == |salt| + |alpha| + 4 && m[0] == 3 && m[1] == 1
    && m[2..|salt| + 2] == salt && m[|salt| + 2..|m| - 2] == alpha
    && m[|m| - 2] == ctr && m[|m| - 1] == 0
  }

  /** The attempt with this counter succeeds with H: the hash starts with a point, and eight times it is H, not zero. */
  ghost predicate AttemptGives(g: Suite, salt: bytes, alpha: bytes, ctr: nat, H: int)
    requires g.q > 0
  {
    exists m, P ::
      && IsCurveInput(m, salt, alpha, ctr) && g.decodePoint(g.sha512(m)[..32]) == Some(P)
      && H == Times(g, 8, P) != 0
  }

  ghost predicate AttemptFails(g: Suite, salt: bytes, alpha: bytes, ctr: nat)
    requires g.q > 0
  {
    forall H :: !AttemptGives(g, salt, alpha, ctr, H)
  }

  /** The point of the first counter that succeeds. */
  ghost predicate IsCurvePoint(g: Suite, salt: bytes, alpha: bytes, H: int)
    requires g.q > 0
  {
    exists ctr: nat :: ctr < 256 && AttemptGives(g, salt, alpha, ctr, H) &&
      forall j: nat :: j < ctr ==> AttemptFails(g, salt, alpha, j)
  }

  /** Section 5.4.2.2: the second half of the key hash, then the point. */
  predicate IsNonceInput(g: Suite, m: bytes, sk: bytes, H: int) {
    && |m| == 64 && (forall i :: 0 <= i < 32 ==> m[i] == g.sha512(sk)[32 + i]) && m[32..] == g.encodePoint(H)
  }

  /** Section 5.4.3: suite, 2, the five points, 0. */
  predicate IsChallengeInput(g: Suite, m: bytes, Y: int, H: int, Gamma: int, U: int, V: int) {
    && |m| == 163 && m[0] == 3 && m[1] == 2 && m[162] == 0
    && m[2..34] == g.encodePoint(Y) && m[34..66] == g.encodePoint(H) && m[66..98] == g.encodePoint(Gamma)
    && m[98..130] == g.encodePoint(U) && m[130..162] == g.encodePoint(V)
  }

  /** Section 5.2: suite, 3, eight times Gamma, 0. */
  predicate IsOutputInput(g: Suite, m: bytes, Gamma: int)
    requires g.q > 0
  {
    |m| == 35 && m[0] == 3 && m[1] == 3 && m[2..34] == g.encodePoint(Times(g, 8, Gamma)) && m[34] == 0
  }

  /** The nonce: all 64 hash bytes, little-endian, reduced. */
  function NonceFrom(g: Suite, n: bytes): int
    requires g.q > 0
  {
    LE(g.sha512(n)) % g.q
  }

  /** The three fields of a proof: Gamma, the challenge bytes and the response k + cx. */
  predicate CarriesFields(g: Suite, proof: bytes, x: int, H: int, k: int, m: bytes)
    requires g.q > 0 && |proof| == 80
  {
    && proof[..32] == g.encodePoint(Times(g, x, H)) && proof[32..48] == g.sha512(m)[..16]
    && LE(proof[48..80]) == (k + LE(proof[32..48]) * x) % g.q
  }

  /** Section 5.1, with the key, the curve point and the two hash inputs it goes through. */
  ghost predicate ProofParts(g: Suite, sk: bytes, alpha: bytes, proof: bytes,
                             x: int, Y: int, H: int, n: bytes, m: bytes)
    requires g.q > 0 && |proof| == 80
  {
    && KeyOf(g, sk, x, Y) && IsCurvePoint(g, g.encodePoint(Y), alpha, H) && IsNonceInput(g, n, sk, H)
    && var k := NonceFrom(g, n);
    && k != 0 && IsChallengeInput(g, m, Y, H, Times(g, x, H), Times(g, k, g.base), Times(g, k, H))
    && CarriesFields(g, proof, x, H, k, m)
  }

  ghost predicate IsProof(g: Suite, sk: bytes, alpha: bytes, proof: bytes)
    requires g.q > 0
  {
    |proof| == 80 && exists x, Y, H, n, m :: ProofParts(g, sk, alpha, proof, x, Y, H, n, m)
  }

  /** Section 5.3, with the points and the hash input it goes through. */
  ghost predicate VerifyParts(g: Suite, pk: bytes, alpha: bytes, proof: bytes, Y: int, Gamma: int, H: int, m: bytes)
    requires g.q > 0 && |proof| == 80
  {
    && g.decodePoint(pk) == Some(Y) && OfPrimeOrder(Y) && g.decodePoint(proof[..32]) == Some(Gamma)
    && OfPrimeOrder(Gamma) && IsCurvePoint(g, pk, alpha, H)
    && var c, s := LE(proof[32..48]), LE(proof[48..80]);
    && s < g.q
    && IsChallengeInput(g, m, Y, H, Gamma, (s * g.base - c * Y) % (8 * g.q), (s * H - c * Gamma) % (8 * g.q))
    && proof[32..48] == g.sha512(m)[..16]
  }

  ghost predicate IsAccepted(g: Suite, pk: bytes, alpha: bytes, proof: bytes)
    requires g.q > 0
  {
    |pk| == 32 && |proof| == 80 && exists Y, Gamma, H, m :: VerifyParts(g, pk, alpha, proof, Y, Gamma, H, m)
  }

  /** Section 5.2, behind the gates on Gamma. */
  ghost predicate IsOutput(g: Suite, proof: bytes, beta: bytes)
    requires g.q > 0
  {
    |proof| == 80 && exists Gamma, m ::
      && g.decodePoint(proof[..32]) == Some(Gamma) && OfPrimeOrder(Gamma)
      && IsOutputInput(g, m, Gamma) && beta == g.sha512(m)
  }

  // ---------------------------------------------------------------- the key

  lemma ClampedBytes(b: byte)
    ensures LowBitsCleared(b) == b - b % 8 && TopBitsSet(b) == 64 + b % 64
  {
    LowByte(b);
    HighByte(b);
  }

  lemma LowByte(b: byte)
    ensures And(b, 248, 8) == b - b % 8
  {
    hide And;
    AndEven(b, 124, 8);
    AndEven(b / 2, 62, 7);
    AndEven(b / 2 / 2, 31, 6);
    assert Pow2(5) == 32;
    AndOnesMod(b / 2 / 2 / 2, 5, 5);
  }

  lemma HighByte(b: byte)
    ensures And(b, 127, 8) < 256 && Or(And(b, 127, 8), 64, 8) == 64 + b % 64
  {
    hide And, Or, Pow2;
    LowSeven(b);
    SetBit64(b % 128);
    assert b % 128 % 64 == b % 64;
  }

  lemma LowSeven(b: byte)
    ensures And(b, 127, 8) == b % 128
  {
    hide And;
    assert Pow2(7) == 128;
    AndOnesMod(b, 7, 8);
  }

  lemma SetBit64(a: nat)
    requires a < 128
    ensures Or(a, 64, 8) == 64 + a % 64
  {
    hide Or;
    OrEven(a, 32, 8);
    OrEven(a / 2, 16, 7);
    OrEven(a / 2 / 2, 8, 6);
    OrEven(a / 2 / 2 / 2, 4, 5);
    OrEven(a / 2 / 2 / 2 / 2, 2, 4);
    OrEven(a / 2 / 2 / 2 / 2 / 2, 1, 3);
    assert Or(a / 2 / 2 / 2 / 2 / 2 / 2, 1, 2) == 1 by { OrOne(a / 2 / 2 / 2 / 2 / 2 / 2); }
  }

  lemma OrEven(a: nat, m: nat, width: nat)
    requires width > 0
    ensures Or(a, 2 * m, width) == a % 2 + 2 * Or(a / 2, m, width - 1)
  {
    HalfParity(2 * m, 0, m);
  }

  lemma OrOne(a: nat)
    requires a < 2
    ensures Or(a, 1, 2) == 1
  {
  }

  lemma ClampIff(h: bytes, x: bytes)
    requires |h| == 64
    ensures x == Clamp(h[..32]) <==> IsClamped(h, x)
  {
    hide LowBitsCleared, TopBitsSet;
    ClampedBytes(h[0]);
    ClampedBytes(h[31]);
  }

  /** deriveScalar is the key derivation of RFC 8032, with the scalar reduced. */
  lemma KeyIff(g: Suite, sk: bytes, x: nat, Y: int)
    requires g.Valid()
    ensures DeriveScalar(g, sk) == Returns((x, Y)) <==> KeyOf(g, sk, x, Y)
  {
    hide Clamp, IsClamped, Scale, LE;
    KeyPassesGates(g, sk);
    ClampIff(g.sha512(sk), Clamp(g.sha512(sk)[..32]));
    forall b | IsClamped(g.sha512(sk), b) ensures b == Clamp(g.sha512(sk)[..32]) { ClampIff(g.sha512(sk), b); }
    ScaleIsProduct(g.q, SecretScalar(g, sk), g.base);
  }

  /** publicKeyFromSeed gives the encoded point of that key, and nothing for a seed of another length. */
  lemma PublicKeyIff(g: Suite, sk: bytes, pk: bytes)
    requires g.Valid()
    ensures PublicKeyFromSeed(g, sk) == Returns(pk) <==> exists x, Y :: KeyOf(g, sk, x, Y) && pk == g.encodePoint(Y)
  {
    hide KeyOf, SecretScalar, PublicPoint;
    var d := DeriveScalar(g, sk);
    if d.Returns? { KeyIff(g, sk, d.value.0, d.value.1); }
    if x, Y :| KeyOf(g, sk, x, Y) && pk == g.encodePoint(Y) {
      ScalarInRange(g, sk, x, Y);
      KeyIff(g, sk, x, Y);
    }
  }

  // ---------------------------------------------------------------- hashing to the curve

  lemma CurveInputIff(g: Suite, m: bytes, salt: bytes, alpha: bytes, ctr: byte)
    ensures m == g.ToCurveInput(salt, alpha, ctr) <==> IsCurveInput(m, salt, alpha, ctr)
  {
    var n := |salt| + 2;
    if m == g.ToCurveInput(salt, alpha, ctr) {
      assert m == [3, 1] + salt + alpha + [ctr, 0];
    }
    if IsCurveInput(m, salt, alpha, ctr) {
      assert m == m[..2] + m[2..n] + m[n..|m| - 2] + m[|m| - 2..];
    }
  }

  lemma AttemptIff(g: Suite, salt: bytes, alpha: bytes, ctr: byte, H: int)
    requires g.Valid()
    ensures TryCounter(g, salt, alpha, ctr) == Some(H) <==> AttemptGives(g, salt, alpha, ctr, H)
  {
    hide IsCurveInput, Scale, Suite.ToCurveInput;
    var m := g.ToCurveInput(salt, alpha, ctr);
    CurveInputIff(g, m, salt, alpha, ctr);
    forall b | IsCurveInput(b, salt, alpha, ctr) ensures b == m { CurveInputIff(g, b, salt, alpha, ctr); }
    var point := g.decodePoint(g.sha512(m)[..32]);
    if point.Some? { ScaleIsProduct(g.q, 8, point.value); }
  }

  lemma AttemptFailsIff(g: Suite, salt: bytes, alpha: bytes, ctr: byte)
    requires g.Valid()
    ensures TryCounter(g, salt, alpha, ctr) == None <==> AttemptFails(g, salt, alpha, ctr)
  {
    hide TryCounter, AttemptGives;
    forall H ensures TryCounter(g, salt, alpha, ctr) == Some(H) <==> AttemptGives(g, salt, alpha, ctr, H) {
      AttemptIff(g, salt, alpha, ctr, H);
    }
    var r := TryCounter(g, salt, alpha, ctr);
    if r.Some? { assert AttemptGives(g, salt, alpha, ctr, r.value); }
  }

  /** encodeToCurveTAI is encode_to_curve of the standard, bounded to 256 attempts. */
  lemma CurvePointIff(g: Suite, salt: bytes, alpha: bytes, H: int)
    requires g.Valid()
    ensures EncodeToCurve(g, salt, alpha) == Returns(H) <==> IsCurvePoint(g, salt, alpha, H)
  {
    hide TryCounter, AttemptGives, AttemptFails, EncodeToCurve;
    var least := LeastCounter(g, salt, alpha);
    forall j: nat | j < least ensures AttemptFails(g, salt, alpha, j) { AttemptFailsIff(g, salt, alpha, j); }
    if least < 256 {
      AttemptIff(g, salt, alpha, least, TryCounter(g, salt, alpha, least).value);
      AttemptFailsIff(g, salt, alpha, least);
    }
    if IsCurvePoint(g, salt, alpha, H) {
      var ctr: nat :| ctr < 256 && AttemptGives(g, salt, alpha, ctr, H) &&
        forall j: nat :: j < ctr ==> AttemptFails(g, salt, alpha, j);
      AttemptIff(g, salt, alpha, ctr, H);
    }
  }

  // ---------------------------------------------------------------- hash inputs

  lemma ChallengeInputIff(g: Suite, m: bytes, Y: int, H: int, Gamma: int, U: int, V: int)
    requires g.Valid() && IsPoint(g.q, Y) && IsPoint(g.q, H) && IsPoint(g.q, Gamma)
    requires IsPoint(g.q, U) && IsPoint(g.q, V)
    ensures m == g.ChallengeInput(Y, H, Gamma, U, V) <==> IsChallengeInput(g, m, Y, H, Gamma, U, V)
  {
    PointLengths(g);
    hide Suite.Valid;
    SevenFields(m, g.encodePoint(Y), g.encodePoint(H), g.encodePoint(Gamma), g.encodePoint(U), g.encodePoint(V));
  }

  lemma PointLengths(g: Suite)
    requires g.Valid()
    ensures forall P :: IsPoint(g.q, P) ==> |g.encodePoint(P)| == 32
  {
  }

  lemma SevenFields(m: bytes, a: bytes, b: bytes, c: bytes, d: bytes, e: bytes)
    requires |a| == 32 && |b| == 32 && |c| == 32 && |d| == 32 && |e| == 32
    ensures m == [3, 2] + a + b + c + d + e + [0] <==>
      && |m| == 163 && m[0] == 3 && m[1] == 2 && m[162] == 0
      && m[2..34] == a && m[34..66] == b && m[66..98] == c && m[98..130] == d && m[130..162] == e
  {
    if |m| == 163 {
      assert m == m[..2] + m[2..34] + m[34..66] + m[66..98] + m[98..130] + m[130..162] + m[162..];
    }
  }

  /** The challenge is the first sixteen hash bytes of the one input with this layout. */
  lemma ChallengeMeaning(g: Suite, Y: int, H: int, Gamma: int, U: int, V: int, m: bytes)
    requires g.Valid() && IsPoint(g.q, Y) && IsPoint(g.q, H) && IsPoint(g.q, Gamma)
    requires IsPoint(g.q, U) && IsPoint(g.q, V)
    requires IsChallengeInput(g, m, Y, H, Gamma, U, V)
    ensures EncodeLE(g.Challenge(Y, H, Gamma, U, V), 16) == g.sha512(m)[..16]
  {
    hide IsChallengeInput, EncodeLE, LE;
    ChallengeInputIff(g, m, Y, H, Gamma, U, V);
    EncodeDecodeLE(g.sha512(m)[..16]);
  }

  lemma NonceInputIff(g: Suite, m: bytes, sk: bytes, H: int)
    requires g.Valid() && IsPoint(g.q, H)
    ensures m == g.NonceInput(sk, g.encodePoint(H)) <==> IsNonceInput(g, m, sk, H)
  {
    var second := g.sha512(sk)[32..64];
    if IsNonceInput(g, m, sk, H) {
      assert m[..32] == second;
      assert m == m[..32] + m[32..];
    }
  }

  lemma OutputInputIff(g: Suite, m: bytes, Gamma: int)
    requires g.Valid() && IsPoint(g.q, Gamma)
    ensures m == g.BetaInput(Gamma) <==> IsOutputInput(g, m, Gamma)
  {
    hide Scale;
    ScaleIsProduct(g.q, 8, Gamma);
    var e := g.encodePoint(Times(g, 8, Gamma));
    assert IsPoint(g.q, Times(g, 8, Gamma));
    if m == g.BetaInput(Gamma) { assert m == [3, 3] + e + [0]; }
    if IsOutputInput(g, m, Gamma) { assert m == m[..2] + m[2..34] + m[34..]; }
  }

  /** vrfProofToHash computes the output of section 5.2, exactly for the proofs whose Gamma passes the gates. */
  lemma OutputIff(g: Suite, proof: bytes, beta: bytes)
    requires g.Valid()
    ensures ProofToHash(g, proof) == Returns(beta) <==> IsOutput(g, proof, beta)
  {
    if |proof| == 80 && g.decodePoint(proof[..32]).Some? {
      var Gamma := g.decodePoint(proof[..32]).value;
      assert IsPoint(g.q, Gamma);
      LargeOrder(g);
      PrimeOrderMeaning(g.q, Gamma);
      OutputInputIff(g, g.BetaInput(Gamma), Gamma);
      forall m | IsOutputInput(g, m, Gamma) ensures m == g.BetaInput(Gamma) { OutputInputIff(g, m, Gamma); }
      hide IsOutputInput, SmallOrder, TorsionFree, Suite.Valid, Scale;
      assert g.Multiply(Gamma, 8) == Returns(Scale(g.q, 8, Gamma));
    }
  }

  /** The three ways in which vrfProofToHash throws, in their order. */
  lemma OutputErrors(g: Suite, proof: bytes)
    requires g.Valid() && ProofToHash(g, proof).Throws?
    ensures ProofToHash(g, proof).error ==
      if |proof| != 80 then BadProofLength
      else if g.decodePoint(proof[..32]) == None then BadPoint else BadGamma
    ensures ProofToHash(g, proof).error == BadGamma ==> !OfPrimeOrder(g.decodePoint(proof[..32]).value)
  {
    LargeOrder(g);
    if |proof| == 80 && g.decodePoint(proof[..32]).Some? {
      PrimeOrderMeaning(g.q, g.decodePoint(proof[..32]).value);
    }
  }

  // ---------------------------------------------------------------- verifying

  lemma Combination(q: nat, s: nat, P: int, c: nat, Q: int)
    requires IsPoint(q, P) && IsPoint(q, Q)
    ensures IsPoint(q, Sub(q, Scale(q, s, P), Scale(q, c, Q)))
    ensures Sub(q, Scale(q, s, P), Scale(q, c, Q)) == (s * P - c * Q) % (8 * q)
  {
    ScaleIsProduct(q, s, P);
    ScaleIsProduct(q, c, Q);
    ReduceCongruent(8 * q, s * P);
    ReduceCongruent(8 * q, c * Q);
    AddCongruent(8 * q, Scale(q, s, P), s * P, Scale(q, c, Q), c * Q);
    SubIsDifference(q, Scale(q, s, P), Scale(q, c, Q));
  }

  lemma GatesMeaning(g: Suite, pk: bytes, proof: bytes)
    requires g.Valid() && |proof| == 80
    ensures PassesGates(g, pk, proof) <==>
      && |pk| == 32 && LE(proof[48..80]) < g.q
      && g.decodePoint(pk).Some? && OfPrimeOrder(g.decodePoint(pk).value)
      && g.decodePoint(proof[..32]).Some? && OfPrimeOrder(g.decodePoint(proof[..32]).value)
  {
    LargeOrder(g);
    hide LE, PrimeOrder, Prime;
    if g.decodePoint(pk).Some? { PrimeOrderMeaning(g.q, g.decodePoint(pk).value); }
    if g.decodePoint(proof[..32]).Some? { PrimeOrderMeaning(g.q, g.decodePoint(proof[..32]).value); }
  }

  /** Behind the gates, the answer check is the comparison of sixteen bytes. */
  lemma AnswerMeaning(g: Suite, pk: bytes, proof: bytes, Y: int, Gamma: int, H: int, m: bytes)
    requires g.Valid() && |proof| == 80 && PassesGates(g, pk, proof) && IsPoint(g.q, H)
    requires g.decodePoint(pk) == Some(Y) && g.decodePoint(proof[..32]) == Some(Gamma)
    requires var c, s := LE(proof[32..48]), LE(proof[48..80]);
      m == g.ChallengeInput(Y, H, Gamma, (s * g.base - c * Y) % (8 * g.q), (s * H - c * Gamma) % (8 * g.q))
    ensures AnswersItself(g, pk, proof, H) <==> proof[32..48] == g.sha512(m)[..16]
  {
    var c, s := ChallengeOf(proof), ResponseOf(proof);
    Combination(g.q, s, g.base, c, Y);
    Combination(g.q, s, H, c, Gamma);
    hide Sub, Scale, PassesGates, LE, Suite.Valid, Suite.ChallengeInput;
    var U, V := (s * g.base - c * Y) % (8 * g.q), (s * H - c * Gamma) % (8 * g.q);
    assert Answers(g.q, g.base, Y, H, Gamma, U, V, c, s);
    assert AnswersItself(g, pk, proof, H) <==> c == g.Challenge(Y, H, Gamma, U, V);
    EncodeDecodeLE(proof[32..48]);
    EncodeDecodeLE(g.sha512(m)[..16]);
  }

  lemma AcceptedNeedsLength(g: Suite, pk: bytes, alpha: bytes, proof: bytes)
    requires g.Valid() && VerifyVRF(g, pk, alpha, proof) == Returns(true)
    ensures |proof| == 80 && PassesGates(g, pk, proof)
  {
    VerifyMeaning(g, pk, alpha, proof);
  }

  lemma AcceptedHasParts(g: Suite, pk: bytes, alpha: bytes, proof: bytes)
    requires g.Valid() && VerifyVRF(g, pk, alpha, proof) == Returns(true)
    ensures IsAccepted(g, pk, alpha, proof)
  {
    VerifyMeaning(g, pk, alpha, proof);
    AcceptedNeedsLength(g, pk, alpha, proof);
    GatesMeaning(g, pk, proof);
    hide VerifyVRF, AnswersItself, IsCurvePoint, LE, EncodeToCurve, PassesGates, Suite.ChallengeInput,
         IsChallengeInput;
    var Y, Gamma := g.decodePoint(pk).value, g.decodePoint(proof[..32]).value;
    var H := EncodeToCurve(g, pk, alpha).value;
    CurvePointIff(g, pk, alpha, H);
    CurvePointOnCurve(g, pk, alpha, H);
    var c, s := LE(proof[32..48]), LE(proof[48..80]);
    var U, V := (s * g.base - c * Y) % (8 * g.q), (s * H - c * Gamma) % (8 * g.q);
    var m := g.ChallengeInput(Y, H, Gamma, U, V);
    AnswerMeaning(g, pk, proof, Y, Gamma, H, m);
    ChallengeInputIff(g, m, Y, H, Gamma, U, V);
    assert VerifyParts(g, pk, alpha, proof, Y, Gamma, H, m);
  }

  lemma CurvePointOnCurve(g: Suite, salt: bytes, alpha: bytes, H: int)
    requires g.Valid() && EncodeToCurve(g, salt, alpha) == Returns(H)
    ensures IsPoint(g.q, H)
  {
    var least := LeastCounter(g, salt, alpha);
  }

  lemma PartsAreAccepted(g: Suite, pk: bytes, alpha: bytes, proof: bytes, Y: int, Gamma: int, H: int, m: bytes)
    requires g.Valid() && |pk| == 32 && |proof| == 80 && VerifyParts(g, pk, alpha, proof, Y, Gamma, H, m)
    ensures VerifyVRF(g, pk, alpha, proof) == Returns(true)
  {
    VerifyMeaning(g, pk, alpha, proof);
    GatesMeaning(g, pk, proof);
    hide VerifyVRF, AnswersItself, IsCurvePoint, LE, EncodeToCurve, PassesGates, Suite.ChallengeInput,
         IsChallengeInput;
    CurvePointIff(g, pk, alpha, H);
    CurvePointOnCurve(g, pk, alpha, H);
    var c, s := LE(proof[32..48]), LE(proof[48..80]);
    var U, V := (s * g.base - c * Y) % (8 * g.q), (s * H - c * Gamma) % (8 * g.q);
    ChallengeInputIff(g, m, Y, H, Gamma, U, V);
    AnswerMeaning(g, pk, proof, Y, Gamma, H, m);
  }

  /** verifyVRF accepts exactly what section 5.3 accepts. */
  lemma VerifyIff(g: Suite, pk: bytes, alpha: bytes, proof: bytes)
    requires g.Valid()
    ensures VerifyVRF(g, pk, alpha, proof) == Returns(true) <==> IsAccepted(g, pk, alpha, proof)
  {
    hide VerifyVRF, VerifyParts;
    if VerifyVRF(g, pk, alpha, proof) == Returns(true) { AcceptedHasParts(g, pk, alpha, proof); }
    if IsAccepted(g, pk, alpha, proof) {
      var Y, Gamma, H, m :| VerifyParts(g, pk, alpha, proof, Y, Gamma, H, m);
      PartsAreAccepted(g, pk, alpha, proof, Y, Gamma, H, m);
    }
  }

  // ---------------------------------------------------------------- proving

  lemma NonceMeaning(g: Suite, sk: bytes, H: int, n: bytes)
    requires g.Valid() && IsPoint(g.q, H) && |sk| == 32
    requires IsNonceInput(g, n, sk, H)
    ensures g.Nonce(sk, g.encodePoint(H)) == Returns(NonceFrom(g, n))
  {
    hide IsNonceInput, LE;
    NonceInputIff(g, n, sk, H);
  }

  /** The proof bytes of a nonce, field by field. */
  lemma ProofBytesIff(g: Suite, sk: bytes, H: int, k: nat, m: bytes, proof: bytes)
    requires g.Valid() && 1 <= k < g.q && PrimeOrder(g.q, H)
    requires var x := SecretScalar(g, sk);
      IsChallengeInput(g, m, PublicPoint(g, sk), H, Times(g, x, H), Times(g, k, g.base), Times(g, k, H))
    ensures proof == ProofBytes(g, HonestGamma(g, sk, H), HonestChallenge(g, sk, H, k), HonestResponse(g, sk, H, k))
      <==> |proof| == 80 && CarriesFields(g, proof, SecretScalar(g, sk), H, k, m)
  {
    hide LE, EncodeLE, Scale, SecretScalar, IsChallengeInput, Suite.ChallengeInput, Prime;
    var x := SecretScalar(g, sk);
    KeyPassesGates(g, sk);
    ScaleIsProduct(g.q, x, H);
    ScaleIsProduct(g.q, k, g.base);
    ScaleIsProduct(g.q, k, H);
    ChallengeMeaning(g, PublicPoint(g, sk), H, Times(g, x, H), Times(g, k, g.base), Times(g, k, H), m);
    var c, s := HonestChallenge(g, sk, H, k), HonestResponse(g, sk, H, k);
    FieldsReadBack(g, HonestGamma(g, sk, H), c, s);
    var honest := ProofBytes(g, HonestGamma(g, sk, H), c, s);
    SameProof(honest, proof);
    EncodeDecodeLE(g.sha512(m)[..16]);
    FirstBytes(g, HonestGamma(g, sk, H), c, s);
  }

  lemma FirstBytes(g: Suite, Gamma: int, c: nat, s: nat)
    requires g.Valid() && IsPoint(g.q, Gamma)
    ensures ProofBytes(g, Gamma, c, s)[32..48] == EncodeLE(c, 16)
  {
    hide EncodeLE;
  }

  /** Two 80-byte strings are equal when their first two fields and the value of the third are. */
  lemma SameProof(a: bytes, b: bytes)
    requires |a| == 80
    ensures a == b <==> |b| == 80 && a[..32] == b[..32] && a[32..48] == b[32..48] && LE(a[48..80]) == LE(b[48..80])
  {
    hide LE;
    if |b| == 80 {
      EncodeDecodeLE(a[48..80]);
      EncodeDecodeLE(b[48..80]);
      assert a == a[..32] + a[32..48] + a[48..80];
      assert b == b[..32] + b[32..48] + b[48..80];
    }
  }

  /** What proveVRF goes through, in the standard's terms: the key, the curve point and the nonce are these. */
  lemma HonestPath(g: Suite, sk: bytes, alpha: bytes, x: int, Y: int, H: int, n: bytes)
    requires g.Valid() && KeyOf(g, sk, x, Y) && IsCurvePoint(g, g.encodePoint(Y), alpha, H)
    requires IsNonceInput(g, n, sk, H)
    ensures |sk| == 32 && x == SecretScalar(g, sk) && Y == PublicPoint(g, sk) && PrimeOrder(g.q, H)
    ensures EncodeToCurve(g, g.encodePoint(Y), alpha) == Returns(H)
    ensures g.Nonce(sk, g.encodePoint(H)) == Returns(NonceFrom(g, n)) && 0 <= NonceFrom(g, n) < g.q
  {
    hide LE, IsCurvePoint, EncodeToCurve, Scale, SecretScalar, PublicPoint, IsNonceInput, IsClamped, Prime,
         DeriveScalar;
    ScalarInRange(g, sk, x, Y);
    KeyIff(g, sk, x, Y);
    KeyPassesGates(g, sk);
    CurvePointIff(g, g.encodePoint(Y), alpha, H);
    HonestPoints(g, sk, alpha, H);
    PrimeOrderParts(g.q, H);
    NonceMeaning(g, sk, H, n);
    ReduceCongruent(g.q, LE(g.sha512(n)));
  }

  lemma ScalarInRange(g: Suite, sk: bytes, x: int, Y: int)
    requires g.Valid() && KeyOf(g, sk, x, Y)
    ensures x >= 0
  {
    var b :| IsClamped(g.sha512(sk), b) && x == LE(b) % g.q && Y == Times(g, x, g.base);
    ReduceCongruent(g.q, LE(b));
  }

  lemma PartsAreProved(g: Suite, sk: bytes, alpha: bytes, proof: bytes, x: int, Y: int, H: int, n: bytes, m: bytes)
    requires g.Valid() && |proof| == 80 && ProofParts(g, sk, alpha, proof, x, Y, H, n, m)
    ensures ProveVRF(g, sk, alpha) == Returns(proof)
  {
    HonestPath(g, sk, alpha, x, Y, H, n);
    ProveMeaning(g, sk, alpha);
    hide LE, EncodeToCurve, IsCurvePoint, KeyOf, IsNonceInput, IsChallengeInput, ProveVRF, SecretScalar, PublicPoint,
         HonestGamma, HonestChallenge, HonestResponse, ProofBytes, PrimeOrder, Suite.Nonce, NonceFrom, CarriesFields,
         Times, Suite.Valid;
    ProofBytesIff(g, sk, H, NonceFrom(g, n), m, proof);
  }

  lemma ProvedHasParts(g: Suite, sk: bytes, alpha: bytes, proof: bytes)
    requires g.Valid() && ProveVRF(g, sk, alpha) == Returns(proof)
    ensures IsProof(g, sk, alpha, proof)
  {
    ProveMeaning(g, sk, alpha);
    KeyPassesGates(g, sk);
    hide LE, EncodeToCurve, IsCurvePoint, KeyOf, IsNonceInput, IsChallengeInput, ProveVRF, SecretScalar, PublicPoint,
         HonestGamma, HonestChallenge, HonestResponse, ProofBytes, PrimeOrder, Suite.Nonce, Scale, DeriveScalar,
         Suite.NonceInput, Suite.ChallengeInput, NonceFrom, CarriesFields;
    var x, Y := SecretScalar(g, sk), PublicPoint(g, sk);
    KeyIff(g, sk, x, Y);
    var H := EncodeToCurve(g, g.encodePoint(Y), alpha).value;
    CurvePointIff(g, g.encodePoint(Y), alpha, H);
    CurvePointOnCurve(g, g.encodePoint(Y), alpha, H);
    var n := g.NonceInput(sk, g.encodePoint(H));
    NonceInputIff(g, n, sk, H);
    HonestPath(g, sk, alpha, x, Y, H, n);
    var k := NonceFrom(g, n);
    var Gamma, U, V := Times(g, x, H), Times(g, k, g.base), Times(g, k, H);
    var m := g.ChallengeInput(Y, H, Gamma, U, V);
    PointsOfPrimeOrder(g, Y, H);
    ChallengeInputIff(g, m, Y, H, Gamma, U, V);
    ProofBytesIff(g, sk, H, k, m, proof);
    assert ProofParts(g, sk, alpha, proof, x, Y, H, n, m);
  }

  lemma PointsOfPrimeOrder(g: Suite, Y: int, H: int)
    requires PrimeOrder(g.q, Y) && PrimeOrder(g.q, H)
    ensures IsPoint(g.q, Y) && IsPoint(g.q, H)
  {
  }

  /** proveVRF returns exactly the proof of section 5.1. */
  lemma ProveIff(g: Suite, sk: bytes, alpha: bytes, proof: bytes)
    requires g.Valid()
    ensures ProveVRF(g, sk, alpha) == Returns(proof) <==> IsProof(g, sk, alpha, proof)
  {
    hide ProveVRF, ProofParts;
    if ProveVRF(g, sk, alpha) == Returns(proof) { ProvedHasParts(g, sk, alpha, proof); }
    if IsProof(g, sk, alpha, proof) {
      var x, Y, H, n, m :| ProofParts(g, sk, alpha, proof, x, Y, H, n, m);
      PartsAreProved(g, sk, alpha, proof, x, Y, H, n, m);
    }
  }
}
