/** packages/ecvrf/src/prove.ts, verify.ts and proofToHash.ts (sections 5.1, 5.2 and 5.3 of RFC 9381). */
module Ecvrf {
  import opened Common
  import opened Encoding
  import opened Modular
  import opened Group
  import opened Ciphersuite
  import opened Keypair
  import opened HashToCurve

  // ---------------------------------------------------------------- the code

  /** bigIntToBytesLE as a function. */
  function EncodeScalar(n: nat, length: nat): Outcome<bytes> {
    if n < Pow256(length) then Returns(EncodeLE(n, length)) else Throws(IntegerOverflow)
  }

  /** The last steps of proveVRF, from the nonce on. */
  function ProveWithNonce(g: Suite, x: nat, Y: int, H: int, Gamma: int, k: nat): Outcome<bytes>
    requires g.q > 0
  {
    var U :- g.Multiply(g.base, k);
    var V :- g.Multiply(H, k);
    var c := g.Challenge(Y, H, Gamma, U, V);
    var s := (k + c * x) % g.q;
    var cBytes :- EncodeScalar(c, C_LEN);
    var sBytes :- EncodeScalar(s, PT_LEN);
    Returns(g.encodePoint(Gamma) + cBytes + sBytes)
  }

  /** proveVRF */
  function ProveVRF(g: Suite, sk: bytes, alpha: bytes): Outcome<bytes>
    requires g.q > 0
  {
    var d :- DeriveScalar(g, sk);
    var (x, Y) := d;
    var H :- EncodeToCurve(g, g.encodePoint(Y), alpha);
    var Gamma :- g.Multiply(H, x);
    var k :- g.Nonce(sk, g.encodePoint(H));
    ProveWithNonce(g, x, Y, H, Gamma, k)
  }

  function GammaBytes(proof: bytes): bytes
    requires |proof| == PROOF_LEN
  {
    proof[..32]
  }

  function ChallengeOf(proof: bytes): (c: nat)
    requires |proof| == PROOF_LEN
    ensures c < TWO_128
  {
    LEBound(proof[32..48]);
    LargePowers();
    LE(proof[32..48])
  }

  function ResponseOf(proof: bytes): nat
    requires |proof| == PROOF_LEN
  {
    LE(proof[48..80])
  }

  /** verifyVRF: false, true, or an exception from hashing to the curve. */
  function VerifyVRF(g: Suite, pk: bytes, alpha: bytes, proof: bytes): Outcome<bool>
    requires g.q > 0
  {
    if |proof| != PROOF_LEN then Returns(false)
    else if |pk| != PT_LEN then Returns(false)
    else
      var c, s := ChallengeOf(proof), ResponseOf(proof);
      if s >= g.q then Returns(false)
      else match (g.decodePoint(pk), g.decodePoint(GammaBytes(proof)))
        case (Some(Y), Some(Gamma)) =>
          if SmallOrder(g.q, Y) || !TorsionFree(g.q, Y) then Returns(false)
          else if SmallOrder(g.q, Gamma) || !TorsionFree(g.q, Gamma) then Returns(false)
          else
            var H :- EncodeToCurve(g, pk, alpha);
            var sB :- g.MultiplyOrZero(g.base, s);
            var cY :- g.MultiplyOrZero(Y, c);
            var sH :- g.MultiplyOrZero(H, s);
            var cGamma :- g.MultiplyOrZero(Gamma, c);
            Returns(c == g.Challenge(Y, H, Gamma, Sub(g.q, sB, cY), Sub(g.q, sH, cGamma)))
        case _ => Returns(false)
  }

  /** vrfProofToHash */
  function ProofToHash(g: Suite, proof: bytes): Outcome<bytes>
    requires g.q > 0
  {
    if |proof| != PROOF_LEN then Throws(BadProofLength)
    else match g.decodePoint(GammaBytes(proof))
      case None => Throws(BadPoint)
      case Some(Gamma) =>
        if SmallOrder(g.q, Gamma) || !TorsionFree(g.q, Gamma) then Throws(BadGamma)
        else
          var cleared :- g.Multiply(Gamma, 8);
          Returns(g.sha512([SUITE_STRING, 3] + g.encodePoint(cleared) + [0]))
  }

  // ---------------------------------------------------------------- what verification decides

  /** Everything verifyVRF checks before it hashes to the curve. */
  ghost predicate PassesGates(g: Suite, pk: bytes, proof: bytes)
    requires g.q > 0
  {
    && |proof| == PROOF_LEN && |pk| == PT_LEN && ResponseOf(proof) < g.q
    && g.decodePoint(pk).Some? && PrimeOrder(g.q, g.decodePoint(pk).value)
    && g.decodePoint(GammaBytes(proof)).Some? && PrimeOrder(g.q, g.decodePoint(GammaBytes(proof)).value)
  }

  /** The proof answers its own challenge over the commitments it implies. */
  ghost predicate AnswersItself(g: Suite, pk: bytes, proof: bytes, H: int)
    requires g.q > 0 && PassesGates(g, pk, proof)
  {
    var Y, Gamma := g.decodePoint(pk).value, g.decodePoint(GammaBytes(proof)).value;
    exists U, V ::
      && Answers(g.q, g.base, Y, H, Gamma, U, V, ChallengeOf(proof), ResponseOf(proof))
      && ChallengeOf(proof) == g.Challenge(Y, H, Gamma, U, V)
  }

  /** verifyVRF is false when a gate fails, throws exactly when the gates pass and no curve point is found,
      and is otherwise the answer to the challenge question. */
  lemma VerifyMeaning(g: Suite, pk: bytes, alpha: bytes, proof: bytes)
    requires g.Valid()
    ensures VerifyVRF(g, pk, alpha, proof) ==
      if !PassesGates(g, pk, proof) then Returns(false)
      else match EncodeToCurve(g, pk, alpha)
        case Throws(e) => Throws(e)
        case Returns(H) => Returns(AnswersItself(g, pk, proof, H))
  {
    if PassesGates(g, pk, proof) && EncodeToCurve(g, pk, alpha).Returns? {
      hide EncodeToCurve, Prime, Suite.Challenge, SmallOrder, TorsionFree;
      var H := EncodeToCurve(g, pk, alpha).value;
      var Y, Gamma := g.decodePoint(pk).value, g.decodePoint(GammaBytes(proof)).value;
      var c, s := ChallengeOf(proof), ResponseOf(proof);
      assert c < g.q;
      var U := Sub(g.q, Scale(g.q, s, g.base), Scale(g.q, c, Y));
      var V := Sub(g.q, Scale(g.q, s, H), Scale(g.q, c, Gamma));
      assert Answers(g.q, g.base, Y, H, Gamma, U, V, c, s);
    }
  }

  /** The hash of an accepted proof never throws. */
  lemma AcceptedProofHashes(g: Suite, pk: bytes, alpha: bytes, proof: bytes)
    requires g.Valid() && VerifyVRF(g, pk, alpha, proof) == Returns(true)
    ensures PassesGates(g, pk, proof)
    ensures ProofToHash(g, proof) == Returns(g.sha512(g.BetaInput(g.decodePoint(GammaBytes(proof)).value)))
  {
    VerifyMeaning(g, pk, alpha, proof);
  }

  // ---------------------------------------------------------------- honest proofs

  /** The honest Gamma, challenge and response of a nonce. */
  function HonestGamma(g: Suite, sk: bytes, H: int): int
    requires g.q > 0
  {
    Scale(g.q, SecretScalar(g, sk), H)
  }

  function HonestChallenge(g: Suite, sk: bytes, H: int, k: nat): (c: nat)
    requires g.q > 0
    ensures c < TWO_128
  {
    g.Challenge(PublicPoint(g, sk), H, HonestGamma(g, sk, H), Scale(g.q, k, g.base), Scale(g.q, k, H))
  }

  function HonestResponse(g: Suite, sk: bytes, H: int, k: nat): (s: nat)
    requires g.q > 0
    ensures s < g.q
  {
    (k + HonestChallenge(g, sk, H, k) * SecretScalar(g, sk)) % g.q
  }

  function ProofBytes(g: Suite, Gamma: int, c: nat, s: nat): bytes {
    g.encodePoint(Gamma) + EncodeLE(c, 16) + EncodeLE(s, 32)
  }

  /** The three fields of an 80-byte proof read back. */
  lemma FieldsReadBack(g: Suite, Gamma: int, c: nat, s: nat)
    requires g.Valid() && IsPoint(g.q, Gamma) && c < TWO_128 && s < g.q
    ensures var p := ProofBytes(g, Gamma, c, s);
      && |p| == PROOF_LEN && GammaBytes(p) == g.encodePoint(Gamma)
      && ChallengeOf(p) == c && ResponseOf(p) == s
  {
    LargePowers();
    DecodeEncodeLE(c, 16);
    DecodeEncodeLE(s, 32);
    ThreeFields(g.encodePoint(Gamma), EncodeLE(c, 16), EncodeLE(s, 32));
  }

  lemma ThreeFields(a: bytes, b: bytes, c: bytes)
    requires |a| == 32 && |b| == 16 && |c| == 32
    ensures var p := a + b + c; |p| == 80 && p[..32] == a && p[32..48] == b && p[48..80] == c
  {
  }

  /** Proving with a nonce succeeds exactly for nonces in [1, q), and the proof is the honest one. */
  lemma ProveWithNonceMeaning(g: Suite, sk: bytes, H: int, k: nat)
    requires g.Valid()
    ensures ProveWithNonce(g, SecretScalar(g, sk), PublicPoint(g, sk), H, HonestGamma(g, sk, H), k) ==
      if 1 <= k < g.q
      then Returns(ProofBytes(g, HonestGamma(g, sk, H), HonestChallenge(g, sk, H, k), HonestResponse(g, sk, H, k)))
      else Throws(ScalarOutOfRange)
  {
    hide SecretScalar, PublicPoint, EncodeLE, Pow256, Scale, Suite.Challenge, Suite.Valid;
    LargePowers();
    assert g.q < 2 * TWO_252 by { LargeOrder(g); }
  }

  lemma LargeOrder(g: Suite)
    requires g.Valid()
    ensures Prime(g.q) && 8 < TWO_128 < TWO_252 < g.q < 2 * TWO_252
  {
  }

  /** proveVRF returns exactly for 32-byte seeds whose curve point exists and whose nonce is not zero. */
  lemma ProveMeaning(g: Suite, sk: bytes, alpha: bytes)
    requires g.Valid()
    ensures var h := EncodeToCurve(g, g.encodePoint(PublicPoint(g, sk)), alpha);
      ProveVRF(g, sk, alpha) ==
        if |sk| != 32 then Throws(BadSeedLength)
        else match h
          case Throws(e) => Throws(e)
          case Returns(H) =>
            var k := g.Nonce(sk, g.encodePoint(H)).value;
            if k == 0 then Throws(ScalarOutOfRange)
            else
              Returns(ProofBytes(g, HonestGamma(g, sk, H), HonestChallenge(g, sk, H, k), HonestResponse(g, sk, H, k)))
  {
    KeyPassesGates(g, sk);
    ScalarNeverZero(g, sk);
    var h := EncodeToCurve(g, g.encodePoint(PublicPoint(g, sk)), alpha);
    if |sk| == 32 && h.Returns? {
      hide SecretScalar, PublicPoint, EncodeToCurve, DeriveScalar, ProveWithNonce, HonestChallenge, HonestResponse;
      ProveWithNonceMeaning(g, sk, h.value, g.Nonce(sk, g.encodePoint(h.value)).value);
    }
  }

  /** Completeness, whatever the nonce: the proof is accepted, and it hashes to a value the nonce does not touch. */
  lemma HonestProofAccepted(g: Suite, sk: bytes, alpha: bytes, H: int, k: nat)
    requires g.Valid() && 1 <= k < g.q
    requires EncodeToCurve(g, g.encodePoint(PublicPoint(g, sk)), alpha) == Returns(H)
    ensures var pk := g.encodePoint(PublicPoint(g, sk));
      var proof := ProofBytes(g, HonestGamma(g, sk, H), HonestChallenge(g, sk, H, k), HonestResponse(g, sk, H, k));
      && |proof| == PROOF_LEN
      && VerifyVRF(g, pk, alpha, proof) == Returns(true)
      && ProofToHash(g, proof) == Returns(g.sha512(g.BetaInput(HonestGamma(g, sk, H))))
  {
    var pk := g.encodePoint(PublicPoint(g, sk));
    var x, Y, Gamma := SecretScalar(g, sk), PublicPoint(g, sk), HonestGamma(g, sk, H);
    var c, s := HonestChallenge(g, sk, H, k), HonestResponse(g, sk, H, k);
    var proof := ProofBytes(g, Gamma, c, s);
    HonestPoints(g, sk, alpha, H);
    FieldsReadBack(g, Gamma, c, s);
    HonestAnswers(g, sk, H, k);
    assert AnswersItself(g, pk, proof, H) by {
      assert Answers(g.q, g.base, Y, H, Gamma, Scale(g.q, k, g.base), Scale(g.q, k, H), c, s);
    }
    VerifyMeaning(g, pk, alpha, proof);
    AcceptedProofHashes(g, pk, alpha, proof);
  }

  lemma HonestPoints(g: Suite, sk: bytes, alpha: bytes, H: int)
    requires g.Valid()
    requires EncodeToCurve(g, g.encodePoint(PublicPoint(g, sk)), alpha) == Returns(H)
    ensures PrimeOrder(g.q, PublicPoint(g, sk)) && PrimeOrder(g.q, H) && PrimeOrder(g.q, HonestGamma(g, sk, H))
  {
    KeyPassesGates(g, sk);
    ScalarNeverZero(g, sk);
    var least := LeastCounter(g, g.encodePoint(PublicPoint(g, sk)), alpha);
    SmallIsReduced(g.q, SecretScalar(g, sk));
    ScalePrimeOrder(g.q, SecretScalar(g, sk), H);
  }

  lemma HonestAnswers(g: Suite, sk: bytes, H: int, k: nat)
    requires g.Valid() && PrimeOrder(g.q, H)
    ensures Answers(g.q, g.base, PublicPoint(g, sk), H, HonestGamma(g, sk, H),
                    Scale(g.q, k, g.base), Scale(g.q, k, H), HonestChallenge(g, sk, H, k), HonestResponse(g, sk, H, k))
  {
    hide Prime, SecretScalar;
    var x, c, s := SecretScalar(g, sk), HonestChallenge(g, sk, H, k), HonestResponse(g, sk, H, k);
    ReduceCongruent(g.q, k + c * x);
    TorsionFreeMeaning(g.q, H);
    HonestAnswer(g.q, g.base, x, k, c, s);
    HonestAnswer(g.q, H, x, k, c, s);
  }

  /** Honest completeness: whatever proveVRF returns is 80 bytes long and verifies under the published key. */
  lemma HonestCompleteness(g: Suite, sk: bytes, alpha: bytes)
    requires g.Valid() && ProveVRF(g, sk, alpha).Returns?
    ensures var proof := ProveVRF(g, sk, alpha).value;
      && PublicKeyFromSeed(g, sk).Returns? && |proof| == PROOF_LEN
      && VerifyVRF(g, PublicKeyFromSeed(g, sk).value, alpha, proof) == Returns(true)
  {
    ProveMeaning(g, sk, alpha);
    KeyPassesGates(g, sk);
    var H := EncodeToCurve(g, g.encodePoint(PublicPoint(g, sk)), alpha).value;
    var k := g.Nonce(sk, g.encodePoint(H)).value;
    ReduceCongruent(g.q, LE(g.sha512(g.NonceInput(sk, g.encodePoint(H)))));
    HonestProofAccepted(g, sk, alpha, H, k);
  }

  // ---------------------------------------------------------------- uniqueness: of beta, not of the proof

  /** Different nonces give different proofs, and each is accepted: a key and an input have at least q - 1 proofs. */
  lemma ProofsDifferByNonce(g: Suite, sk: bytes, alpha: bytes, H: int, k: nat, k': nat)
    requires g.Valid() && 1 <= k < g.q && 1 <= k' < g.q && k != k'
    requires EncodeToCurve(g, g.encodePoint(PublicPoint(g, sk)), alpha) == Returns(H)
    ensures var pk, Gamma := g.encodePoint(PublicPoint(g, sk)), HonestGamma(g, sk, H);
      var p := ProofBytes(g, Gamma, HonestChallenge(g, sk, H, k), HonestResponse(g, sk, H, k));
      var p' := ProofBytes(g, Gamma, HonestChallenge(g, sk, H, k'), HonestResponse(g, sk, H, k'));
      && p != p' && VerifyVRF(g, pk, alpha, p) == VerifyVRF(g, pk, alpha, p') == Returns(true)
      && ProofToHash(g, p) == ProofToHash(g, p') && ProofToHash(g, p).Returns?
  {
    HonestProofAccepted(g, sk, alpha, H, k);
    HonestProofAccepted(g, sk, alpha, H, k');
    HonestPoints(g, sk, alpha, H);
    var Gamma := HonestGamma(g, sk, H);
    var c, s := HonestChallenge(g, sk, H, k), HonestResponse(g, sk, H, k);
    var c', s' := HonestChallenge(g, sk, H, k'), HonestResponse(g, sk, H, k');
    FieldsReadBack(g, Gamma, c, s);
    FieldsReadBack(g, Gamma, c', s');
    if c == c' && s == s' {
      HonestAnswers(g, sk, H, k);
      HonestAnswers(g, sk, H, k');
      BaseIsPrimeOrder(g);
      ScaleInjective(g.q, k, k', g.base);
      SmallIsReduced(g.q, k);
      SmallIsReduced(g.q, k');
    }
  }

  /** Accepted proofs feed the same bytes to the output hash exactly when they carry the same Gamma. */
  lemma SameBetaInputIffSameGamma(g: Suite, pk: bytes, alpha: bytes, p: bytes, pk': bytes, alpha': bytes, p': bytes)
    requires g.Valid()
    requires VerifyVRF(g, pk, alpha, p) == Returns(true) && VerifyVRF(g, pk', alpha', p') == Returns(true)
    ensures PassesGates(g, pk, p) && PassesGates(g, pk', p')
    ensures g.BetaInput(g.decodePoint(GammaBytes(p)).value) == g.BetaInput(g.decodePoint(GammaBytes(p')).value)
      <==> GammaBytes(p) == GammaBytes(p')
  {
    AcceptedProofHashes(g, pk, alpha, p);
    AcceptedProofHashes(g, pk', alpha', p');
    var P, P' := g.decodePoint(GammaBytes(p)).value, g.decodePoint(GammaBytes(p')).value;
    CofactorInjective(g.q, P, P');
    ScaleIsProduct(g.q, 8, P);
    ScaleIsProduct(g.q, 8, P');
    EncodePointInjective(g, Scale(g.q, 8, P), Scale(g.q, 8, P'));
    if g.BetaInput(P) == g.BetaInput(P') {
      assert g.BetaInput(P)[2..34] == g.encodePoint(Scale(g.q, 8, P));
      assert g.BetaInput(P')[2..34] == g.encodePoint(Scale(g.q, 8, P'));
    }
  }

  lemma GatedGamma(g: Suite, pk: bytes, proof: bytes)
    requires g.q > 0 && PassesGates(g, pk, proof)
    ensures PrimeOrder(g.q, g.decodePoint(GammaBytes(proof)).value)
  {
  }

  lemma PrimeOrderParts(q: nat, P: int)
    requires PrimeOrder(q, P)
    ensures IsPoint(q, P) && TorsionFree(q, P)
  {
  }

  lemma HonestKey(g: Suite, sk: bytes, H: int)
    requires g.q > 0
    ensures PublicPoint(g, sk) == Scale(g.q, SecretScalar(g, sk), g.base)
    ensures HonestGamma(g, sk, H) == Scale(g.q, SecretScalar(g, sk), H)
  {
  }

  /** An accepted proof whose Gamma is not the key holder's answers, for its implied commitments, no challenge
      but its own: any other hash value at that point would have been rejected. */
  lemma ForgedGammaNeedsItsChallenge(g: Suite, sk: bytes, alpha: bytes, proof: bytes, H: int, U: int, V: int,
                                     c: nat, s: nat)
    requires g.Valid()
    requires var pk := g.encodePoint(PublicPoint(g, sk));
      && EncodeToCurve(g, pk, alpha) == Returns(H) && PassesGates(g, pk, proof)
      && Answers(g.q, g.base, PublicPoint(g, sk), H, g.decodePoint(GammaBytes(proof)).value, U, V,
                 ChallengeOf(proof), ResponseOf(proof))
      && g.decodePoint(GammaBytes(proof)).value != HonestGamma(g, sk, H)
    requires c < TWO_128
    requires Answers(g.q, g.base, PublicPoint(g, sk), H, g.decodePoint(GammaBytes(proof)).value, U, V, c, s)
    ensures c == ChallengeOf(proof)
  {
    hide Scale, Sub, Answers, Suite.Valid, Prime, SmallOrder, TorsionFree, EncodeToCurve, SecretScalar, PublicPoint,
         HonestGamma, LE;
    var Y, Gamma := PublicPoint(g, sk), g.decodePoint(GammaBytes(proof)).value;
    GatedGamma(g, g.encodePoint(Y), proof);
    HonestPoints(g, sk, alpha, H);
    PrimeOrderParts(g.q, H);
    PrimeOrderParts(g.q, Gamma);
    BaseIsPrimeOrder(g);
    LargeOrder(g);
    HonestKey(g, sk, H);
    WrongGammaOneChallenge(g.q, g.base, SecretScalar(g, sk), Y, H, Gamma, U, V, ChallengeOf(proof), ResponseOf(proof),
                           c, s);
  }

  /** An accepted proof under an honest key has the honest output exactly when its Gamma is the honest one: the bytes
      hashed to beta are those of every honest proof if and only if Gamma = xH. */
  lemma HonestOutputIffHonestGamma(g: Suite, sk: bytes, alpha: bytes, proof: bytes, H: int)
    requires g.Valid()
    requires EncodeToCurve(g, g.encodePoint(PublicPoint(g, sk)), alpha) == Returns(H)
    requires VerifyVRF(g, g.encodePoint(PublicPoint(g, sk)), alpha, proof) == Returns(true)
    ensures PassesGates(g, g.encodePoint(PublicPoint(g, sk)), proof)
    ensures var Gamma := g.decodePoint(GammaBytes(proof)).value;
      g.BetaInput(Gamma) == g.BetaInput(HonestGamma(g, sk, H)) <==> Gamma == HonestGamma(g, sk, H)
  {
    var pk := g.encodePoint(PublicPoint(g, sk));
    AcceptedProofHashes(g, pk, alpha, proof);
    HonestProofAccepted(g, sk, alpha, H, 1);
    HonestPoints(g, sk, alpha, H);
    var honest := ProofBytes(g, HonestGamma(g, sk, H), HonestChallenge(g, sk, H, 1), HonestResponse(g, sk, H, 1));
    FieldsReadBack(g, HonestGamma(g, sk, H), HonestChallenge(g, sk, H, 1), HonestResponse(g, sk, H, 1));
    SameBetaInputIffSameGamma(g, pk, alpha, proof, pk, alpha, honest);
    EncodePointInjective(g, g.decodePoint(GammaBytes(proof)).value, HonestGamma(g, sk, H));
  }
}
