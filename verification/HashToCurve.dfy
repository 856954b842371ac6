/** packages/ecvrf/src/hashToCurve.ts: bounded try-and-increment. */
module HashToCurve {
  import opened Common
  import opened Modular
  import opened Group
  import opened Ciphersuite

  /** What one counter value gives: the cofactor-cleared point, unless the bytes do not decode or clear to zero. */
  function TryCounter(g: Suite, salt: bytes, alpha: bytes, ctr: byte): Option<int> {
    match g.decodePoint(g.sha512(g.ToCurveInput(salt, alpha, ctr))[..32])
    case None => None
    case Some(P) => if Scale(g.q, 8, P) == 0 then None else Some(Scale(g.q, 8, P))
  }

  /** The first success from ctr on. */
  function FirstFrom(g: Suite, salt: bytes, alpha: bytes, ctr: nat): Outcome<int>
    requires ctr <= 256
    decreases 256 - ctr
  {
    if ctr == 256 then Throws(NoCurvePoint)
    else match TryCounter(g, salt, alpha, ctr)
      case Some(H) => Returns(H)
      case None => FirstFrom(g, salt, alpha, ctr + 1)
  }

  function EncodeToCurve(g: Suite, salt: bytes, alpha: bytes): Outcome<int> {
    FirstFrom(g, salt, alpha, 0)
  }

  /** encodeToCurveTAI: the loop over the counter byte. */
  method EncodeToCurveTAI(g: Suite, salt: bytes, alpha: bytes) returns (r: Outcome<int>)
    requires g.Valid()
    ensures r == EncodeToCurve(g, salt, alpha)
  {
    for ctr := 0 to 256
      invariant FirstFrom(g, salt, alpha, ctr) == EncodeToCurve(g, salt, alpha)
    {
      var hash := g.sha512(g.ToCurveInput(salt, alpha, ctr));
      var point := g.decodePoint(hash[..32]);
      if point.None? { continue; }
      SmallIsReduced(g.q, 8);
      var cleared := g.Multiply(point.value, 8).value;
      if cleared == 0 { continue; }
      return Returns(cleared);
    }
    return Throws(NoCurvePoint);
  }

  lemma {:induction false} FirstFromMeaning(g: Suite, salt: bytes, alpha: bytes, ctr: nat) returns (least: nat)
    requires ctr <= 256
    ensures ctr <= least <= 256
    ensures forall k :: ctr <= k < least ==> TryCounter(g, salt, alpha, k) == None
    ensures least == 256 ==> FirstFrom(g, salt, alpha, ctr) == Throws(NoCurvePoint)
    ensures least < 256 ==>
      && TryCounter(g, salt, alpha, least).Some?
      && FirstFrom(g, salt, alpha, ctr) == Returns(TryCounter(g, salt, alpha, least).value)
    decreases 256 - ctr
  {
    if ctr == 256 || TryCounter(g, salt, alpha, ctr).Some? {
      least := ctr;
    } else {
      least := FirstFromMeaning(g, salt, alpha, ctr + 1);
    }
  }

  /** The result comes from the least successful counter, is thrown exactly when no counter succeeds,
      and lies in the prime-order part. */
  lemma LeastCounter(g: Suite, salt: bytes, alpha: bytes) returns (least: nat)
    requires g.Valid()
    ensures least <= 256 && forall k :: 0 <= k < least ==> TryCounter(g, salt, alpha, k) == None
    ensures least == 256 ==> EncodeToCurve(g, salt, alpha) == Throws(NoCurvePoint)
    ensures least < 256 ==>
      && TryCounter(g, salt, alpha, least).Some?
      && EncodeToCurve(g, salt, alpha) == Returns(TryCounter(g, salt, alpha, least).value)
    ensures EncodeToCurve(g, salt, alpha).Returns? ==> PrimeOrder(g.q, EncodeToCurve(g, salt, alpha).value)
  {
    least := FirstFromMeaning(g, salt, alpha, 0);
    if least < 256 {
      ClearedIsPrimeOrder(g.q, g.decodePoint(g.sha512(g.ToCurveInput(salt, alpha, least))[..32]).value);
    }
  }

  lemma ClearedIsPrimeOrder(q: nat, P: int)
    requires Prime(q) && q > 8 && IsPoint(q, P) && Scale(q, 8, P) != 0
    ensures PrimeOrder(q, Scale(q, 8, P))
  {
    ScaleIsProduct(q, 8, P);
    EightTimes(q, P);
    PrimeOrderMeaning(q, Scale(q, 8, P));
  }
}
