/** The edwards25519 group, as the integers modulo eight times a prime, and its prime-order part. */
module Group {
  import opened Bits
  import opened Modular

  /** Points are the numbers from 0 to 8q - 1, added modulo 8q. */
  predicate IsPoint(q: nat, P: int) {
    0 <= P < 8 * q
  }

  function Add(q: nat, P: int, Q: int): int {
    if P + Q >= 8 * q then P + Q - 8 * q else P + Q
  }

  function Sub(q: nat, P: int, Q: int): int {
    if P < Q then P - Q + 8 * q else P - Q
  }

  /** The n-fold sum of a point. */
  function Scale(q: nat, n: nat, P: int): int {
    if n == 0 then 0 else Add(q, Scale(q, n - 1, P), P)
  }

  lemma SubIsDifference(q: nat, P: int, Q: int)
    requires IsPoint(q, P) && IsPoint(q, Q)
    ensures Sub(q, P, Q) == (P - Q) % (8 * q) && IsPoint(q, Sub(q, P, Q))
  {
    if P < Q { DivModUnique(P - Q, 8 * q, -1, P - Q + 8 * q); } else { SmallIsReduced(8 * q, P - Q); }
  }

  /** The n-fold sum is the product modulo 8q. */
  lemma {:induction false} ScaleIsProduct(q: nat, n: nat, P: int)
    requires IsPoint(q, P)
    ensures Scale(q, n, P) == (n * P) % (8 * q) && IsPoint(q, Scale(q, n, P))
  {
    if n == 0 {
      SmallIsReduced(8 * q, 0);
    } else {
      ScaleIsProduct(q, n - 1, P);
      ReduceCongruent(8 * q, (n - 1) * P);
      AddIsSum(q, Scale(q, n - 1, P), (n - 1) * P, P);
      assert (n - 1) * P + P == n * P;
    }
  }

  lemma AddIsSum(q: nat, S: int, t: int, P: int)
    requires IsPoint(q, S) && IsPoint(q, P) && Congruent(8 * q, S, t)
    ensures Add(q, S, P) == (t + P) % (8 * q) && IsPoint(q, Add(q, S, P))
  {
    AddCongruent(8 * q, S, t, P, P);
    if S + P >= 8 * q { DivModUnique(S + P, 8 * q, 1, S + P - 8 * q); } else { SmallIsReduced(8 * q, S + P); }
  }

  /** noble's isSmallOrder: eight times the point is zero. */
  predicate SmallOrder(q: nat, P: int) {
    Scale(q, 8, P) == 0
  }

  /** noble's isTorsionFree: q times the point is zero. */
  predicate TorsionFree(q: nat, P: int) {
    Scale(q, q, P) == 0
  }

  /** Torsion-free and not of small order: the points the gates let through. */
  predicate PrimeOrder(q: nat, P: int) {
    IsPoint(q, P) && TorsionFree(q, P) && !SmallOrder(q, P)
  }

  lemma EightTimes(q: nat, x: int)
    requires q > 0
    ensures (8 * x) % (8 * q) == 8 * (x % q)
  {
    var n := x / q;
    assert x == n * q + x % q;
    assert n * (8 * q) == 8 * (n * q);
    DivModUnique(8 * x, 8 * q, n, 8 * (x % q));
  }

  lemma TorsionPart(q: nat, n: int, r: nat)
    requires q > 0 && r < 8
    ensures q * (8 * n + r) == n * (8 * q) + q * r
    ensures 0 <= q * r < 8 * q && (q * r == 0 <==> r == 0)
  {
  }

  /** The torsion-free points are the multiples of eight. */
  lemma TorsionFreeMeaning(q: nat, P: int)
    requires IsPoint(q, P)
    ensures TorsionFree(q, P) <==> P % 8 == 0
  {
    ScaleIsProduct(q, q, P);
    var n, r := P / 8, P % 8;
    TorsionPart(q, n, r);
    DivModUnique(q * P, 8 * q, n, q * r);
  }

  lemma SmallOrderMeaning(q: nat, P: int)
    requires IsPoint(q, P)
    ensures SmallOrder(q, P) <==> P % q == 0
  {
    ScaleIsProduct(q, 8, P);
    EightTimes(q, P);
  }

  /** A prime-order point is 8p for a p that is not zero modulo q. */
  lemma PrimeOrderMeaning(q: nat, P: int)
    requires Prime(q) && q > 8
    ensures PrimeOrder(q, P) <==> P % 8 == 0 && 0 < P < 8 * q
  {
    if IsPoint(q, P) {
      TorsionFreeMeaning(q, P);
      SmallOrderMeaning(q, P);
      if P % 8 == 0 {
        var p := P / 8;
        if P % q == 0 {
          SmallIsReduced(q, 8);
          NoZeroDivisors(q, 8, p);
          SmallIsReduced(q, p);
        }
        SmallIsReduced(q, 0);
      }
    }
  }

  /** On torsion-free points the scalar counts modulo q. */
  lemma ScaleEight(q: nat, n: nat, p: nat)
    requires p < q
    ensures Scale(q, n, 8 * p) == 8 * ((n * p) % q)
  {
    ScaleIsProduct(q, n, 8 * p);
    assert n * (8 * p) == 8 * (n * p);
    EightTimes(q, n * p);
  }

  lemma SubEight(q: nat, a: int, b: int)
    requires q > 0
    ensures Sub(q, 8 * (a % q), 8 * (b % q)) == 8 * ((a - b) % q)
  {
    hide Scale, Sub;
    ReduceCongruent(q, a);
    ReduceCongruent(q, b);
    SubIsDifference(q, 8 * (a % q), 8 * (b % q));
    EightTimes(q, a % q - b % q);
    AddCongruent(q, a % q, a, b % q, b);
  }

  /** sB - cY in the prime-order part. */
  lemma CombineEight(q: nat, s: nat, b: nat, c: nat, y: nat)
    requires b < q && y < q
    ensures Sub(q, Scale(q, s, 8 * b), Scale(q, c, 8 * y)) == 8 * ((s * b - c * y) % q)
  {
    hide Scale, Sub;
    ScaleEight(q, s, b);
    ScaleEight(q, c, y);
    SubEight(q, s * b, c * y);
  }

  /** Scaling a prime-order point by a scalar that is not zero modulo q keeps it prime-order. */
  lemma ScalePrimeOrder(q: nat, n: nat, P: int)
    requires Prime(q) && q > 8 && PrimeOrder(q, P) && n % q != 0
    ensures PrimeOrder(q, Scale(q, n, P))
  {
    PrimeOrderMeaning(q, P);
    PrimeOrderMeaning(q, Scale(q, n, P));
    hide *;
    var p := P / 8;
    ScaleEight(q, n, p);
    ReduceCongruent(q, n * p);
    if (n * p) % q == 0 {
      NoZeroDivisors(q, n, p);
      SmallIsReduced(q, p);
    }
  }

  lemma SameResidue(q: nat, a: int, b: int)
    requires q > 0 && Congruent(q, a, b)
    ensures a % q == b % q
  {
  }

  lemma Eighth(q: nat, P: int)
    requires IsPoint(q, P) && P % 8 == 0
    ensures 0 <= P / 8 < q && P == 8 * (P / 8)
  {
  }

  /** Scalars congruent modulo q act alike on torsion-free points. */
  lemma ScaleCongruent(q: nat, m: nat, n: nat, P: int)
    requires IsPoint(q, P) && P % 8 == 0 && Congruent(q, m, n)
    ensures Scale(q, m, P) == Scale(q, n, P)
  {
    hide *;
    Eighth(q, P);
    var p := P / 8;
    ScaleEight(q, m, p);
    ScaleEight(q, n, p);
    MulCongruent(q, m, n, p);
    SameResidue(q, p * m, p * n);
    assert p * m == m * p && p * n == n * p;
  }

  /** On a prime-order point different residues give different multiples. */
  lemma ScaleInjective(q: nat, m: nat, n: nat, P: int)
    requires Prime(q) && q > 8 && PrimeOrder(q, P) && Scale(q, m, P) == Scale(q, n, P)
    ensures Congruent(q, m, n)
  {
    PrimeOrderMeaning(q, P);
    var p := P / 8;
    ScaleEight(q, m, p);
    ScaleEight(q, n, p);
    SmallIsReduced(q, p);
    assert p * m == m * p && p * n == n * p;
    Cancel(q, p, m, n);
  }

  /** Multiplying by the cofactor is injective on the prime-order part, because 8 is invertible modulo q. */
  lemma CofactorInjective(q: nat, P: int, Q: int)
    requires Prime(q) && q > 8 && PrimeOrder(q, P) && PrimeOrder(q, Q)
    ensures Scale(q, 8, P) == Scale(q, 8, Q) <==> P == Q
  {
    PrimeOrderMeaning(q, P);
    PrimeOrderMeaning(q, Q);
    var a, b := P / 8, Q / 8;
    ScaleEight(q, 8, a);
    ScaleEight(q, 8, b);
    if Scale(q, 8, P) == Scale(q, 8, Q) {
      SmallIsReduced(q, 8);
      Cancel(q, 8, a, b);
      SmallIsReduced(q, a);
      SmallIsReduced(q, b);
    }
  }

  // ---------------------------------------------------------------- the two verification equations

  /** (c, s) answers the commitments (U, V): U = sB - cY and V = sH - c Gamma. */
  predicate Answers(q: nat, B: int, Y: int, H: int, Gamma: int, U: int, V: int, c: nat, s: nat) {
    U == Sub(q, Scale(q, s, B), Scale(q, c, Y)) && V == Sub(q, Scale(q, s, H), Scale(q, c, Gamma))
  }

  /** An honest response answers honest commitments: with s = k + cx, U = kB and V = kH. */
  lemma HonestAnswer(q: nat, P: int, x: nat, k: nat, c: nat, s: nat)
    requires IsPoint(q, P) && P % 8 == 0 && Congruent(q, s, k + c * x)
    ensures Sub(q, Scale(q, s, P), Scale(q, c, Scale(q, x, P))) == Scale(q, k, P)
  {
    hide Scale, Sub, Congruent;
    var p := P / 8;
    var y := (x * p) % q;
    ReduceCongruent(q, x * p);
    ScaleEight(q, x, p);
    CombineEight(q, s, p, c, y);
    ScaleEight(q, k, p);
    HonestExponent(q, p, x, k, c, s, y);
    SameResidue(q, s * p - c * y, k * p);
  }

  lemma HonestExponent(q: nat, p: int, x: int, k: int, c: int, s: int, y: int)
    requires q > 0 && Congruent(q, s, k + c * x) && Congruent(q, y, x * p)
    ensures Congruent(q, s * p - c * y, k * p)
  {
    MulCongruent(q, y, x * p, c);
    MulCongruent(q, s, k + c * x, p);
    AddCongruent(q, p * s, p * (k + c * x), c * y, c * (x * p));
    assert p * s == s * p;
    assert p * (k + c * x) - c * (x * p) == k * p;
  }

  /** One of the two equations, answered twice, fixes the multiple. */
  lemma TwoAnswers(q: nat, d: int, e: int, b: int, y: int, s: int, s': int, c: int, c': int)
    requires q > 0 && d == c - c' && Congruent(q, e * d, 1)
    requires Congruent(q, s * b - c * y, s' * b - c' * y)
    ensures Congruent(q, (e * (s - s')) * b, y)
  {
    AddCongruent(q, s * b - c * y, s' * b - c' * y, s' * b - c * y, s' * b - c * y);
    assert (s * b - c * y) - (s' * b - c * y) == (s - s') * b by { assert (s - s') * b == s * b - s' * b; }
    assert (s' * b - c' * y) - (s' * b - c * y) == d * y by { assert (c - c') * y == c * y - c' * y; }
    MulCongruent(q, (s - s') * b, d * y, e);
    MulCongruent(q, e * d, 1, y);
    assert e * ((s - s') * b) == (e * (s - s')) * b;
    assert e * (d * y) == y * (e * d);
  }

  /** Special soundness: two answers to one pair of commitments with different challenges reveal one secret
      behind both Y and Gamma. */
  lemma SpecialSoundness(q: nat, B: int, Y: int, H: int, Gamma: int, U: int, V: int,
                         c: nat, s: nat, c': nat, s': nat) returns (x: nat)
    requires Prime(q) && q > 8 && c < q && c' < q && c != c'
    requires IsPoint(q, B) && IsPoint(q, Y) && IsPoint(q, H) && IsPoint(q, Gamma)
    requires TorsionFree(q, B) && TorsionFree(q, Y) && TorsionFree(q, H) && TorsionFree(q, Gamma)
    requires Answers(q, B, Y, H, Gamma, U, V, c, s) && Answers(q, B, Y, H, Gamma, U, V, c', s')
    ensures x < q && Y == Scale(q, x, B) && Gamma == Scale(q, x, H)
  {
    var d := (c - c') % q;
    ReduceCongruent(q, c - c');
    NonzeroDifference(q, c, c');
    var e := Invert(q, d);
    MulCongruent(q, d, c - c', e);
    ReduceCongruent(q, e * (s - s'));
    x := (e * (s - s')) % q;
    Extract(q, e, B, Y, U, c, s, c', s', x);
    Extract(q, e, H, Gamma, V, c, s, c', s', x);
  }

  lemma NonzeroDifference(q: nat, c: nat, c': nat)
    requires c < q && c' < q && c != c'
    ensures (c - c') % q != 0
  {
    if c > c' { SmallIsReduced(q, c - c'); } else { DivModUnique(c - c', q, -1, c - c' + q); }
  }

  lemma Extract(q: nat, e: int, B: int, Y: int, U: int, c: nat, s: nat, c': nat, s': nat, x: nat)
    requires q > 0 && Congruent(q, e * (c - c'), 1) && Congruent(q, x, e * (s - s'))
    requires IsPoint(q, B) && IsPoint(q, Y) && TorsionFree(q, B) && TorsionFree(q, Y)
    requires U == Sub(q, Scale(q, s, B), Scale(q, c, Y)) == Sub(q, Scale(q, s', B), Scale(q, c', Y))
    ensures Y == Scale(q, x, B)
  {
    hide *;
    TorsionFreeMeaning(q, B);
    TorsionFreeMeaning(q, Y);
    Eighth(q, B);
    Eighth(q, Y);
    var b, y := B / 8, Y / 8;
    CombineEight(q, s, b, c, y);
    CombineEight(q, s', b, c', y);
    ScaleEight(q, x, b);
    SmallIsReduced(q, y);
    ExtractExponent(q, e, b, y, c, s, c', s', x);
  }

  lemma ExtractExponent(q: nat, e: int, b: int, y: int, c: int, s: int, c': int, s': int, x: int)
    requires q > 0 && Congruent(q, e * (c - c'), 1) && Congruent(q, x, e * (s - s'))
    requires (s * b - c * y) % q == (s' * b - c' * y) % q
    ensures (x * b) % q == y % q
  {
    TwoAnswers(q, c - c', e, b, y, s, s', c, c');
    MulCongruent(q, x, e * (s - s'), b);
    assert b * x == x * b && b * (e * (s - s')) == (e * (s - s')) * b;
  }

  lemma ScaledTorsionFree(q: nat, n: nat, P: int)
    requires IsPoint(q, P) && TorsionFree(q, P)
    ensures IsPoint(q, Scale(q, n, P)) && TorsionFree(q, Scale(q, n, P))
  {
    hide Scale;
    TorsionFreeMeaning(q, P);
    ScaleIsProduct(q, n, P);
    ScaleEight(q, n, P / 8);
    TorsionFreeMeaning(q, Scale(q, n, P));
  }

  /** A Gamma that is not the key holder's xH can answer at most one challenge per pair of commitments. */
  lemma WrongGammaOneChallenge(q: nat, B: int, x: nat, Y: int, H: int, Gamma: int, U: int, V: int,
                               c: nat, s: nat, c': nat, s': nat)
    requires Prime(q) && q > 8 && c < q && c' < q
    requires PrimeOrder(q, B) && IsPoint(q, H) && TorsionFree(q, H) && IsPoint(q, Gamma) && TorsionFree(q, Gamma)
    requires Y == Scale(q, x, B) && Gamma != Scale(q, x, H)
    requires Answers(q, B, Y, H, Gamma, U, V, c, s) && Answers(q, B, Y, H, Gamma, U, V, c', s')
    ensures c == c'
  {
    hide Scale, Sub, Answers, Prime;
    if c != c' {
      ScaledTorsionFree(q, x, B);
      var z := SpecialSoundness(q, B, Y, H, Gamma, U, V, c, s, c', s');
      ScaleInjective(q, x, z, B);
      TorsionFreeMeaning(q, H);
      ScaleCongruent(q, x, z, H);
    }
  }
}
