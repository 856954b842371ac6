/** Arithmetic modulo a prime. */
module Modular {
  import opened Bits

  ghost predicate Prime(q: nat) {
    q > 1 && forall d :: 1 < d < q ==> q % d != 0
  }

  /** a and b leave the same remainder. */
  predicate Congruent(q: nat, a: int, b: int)
    requires q > 0
  {
    a % q == b % q
  }

  /** Numbers that differ by a multiple of q are congruent. */
  lemma MultipleApart(q: nat, a: int, b: int, k: int)
    requires q > 0 && a == b + k * q
    ensures Congruent(q, a, b)
  {
    var n := b / q;
    assert b == n * q + b % q;
    assert (n + k) * q == n * q + k * q;
    DivModUnique(a, q, n + k, b % q);
  }

  /** Congruent numbers differ by a multiple of q. */
  lemma Apart(q: nat, a: int, b: int) returns (k: int)
    requires q > 0 && Congruent(q, a, b)
    ensures a == b + k * q
  {
    k := a / q - b / q;
    assert a == (a / q) * q + a % q && b == (b / q) * q + b % q;
    assert k * q == (a / q) * q - (b / q) * q;
  }

  lemma ReduceCongruent(q: nat, a: int)
    requires q > 0
    ensures Congruent(q, a % q, a) && 0 <= a % q < q
  {
    var k := -(a / q);
    assert a == (a / q) * q + a % q;
    assert k * q == -((a / q) * q);
    MultipleApart(q, a % q, a, k);
  }

  lemma SmallIsReduced(q: nat, a: int)
    requires 0 <= a < q
    ensures a % q == a
  {
    DivModUnique(a, q, 0, a);
  }

  lemma MulCongruent(q: nat, a: int, b: int, m: int)
    requires q > 0 && Congruent(q, a, b)
    ensures Congruent(q, m * a, m * b)
  {
    var k := Apart(q, a, b);
    assert m * (b + k * q) == m * b + (m * k) * q;
    MultipleApart(q, m * a, m * b, m * k);
  }

  lemma AddCongruent(q: nat, a: int, b: int, c: int, d: int)
    requires q > 0 && Congruent(q, a, b) && Congruent(q, c, d)
    ensures Congruent(q, a + c, b + d) && Congruent(q, a - c, b - d)
  {
    var k := Apart(q, a, b);
    var l := Apart(q, c, d);
    assert (k + l) * q == k * q + l * q && (k - l) * q == k * q - l * q;
    MultipleApart(q, a + c, b + d, k + l);
    MultipleApart(q, a - c, b - d, k - l);
  }

  /** Every nonzero residue modulo a prime has an inverse. */
  lemma {:induction false} Invert(q: nat, d: nat) returns (e: int)
    requires Prime(q) && 0 < d < q
    ensures Congruent(q, e * d, 1)
    decreases d
  {
    if d == 1 {
      e := 1;
    } else {
      var t, r := q / d, q % d;
      var f := Invert(q, r);
      e := -(f * t);
      InverseStep(q, d, t, r, f);
    }
  }

  lemma InverseStep(q: nat, d: int, t: int, r: int, f: int)
    requires q > 0 && q == d * t + r && Congruent(q, f * r, 1)
    ensures Congruent(q, -(f * t) * d, 1)
  {
    calc {
      -(f * t) * d;
      -(f * (d * t));
      -(f * (q - r));
      f * r + (-f) * q;
    }
    MultipleApart(q, -(f * t) * d, f * r, -f);
  }

  /** Modulo a prime, a factor that is not zero can be cancelled. */
  lemma Cancel(q: nat, m: int, a: int, b: int)
    requires Prime(q) && m % q != 0 && Congruent(q, m * a, m * b)
    ensures Congruent(q, a, b)
  {
    ReduceCongruent(q, m);
    var d := m % q;
    var e := Invert(q, d);
    CancelWith(q, m, d, e, a);
    CancelWith(q, m, d, e, b);
    MulCongruent(q, m * a, m * b, e);
  }

  lemma CancelWith(q: nat, m: int, d: int, e: int, a: int)
    requires q > 0 && Congruent(q, d, m) && Congruent(q, e * d, 1)
    ensures Congruent(q, e * (m * a), a)
  {
    MulCongruent(q, d, m, e);
    MulCongruent(q, e * m, 1, a);
    assert a * (e * m) == e * (m * a);
  }

  /** No zero divisors modulo a prime. */
  lemma NoZeroDivisors(q: nat, m: int, a: int)
    requires Prime(q) && (m * a) % q == 0 && m % q != 0
    ensures a % q == 0
  {
    SmallIsReduced(q, 0);
    assert m * 0 == 0;
    Cancel(q, m, a, 0);
  }
}
