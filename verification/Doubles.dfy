/** JavaScript numbers with integer values: which integers a double holds, and what a sum or difference rounds to. */
module Doubles {
  import opened Bits

  /** 2^53: up to here every integer is a double. */
  const EXACT: int := 0x20_0000_0000_0000

  /** A double holds 53 significant bits: a larger number must be twice one that fits. */
  predicate Fits(m: nat) {
    m < EXACT || (m % 2 == 0 && Fits(m / 2))
  }

  predicate IsNumber(n: int) {
    Fits(Abs(n))
  }

  type number = n: int | IsNumber(n) witness 0

  function Abs(n: int): nat {
    if n < 0 then -n else n
  }

  /** The distance to the next double above. */
  function Spacing(m: nat): nat {
    if m < EXACT then 1 else 2 * Spacing(m / 2)
  }

  /** The largest double that is not above. */
  function Down(m: nat): nat {
    if m < EXACT then m else 2 * Down(m / 2)
  }

  /** The significand of Down(m) is even. */
  predicate EvenSignificand(m: nat) {
    if m < EXACT then m % 2 == 0 else EvenSignificand(m / 2)
  }

  /** Round half to even. */
  function Nearest(m: nat): int {
    var lo, gap := Down(m), Spacing(m);
    if 2 * (m - lo) < gap || (2 * (m - lo) == gap && EvenSignificand(m)) then lo else lo + gap
  }

  /** The double an integer result is rounded to. */
  function Rounded(n: int): int {
    if n < 0 then -Nearest(-n) else Nearest(n)
  }

  // ---------------------------------------------------------------- rounding is to the nearest double

  lemma TwiceFits(m: nat)
    requires Fits(m)
    ensures Fits(2 * m)
  {
    assert (2 * m) / 2 == m;
  }

  /** Down(m) and the double behind it enclose m, and no double lies between them. */
  lemma {:induction false} Neighbours(m: nat, a: nat)
    requires Fits(a)
    ensures Down(m) <= m < Down(m) + Spacing(m)
    ensures Fits(Down(m)) && Fits(Down(m) + Spacing(m))
    ensures if a <= m then a <= Down(m) else Down(m) + Spacing(m) <= a
  {
    if m < EXACT {
      if m + 1 == EXACT { assert Fits(EXACT / 2); }
    } else {
      var b := if a < EXACT then EXACT / 2 else a / 2;
      assert Fits(b);
      Neighbours(m / 2, b);
      TwiceFits(Down(m / 2));
      TwiceFits(Down(m / 2) + Spacing(m / 2));
    }
  }

  lemma {:induction false} NearestFits(m: nat, a: nat)
    requires Fits(a)
    ensures 0 <= Nearest(m) && Fits(Nearest(m)) && Abs(Nearest(m) - m) <= Abs(a - m)
  {
    Neighbours(m, a);
    hide Fits, Down, Spacing, EvenSignificand;
  }

  /** No double is nearer than the rounded one. */
  lemma NoneNearer(n: int, a: number)
    ensures IsNumber(Rounded(n)) && Abs(Rounded(n) - n) <= Abs(a - n)
  {
    assert IsNumber(a);
    NearestFits(Abs(n), 0);
    NearestFits(Abs(n), Abs(a));
    hide Fits, Nearest;
  }

  /** The doubles are the numbers with 53 significant bits at most, times a power of two. */
  lemma {:induction false} FitsAsProduct(m: nat) returns (s: nat, e: nat)
    requires Fits(m)
    ensures s < 9007199254740992 && m == s * Pow2(e)
  {
    if m < EXACT {
      s, e := m, 0;
    } else {
      s, e := FitsAsProduct(m / 2);
      TwiceProduct(s, Pow2(e));
      e := e + 1;
    }
  }

  lemma {:induction false} ProductFits(s: nat, e: nat)
    requires s < 9007199254740992
    ensures Fits(s * Pow2(e))
  {
    if e > 0 {
      ProductFits(s, e - 1);
      TwiceProduct(s, Pow2(e - 1));
      TwiceFits(s * Pow2(e - 1));
    }
  }

  lemma TwiceProduct(s: nat, p: nat)
    ensures s * (2 * p) == 2 * (s * p) && (2 * (s * p)) / 2 == s * p
  {
  }

  /** A double is a significand times the spacing. */
  lemma {:induction false} Significand(m: nat) returns (s: nat)
    ensures Down(m) == Spacing(m) * s && (EvenSignificand(m) <==> s % 2 == 0)
  {
    if m < EXACT {
      s := m;
    } else {
      s := Significand(m / 2);
      TwiceProduct(s, Spacing(m / 2));
    }
  }

  /** A number halfway between two doubles is rounded to the one with the even significand. */
  lemma TiesGoToEven(m: nat) returns (k: nat)
    requires 2 * (m - Down(m)) == Spacing(m)
    ensures Nearest(m) == Spacing(m) * (2 * k)
  {
    hide Down, Spacing, EvenSignificand;
    var s := Significand(m);
    k := (s + 1) / 2;
    if s % 2 == 0 {
      assert 2 * k == s;
    } else {
      assert 2 * k == s + 1;
      assert Spacing(m) * (s + 1) == Spacing(m) * s + Spacing(m);
    }
  }

  lemma NumbersStay(n: number)
    ensures Rounded(n) == n
  {
    NoneNearer(n, n);
  }

  lemma SmallIsNumber(n: int)
    requires -EXACT <= n <= EXACT
    ensures IsNumber(n) && Rounded(n) == n
  {
    assert Fits(EXACT / 2);
    NumbersStay(n);
  }

  /** Rounding keeps the order. */
  lemma RoundedMonotone(m: int, n: int)
    requires m <= n
    ensures Rounded(m) <= Rounded(n)
  {
    NoneNearer(m, 0);
    NoneNearer(n, 0);
    NoneNearer(m, Rounded(n));
    NoneNearer(n, Rounded(m));
  }

  // ---------------------------------------------------------------- what this means for a range

  /** Every sum min + v below max is computed exactly if and only if both bounds lie within 2^53 of zero. */
  lemma SumsExactIff(min: number, max: number)
    requires min < max
    ensures (forall n :: min <= n < max ==> Rounded(n) == n) <==> -9007199254740992 <= min && max <= 9007199254740992
  {
    if -EXACT <= min && max <= EXACT {
      forall n | min <= n < max ensures Rounded(n) == n { SmallIsNumber(n); }
    } else {
      var odd := if max > EXACT then max - 1 else min + 1;
      assert IsNumber(min) && IsNumber(max);
      assert !IsNumber(odd);
      NoneNearer(odd, 0);
      assert Rounded(odd) != odd;
    }
  }

  /** Every rounded sum stays in [min, max) if and only if max - 1, rounded, is below max; none leaves [min, max]. */
  lemma InRangeIffGap(min: number, max: number)
    requires min < max
    ensures (forall n :: min <= n < max ==> min <= Rounded(n) < max) <==> Rounded(max - 1) < max
    ensures forall n :: min <= n < max ==> min <= Rounded(n) <= max
  {
    NumbersStay(min);
    NumbersStay(max);
    forall n | min <= n < max ensures min <= Rounded(n) <= max && Rounded(n) <= Rounded(max - 1) {
      RoundedMonotone(min, n);
      RoundedMonotone(n, max);
      RoundedMonotone(n, max - 1);
    }
  }

  /** The bounds 2^53 and 2^53 + 4 are doubles; the sum 2^53 + 3 rounds to the excluded bound. */
  lemma RoundsToMax()
    ensures IsNumber(9007199254740992) && IsNumber(9007199254740996)
    ensures Rounded(9007199254740995) == 9007199254740996
  {
    assert Fits(EXACT / 2) && Fits((EXACT + 4) / 2);
    assert Down((EXACT + 3) / 2) == EXACT / 2 + 1 && Spacing((EXACT + 3) / 2) == 1;
    assert !EvenSignificand((EXACT + 3) / 2);
  }

  /** Differences up to 2^53 are exact, and larger ones stay larger. */
  lemma DifferenceRounds(d: int, limit: nat)
    requires limit < EXACT
    ensures Rounded(d) > limit <==> d > limit
    ensures 0 <= d <= limit ==> Rounded(d) == d
  {
    SmallIsNumber(limit);
    SmallIsNumber(limit + 1);
    if d <= limit { RoundedMonotone(d, limit); } else { RoundedMonotone(limit + 1, d); }
    if 0 <= d <= limit { SmallIsNumber(d); }
  }
}
