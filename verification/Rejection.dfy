/** packages/ecvrf/src/expand.ts, nextRange: the smeared mask and the words it accepts. */
module Rejection {
  import opened Bits

  // ---------------------------------------------------------------- the code's arithmetic

  /** mask |= mask >>> s */
  function SmearBy(mask: int, s: nat): int {
    JsOr(mask, JsShr(mask, s))
  }

  /** The mask nextRange computes for a range. */
  function Mask(range: nat): word
    requires 1 <= range <= WORDS
  {
    ToUint32(SmearBy(SmearBy(SmearBy(SmearBy(SmearBy(range - 1, 1), 2), 4), 8), 16))
  }

  /** The least k with 2^k >= range. */
  function CeilLog2(range: nat): (k: nat)
    requires range >= 1
    ensures range <= Pow2(k)
    ensures forall j :: 0 <= j < k ==> Pow2(j) < range
  {
    if range == 1 then 0
    else
      var k := CeilLog2((range + 1) / 2);
      assert forall j :: 1 <= j <= k ==> Pow2(j) == 2 * Pow2(j - 1);
      k + 1
  }

  /** What the masked word means: the low k bits, k least with 2^k >= range, read as a signed 32-bit number. */
  function Candidate(range: nat, w: word): int
    requires 1 <= range <= WORDS
  {
    ToInt32(w % Pow2(CeilLog2(range)))
  }

  /** The loop returns on this word. */
  predicate Accepts(range: nat, w: word)
    requires 1 <= range <= WORDS
  {
    Candidate(range, w) < range
  }

  // ---------------------------------------------------------------- the mask

  /** The least k-bit number whose top t bits (or all k, when t > k) are ones. */
  function TopOnes(k: nat, t: nat): nat {
    Pow2Monotone(if t >= k then 0 else k - t, k);
    Pow2(k) - Pow2(if t >= k then 0 else k - t)
  }

  /** One smearing step doubles the run of ones at the top. */
  lemma OrShiftDoubles(a: nat, k: nat, t: nat)
    requires 1 <= t && k <= 32
    requires TopOnes(k, t) <= a < Pow2(k)
    ensures TopOnes(k, 2 * t) <= Or(a, Shr(a, t), 32) < Pow2(k)
  {
    var b := Shr(a, t);
    OrBelow(a, b, k, 32);
    if t >= k {
      Pow2Monotone(k, t);
      DivModUnique(a, Pow2(t), 0, a);
      Pow2Monotone(k, 32);
      OrZero(a, 32);
    } else {
      ShiftedTop(a, k, t);
      Pow2Monotone(k, 32);
      OrAboveRun(a, b, k, t);
    }
  }

  /** The run of ones survives the or, and whatever lies below it is added. */
  lemma OrAboveRun(a: nat, b: nat, k: nat, t: nat)
    requires 1 <= t < k <= 32
    requires TopOnes(k, t) <= a < Pow2(k) <= Pow2(32)
    requires b < Pow2(k - t)
    ensures Or(a, b, 32) >= TopOnes(k, t) + b
  {
    hide Pow2, Or;
    var n, h := k - t, Pow2(t) - 1;
    Pow2Add(t, n);
    MulPredecessor(Pow2(t), Pow2(n));
    OrKeeps(h, a - TopOnes(k, t), b, n, 32);
  }

  /** The shifted copy lands just below the run and continues it. */
  lemma ShiftedTop(a: nat, k: nat, t: nat)
    requires 1 <= t < k
    requires TopOnes(k, t) <= a < Pow2(k)
    ensures TopOnes(k - t, t) <= Shr(a, t) < Pow2(k - t)
  {
    var n, p := k - t, Pow2(t);
    var e := if t >= n then 0 else n - t;
    Pow2Add(n, t);
    Pow2Add(e, t);
    Pow2Monotone(n, e + t);
    QuotientBetween(a, p, Pow2(n) - Pow2(e), Pow2(n), Pow2(e));
  }

  lemma QuotientBetween(a: nat, p: nat, lo: nat, hi: nat, e: nat)
    requires p > 0 && lo == hi - e
    requires hi * p - e * p <= a < hi * p
    ensures lo <= a / p < hi
  {
    var b := a / p;
    assert a == b * p + a % p;
    assert lo * p == hi * p - e * p;
    if b >= hi { MulMonotone(hi, b, p); }
    if b < lo {
      MulMonotone(b + 1, lo, p);
    }
  }

  lemma MulMonotone(a: int, b: int, p: int)
    requires a <= b && p >= 0
    ensures a * p <= b * p
  {
  }

  lemma MulPredecessor(a: int, p: int)
    ensures (a - 1) * p == a * p - p
  {
  }

  /** The unsigned reading of a smeared mask. */
  lemma SmearUnsigned(mask: int, s: nat)
    ensures ToUint32(SmearBy(mask, s)) == Or(ToUint32(mask), Shr(ToUint32(mask), s), 32)
  {
    JsOrUnsigned(mask, JsShr(mask, s));
    UnsignedOfWord(JsShr(mask, s));
  }

  lemma SmearStep(mask: int, k: nat, t: nat)
    requires 1 <= t && k <= 32
    requires TopOnes(k, t) <= ToUint32(mask) < Pow2(k)
    ensures TopOnes(k, 2 * t) <= ToUint32(SmearBy(mask, t)) < Pow2(k)
  {
    OrShiftDoubles(ToUint32(mask), k, t);
    SmearUnsigned(mask, t);
  }

  /** The number of mask bits: at most 31 exactly when the range is at most 2^31. */
  lemma MaskBits(range: nat)
    requires 1 <= range <= WORDS
    ensures CeilLog2(range) <= 32
    ensures CeilLog2(range) <= 31 <==> range <= HALF
    ensures Pow2(CeilLog2(range)) < 2 * range
  {
    Pow2Of32();
    var k := CeilLog2(range);
    assert forall j :: 0 <= j < k ==> Pow2(j) < range;
    if k <= 31 { Pow2Monotone(k, 31); }
    if k > 0 { assert Pow2(k - 1) < range; }
  }

  /** Five smearing steps fill every bit below the top one. */
  lemma SmearAll(m0: int, k: nat)
    requires k <= 32
    requires TopOnes(k, 1) <= ToUint32(m0) < Pow2(k)
    ensures TopOnes(k, 32) <= ToUint32(SmearBy(SmearBy(SmearBy(SmearBy(SmearBy(m0, 1), 2), 4), 8), 16)) < Pow2(k)
  {
    hide *;
    SmearStep(m0, k, 1);
    var m1 := SmearBy(m0, 1);
    SmearStep(m1, k, 2);
    var m2 := SmearBy(m1, 2);
    SmearStep(m2, k, 4);
    var m3 := SmearBy(m2, 4);
    SmearStep(m3, k, 8);
    SmearStep(SmearBy(m3, 8), k, 16);
  }

  lemma TopBit(range: nat, k: nat)
    requires range >= 1 && k == CeilLog2(range)
    ensures TopOnes(k, 1) <= range - 1 < Pow2(k)
    ensures TopOnes(k, 32) == Pow2(k) - 1 || k > 32
  {
    if k > 0 { assert Pow2(k - 1) < range; }
  }

  /** The smeared mask is 2^k - 1, for the least k with 2^k >= range. */
  lemma MaskIsOnes(range: nat)
    requires 1 <= range <= WORDS
    ensures Mask(range) == Pow2(CeilLog2(range)) - 1
  {
    hide SmearBy, ToUint32, TopOnes, Pow2, CeilLog2;
    var k := CeilLog2(range);
    MaskBits(range);
    UnsignedOfWord(range - 1);
    TopBit(range, k);
    SmearAll(range - 1, k);
  }

  // ---------------------------------------------------------------- bounds

  /** The code's masking computes the candidate. */
  lemma MaskedWord(range: nat, w: word)
    requires 1 <= range <= WORDS
    ensures JsAnd(w, Mask(range)) == Candidate(range, w)
  {
    hide Mask, JsAnd, Pow2, CeilLog2;
    MaskIsOnes(range);
    MaskBits(range);
    JsAndOnes(w, Mask(range), CeilLog2(range));
  }

  lemma ResidueBelow(w: int, d: nat)
    requires d > 0
    ensures 0 <= w % d < d
  {
  }

  /** On ranges up to 2^31 the candidate is the word's residue modulo 2^k. */
  lemma CandidateIsResidue(range: nat, w: word)
    requires 1 <= range <= HALF
    ensures Candidate(range, w) == w % Pow2(CeilLog2(range))
    ensures 0 <= Candidate(range, w) < HALF
  {
    hide Pow2, CeilLog2;
    var k := CeilLog2(range);
    MaskBits(range);
    Pow2Of32();
    Pow2Monotone(k, 31);
    ResidueBelow(w, Pow2(k));
  }

  /** On any range an accepted candidate is a signed 32-bit number below the range. */
  lemma CandidateBelow(range: nat, w: word)
    requires 1 <= range <= WORDS && Accepts(range, w)
    ensures -0x8000_0000 <= Candidate(range, w) < range
  {
    hide Pow2, CeilLog2;
  }

  /** The offset nextRange adds to its lower bound on an accepted word. */
  function Offset(range: nat, w: word): (v: nat)
    requires 1 <= range <= HALF && Accepts(range, w)
    ensures v < range && v == Candidate(range, w)
  {
    CandidateIsResidue(range, w);
    Candidate(range, w)
  }

  /** On larger ranges the candidate is the whole word read as a signed number, and every word is accepted. */
  lemma CandidateIsSigned(range: nat, w: word)
    requires HALF < range <= WORDS
    ensures Candidate(range, w) == ToInt32(w) && Accepts(range, w)
  {
    hide Pow2;
    MaskBits(range);
    Pow2Of32();
    UnsignedOfWord(w);
  }

  /** nextRange keeps its promise on every accepted word exactly when the range is at most 2^31. */
  lemma InRangeIffHalf(range: nat)
    requires 1 <= range <= WORDS
    ensures (forall w: word :: Accepts(range, w) ==> 0 <= Candidate(range, w) < range) <==> range <= HALF
  {
    hide Candidate;
    if range <= HALF {
      forall w: word | Accepts(range, w) ensures 0 <= Candidate(range, w) < range {
        CandidateIsResidue(range, w);
      }
    } else {
      var w: word := WORDS - 1;
      CandidateIsSigned(range, w);
    }
  }

  /** The full 32-bit range, which the code allows, returns -1 on the word 0xffffffff. */
  lemma NegativeResult()
    ensures Accepts(WORDS, WORDS - 1) && Candidate(WORDS, WORDS - 1) == -1
  {
    hide Candidate;
    CandidateIsSigned(WORDS, WORDS - 1);
  }

  // ---------------------------------------------------------------- exact uniformity

  /** The words below m * n with residue v. */
  function Residues(m: nat, n: nat, v: nat): set<int>
    requires m > 0
  {
    set w | 0 <= w < m * n && w % m == v
  }

  /** Raising the bound by m admits one more number with residue v. */
  lemma LastResidue(m: nat, n: nat, v: nat, w: nat)
    requires v < m && n >= 1
    ensures w < m * n && w % m == v <==> (w < m * (n - 1) && w % m == v) || w == m * (n - 1) + v
  {
    assert m * n == m * (n - 1) + m;
    if m * (n - 1) <= w < m * n {
      DivModUnique(w, m, n - 1, w - m * (n - 1));
    }
  }

  lemma {:induction false} CountResidues(m: nat, n: nat, v: nat)
    requires v < m
    ensures |Residues(m, n, v)| == n
  {
    if n == 0 {
      assert Residues(m, 0, v) == {};
    } else {
      CountResidues(m, n - 1, v);
      var last := m * (n - 1) + v;
      forall w: int | w >= 0 ensures w in Residues(m, n, v) <==> w in Residues(m, n - 1, v) || w == last {
        LastResidue(m, n, v, w);
      }
      assert Residues(m, n, v) == Residues(m, n - 1, v) + {last};
    }
  }

  /** The words below m * n with a residue below r. */
  function ResiduesBelow(m: nat, n: nat, r: nat): set<int>
    requires m > 0
  {
    set w | 0 <= w < m * n && w % m < r
  }

  lemma {:induction false} CountResiduesBelow(m: nat, n: nat, r: nat)
    requires m > 0 && r <= m
    ensures |ResiduesBelow(m, n, r)| == r * n
  {
    if r == 0 {
      assert ResiduesBelow(m, n, 0) == {};
    } else {
      CountResiduesBelow(m, n, r - 1);
      CountResidues(m, n, r - 1);
      assert ResiduesBelow(m, n, r) == ResiduesBelow(m, n, r - 1) + Residues(m, n, r - 1);
      assert ResiduesBelow(m, n, r - 1) !! Residues(m, n, r - 1);
      assert r * n == (r - 1) * n + n;
    }
  }

  /** The words on which nextRange returns the offset v. */
  function WordsFor(range: nat, v: int): set<int>
    requires 1 <= range <= WORDS
  {
    set w: int | 0 <= w < WORDS && Accepts(range, w) && Candidate(range, w) == v
  }

  function AcceptedWords(range: nat): set<int>
    requires 1 <= range <= WORDS
  {
    set w: int | 0 <= w < WORDS && Accepts(range, w)
  }

  /** 2^(32 - k): how many words stand behind each offset. */
  function WordsPerOffset(range: nat): (n: nat)
    requires 1 <= range <= HALF
  {
    MaskBits(range);
    Pow2(32 - CeilLog2(range))
  }

  /** Every offset in the range has exactly 2^(32 - k) words: a uniform word gives a uniform offset. */
  lemma ExactlyUniform(range: nat, v: nat)
    requires 1 <= range <= HALF && v < range
    ensures |WordsFor(range, v)| == WordsPerOffset(range)
  {
    hide Candidate;
    MaskBits(range);
    Pow2Of32();
    var k := CeilLog2(range);
    Pow2Add(k, 32 - k);
    forall w: word { CandidateIsResidue(range, w); }
    CountResidues(Pow2(k), Pow2(32 - k), v);
    assert WordsFor(range, v) == Residues(Pow2(k), Pow2(32 - k), v);
  }

  lemma MoreThanHalf(r: nat, m: nat, n: nat)
    requires m < 2 * r && n > 0
    ensures 2 * (r * n) > m * n
  {
    MulMonotone(m + 1, 2 * r, n);
    assert (2 * r) * n == 2 * (r * n);
  }

  /** More than half of all words are accepted. */
  lemma MostWordsAccepted(range: nat)
    requires 1 <= range <= WORDS
    ensures 2 * |AcceptedWords(range)| > WORDS
  {
    if range <= HALF {
      MostOfSmallRange(range);
    } else {
      hide Candidate;
      forall w: word ensures Accepts(range, w) { CandidateIsSigned(range, w); }
      CountResiduesBelow(WORDS, 1, WORDS);
      assert AcceptedWords(range) == ResiduesBelow(WORDS, 1, WORDS);
    }
  }

  lemma MostOfSmallRange(range: nat)
    requires 1 <= range <= HALF
    ensures 2 * |AcceptedWords(range)| > WORDS
  {
    hide Candidate, Pow2;
    MaskBits(range);
    var k := CeilLog2(range);
    var n := Pow2(32 - k);
    Pow2Of32();
    Pow2Add(k, 32 - k);
    forall w: word ensures Candidate(range, w) == w % Pow2(k) { CandidateIsResidue(range, w); }
    CountResiduesBelow(Pow2(k), n, range);
    assert AcceptedWords(range) == ResiduesBelow(Pow2(k), n, range);
    MoreThanHalf(range, Pow2(k), n);
  }
}
