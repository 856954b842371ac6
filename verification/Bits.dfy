/** Bitwise operations on naturals, and JavaScript's 32-bit operators on top of them. */
module Bits {

  function Pow2(n: nat): (p: nat)
    ensures p >= 1
  {
    if n == 0 then 1 else 2 * Pow2(n - 1)
  }

  /** Bitwise or of the low `width` bits. */
  function Or(a: nat, b: nat, width: nat): (r: nat)
    ensures r < Pow2(width)
  {
    if width == 0 then 0
    else (if a % 2 == 1 || b % 2 == 1 then 1 else 0) + 2 * Or(a / 2, b / 2, width - 1)
  }

  /** Bitwise and of the low `width` bits. */
  function And(a: nat, b: nat, width: nat): (r: nat)
    ensures r < Pow2(width)
  {
    if width == 0 then 0
    else (if a % 2 == 1 && b % 2 == 1 then 1 else 0) + 2 * And(a / 2, b / 2, width - 1)
  }

  /** Bitwise exclusive or of the low `width` bits. */
  function Xor(a: nat, b: nat, width: nat): (r: nat)
    ensures r < Pow2(width)
  {
    if width == 0 then 0
    else (if a % 2 != b % 2 then 1 else 0) + 2 * Xor(a / 2, b / 2, width - 1)
  }

  /** Bit i of a number, counted from the least significant. */
  predicate Bit(n: nat, i: nat) {
    if i == 0 then n % 2 == 1 else Bit(n / 2, i - 1)
  }

  /** The operators act on every bit by itself. */
  lemma {:induction false} BitByBit(a: nat, b: nat, width: nat, i: nat)
    requires i < width
    ensures Bit(Or(a, b, width), i) <==> Bit(a, i) || Bit(b, i)
    ensures Bit(And(a, b, width), i) <==> Bit(a, i) && Bit(b, i)
    ensures Bit(Xor(a, b, width), i) <==> Bit(a, i) != Bit(b, i)
  {
    HalfParity(Or(a, b, width), if a % 2 == 1 || b % 2 == 1 then 1 else 0, Or(a / 2, b / 2, width - 1));
    HalfParity(And(a, b, width), if a % 2 == 1 && b % 2 == 1 then 1 else 0, And(a / 2, b / 2, width - 1));
    HalfParity(Xor(a, b, width), if a % 2 != b % 2 then 1 else 0, Xor(a / 2, b / 2, width - 1));
    if i > 0 { BitByBit(a / 2, b / 2, width - 1, i - 1); }
  }

  lemma HalfParity(n: nat, bit: nat, h: nat)
    requires bit < 2 && n == bit + 2 * h
    ensures n / 2 == h && n % 2 == bit
  {
  }

  lemma SameHalves(a: nat, b: nat)
    ensures a == b <==> a / 2 == b / 2 && a % 2 == b % 2
  {
  }

  /** or-ing a difference into an accumulator keeps it zero exactly when it was zero and the operands agree. */
  lemma {:induction false} OrXorZero(d: nat, a: nat, b: nat, width: nat)
    requires d < Pow2(width) && a < Pow2(width) && b < Pow2(width)
    ensures Or(d, Xor(a, b, width), width) == 0 <==> d == 0 && a == b
  {
    if width > 0 {
      var x := Xor(a / 2, b / 2, width - 1);
      OrXorZero(d / 2, a / 2, b / 2, width - 1);
      HalfParity(Xor(a, b, width), if a % 2 != b % 2 then 1 else 0, x);
      SameHalves(a, b);
      SameHalves(d, 0);
    }
  }

  lemma TwiceMul(a: int, b: int)
    ensures (2 * a) * b == 2 * (a * b)
  {
  }

  lemma {:induction false} Pow2Add(a: nat, b: nat)
    ensures Pow2(a + b) == Pow2(a) * Pow2(b)
  {
    if a > 0 {
      Pow2Add(a - 1, b);
      TwiceMul(Pow2(a - 1), Pow2(b));
    }
  }

  lemma {:induction false} Pow2Monotone(a: nat, b: nat)
    requires a <= b
    ensures Pow2(a) <= Pow2(b)
  {
    if a < b { Pow2Monotone(a, b - 1); }
  }

  /** An or stays below any power of two that bounds both operands. */
  lemma {:induction false} OrBelow(a: nat, b: nat, n: nat, width: nat)
    requires n <= width && a < Pow2(n) && b < Pow2(n)
    ensures Or(a, b, width) < Pow2(n)
  {
    if n == 0 {
      OrZero(0, width);
    } else {
      OrBelow(a / 2, b / 2, n - 1, width - 1);
    }
  }

  lemma {:induction false} OrZero(a: nat, width: nat)
    requires a < Pow2(width)
    ensures Or(a, 0, width) == a
  {
    if width > 0 { OrZero(a / 2, width - 1); }
  }

  /** An or keeps the high part of its first operand and all of a second operand below that part. */
  lemma {:induction false} OrKeeps(h: nat, low: nat, b: nat, n: nat, width: nat)
    requires n <= width && low < Pow2(n) && b < Pow2(n)
    requires h * Pow2(n) + low < Pow2(width)
    ensures Or(h * Pow2(n) + low, b, width) >= h * Pow2(n) + b
  {
    var a := h * Pow2(n) + low;
    if n == 0 {
      OrZero(a, width);
    } else {
      MulTwice(h, Pow2(n - 1));
      assert a / 2 == h * Pow2(n - 1) + low / 2;
      OrKeeps(h, low / 2, b / 2, n - 1, width - 1);
    }
  }

  lemma HalfOfSum(h: nat, p: nat, low: nat)
    ensures (h * (2 * p) + low) / 2 == h * p + low / 2
    ensures (h * (2 * p) + low) % 2 == low % 2
  {
    MulTwice(h, p);
  }

  lemma AndOdd(x: nat, m: nat, width: nat)
    requires width > 0
    ensures And(x, 2 * m + 1, width) == x % 2 + 2 * And(x / 2, m, width - 1)
  {
  }

  lemma AndEven(x: nat, m: nat, width: nat)
    requires width > 0
    ensures And(x, 2 * m, width) == 2 * And(x / 2, m, width - 1)
  {
  }

  /** Masking with n ones keeps the low n bits. */
  lemma {:induction false} AndOnes(x: nat, h: nat, low: nat, n: nat, width: nat)
    requires n <= width && low < Pow2(n) && x == h * Pow2(n) + low
    ensures And(x, Pow2(n) - 1, width) == low
    decreases n
  {
    hide And;
    if n == 0 {
      AndZero(x, width);
    } else {
      var p := Pow2(n - 1);
      HalfOfSum(h, p, low);
      AndOnes(x / 2, h, low / 2, n - 1, width - 1);
      AndOdd(x, p - 1, width);
    }
  }

  lemma AndOnesMod(w: nat, n: nat, width: nat)
    requires n <= width
    ensures And(w, Pow2(n) - 1, width) == w % Pow2(n)
  {
    hide And, Pow2;
    DivModBasic(w, Pow2(n));
    AndOnes(w, w / Pow2(n), w % Pow2(n), n, width);
  }

  lemma DivModBasic(w: nat, d: nat)
    requires d > 0
    ensures w / d >= 0 && 0 <= w % d < d && w == (w / d) * d + w % d
  {
  }

  lemma {:induction false} AndZero(w: nat, width: nat)
    ensures And(w, 0, width) == 0
  {
    if width > 0 { AndZero(w / 2, width - 1); }
  }

  lemma MulTwice(q: int, p: int)
    ensures q * (2 * p) == 2 * (q * p)
  {
  }

  /** Quotient and remainder are unique. */
  lemma QuotientUnique(d: int, q: int, r: int, q': int, r': int)
    requires 0 <= r < d && 0 <= r' < d && q * d + r == q' * d + r'
    ensures q == q' && r == r'
  {
    if q > q' {
      MulAtLeast(q - q', d);
    } else if q < q' {
      MulAtLeast(q' - q, d);
    }
  }

  lemma MulAtLeast(a: int, d: int)
    requires a >= 1 && d >= 1
    ensures a * d >= d && a * d >= a
  {
  }

  lemma DivModUnique(n: int, d: int, q: int, r: int)
    requires 0 <= r < d && n == q * d + r
    ensures n / d == q && n % d == r
  {
    QuotientUnique(d, q, r, n / d, n % d);
  }

  /** A natural divided by a positive number is no larger. */
  lemma DivBelow(n: nat, d: nat)
    requires d > 0
    ensures 0 <= n / d <= n
  {
    var q := n / d;
    assert n == q * d + n % d;
    if q >= 1 { MulAtLeast(q, d); }
    if q < 0 { MulAtLeast(-q, d); }
  }

  /** Shift right. */
  function Shr(a: nat, s: nat): (r: nat)
    ensures r <= a
  {
    DivBelow(a, Pow2(s));
    a / Pow2(s)
  }

  /** Shifting right moves every bit down. */
  lemma {:induction false} ShiftedBit(a: nat, s: nat, i: nat)
    ensures Bit(Shr(a, s), i) <==> Bit(a, s + i)
    decreases s
  {
    hide Bit;
    DivBelow(a, Pow2(s));
    if s > 0 {
      HalvedTwice(a, Pow2(s - 1));
      ShiftedBit(a / 2, s - 1, i);
      BitBelow(a, s + i);
    } else {
      DivModUnique(a, 1, a, 0);
    }
  }

  lemma BitBelow(a: nat, i: nat)
    requires i > 0
    ensures Bit(a, i) <==> Bit(a / 2, i - 1)
  {
  }

  lemma HalvedTwice(a: nat, p: nat)
    requires p > 0
    ensures a / (2 * p) == a / 2 / p
  {
    var h := a / 2;
    TwiceMul(p, h / p);
    assert h == p * (h / p) + h % p;
    DivModUnique(a, 2 * p, h / p, 2 * (h % p) + a % 2);
  }

  // ---------------------------------------------------------------- JavaScript's 32-bit view of a number

  const WORDS: nat := 0x1_0000_0000
  const HALF: nat := 0x8000_0000

  type word = w: int | 0 <= w < WORDS

  lemma Pow2Of32()
    ensures Pow2(31) == HALF && Pow2(32) == WORDS
  {
    assert Pow2(8) == 256;
    Pow2Add(8, 8);
    Pow2Add(16, 16);
    assert Pow2(32) == 2 * Pow2(31);
  }

  function ToUint32(n: int): (w: word) {
    n % WORDS
  }

  function ToInt32(n: int): (i: int)
    ensures -0x8000_0000 <= i < 0x8000_0000 && ToUint32(i) == ToUint32(n)
  {
    var u := ToUint32(n);
    if u < HALF then u else u - WORDS
  }

  /** The signed view differs from the number by a multiple of 2^32. */
  lemma SignedView(n: int)
    ensures -0x8000_0000 <= ToInt32(n) < 0x8000_0000 && (n - ToInt32(n)) % 0x1_0000_0000 == 0
  {
  }

  /** a | b: a signed 32-bit result. */
  function JsOr(a: int, b: int): int {
    ToInt32(Or(ToUint32(a), ToUint32(b), 32))
  }

  /** a & b: a signed 32-bit result. */
  function JsAnd(a: int, b: int): int {
    ToInt32(And(ToUint32(a), ToUint32(b), 32))
  }

  /** a >>> s: an unsigned 32-bit result. */
  function JsShr(a: int, s: nat): word {
    DivBelow(ToUint32(a), Pow2(s));
    Shr(ToUint32(a), s)
  }

  lemma UnsignedOfWord(w: word)
    ensures ToUint32(w) == w && ToUint32(ToInt32(w)) == w
  {
  }

  /** Signedness does not matter to the next bitwise operator. */
  lemma JsOrUnsigned(a: int, b: int)
    ensures ToUint32(JsOr(a, b)) == Or(ToUint32(a), ToUint32(b), 32)
  {
    Pow2Of32();
    UnsignedOfWord(Or(ToUint32(a), ToUint32(b), 32));
  }

  /** A word masked with n ones, as the signed number that & returns. */
  lemma JsAndOnes(w: word, mask: word, n: nat)
    requires n <= 32 && mask == Pow2(n) - 1
    ensures JsAnd(w, mask) == ToInt32(w % Pow2(n))
  {
    hide And, Pow2;
    UnsignedOfWord(w);
    UnsignedOfWord(mask);
    AndOnesMod(w, n, 32);
  }
}
