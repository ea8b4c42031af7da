/**
  Bitwise operators on natural numbers, as the machine words of the kernel use them.
  A word of the source is a `nat` below 2^64; each operator is defined bit by bit, and the
  lemmas state what it does to the number as a whole.
 */
module Bits {

  /** 2^k, the source's `1 << k`. */
  function Pow2(k: nat): (r: nat)
    ensures r > 0
  {
    if k == 0 then 1 else 2 * Pow2(k - 1)
  }

  predicate Bit(n: nat, i: nat) {
    if i == 0 then n % 2 == 1 else Bit(n / 2, i - 1)
  }

  function Digit(b: bool): nat {
    if b then 1 else 0
  }

  /** a & b */
  function And(a: nat, b: nat): nat
    decreases a + b
  {
    if a == 0 || b == 0 then 0
    else Digit(a % 2 == 1 && b % 2 == 1) + 2 * And(a / 2, b / 2)
  }

  /** a | b */
  function Or(a: nat, b: nat): nat
    decreases a + b
  {
    if a == 0 && b == 0 then 0
    else Digit(a % 2 == 1 || b % 2 == 1) + 2 * Or(a / 2, b / 2)
  }

  /** a ^ b */
  function Xor(a: nat, b: nat): nat
    decreases a + b
  {
    if a == 0 && b == 0 then 0
    else Digit(a % 2 != b % 2) + 2 * Xor(a / 2, b / 2)
  }

  /** a & !b */
  function AndNot(a: nat, b: nat): nat
    decreases a
  {
    if a == 0 then 0
    else Digit(a % 2 == 1 && b % 2 == 0) + 2 * AndNot(a / 2, b / 2)
  }

  // ----- Arithmetic of powers of two

  lemma {:induction false} Pow2Add(a: nat, b: nat)
    ensures Pow2(a + b) == Pow2(a) * Pow2(b)
  {
    if a > 0 {
      Pow2Add(a - 1, b);
      assert Pow2(a + b) == 2 * (Pow2(a - 1) * Pow2(b)) == (2 * Pow2(a - 1)) * Pow2(b);
    }
  }

  lemma {:induction false} Pow2Monotone(a: nat, b: nat)
    requires a <= b
    ensures Pow2(a) <= Pow2(b)
  {
    if a < b { Pow2Monotone(a, b - 1); }
  }

  lemma {:induction false} Pow2StrictlyMonotone(a: nat, b: nat)
    requires a < b
    ensures 2 * Pow2(a) <= Pow2(b)
  {
    Pow2Monotone(a + 1, b);
  }

  lemma SmallPowers()
    ensures Pow2(0) == 1 && Pow2(1) == 2 && Pow2(2) == 4 && Pow2(3) == 8 && Pow2(4) == 16
    ensures Pow2(5) == 32 && Pow2(6) == 64 && Pow2(7) == 128 && Pow2(8) == 256
  {}

  lemma DivModUnique(x: int, d: int, q: int, r: int)
    requires d > 0 && x == d * q + r && 0 <= r < d
    ensures x / d == q && x % d == r
  {
    assert x == d * (x / d) + x % d;
    var t := q - x / d;
    assert d * t == x % d - r by {
      assert d * t == d * q - d * (x / d);
    }
    MultipleIsFar(d, t);
  }

  lemma MultipleIsFar(d: int, t: int)
    requires d > 0
    ensures t >= 1 ==> d * t >= d
    ensures t <= -1 ==> d * t <= -d
  {}

  lemma DivModSplit(x: nat, d: nat)
    requires d > 0
    ensures x == d * (x / d) + x % d && 0 <= x % d < d && x / d >= 0
  {}

  lemma DivNonNegative(x: nat, d: nat)
    requires d > 0
    ensures x / d >= 0
  {}

  /** Remainders modulo d and modulo 2d. */
  lemma ModDouble(x: nat, d: nat)
    requires d > 0
    ensures x % (2 * d) == x % d || x % (2 * d) == x % d + d
    ensures x % (2 * d) == x % d <==> (x / d) % 2 == 0
    ensures x / (2 * d) == x / d / 2
  {
    DivModSplit(x, d);
    var q := x / d;
    DoubledQuotient(d, q);
    DivModUnique(x, 2 * d, q / 2, (if q % 2 == 1 then d else 0) + x % d);
  }

  lemma DoubledQuotient(d: nat, q: nat)
    ensures d * q == (2 * d) * (q / 2) + (if q % 2 == 1 then d else 0)
  {}

  // ----- Bits of a number

  lemma {:induction false} BitIsDigit(n: nat, i: nat)
    ensures Bit(n, i) <==> (n / Pow2(i)) % 2 == 1
  {
    if i > 0 {
      BitIsDigit(n / 2, i - 1);
      HalfThenDivide(n, Pow2(i - 1));
    }
  }

  lemma HalfThenDivide(n: nat, d: nat)
    requires d > 0
    ensures n / 2 / d == n / (2 * d)
  {
    var q, r := (n / 2) / d, (n / 2) % d;
    DivModSplit(n / 2, d);
    assert n == 2 * (d * q + r) + n % 2;
    assert 2 * (d * q) == (2 * d) * q;
    DivModUnique(n, 2 * d, q, 2 * r + n % 2);
  }

  lemma {:induction false} ZeroHasNoBits(i: nat)
    ensures !Bit(0, i)
  {
    if i > 0 { ZeroHasNoBits(i - 1); }
  }

  lemma {:induction false} BitOfPow2(k: nat, i: nat)
    ensures Bit(Pow2(k), i) <==> i == k
  {
    if k == 0 {
      if i > 0 { ZeroHasNoBits(i - 1); }
    } else if i > 0 {
      BitOfPow2(k - 1, i - 1);
    }
  }

  lemma {:induction false} BitOfOr(a: nat, b: nat, i: nat)
    ensures Bit(Or(a, b), i) <==> Bit(a, i) || Bit(b, i)
    decreases i
  {
    hide Or;
    OrOfDoubles(a / 2, a % 2, b / 2, b % 2);
    if i > 0 {
      BitOfOr(a / 2, b / 2, i - 1);
    }
  }

  lemma {:induction false} BitOfAndNot(a: nat, b: nat, i: nat)
    ensures Bit(AndNot(a, b), i) <==> Bit(a, i) && !Bit(b, i)
    decreases i
  {
    hide AndNot;
    AndNotOfDoubles(a / 2, a % 2, b / 2, b % 2);
    if i > 0 {
      BitOfAndNot(a / 2, b / 2, i - 1);
    }
  }

  /** Two numbers below 2^w with the same low w bits are equal. */
  lemma {:induction false} SameBits(a: nat, b: nat, w: nat)
    requires a < Pow2(w) && b < Pow2(w)
    requires forall i :: 0 <= i < w ==> Bit(a, i) == Bit(b, i)
    ensures a == b
  {
    if w > 0 {
      forall i | 0 <= i < w - 1 ensures Bit(a / 2, i) == Bit(b / 2, i) {
        assert Bit(a, i + 1) == Bit(b, i + 1);
      }
      SameBits(a / 2, b / 2, w - 1);
      assert Bit(a, 0) == Bit(b, 0);
    }
  }

  // ----- What the operators do to the number

  lemma {:induction false} XorPow2(n: nat, k: nat)
    ensures Xor(n, Pow2(k)) == if Bit(n, k) then n - Pow2(k) else n + Pow2(k)
    ensures Bit(n, k) ==> n >= Pow2(k)
  {
    if k == 0 {
      XorZero(n / 2);
    } else {
      XorPow2(n / 2, k - 1);
    }
  }

  lemma {:induction false} XorZero(n: nat)
    ensures Xor(n, 0) == n
  {
    if n > 0 { XorZero(n / 2); }
  }

  lemma {:induction false} AndNotZero(n: nat)
    ensures AndNot(n, 0) == n
  {
    if n > 0 { AndNotZero(n / 2); }
  }

  lemma AndNotOfDoubles(a: nat, x: nat, b: nat, y: nat)
    requires x < 2 && y < 2
    ensures AndNot(2 * a + x, 2 * b + y) == Digit(x == 1 && y == 0) + 2 * AndNot(a, b)
  {}

  lemma {:induction false} AndNotPow2(n: nat, k: nat)
    ensures Bit(n, k) ==> n >= Pow2(k)
    ensures AndNot(n, Pow2(k)) == if Bit(n, k) then n - Pow2(k) else n
    decreases k
  {
    if k == 0 {
      AndNotOfDoubles(n / 2, n % 2, 0, 1);
      AndNotZero(n / 2);
    } else {
      AndNotOfDoubles(n / 2, n % 2, Pow2(k - 1), 0);
      AndNotPow2(n / 2, k - 1);
    }
  }

  lemma {:induction false} AndPow2(n: nat, k: nat)
    ensures And(n, Pow2(k)) == if Bit(n, k) then Pow2(k) else 0
  {
    if n == 0 {
      ZeroHasNoBits(k);
    } else if k == 0 {
      assert And(n / 2, 0) == 0;
    } else {
      AndPow2(n / 2, k - 1);
    }
  }

  lemma OrOfDoubles(a: nat, x: nat, b: nat, y: nat)
    requires x < 2 && y < 2
    ensures Or(2 * a + x, 2 * b + y) == Digit(x == 1 || y == 1) + 2 * Or(a, b)
  {}

  lemma {:induction false} OrZero(n: nat)
    ensures Or(n, 0) == n && Or(0, n) == n
  {
    if n > 0 { OrZero(n / 2); }
  }

  /** `|` adds numbers that have no bit in common, and never adds more. */
  lemma {:induction false} OrAndSum(a: nat, b: nat)
    ensures Or(a, b) + And(a, b) == a + b
    decreases a + b
  {
    if a == 0 || b == 0 {
      OrZero(a + b);
    } else {
      OrAndSum(a / 2, b / 2);
    }
  }

  lemma {:induction false} AndNotSum(a: nat, b: nat)
    ensures AndNot(a, b) + And(a, b) == a
    decreases a
  {
    if a == 0 {
    } else if b == 0 {
      AndNotZero(a);
    } else {
      AndNotSum(a / 2, b / 2);
    }
  }

  lemma {:induction false} AndCommutes(a: nat, b: nat)
    ensures And(a, b) == And(b, a)
    decreases a + b
  {
    if a != 0 && b != 0 { AndCommutes(a / 2, b / 2); }
  }

  /** A common factor of 2^k moves out of `&`, and the bits below it are dropped. */
  lemma {:induction false} AndShift(q: nat, r: nat, b: nat, k: nat)
    requires r < Pow2(k)
    ensures And(q * Pow2(k) + r, b * Pow2(k)) == And(q, b) * Pow2(k)
    decreases k
  {
    if k > 0 {
      var p := Pow2(k - 1);
      AndShift(q, r / 2, b, k - 1);
      var qp := DoubledProduct(q, p);
      var bp := DoubledProduct(b, p);
      AndEven(qp, r, bp);
      var _ := DoubledProduct(And(q, b), p);
    }
  }

  lemma DoubledProduct(x: nat, p: nat) returns (h: nat)
    ensures h == x * p && x * (2 * p) == 2 * h
  {
    h := x * p;
  }

  lemma AndEven(a: nat, r: nat, b: nat)
    ensures And(2 * a + r, 2 * b) == 2 * And(a + r / 2, b)
  {}

  /** The remainder modulo 2d from the remainder of the half modulo d. */
  lemma ModOfHalf(n: nat, d: nat)
    requires d > 0
    ensures n % (2 * d) == 2 * ((n / 2) % d) + n % 2
  {
    DivModSplit(n / 2, d);
    var q, r := (n / 2) / d, (n / 2) % d;
    assert 2 * (d * q) == (2 * d) * q;
    DivModUnique(n, 2 * d, q, 2 * r + n % 2);
  }

  lemma AndOfDoubles(a: nat, x: nat, b: nat, y: nat)
    requires x < 2 && y < 2
    ensures And(2 * a + x, 2 * b + y) == Digit(x == 1 && y == 1) + 2 * And(a, b)
  {}

  /** n & (2^k - 1) is the remainder modulo 2^k. */
  lemma {:induction false} AndLowMask(n: nat, k: nat)
    ensures And(n, Pow2(k) - 1) == n % Pow2(k)
    decreases k
  {
    if k > 0 {
      var d := Pow2(k - 1);
      AndLowMask(n / 2, k - 1);
      ModOfHalf(n, d);
      AndOfDoubles(n / 2, n % 2, d - 1, 1);
    }
  }

  // ----- Logarithms: `63 - leading_zeros` and `trailing_zeros`

  /** Position of the highest set bit, the source's `63 - n.leading_zeros()`. */
  function Log2(n: nat): (r: nat)
    requires n > 0
    ensures Pow2(r) <= n < 2 * Pow2(r)
  {
    if n == 1 then 0 else 1 + Log2(n / 2)
  }

  /** Position of the lowest set bit of a 64-bit word; 64 for zero. */
  function TrailingZeros(n: nat): (r: nat) {
    if n == 0 then 64 else if n % 2 == 1 then 0 else 1 + TrailingZeros(n / 2)
  }

  lemma {:induction false} TrailingZerosDivides(n: nat, k: nat)
    requires n > 0
    ensures n % Pow2(k) == 0 <==> k <= TrailingZeros(n)
    decreases k
  {
    if k > 0 {
      ModOfHalf(n, Pow2(k - 1));
      if n % 2 == 0 { TrailingZerosDivides(n / 2, k - 1); }
    }
  }
}
