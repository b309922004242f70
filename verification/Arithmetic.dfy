/** 64-bit division out of the 64-by-32 divide instruction (lib/arithmetic.c). */
module Arithmetic {
  import opened Bits

  const B64 := 0x1_0000_0000_0000_0000
  const B63 := 0x8000_0000_0000_0000

  type u64 = x: int | 0 <= x < B64
  type i64 = x: int | -B63 <= x < B63

  /** Reduction to 64 unsigned bits, as C computes with uint64_t. */
  function U64(x: int): u64 {
    x % B64
  }

  /** Reduction to 64 signed bits. */
  function I64(x: int): i64 {
    if x % B64 < B63 then x % B64 else x % B64 - B64
  }

  /** Reduction to 32 unsigned and signed bits. */
  function U32(x: int): word {
    x % B32
  }

  function I32(x: int): int {
    if x % B32 < 0x8000_0000 then x % B32 else x % B32 - B32
  }

  /** The divl instruction, which traps unless the quotient fits in 32 bits. */
  function Divl(n: u64, d: word): word
    requires d != 0 && n / d < B32
  {
    n / d
  }

  /** nlz: shifting X left by the result puts its highest one bit in bit 31. */
  method Nlz(x: word) returns (n: nat)
    requires x != 0
    ensures n <= 31 && 0x8000_0000 <= x * Pow2(n) < B32
  {
    hide Pow2, ShiftOf;
    Pow2Small();
    n := 0;
    var y := x;
    ShiftNone(x);
    if y <= 0x0000_FFFF {
      ShiftMore(x, n, y, 16, 0x1_0000);
      n, y := n + 16, U32(y * 0x1_0000);
    }
    if y <= 0x00FF_FFFF {
      ShiftMore(x, n, y, 8, 0x100);
      n, y := n + 8, U32(y * 0x100);
    }
    if y <= 0x0FFF_FFFF {
      ShiftMore(x, n, y, 4, 0x10);
      n, y := n + 4, U32(y * 0x10);
    }
    if y <= 0x3FFF_FFFF {
      ShiftMore(x, n, y, 2, 4);
      n, y := n + 2, U32(y * 4);
    }
    if y <= 0x7FFF_FFFF {
      ShiftMore(x, n, y, 1, 2);
      n, y := n + 1, y * 2;
    }
    ShiftIs(x, n, y);
  }

  /** Y is X shifted left by N bits. */
  predicate ShiftOf(x: nat, n: nat, y: nat) {
    y == x * Pow2(n)
  }

  lemma ShiftNone(x: nat)
    ensures ShiftOf(x, 0, x)
  {
  }

  lemma ShiftIs(x: nat, n: nat, y: nat)
    requires ShiftOf(x, n, y)
    ensures y == x * Pow2(n)
  {
  }

  /** A left shift by K more bits, of weight C, that loses none. */
  lemma ShiftMore(x: nat, n: nat, y: nat, k: nat, c: nat)
    requires ShiftOf(x, n, y) && Pow2(k) == c && y * c < B32
    ensures U32(y * c) == y * c && ShiftOf(x, n + k, y * c)
  {
    hide Pow2;
    Pow2Add(n, k);
    Associate(x, Pow2(n), c);
  }

  lemma Associate(a: nat, b: nat, c: nat)
    ensures a * b * c == a * (b * c)
  {
  }

  lemma Pow2Small()
    ensures Pow2(0) == 1 && Pow2(1) == 2 && Pow2(2) == 4 && Pow2(4) == 16 && Pow2(8) == 256 && Pow2(16) == 0x1_0000
  {
    Pow2Add(4, 4);
    Pow2Add(8, 8);
  }

  lemma {:induction false} DivDiv(n: nat, a: nat, b: nat)
    requires a > 0 && b > 0
    ensures a * b > 0 && n / a / b == n / (a * b)
  {
    var q, r := n / a, n % a;
    var q', r' := q / b, q % b;
    assert n == a * q + r && q == b * q' + r';
    assert n == a * b * q' + (a * r' + r);
    MulMonotone(a, r', b - 1);
    assert a * r' + r < a * b;
    DivUnique(n, a * b, q', a * r' + r);
  }

  /** The quotient by a 32-bit divisor, one 32-bit digit at a time. */
  lemma ShortDivision(n: u64, d: nat)
    requires 0 < d < B32
    ensures var n1, n0 := n / B32, n % B32;
            && B32 * (n1 % d) + n0 < B64
            && (B32 * (n1 % d) + n0) / d < B32
            && n / d == (B32 * (n1 % d) + n0) / d + B32 * (n1 / d)
  {
    var n1, n0 := n / B32, n % B32;
    var m := B32 * (n1 % d) + n0;
    DivMod(n1, d);
    DivMod(m, d);
    Digits(n, d, n1, n0, n1 / d, n1 % d, m / d, m % d);
    DigitFits(m, d, n1 % d, n0);
  }

  lemma DivMod(n: nat, d: nat)
    requires d > 0
    ensures n == d * (n / d) + n % d && 0 <= n % d < d && 0 <= n / d
  {
  }

  lemma Digits(n: nat, d: nat, n1: nat, n0: nat, q1: nat, r1: nat, q0: nat, r0: nat)
    requires 0 < d && n == B32 * n1 + n0 && n1 == d * q1 + r1 && B32 * r1 + n0 == d * q0 + r0 && r0 < d
    ensures n / d == q0 + B32 * q1
  {
    assert B32 * (d * q1 + r1) == d * (B32 * q1) + B32 * r1;
    assert d * (B32 * q1 + q0) == d * (B32 * q1) + d * q0;
    DivUnique(n, d, B32 * q1 + q0, r0);
  }

  lemma DigitFits(m: nat, d: nat, r1: nat, n0: nat)
    requires 0 < d && r1 < d && n0 < B32 && m == B32 * r1 + n0
    ensures m / d < B32
  {
    var q, r := m / d, m % d;
    assert m == d * q + r;
    assert m < B32 * d;
    if q >= B32 {
      MulMonotone(d, B32, q);
    }
  }

  // ---- Divisors of more than 32 bits ----

  /** The divisor D with its low bits cut off: V scaled back up by K. */
  lemma Truncated(d: nat, p: nat, k: nat, v: nat, r: nat)
    requires p > 0 && p * k == B32 && d * p == v * B32 + r && r < B32
    ensures v * k <= d < v * k + k
  {
    assert v * B32 == v * k * p by {
      assert v * (k * p) == v * k * p;
    }
    assert (d - v * k) * p == r;
    if d < v * k {
      MulMonotone(p, 1, v * k - d);
    }
    if d >= v * k + k {
      MulMonotone(p, k, d - v * k);
    }
  }

  /** The estimate N / D' for a slightly smaller divisor D' is at most one too large. */
  lemma Estimate(n: nat, d: nat, p: nat, k: nat, v: nat, q: nat)
    requires n < B64 && p > 0 && p * k == B32 && (k == 2 || k >= 4)
    requires 0x8000_0000 <= v && v * k <= d < v * k + k && d <= n
    requires q == n / (v * k)
    ensures 1 <= q && (q - 1) * d <= n && n / d <= q <= n / d + 1
  {
    var big := v * k;
    PositiveProduct(v, k);
    DivMod(n, big);
    QuotientBound(n, p, k, v, q);
    QuotientOrder(n, big, d);
    SlackBound(p, k, v, q);
    TooLarge(n, d, big, k, q);
    DivAtLeast(n, d, q - 1);
  }

  lemma PositiveProduct(a: nat, b: nat)
    requires a > 0 && b > 0
    ensures a * b > 0
  {
  }

  lemma QuotientBound(n: nat, p: nat, k: nat, v: nat, q: nat)
    requires n < B64 && p * k == B32 && k > 0 && 0x8000_0000 <= v && v * k * q <= n
    ensures q < 2 * p
  {
    MulMonotone(k * q, 0x8000_0000, v);
    assert v * k * q == k * q * v;
    assert k * q < 2 * B32;
    assert k * (2 * p) == 2 * (p * k);
    if q >= 2 * p {
      MulMonotone(k, 2 * p, q);
    }
  }

  /** A smaller divisor gives at least as large a quotient. */
  lemma QuotientOrder(n: nat, a: nat, b: nat)
    requires 0 < a <= b <= n
    ensures 1 <= n / b <= n / a
  {
    DivMod(n, a);
    DivMod(n, b);
    assert a * (n / a + 1) == a * (n / a) + a;
    if n / b > n / a {
      MulMonotone(a, n / a + 1, n / b);
      MulMonotone(n / b, a, b);
    }
  }

  lemma DivAtLeast(n: nat, d: nat, q: nat)
    requires d > 0 && q * d <= n
    ensures q <= n / d
  {
    DivMod(n, d);
    assert d * (n / d + 1) == d * (n / d) + d;
    if q > n / d {
      MulMonotone(d, n / d + 1, q);
    }
  }

  lemma SlackBound(p: nat, k: nat, v: nat, q: nat)
    requires p * k == B32 && (k == 2 || k >= 4) && 0x8000_0000 <= v && 1 <= q < 2 * p
    ensures (q - 1) * (k - 1) <= v * k
  {
    MulMonotone(k - 1, q - 1, 2 * p - 2);
    assert (k - 1) * (2 * p - 2) == 2 * (p * k) - 2 * p - 2 * k + 2;
    MulMonotone(k, 0x8000_0000, v);
  }

  lemma TooLarge(n: nat, d: nat, big: nat, k: nat, q: nat)
    requires 1 <= q && big * q <= n && big <= d < big + k && (q - 1) * (k - 1) <= big
    ensures (q - 1) * d <= n
  {
    MulMonotone(q - 1, d - big, k - 1);
    assert (q - 1) * d == (q - 1) * big + (q - 1) * (d - big);
    assert (q - 1) * big == big * q - big;
  }

  lemma ShiftedDivisor(d: nat, p: nat, k: nat)
    requires p > 0 && p * k == B32 && 0x8000_0000 <= d / B32 * p < B32
    ensures d * p < B64 && 0x8000_0000 <= d * p / B32 < B32
  {
    var d1 := d / B32;
    if d1 >= k {
      MulMonotone(p, k, d1);
    }
    ProductBelow(d, p, k);
    ProductAbove(d1, d, p);
    InRange(d * p);
  }

  lemma ProductBelow(d: nat, p: nat, k: nat)
    requires p > 0 && p * k == B32 && d / B32 < k
    ensures d * p < B64
  {
    assert d <= k * B32 - 1;
    MulMonotone(p, d, k * B32 - 1);
    assert p * (k * B32 - 1) == (p * k) * B32 - p;
  }

  lemma ProductAbove(d1: nat, d: nat, p: nat)
    requires d1 * B32 <= d
    ensures d1 * p * B32 <= d * p
  {
    MulMonotone(p, d1 * B32, d);
    assert p * (d1 * B32) == d1 * p * B32;
  }

  lemma InRange(e: nat)
    requires 0x8000_0000 * B32 <= e < B64
    ensures 0x8000_0000 <= e / B32 < B32
  {
  }

  lemma DividendFits(n: nat, v: nat)
    requires n < B64 && 0x8000_0000 <= v
    ensures n / 2 / v < B32
  {
    DivMod(n / 2, v);
    var q := n / 2 / v;
    if q >= B32 {
      MulMonotone(v, B32, q);
    }
  }

  /** The three divisions of the estimate are one. */
  lemma EstimateIs(n: nat, v: nat, half: nat)
    requires v > 0 && half > 0
    ensures v * (2 * half) > 0 && n / 2 / v / half == n / (v * (2 * half))
  {
    DivDiv(n, 2, v);
    DivDiv(n, 2 * v, half);
    assert 2 * v * half == v * (2 * half);
  }

  lemma Doubled(a: nat, b: nat, c: nat)
    requires a * b == c
    ensures a * (2 * b) == 2 * c
  {
    assert a * (2 * b) == 2 * (a * b);
  }

  /** Everything the long case of udiv64 needs. */
  lemma LongDivision(n: nat, d: nat, s: nat)
    requires B32 <= d <= n < B64 && s <= 31 && 0x8000_0000 <= d / B32 * Pow2(s) < B32
    ensures d * Pow2(s) < B64 && 0x8000_0000 <= d * Pow2(s) / B32 < B32
    ensures n / 2 / (d * Pow2(s) / B32) < B32
    ensures var q := n / 2 / (d * Pow2(s) / B32) / Pow2(31 - s);
            1 <= q && (q - 1) * d <= n && n / d <= q <= n / d + 1
  {
    var p, half := Pow2(s), Pow2(31 - s);
    var k := 2 * half;
    Pow2At32();
    Pow2Add(s, 31 - s);
    Pow2Add(31, 1);
    Doubled(p, half, 0x8000_0000);
    assert k == 2 || k >= 4;
    hide Pow2;
    ShiftedDivisor(d, p, k);
    var v := d * p / B32;
    DivMod(d * p, B32);
    Truncated(d, p, k, v, d * p % B32);
    DividendFits(n, v);
    EstimateIs(n, v, half);
    Estimate(n, d, p, k, v, n / (v * k));
  }

  /** One comparison corrects the estimate. */
  lemma Correct(n: nat, d: nat, q: nat)
    requires d > 0 && 1 <= q && (q - 1) * d <= n < B64 && n / d <= q <= n / d + 1
    ensures U64((q - 1) * d) == (q - 1) * d && U64(n - (q - 1) * d) == n - (q - 1) * d
    ensures n / d == if n - (q - 1) * d < d then q - 1 else q
  {
    var r := n - (q - 1) * d;
    if r < d {
      assert n == d * (q - 1) + r;
      DivUnique(n, d, q - 1, r);
    } else {
      assert q * d == (q - 1) * d + d;
      DivAtLeast(n, d, q);
    }
  }

  /** The case of udiv64 with a divisor of more than 32 bits. */
  method LongQuotient(n: u64, d: u64) returns (q: u64)
    requires B32 <= d <= n
    ensures q == n / d
  {
    hide Pow2, U64;
    var s := Nlz(d / B32);
    LongDivision(n, d, s);
    U64Small(d * Pow2(s));
    var high := U64(d * Pow2(s)) / B32;
    var e := Divl(n / 2, high) / Pow2(31 - s);
    Correct(n, d, e);
    q := if U64(n - U64((e - 1) * d)) < d then e - 1 else e;
  }

  lemma U64Small(x: nat)
    requires x < B64
    ensures U64(x) == x
  {
  }

  /** The case of udiv64 with a divisor of at most 32 bits. */
  method ShortQuotient(n: u64, d: u64) returns (q: u64)
    requires 0 < d < B32
    ensures q == n / d
  {
    var n1, n0 := n / B32, n % B32;
    ShortDivision(n, d);
    QuotientAtMost(n, d);
    var r1, q1 := n1 % d, n1 / d;
    var low := Divl(B32 * r1 + n0, d);
    q := low + B32 * q1;
  }

  /** udiv64: the exact quotient; no divl traps, and no 64-bit computation wraps. */
  method UDiv64(n: u64, d: u64) returns (q: u64)
    requires d != 0
    ensures q == n / d
  {
    if d / B32 == 0 {
      q := ShortQuotient(n, d);
    } else if n < d {
      DivUnique(n, d, 0, n);
      q := 0;
    } else {
      q := LongQuotient(n, d);
    }
  }

  /** umod64 returns the low 32 bits of the remainder. */
  method UMod64(n: u64, d: u64) returns (r: word)
    requires d != 0
    ensures r == URemainder(n, d)
  {
    var q := UDiv64(n, d);
    Subtracted(n, d);
    r := U32(U64(n - U64(d * q)));
  }

  lemma Subtracted(n: u64, d: u64)
    requires d != 0
    ensures U64(n - U64(d * (n / d))) == n % d
  {
    DivMod(n, d);
    Difference(n, d * (n / d), n % d);
  }

  lemma Difference(n: u64, m: nat, r: nat)
    requires n == m + r
    ensures U64(n - U64(m)) == r
  {
  }

  function URemainder(n: u64, d: u64): word
    requires d != 0
  {
    n % d % B32
  }

  lemma URemainderSmall(n: u64, d: u64)
    requires 0 < d <= B32
    ensures URemainder(n, d) == n % d
  {
    var r := n % d;
    assert 0 <= r < d;
    assert r % B32 == r;
  }

  /** umod64 gives the remainder of every dividend exactly for divisors up to 2^32. */
  lemma UMod64Exact(d: u64)
    requires d != 0
    ensures (forall n: u64 :: URemainder(n, d) == n % d) <==> d <= B32
  {
    if d > B32 {
      DivUnique(B32, d, 0, B32);
      assert URemainder(B32, d) == 0;
    } else {
      forall n: u64 ensures URemainder(n, d) == n % d {
        URemainderSmall(n, d);
      }
    }
  }

  function Abs(x: int): nat {
    if x < 0 then -x else x
  }

  /** The quotient truncated toward zero. */
  function Quotient(n: int, d: int): int
    requires d != 0
  {
    if (n < 0) == (d < 0) then Abs(n) / Abs(d) else -(Abs(n) / Abs(d))
  }

  lemma I64Range(x: int)
    requires -B63 <= x <= B63
    ensures I64(x) == if x == B63 then -B63 else x
  {
  }

  /** The absolute value, negated as an unsigned number where need be. */
  function Magnitude(x: i64): (r: u64)
    ensures r == Abs(x)
  {
    if x >= 0 then U64(x) else U64(-(U64(x) as int))
  }

  /** sdiv64 truncates toward zero, reduced to 64 bits. */
  method SDiv64(n: i64, d: i64) returns (q: i64)
    requires d != 0
    ensures q == I64(Quotient(n, d))
  {
    hide I64, Magnitude;
    var qAbs := UDiv64(Magnitude(n), Magnitude(d));
    QuotientAtMost(Abs(n), Abs(d));
    SignedQuotient(qAbs);
    q := if (n < 0) == (d < 0) then I64(qAbs) else I64(-(I64(qAbs) as int));
  }

  lemma SignedQuotient(q: nat)
    requires q <= B63
    ensures I64(-(I64(q) as int)) == I64(-(q as int))
  {
  }

  lemma QuotientAtMost(n: nat, d: nat)
    requires d > 0
    ensures 0 <= n / d <= n && (n / d == n ==> d == 1 || n == 0)
  {
    DivMod(n, d);
    if n / d >= n && d > 1 {
      MulMonotone(n / d, 2, d);
    }
    if n / d > n {
      MulMonotone(n / d, 1, d);
    }
  }

  /** -2^63 / -1 is the one quotient that needs more than 64 bits. */
  lemma QuotientRange(n: i64, d: i64)
    requires d != 0
    ensures -B63 <= Quotient(n, d) <= B63 && (Quotient(n, d) == B63 <==> n == -B63 && d == -1)
  {
    QuotientAtMost(Abs(n), Abs(d));
    if n == -B63 && d == -1 {
      assert Abs(n) / 1 == B63;
    }
  }

  /** sdiv64 is exact for every pair but one. */
  lemma SDiv64Exact(n: i64, d: i64)
    requires d != 0
    ensures I64(Quotient(n, d)) == Quotient(n, d) <==> !(n == -B63 && d == -1)
  {
    QuotientRange(n, d);
    hide Quotient;
    I64Range(Quotient(n, d));
  }

  /** The remainder that goes with the truncated quotient. */
  function Remainder(n: int, d: int): int
    requires d != 0
  {
    n - d * Quotient(n, d)
  }

  /** It is smaller than the divisor and has the sign of the dividend. */
  lemma RemainderRange(n: int, d: int)
    requires d != 0
    ensures Abs(Remainder(n, d)) < Abs(d) && (n >= 0 ==> Remainder(n, d) >= 0) && (n <= 0 ==> Remainder(n, d) <= 0)
    ensures Abs(Remainder(n, d)) <= Abs(n)
  {
    var q := Abs(n) / Abs(d);
    DivMod(Abs(n), Abs(d));
    assert d * Quotient(n, d) == if n < 0 then -(Abs(d) * q) else Abs(d) * q;
  }

  /** smod64 returns the remainder reduced to 32 signed bits. */
  method SMod64(n: i64, d: i64) returns (r: int)
    requires d != 0
    ensures r == I32(Remainder(n, d))
  {
    var q := SDiv64(n, d);
    QuotientRange(n, d);
    RemainderRange(n, d);
    I64Range(Quotient(n, d));
    WrappedRemainder(n, d, q);
    r := I32(I64(n - (I64(d * q) as int)));
  }

  lemma WrappedRemainder(n: i64, d: i64, q: i64)
    requires d != 0 && (q == Quotient(n, d) || (n == -B63 && d == -1 && q == -B63))
    requires Abs(Remainder(n, d)) <= Abs(n)
    ensures I64(n - (I64(d * q) as int)) == Remainder(n, d)
  {
    if q == Quotient(n, d) {
      var p := d * q;
      assert Remainder(n, d) == n - p;
      SubtractWrapped(n, p);
    } else {
      assert d * q == B63;
    }
  }

  lemma SubtractWrapped(n: i64, p: int)
    requires -B63 < n - p < B63 || n - p == -B63
    ensures I64(n - (I64(p) as int)) == n - p
  {
  }

  /** smod64 gives the remainder of every dividend exactly for divisors of magnitude up to 2^31. */
  lemma SMod64Exact(d: i64)
    requires d != 0
    ensures (forall n: i64 :: I32(Remainder(n, d)) == Remainder(n, d)) <==> Abs(d) <= 0x8000_0000
  {
    if Abs(d) > 0x8000_0000 {
      var n: i64 := 0x8000_0000;
      DivUnique(n, Abs(d), 0, n);
      assert Quotient(n, d) == 0;
      assert I32(Remainder(n, d)) == -0x8000_0000;
    } else {
      forall n: i64 ensures I32(Remainder(n, d)) == Remainder(n, d) {
        RemainderRange(n, d);
        hide Remainder;
        I32Range(Remainder(n, d));
      }
    }
  }

  lemma I32Range(x: int)
    requires -0x8000_0000 <= x < 0x8000_0000
    ensures I32(x) == x
  {
  }
}
