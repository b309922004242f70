/** Unsigned machine words as natural numbers, their bits, and the bitwise operators. */
module Bits {
  const B32 := 0x1_0000_0000

  type word = w: int | 0 <= w < B32

  function Pow2(n: nat): (r: nat)
    ensures r > 0
  {
    if n == 0 then 1 else 2 * Pow2(n - 1)
  }

  /** Bit I of W, counting from the least significant. */
  predicate Bit(w: nat, i: nat) {
    if i == 0 then w % 2 == 1 else Bit(w / 2, i - 1)
  }

  /** x & y */
  function And(x: nat, y: nat): nat {
    if x == 0 || y == 0 then 0
    else 2 * And(x / 2, y / 2) + if x % 2 == 1 && y % 2 == 1 then 1 else 0
  }

  /** x | y */
  function Or(x: nat, y: nat): nat {
    if x == 0 then y
    else if y == 0 then x
    else 2 * Or(x / 2, y / 2) + if x % 2 == 1 || y % 2 == 1 then 1 else 0
  }

  /** ~w on 32 bits */
  function Not(w: word): word {
    B32 - 1 - w
  }

  lemma Pow2At32()
    ensures Pow2(32) == B32
  {
    assert Pow2(8) == 256;
    assert Pow2(16) == 0x1_0000;
    assert Pow2(24) == 0x100_0000;
  }

  lemma {:induction false} Pow2Add(a: nat, b: nat)
    ensures Pow2(a + b) == Pow2(a) * Pow2(b)
  {
    if a != 0 {
      Pow2Add(a - 1, b);
    }
  }

  lemma {:induction false} Pow2Monotone(a: nat, b: nat)
    requires a <= b
    ensures Pow2(a) <= Pow2(b)
  {
    if a < b {
      Pow2Monotone(a, b - 1);
    }
  }

  lemma {:induction false} ZeroBit(i: nat)
    ensures !Bit(0, i)
  {
    if i != 0 {
      ZeroBit(i - 1);
    }
  }

  lemma {:induction false} AndBit(x: nat, y: nat, i: nat)
    ensures Bit(And(x, y), i) <==> Bit(x, i) && Bit(y, i)
  {
    if x == 0 || y == 0 {
      ZeroBit(i);
    } else if i != 0 {
      AndBit(x / 2, y / 2, i - 1);
    }
  }

  lemma {:induction false} OrBit(x: nat, y: nat, i: nat)
    ensures Bit(Or(x, y), i) <==> Bit(x, i) || Bit(y, i)
  {
    if x == 0 || y == 0 {
      ZeroBit(i);
    } else if i != 0 {
      OrBit(x / 2, y / 2, i - 1);
    }
  }

  lemma {:induction false} Pow2Bit(k: nat, i: nat)
    ensures Bit(Pow2(k), i) <==> i == k
  {
    if k == 0 {
      if i != 0 {
        ZeroBit(i - 1);
      }
    } else if i != 0 {
      Pow2Bit(k - 1, i - 1);
    }
  }

  /** The complement within N bits flips every bit. */
  lemma {:induction false} ComplementBit(w: nat, n: nat, i: nat)
    requires w < Pow2(n) && i < n
    ensures Bit(Pow2(n) - 1 - w, i) <==> !Bit(w, i)
  {
    if i != 0 {
      assert (Pow2(n) - 1 - w) / 2 == Pow2(n - 1) - 1 - w / 2;
      ComplementBit(w / 2, n - 1, i - 1);
    }
  }

  lemma {:induction false} LowMaskBit(n: nat, i: nat)
    ensures Bit(Pow2(n) - 1, i) <==> i < n
  {
    if n == 0 {
      ZeroBit(i);
    } else if i != 0 {
      assert (Pow2(n) - 1) / 2 == Pow2(n - 1) - 1;
      LowMaskBit(n - 1, i - 1);
    }
  }

  /** Two N-bit numbers with the same bits are equal. */
  lemma {:induction false} BitsDetermine(x: nat, y: nat, n: nat)
    requires x < Pow2(n) && y < Pow2(n)
    requires forall i :: 0 <= i < n ==> Bit(x, i) == Bit(y, i)
    ensures x == y
  {
    if n != 0 {
      assert Bit(x, 0) == Bit(y, 0);
      forall i | 0 <= i < n - 1 ensures Bit(x / 2, i) == Bit(y / 2, i) {
        assert Bit(x, i + 1) == Bit(y, i + 1);
      }
      BitsDetermine(x / 2, y / 2, n - 1);
    }
  }

  /** Masking never enlarges, and OR stays within N bits. */
  lemma {:induction false} AndAtMost(x: nat, y: nat)
    ensures And(x, y) <= x && And(x, y) <= y
  {
    if x != 0 && y != 0 {
      AndAtMost(x / 2, y / 2);
    }
  }

  lemma {:induction false} OrFits(x: nat, y: nat, n: nat)
    requires x < Pow2(n) && y < Pow2(n)
    ensures Or(x, y) < Pow2(n)
  {
    if x != 0 && y != 0 {
      OrFits(x / 2, y / 2, n - 1);
    }
  }

  /** Testing a bit through a one-bit mask. */
  lemma {:induction false} TestMask(w: nat, k: nat)
    ensures And(w, Pow2(k)) != 0 <==> Bit(w, k)
  {
    if w == 0 {
      ZeroBit(k);
    } else if k == 0 {
      assert And(w / 2, 0) == 0;
    } else {
      TestMask(w / 2, k - 1);
    }
  }

  /** w >> a */
  function Shr(w: nat, a: nat): nat {
    if a == 0 then w else Shr(w / 2, a - 1)
  }

  lemma {:induction false} ShrBit(w: nat, a: nat, b: nat)
    ensures Bit(w, a + b) == Bit(Shr(w, a), b)
  {
    if a != 0 {
      ShrBit(w / 2, a - 1, b);
    }
  }

  lemma {:induction false} ShrIsDiv(w: nat, a: nat)
    ensures Shr(w, a) == w / Pow2(a)
  {
    if a != 0 {
      ShiftStep(w, a);
      ShrIsDiv(w / 2, a - 1);
    }
  }

  lemma ShiftStep(w: nat, a: nat)
    requires a > 0
    ensures w / Pow2(a) == w / 2 / Pow2(a - 1)
  {
    DivTwice(w, Pow2(a - 1));
  }

  lemma DivTwice(w: nat, p: nat)
    requires p > 0
    ensures w / 2 / p == w / (2 * p)
  {
    HalfFirst(w, p);
  }

  /** Dividing by 2 * P is dividing by 2 and then by P. */
  lemma HalfFirst(w: nat, p: nat)
    requires p > 0
    ensures w / (2 * p) == w / 2 / p && w % (2 * p) == 2 * (w / 2 % p) + w % 2
  {
    var q, r, b := w / 2 / p, w / 2 % p, w % 2;
    DivNat(w / 2, p);
    assert w / 2 == p * q + r;
    Regroup(p, q);
    DivUnique(w, 2 * p, q, 2 * r + b);
  }

  lemma Regroup(p: nat, q: nat)
    ensures 2 * p * q == 2 * (p * q)
  {
  }

  lemma MulMonotone(d: nat, a: nat, b: nat)
    requires a <= b
    ensures d * a <= d * b
  {
    assert d * (b - a) >= 0;
  }

  /** A quotient of naturals is one. */
  lemma DivNat(n: nat, d: int)
    requires d > 0
    ensures n / d >= 0
  {
    var q := n / d;
    assert n == d * q + n % d;
    assert q <= -1 ==> d * q <= -d;
  }

  lemma DivUnique(n: nat, d: nat, q: nat, r: nat)
    requires d > 0 && n == d * q + r && r < d
    ensures n / d == q && n % d == r
  {
    var q', r' := n / d, n % d;
    assert n == d * q' + r';
    assert d * (q' + 1) == d * q' + d;
    assert d * (q + 1) == d * q + d;
    if q > q' {
      MulMonotone(d, q' + 1, q);
    } else if q < q' {
      MulMonotone(d, q + 1, q');
    }
  }

  /** The low N bits of W. */
  lemma {:induction false} ModBit(w: nat, n: nat, i: nat)
    requires i < n
    ensures Bit(w % Pow2(n), i) == Bit(w, i)
  {
    var p := Pow2(n - 1);
    ModTwice(w, p);
    if i != 0 {
      ModBit(w / 2, n - 1, i - 1);
    }
  }

  lemma ModTwice(w: nat, p: nat)
    requires p > 0
    ensures w % (2 * p) % 2 == w % 2
    ensures w % (2 * p) / 2 == w / 2 % p
  {
    HalfFirst(w, p);
  }
}
