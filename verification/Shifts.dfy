/** Shifts and masks of numbers, bit by bit. */
module Shifts {
  import opened Arithmetic

  function Shr(x: nat, n: nat): nat
    decreases n
  {
    if n == 0 then x else Shr(x / 2, n - 1)
  }

  function Shl(x: nat, n: nat): nat
    decreases n
  {
    if n == 0 then x else 2 * Shl(x, n - 1)
  }

  /** `n` ones. */
  function Ones(n: nat): nat { if n == 0 then 0 else 1 + 2 * Ones(n - 1) }

  /** The bitwise conjunction. */
  function BitAnd(a: nat, b: nat): nat
    decreases b
  {
    if b == 0 then 0 else (a % 2) * (b % 2) + 2 * BitAnd(a / 2, b / 2)
  }

  predicate Fits(x: nat, n: nat) { Shr(x, n) == 0 }

  lemma HalfQuotient(x: nat, p: nat)
    requires p > 0
    ensures x / (2 * p) == (x / 2) / p
  {
    var h := x / 2;
    var q, r := h / p, h % p;
    assert h == p * q + r;
    DoubleProduct(q, p);
    QuotientRemainder(x, q, 2 * r + x % 2, 2 * p);
  }

  lemma DoubleProduct(x: nat, p: nat)
    ensures (2 * p) * x == 2 * (p * x) && x * (2 * p) == 2 * (x * p)
  {}

  lemma SmallQuotient(x: nat, p: nat)
    requires p > 0
    ensures x / p == 0 <==> x < p
  {
    if x < p { QuotientRemainder(x, 0, x, p); }
  }

  lemma {:induction false} ShrIsQuotient(x: nat, n: nat)
    ensures Shr(x, n) == x / Pow2(n)
    decreases n
  {
    if n == 0 {
    } else {
      ShrIsQuotient(x / 2, n - 1);
      HalfQuotient(x, Pow2(n - 1));
    }
  }

  lemma {:induction false} ShlIsProduct(x: nat, n: nat)
    ensures Shl(x, n) == x * Pow2(n)
    decreases n
  {
    if n == 0 {
    } else {
      ShlIsProduct(x, n - 1);
      DoubleProduct(x, Pow2(n - 1));
    }
  }

  lemma {:induction false} OnesAreBelowPower(n: nat)
    ensures Ones(n) == Pow2(n) - 1
  {
    if n == 0 {
    } else {
      OnesAreBelowPower(n - 1);
    }
  }

  /** Shifts are divisions and multiplications by powers of two. */
  lemma ShiftsAreArithmetic(x: nat, n: nat)
    ensures Shr(x, n) == x / Pow2(n) && Shl(x, n) == x * Pow2(n) && Ones(n) == Pow2(n) - 1
    ensures Fits(x, n) <==> x < Pow2(n)
  {
    ShrIsQuotient(x, n);
    ShlIsProduct(x, n);
    OnesAreBelowPower(n);
    SmallQuotient(x, Pow2(n));
  }

  lemma {:induction false} ShrTwice(x: nat, a: nat, b: nat)
    ensures Shr(x, a + b) == Shr(Shr(x, a), b)
    decreases a
  {
    if a == 0 {
    } else {
      ShrTwice(x / 2, a - 1, b);
    }
  }

  /** Shifting a sum of something low and something high. */
  lemma {:induction false} ShrSum(a: nat, b: nat, n: nat, m: nat)
    ensures Shr(a + Shl(b, n + m), n) == Shr(a, n) + Shl(b, m)
    decreases n
  {
    if n == 0 {
    } else {
      ShrSum(a / 2, b, n - 1, m);
    }
  }

  /** A mask of low ones sees only what is low. */
  lemma {:induction false} MaskSum(a: nat, b: nat, n: nat, m: nat)
    ensures BitAnd(a + Shl(b, n + m), Ones(n)) == BitAnd(a, Ones(n))
    decreases n
  {
    if n == 0 {
    } else {
      var s := Shl(b, n - 1 + m);
      assert a + Shl(b, n + m) == a + 2 * s;
      assert (a + 2 * s) / 2 == a / 2 + s && (a + 2 * s) % 2 == a % 2;
      MaskSum(a / 2, b, n - 1, m);
    }
  }

  /** It keeps everything exactly when everything is low. */
  lemma {:induction false} MaskFits(a: nat, n: nat)
    ensures BitAnd(a, Ones(n)) == a <==> Fits(a, n)
    decreases n
  {
    if n == 0 {
    } else {
      MaskFits(a / 2, n - 1);
    }
  }

  lemma {:induction false} ZeroShifted(n: nat)
    ensures Shr(0, n) == 0 && Shl(0, n) == 0
  {
    if n == 0 {
    } else {
      ZeroShifted(n - 1);
    }
  }

  /** The bitwise disjunction. */
  function BitOr(a: nat, b: nat): nat
    decreases a + b
  {
    if a == 0 && b == 0 then 0 else (if a % 2 + b % 2 > 0 then 1 else 0) + 2 * BitOr(a / 2, b / 2)
  }

  lemma {:induction false} OrOfZero(b: nat)
    ensures BitOr(0, b) == b
  {
    if b == 0 {
    } else {
      OrOfZero(b / 2);
    }
  }

  /** Numbers without common ones are or-ed as they are added. */
  lemma {:induction false} OrIsSum(x: nat, low: nat, n: nat)
    requires Fits(low, n)
    ensures BitOr(Shl(x, n), low) == Shl(x, n) + low
    decreases n
  {
    if n == 0 {
      OrOfZero(x);
      OrIsSymmetric(x, 0);
    } else {
      OrIsSum(x, low / 2, n - 1);
      var s := Shl(x, n - 1);
      assert 2 * s / 2 == s && 2 * s % 2 == 0;
    }
  }

  lemma {:induction false} OrIsSymmetric(a: nat, b: nat)
    ensures BitOr(a, b) == BitOr(b, a)
    decreases a + b
  {
    if a == 0 && b == 0 {
    } else {
      OrIsSymmetric(a / 2, b / 2);
    }
  }

  /** A mask of ones above bit `b` sees the bits from there on. */
  lemma {:induction false} MaskShifted(a: nat, n: nat, b: nat)
    requires n > 0
    ensures BitAnd(a, Shl(Ones(n), b)) == Shl(BitAnd(Shr(a, b), Ones(n)), b)
    decreases b
  {
    if b == 0 {
    } else {
      MaskShifted(a / 2, n, b - 1);
      var m := Shl(Ones(n), b - 1);
      assert Shl(Ones(n), b) == 2 * m && 2 * m / 2 == m && 2 * m % 2 == 0;
      if m == 0 { ShlPositive(Ones(n), b - 1); }
    }
  }

  lemma {:induction false} ShlPositive(x: nat, n: nat)
    requires x > 0
    ensures Shl(x, n) > 0
  {
    if n == 0 {
    } else {
      ShlPositive(x, n - 1);
    }
  }

  /** No number but zero is its own low bits shifted up. */
  lemma {:induction false} ShiftedApart(x: nat, n: nat, b: nat)
    requires b > 0 && Shl(BitAnd(x, Ones(n)), b) == x
    ensures x == 0
    decreases n
  {
    if n == 0 {
      ZeroShifted(b);
    } else {
      var y := BitAnd(x, Ones(n));
      assert x == 2 * Shl(y, b - 1);
      assert Ones(n) / 2 == Ones(n - 1) && y == 2 * BitAnd(x / 2, Ones(n - 1));
      DoubleShifted(BitAnd(x / 2, Ones(n - 1)), b - 1);
      ShiftedApart(x / 2, n - 1, b);
    }
  }

  lemma {:induction false} DoubleShifted(y: nat, n: nat)
    ensures Shl(2 * y, n) == Shl(y, n + 1)
  {
    if n == 0 {
    } else {
      DoubleShifted(y, n - 1);
    }
  }
}
