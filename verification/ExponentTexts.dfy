/** Constants kept as text with an exponent, like 1e5, which the optimiser reads in base 16. */
module ExponentTexts {
  import opened Arithmetic
  import opened Expressions

  type Decimal = d: nat | d < 10

  /** What digits are worth, the highest first. */
  function DigitsIn(base: nat, s: seq<nat>): nat {
    if s == [] then 0 else DigitsIn(base, s[..|s| - 1]) * base + s[|s| - 1]
  }

  function Power(base: nat, n: nat): nat { if n == 0 then 1 else base * Power(base, n - 1) }

  /** What the text means: the mantissa times ten to the exponent. */
  function Meaning(mantissa: seq<Decimal>, exponent: seq<Decimal>): nat {
    DigitsIn(10, mantissa) * Power(10, DigitsIn(10, exponent))
  }

  /** What is read: the letter e is the digit 14. */
  function Misread(mantissa: seq<Decimal>, exponent: seq<Decimal>): nat {
    DigitsIn(16, WithE(mantissa) + exponent)
  }

  function WithE(mantissa: seq<nat>): seq<nat> { mantissa + [14] }

  function ExponentText(mantissa: seq<Decimal>, exponent: seq<Decimal>): Literal {
    Text(Meaning(mantissa, exponent) as real, Misread(mantissa, exponent))
  }

  lemma PowerPositive(base: nat, n: nat)
    requires base > 0
    ensures Power(base, n) > 0
  {}

  lemma {:induction false} ValueSplit(base: nat, a: seq<nat>, b: seq<nat>)
    ensures DigitsIn(base, a + b) == DigitsIn(base, a) * Power(base, |b|) + DigitsIn(base, b)
    decreases |b|
  {
    if b == [] {
      assert a + b == a;
    } else {
      var c := b[..|b| - 1];
      assert (a + b)[..|a + b| - 1] == a + c;
      ValueSplit(base, a, c);
      Moved(DigitsIn(base, a), Power(base, |c|), DigitsIn(base, c), base);
    }
  }

  lemma Moved(x: nat, p: nat, y: nat, base: nat)
    ensures (x * p + y) * base == x * (base * p) + y * base
  {}

  lemma {:induction false} LargerBase(s: seq<Decimal>)
    ensures DigitsIn(10, s) <= DigitsIn(16, s)
  {
    if s == [] {
    } else {
      LargerBase(s[..|s| - 1]);
    }
  }

  /** The last nonzero digit `d`, with `t` zeros behind it: the exponent is at least d * 10^t. */
  lemma {:induction false} LastDigit(s: seq<Decimal>) returns (t: nat, d: nat, y: nat)
    requires DigitsIn(10, s) > 0
    ensures 1 <= d < 10 && t < |s| && DigitsIn(16, s) == Power(16, t) * (16 * y + d)
    ensures DigitsIn(10, s) >= d * Power(10, t)
  {
    var front, last := s[..|s| - 1], s[|s| - 1];
    if last != 0 {
      t, d, y := 0, last, DigitsIn(16, front);
    } else {
      t, d, y := LastDigit(front);
      ZeroAppended(Power(16, t), Power(10, t), DigitsIn(16, front), DigitsIn(10, front), y, d);
      t := t + 1;
    }
  }

  lemma ZeroAppended(p: nat, q: nat, x: nat, v: nat, y: nat, d: nat)
    requires x == p * (16 * y + d) && v >= d * q
    ensures x * 16 == 16 * p * (16 * y + d) && v * 10 >= d * (10 * q)
  {
    TimesBase(16, p, 16 * y + d);
    TimesBase(10, q, d);
  }

  lemma TimesBase(base: nat, p: nat, x: nat)
    ensures base * p * x == p * x * base
  {}

  lemma {:induction false} TenIsEven(n: nat) returns (q: nat)
    ensures Power(10, n) == Power(2, n) * q
  {
    if n == 0 {
      q := 1;
    } else {
      var p := TenIsEven(n - 1);
      q := 5 * p;
      assert 10 * (Power(2, n - 1) * p) == 2 * Power(2, n - 1) * (5 * p);
    }
  }

  lemma {:induction false} PowerSplit(base: nat, a: nat, b: nat)
    ensures Power(base, a + b) == Power(base, a) * Power(base, b)
    decreases b
  {
    if b == 0 {
    } else {
      PowerSplit(base, a, b - 1);
      TimesBase(base, Power(base, a), Power(base, b - 1));
    }
  }

  lemma {:induction false} SixteenIsFourTwos(t: nat)
    ensures Power(16, t) == Power(2, 4 * t)
  {
    if t == 0 {
    } else {
      SixteenIsFourTwos(t - 1);
      PowerSplit(2, 4 * (t - 1), 4);
      SmallPowers();
    }
  }

  lemma {:induction false} TenGrows(t: nat)
    requires t >= 1
    ensures Power(10, t) >= 4 * t + 4
  {
    if t <= 1 {
    } else {
      TenGrows(t - 1);
    }
  }

  /** A multiple of a power of two is one of every smaller power. */
  lemma SmallerPower(x: nat, n: nat, q: nat, k: nat) returns (r: nat)
    requires x == Power(2, n) * q && k <= n
    ensures x == Power(2, k) * r
  {
    PowerSplit(2, k, n - k);
    r := Power(2, n - k) * q;
    Regroup(Power(2, k), Power(2, n - k), q);
  }

  lemma Regroup(a: nat, b: nat, c: nat)
    ensures a * b * c == a * (b * c)
  {}

  lemma CancelFactor(p: nat, x: nat, y: nat)
    requires p > 0 && p * x == p * y
    ensures x == y
  {
    var k := x - y;
    assert p * k == 0;
    if k > 0 { AtLeast(p, k); }
    if k < 0 { AtLeast(p, -k); }
  }

  lemma SmallPowers()
    ensures Power(2, 1) == 2 && Power(2, 2) == 4 && Power(2, 3) == 8 && Power(2, 4) == 16
  {
    assert Power(2, 0) == 1 && Power(2, 1) == 2 * Power(2, 0) && Power(2, 2) == 2 * Power(2, 1);
    assert Power(2, 3) == 2 * Power(2, 2) && Power(2, 4) == 2 * Power(2, 3);
  }

  /** With `t` zeros behind its last nonzero digit in base 16, a number is no multiple of 16^(t + 1). */
  lemma NoMultiple(t: nat, d: nat, y: nat, r: nat)
    requires 1 <= d < 10
    ensures Power(16, t) * (16 * y + d) != Power(2, 4 * t + 4) * r
  {
    if Power(16, t) * (16 * y + d) == Power(2, 4 * t + 4) * r {
      SixteenIsFourTwos(t);
      PowerSplit(2, 4 * t, 4);
      SmallPowers();
      Regroup(Power(16, t), 16, r);
      PowerPositive(16, t);
      CancelFactor(Power(16, t), 16 * y + d, 16 * r);
    }
  }

  /** Nor is one that ends in d a multiple of 2^d, for small d. */
  lemma NoSmallMultiple(d: nat, y: nat, r: nat)
    requires 1 <= d <= 3
    ensures 16 * y + d != Power(2, d) * r
  {
    SmallPowers();
  }

  lemma NoHighPower(t: nat, d: nat, y: nat, n: nat, q: nat)
    requires 1 <= d < 10 && n >= d * Power(10, t)
    ensures Power(16, t) * (16 * y + d) != Power(2, n) * q
  {
    var x := Power(16, t) * (16 * y + d);
    if x == Power(2, n) * q {
      PowerPositive(10, t);
      if t >= 1 { TenGrows(t); }
      TimesAtLeast(d, Power(10, t));
      if n >= 4 * t + 4 {
        var r := SmallerPower(x, n, q, 4 * t + 4);
        NoMultiple(t, d, y, r);
      } else {
        var r := SmallerPower(x, n, q, d);
        NoSmallMultiple(d, y, r);
      }
    }
  }

  lemma TimesAtLeast(d: nat, p: nat)
    requires d > 0 && p > 0
    ensures d * p >= p && d * p >= d
  {
    AtLeast(p, d);
    AtLeast(d, p);
  }

  lemma NonzeroExponent(upper: nat, v: nat, exponent: seq<Decimal>)
    requires DigitsIn(10, exponent) > 0
    ensures v * Power(10, DigitsIn(10, exponent)) != upper * Power(16, |exponent|) + DigitsIn(16, exponent)
  {
    var n := DigitsIn(10, exponent);
    var t, d, y := LastDigit(exponent);
    var p := TenIsEven(n);
    var k := |exponent| - t - 1;
    PowerSplit(16, t, k + 1);
    Gathered(upper, Power(16, t), Power(16, k), y, d);
    NoHighPower(t, d, upper * Power(16, k) + y, n, p * v);
    Regroup(Power(2, n), p, v);
  }

  /** The digit e alone is worth fourteen. */
  lemma AtLeastFourteen(mantissa: seq<Decimal>, exponent: seq<Decimal>)
    ensures Misread(mantissa, exponent) >= 14
  {
    var upper := DigitsIn(16, WithE(mantissa));
    ValueSplit(16, WithE(mantissa), exponent);
    PowerPositive(16, |exponent|);
    TimesAtLeast(upper, Power(16, |exponent|));
  }

  lemma MeansZeroOrOne(v: nat, n: nat)
    ensures v * Power(10, n) == 0 <==> v == 0
    ensures v * Power(10, n) == 1 <==> v == 1 && n == 0
  {
    PowerPositive(10, n);
    if v > 0 {
      TimesAtLeast(v, Power(10, n));
      if n > 0 { PowerPositive(10, n - 1); }
    }
  }

  /** No text with an exponent is read as the number it means. */
  lemma ExponentIsMisread(mantissa: seq<Decimal>, exponent: seq<Decimal>)
    ensures Meaning(mantissa, exponent) != Misread(mantissa, exponent)
  {
    var upper, v := DigitsIn(16, WithE(mantissa)), DigitsIn(10, mantissa);
    ValueSplit(16, WithE(mantissa), exponent);
    if DigitsIn(10, exponent) > 0 {
      NonzeroExponent(upper, v, exponent);
    } else {
      assert WithE(mantissa)[..|mantissa|] == mantissa;
      LargerBase(mantissa);
      PowerPositive(16, |exponent|);
      TimesAtLeast(upper, Power(16, |exponent|));
    }
  }

  lemma Gathered(x: nat, a: nat, b: nat, y: nat, d: nat)
    ensures x * (a * (16 * b)) + a * (16 * y + d) == a * (16 * (x * b + y) + d)
  {
    assert x * (a * (16 * b)) == a * (16 * (x * b));
  }

  lemma ExponentTextIsNotPlain(id: nat, hint: Hint, mantissa: seq<Decimal>, exponent: seq<Decimal>)
    ensures !Plain(Const(id, hint, ExponentText(mantissa, exponent)))
  {
    ExponentIsMisread(mantissa, exponent);
  }
}
