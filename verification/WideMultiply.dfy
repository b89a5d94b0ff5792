/** The product of two 64-bit registers, computed in six steps on their 32-bit halves. */
module WideMultiply {
  import opened Arithmetic
  import opened RegisterFlow

  /** The contents of the 32-bit registers. */
  type Contents = map<RegName, nat>

  /** Every register of the pair holds a word below `base`. */
  predicate Holds(regs: Contents, base: nat, lo: RegName, hi: RegName) {
    lo in regs && hi in regs && regs[lo] < base && regs[hi] < base
  }

  function PairValue(regs: Contents, base: nat, lo: RegName, hi: RegName): nat
    requires lo in regs && hi in regs
  {
    regs[lo] + base * regs[hi]
  }

  class Machine {
    const base: nat
    var regs: Contents

    constructor (base: nat, regs: Contents)
      requires base > 1
      ensures this.base == base && this.regs == regs
    {
      this.base, this.regs := base, regs;
    }

    /** The upper word of a product. */
    method MulHi(d: RegName, a: RegName, b: RegName)
      requires base > 0 && a in regs && b in regs
      modifies this
      ensures regs == HighStep(old(regs), base, d, a, b)
    {
      ProductQuotient(regs[a], regs[b], base);
      regs := regs[d := regs[a] * regs[b] / base];
    }

    /** The lower word of a product. */
    method MulLo(d: RegName, a: RegName, b: RegName)
      requires base > 0 && a in regs && b in regs
      modifies this
      ensures regs == LowStep(old(regs), base, d, a, b)
    {
      regs := regs[d := regs[a] * regs[b] % base];
    }

    method Add(d: RegName, a: RegName, b: RegName)
      requires base > 0 && a in regs && b in regs
      modifies this
      ensures regs == AddStep(old(regs), base, d, a, b)
    {
      regs := regs[d := (regs[a] + regs[b]) % base];
    }

    /** The six steps; the destination halves serve as scratch. */
    method MulWide(dlo: RegName, dhi: RegName, alo: RegName, ahi: RegName, blo: RegName, bhi: RegName)
      requires base > 1 && Holds(regs, base, alo, ahi) && Holds(regs, base, blo, bhi)
      modifies this
      ensures regs == SixSteps(old(regs), base, dlo, dhi, alo, ahi, blo, bhi)
    {
      MulHi(dlo, alo, blo);
      MulLo(dhi, alo, bhi);
      Add(dhi, dhi, dlo);
      MulLo(dlo, ahi, blo);
      Add(dhi, dhi, dlo);
      MulLo(dlo, alo, blo);
    }
  }

  lemma ProductQuotient(a: nat, b: nat, m: nat)
    requires m > 0
    ensures a * b >= 0 && a * b / m >= 0
  {
    var q := a * b / m;
    assert a * b == m * q + a * b % m;
    if q < 0 { AtLeast(m, -q); }
  }

  function HighProduct(a: nat, b: nat, m: nat): nat
    requires m > 0
  {
    ProductQuotient(a, b, m);
    a * b / m
  }

  function HighStep(regs: Contents, base: nat, d: RegName, a: RegName, b: RegName): Contents
    requires base > 0 && a in regs && b in regs
  {
    regs[d := HighProduct(regs[a], regs[b], base)]
  }

  function LowStep(regs: Contents, base: nat, d: RegName, a: RegName, b: RegName): Contents
    requires base > 0 && a in regs && b in regs
  {
    regs[d := regs[a] * regs[b] % base]
  }

  function AddStep(regs: Contents, base: nat, d: RegName, a: RegName, b: RegName): Contents
    requires base > 0 && a in regs && b in regs
  {
    regs[d := (regs[a] + regs[b]) % base]
  }

  /** The registers after the six steps, one after the other. */
  function SixSteps(regs: Contents, base: nat, dlo: RegName, dhi: RegName, alo: RegName, ahi: RegName, blo: RegName,
                    bhi: RegName): Contents
    requires base > 0 && alo in regs && ahi in regs && blo in regs && bhi in regs
  {
    var r1 := HighStep(regs, base, dlo, alo, blo);
    var r2 := LowStep(r1, base, dhi, alo, bhi);
    var r3 := AddStep(r2, base, dhi, dhi, dlo);
    var r4 := LowStep(r3, base, dlo, ahi, blo);
    var r5 := AddStep(r4, base, dhi, dhi, dlo);
    LowStep(r5, base, dlo, alo, blo)
  }

  lemma SixStepsMultiply(regs: Contents, base: nat, dlo: RegName, dhi: RegName, alo: RegName, ahi: RegName,
                         blo: RegName, bhi: RegName)
    requires base > 1 && Holds(regs, base, alo, ahi) && Holds(regs, base, blo, bhi)
    requires dlo != dhi && dlo !in {alo, ahi, blo, bhi} && dhi !in {alo, ahi, blo}
    ensures var r := SixSteps(regs, base, dlo, dhi, alo, ahi, blo, bhi);
            && Holds(r, base, dlo, dhi)
            && PairValue(r, base, dlo, dhi)
            == PairValue(regs, base, alo, ahi) * PairValue(regs, base, blo, bhi) % (base * base)
  {
    WideProduct(regs[alo], regs[ahi], regs[blo], regs[bhi], base);
  }

  /** What the six steps leave in the lower and the upper half. */
  function LowHalf(al: nat, bl: nat, m: nat): nat
    requires m > 0
  {
    al * bl % m
  }

  function HighHalf(al: nat, ah: nat, bl: nat, bh: nat, m: nat): nat
    requires m > 0
  {
    ((al * bh % m + HighProduct(al, bl, m)) % m + ah * bl % m) % m
  }

  lemma WideProduct(al: nat, ah: nat, bl: nat, bh: nat, m: nat)
    requires m > 1
    ensures LowHalf(al, bl, m) + m * HighHalf(al, ah, bl, bh, m) == (al + m * ah) * (bl + m * bh) % (m * m)
  {
    var p, q, r, s := al * bl, al * bh, ah * bl, ah * bh;
    var lo, hi := p % m, HighHalf(al, ah, bl, bh, m);
    HighHalfModulo(p / m, q, r, m);
    var k := (p / m + q + r) / m;
    Expand(al, ah, bl, bh, m);
    Collect(p, p / m, lo, q + r, s, k, hi, m);
    QuotientRemainder((al + m * ah) * (bl + m * bh), k + s, lo + m * hi, m * m);
  }

  /** Reducing after every addition is the same as reducing once. */
  lemma HighHalfModulo(p: int, q: int, r: int, m: int)
    requires m > 0
    ensures ((q % m + p) % m + r % m) % m == (p + q + r) % m
  {
    ReducedSum(q + p, r, m);
    ReducedLeft(q, p, m);
  }

  lemma ReducedLeft(a: int, b: int, m: int)
    requires m > 0
    ensures (a % m + b) % m == (a + b) % m
  {
    DifferByMultiple(a + b, a % m + b, a / m, m);
  }

  lemma Expand(al: int, ah: int, bl: int, bh: int, m: int)
    ensures (al + m * ah) * (bl + m * bh) == al * bl + m * (al * bh + ah * bl) + m * m * (ah * bh)
  {
    var b := bl + m * bh;
    assert (al + m * ah) * b == al * b + m * ah * b;
    assert al * b == al * bl + m * (al * bh);
    assert m * ah * b == m * (ah * bl) + m * m * (ah * bh) by {
      assert m * ah * b == m * ah * bl + m * ah * (m * bh);
      assert m * ah * (m * bh) == m * m * (ah * bh);
    }
    Distribute(m, al * bh, ah * bl);
  }

  lemma Collect(p: int, up: int, lo: int, mid: int, s: int, k: int, hi: int, m: int)
    requires m > 1 && p == m * up + lo && up + mid == m * k + hi && 0 <= lo < m && 0 <= hi < m
    ensures p + m * mid + m * m * s == m * m * (k + s) + (lo + m * hi)
    ensures 0 <= lo + m * hi < m * m
  {
    Distribute(m, up, mid);
    Distribute(m, m * k, hi);
    assert m * (m * k) == m * m * k;
    Distribute(m * m, k, s);
    Below(hi, m);
  }

  lemma Below(hi: int, m: int)
    requires 0 <= hi < m
    ensures 0 <= m * hi <= m * m - m
  {
    var d := m - 1 - hi;
    Distribute(m, m - 1, d);
    assert m * d >= 0 && m * hi >= 0;
  }

  // ---- 64-bit registers ----

  /** The product is right for every contents of the registers. */
  ghost predicate AlwaysRight(base: nat, dest: string, a: string, b: string)
    requires base > 1
  {
    forall regs: Contents | Holds(regs, base, Low(a), High(a)) && Holds(regs, base, Low(b), High(b)) ::
      RightOn(regs, SixSteps(regs, base, Low(dest), High(dest), Low(a), High(a), Low(b), High(b)), base, dest, a, b)
  }

  /** Contents `r` hold in `dest` the product of what `a` and `b` held before. */
  predicate RightOn(regs: Contents, r: Contents, base: nat, dest: string, a: string, b: string)
    requires base > 1 && Holds(regs, base, Low(a), High(a)) && Holds(regs, base, Low(b), High(b))
  {
    Low(dest) in r && High(dest) in r &&
    PairValue(r, base, Low(dest), High(dest)) ==
    PairValue(regs, base, Low(a), High(a)) * PairValue(regs, base, Low(b), High(b)) % (base * base)
  }

  /** The six steps multiply 64-bit registers exactly when the destination is neither operand. */
  lemma WideMultiplyExactly(base: nat, dest: string, a: string, b: string)
    requires base > 1
    ensures AlwaysRight(base, dest, a, b) <==> dest != a && dest != b
  {
    if dest != a && dest != b {
      forall regs: Contents | Holds(regs, base, Low(a), High(a)) && Holds(regs, base, Low(b), High(b))
        ensures var r := SixSteps(regs, base, Low(dest), High(dest), Low(a), High(a), Low(b), High(b));
                RightOn(regs, r, base, dest, a, b)
      {
        SixStepsMultiply(regs, base, Low(dest), High(dest), Low(a), High(a), Low(b), High(b));
      }
    } else {
      InPlaceIsWrong(base, dest, a, b);
    }
  }

  function AllOnes(a: string, b: string): Contents {
    map[Low(a) := 1, High(a) := 1, Low(b) := 1, High(b) := 1]
  }

  /** With ones in all halves, (1 + base)^2 leaves 1 below and 2 above; in place it does not. */
  lemma InPlaceIsWrong(base: nat, dest: string, a: string, b: string)
    requires base > 1 && (dest == a || dest == b)
    ensures !AlwaysRight(base, dest, a, b)
  {
    var regs := AllOnes(a, b);
    var r := SixSteps(regs, base, Low(dest), High(dest), Low(a), High(a), Low(b), High(b));
    InPlaceResult(base, dest, a, b, regs, r);
    WrongOnOnes(regs, r, base, dest, a, b);
  }

  lemma WrongOnOnes(regs: Contents, r: Contents, base: nat, dest: string, a: string, b: string)
    requires base > 1 && regs == AllOnes(a, b)
    requires Low(dest) in r && High(dest) in r && r[Low(dest)] < base
    requires r[Low(dest)] != 1 || r[High(dest)] != 2 % base
    ensures Holds(regs, base, Low(a), High(a)) && Holds(regs, base, Low(b), High(b))
    ensures !RightOn(regs, r, base, dest, a, b)
  {
    TwoHalves(r[Low(dest)], r[High(dest)], 1, 2 % base, base);
    OnesProduct(base);
    assert PairValue(regs, base, Low(a), High(a)) == 1 + base * 1 == PairValue(regs, base, Low(b), High(b));
  }

  lemma OnesProduct(base: nat)
    requires base > 1
    ensures (1 + base * 1) * (1 + base * 1) % (base * base) == 1 + base * (2 % base)
  {
    WideProduct(1, 1, 1, 1, base);
    QuotientRemainder(1, 0, 1, base);
    assert LowHalf(1, 1, base) == 1;
    HighHalfModulo(0, 1, 1, base);
    assert HighHalf(1, 1, 1, 1, base) == 2 % base;
  }

  lemma TwoHalves(x: nat, y: nat, u: nat, v: nat, m: nat)
    requires x < m && u < m && (x != u || y != v)
    ensures x + m * y != u + m * v
  {
    if x + m * y == u + m * v {
      QuotientRemainder(x + m * y, y, x, m);
      QuotientRemainder(u + m * v, v, u, m);
    }
  }

  lemma InPlaceResult(base: nat, dest: string, a: string, b: string, regs: Contents, r: Contents)
    requires base > 1 && (dest == a || dest == b) && regs == AllOnes(a, b)
    requires r == SixSteps(regs, base, Low(dest), High(dest), Low(a), High(a), Low(b), High(b))
    ensures Low(dest) in r && High(dest) in r && r[Low(dest)] < base
    ensures r[Low(dest)] != 1 || r[High(dest)] != 2 % base
  {
    QuotientRemainder(1, 0, 1, base);
    QuotientRemainder(0, 0, 0, base);
  }
}
