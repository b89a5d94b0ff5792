/** Words packed from bit fields: shifting and masking them field by field. */
module BitFields {
  import opened Options
  import opened Arithmetic
  import opened Shifts

  // ---- packed words ----

  /** A field of `size` bits; an empty field holds zeros. */
  datatype Field = Content(name: string, size: nat, bits: nat) | Empty(size: nat)

  function Bits(f: Field): nat { match f case Content(_, _, b) => b case Empty(_) => 0 }

  type Packed = seq<Field>

  predicate Valid(fs: Packed) { forall k | 0 <= k < |fs| :: Fits(Bits(fs[k]), fs[k].size) }

  /** The packed word; the first field is the lowest. */
  function Word(fs: Packed): nat {
    if fs == [] then 0 else Bits(fs[0]) + Shl(Word(fs[1..]), fs[0].size)
  }

  /** Where field `k` begins. */
  function Offset(fs: Packed, k: nat): nat
    requires k <= |fs|
    decreases k
  {
    if k == 0 then 0 else fs[0].size + Offset(fs[1..], k - 1)
  }

  lemma {:induction false} OffsetStep(fs: Packed, k: nat)
    requires k < |fs|
    ensures Offset(fs, k + 1) == Offset(fs, k) + fs[k].size
    decreases k
  {
    if k == 0 {
    } else {
      OffsetStep(fs[1..], k - 1);
    }
  }

  lemma {:induction false} OffsetGrows(fs: Packed, j: nat, k: nat)
    requires j <= k <= |fs|
    ensures Offset(fs, j) <= Offset(fs, k)
    decreases k
  {
    if j >= k {
    } else {
      OffsetGrows(fs, j, k - 1);
      OffsetStep(fs, k - 1);
    }
  }

  /** Shifting by the offset of a field leaves the fields from there on. */
  lemma {:induction false} ShiftToField(fs: Packed, k: nat)
    requires Valid(fs) && k <= |fs|
    ensures Shr(Word(fs), Offset(fs, k)) == Word(fs[k..])
    decreases k
  {
    if k == 0 {
      assert fs[0..] == fs;
    } else {
      ShrSum(Bits(fs[0]), Word(fs[1..]), fs[0].size, 0);
      ShiftToField(fs[1..], k - 1);
      ShrTwice(Word(fs), fs[0].size, Offset(fs[1..], k - 1));
      assert fs[1..][k - 1..] == fs[k..];
    }
  }

  // ---- shifting right ----

  /** The field that bit `bits` lies strictly inside, or None if a field begins there or none reaches so far. */
  function Cuts(fs: Packed, bits: nat): Option<nat>
    decreases fs
  {
    if fs == [] || bits == 0 then None
    else if bits < fs[0].size then Some(0)
    else match Cuts(fs[1..], bits - fs[0].size) case None => None case Some(k) => Some(k + 1)
  }

  /** What a shift that cuts a field loses: the bits of that field above the cut. */
  function Lost(fs: Packed, bits: nat): nat
    decreases fs
  {
    if fs == [] || bits == 0 then 0
    else if bits < fs[0].size then Shr(Bits(fs[0]), bits)
    else Lost(fs[1..], bits - fs[0].size)
  }

  /** The list after a shift: a cut field is replaced by zeros, unless it is the last. */
  function Shifted(fs: Packed, bits: nat): Packed
    decreases fs
  {
    if fs == [] || bits == 0 then fs
    else if bits < fs[0].size then (if |fs| == 1 then [] else [Empty(fs[0].size - bits)] + fs[1..])
    else Shifted(fs[1..], bits - fs[0].size)
  }

  /** Shifting gives the quotient but for what is lost of a cut field. */
  lemma {:induction false} ShiftedWord(fs: Packed, bits: nat)
    requires Valid(fs)
    ensures Word(Shifted(fs, bits)) + Lost(fs, bits) == Shr(Word(fs), bits)
    decreases fs
  {
    if fs == [] || bits == 0 {
      ZeroShifted(bits);
    } else if bits < fs[0].size {
      ShrSum(Bits(fs[0]), Word(fs[1..]), bits, fs[0].size - bits);
      CutWord(fs, bits);
    } else {
      ShrSum(Bits(fs[0]), Word(fs[1..]), fs[0].size, 0);
      ShrTwice(Word(fs), fs[0].size, bits - fs[0].size);
      ShiftedWord(fs[1..], bits - fs[0].size);
    }
  }

  lemma CutWord(fs: Packed, bits: nat)
    requires fs != [] && 0 < bits < fs[0].size
    ensures Word(Shifted(fs, bits)) == Shl(Word(fs[1..]), fs[0].size - bits)
  {
    var s := Shifted(fs, bits);
    if |fs| == 1 {
      ZeroShifted(fs[0].size - bits);
      assert fs[1..] == [];
    } else {
      assert s[0] == Empty(fs[0].size - bits) && s[1..] == fs[1..];
    }
  }

  lemma {:induction false} CutLoses(fs: Packed, bits: nat)
    ensures match Cuts(fs, bits)
            case None => Lost(fs, bits) == 0
            case Some(k) =>
              && k < |fs| && Offset(fs, k) < bits < Offset(fs, k) + fs[k].size
              && (Lost(fs, bits) == 0 <==> Fits(Bits(fs[k]), bits - Offset(fs, k)))
    decreases fs
  {
    if fs != [] && bits >= fs[0].size { CutLoses(fs[1..], bits - fs[0].size); }
  }

  /** Shifting the list shifts the word exactly when no bits of a cut field lie above the cut. */
  lemma ShiftIsExact(fs: Packed, bits: nat)
    requires Valid(fs)
    ensures Word(Shifted(fs, bits)) == Shr(Word(fs), bits) <==>
            match Cuts(fs, bits)
            case None => true
            case Some(k) => k < |fs| && Offset(fs, k) <= bits && Fits(Bits(fs[k]), bits - Offset(fs, k))
  {
    ShiftedWord(fs, bits);
    CutLoses(fs, bits);
  }

  /** Which fields are left: all from the field that the shift leads to; if it cuts a field, zeros in place of what is
      left of that field, and the fields behind it, if there are any. */
  lemma {:induction false} ShiftedFields(fs: Packed, bits: nat, k: nat)
    requires k < |fs| && Offset(fs, k) <= bits < Offset(fs, k) + fs[k].size
    ensures Offset(fs, k) < bits ==>
              Shifted(fs, bits)
              == if k + 1 == |fs| then [] else [Empty(Offset(fs, k) + fs[k].size - bits)] + fs[k + 1..]
    ensures Offset(fs, k) == bits && (k > 0 ==> fs[k - 1].size > 0) ==> Shifted(fs, bits) == fs[k..]
    decreases k
  {
    if k > 0 { OffsetStep(fs, k - 1); }
    if bits > 0 && k > 0 {
      OffsetGrows(fs, 1, k);
      ShiftedFields(fs[1..], bits - fs[0].size, k - 1);
    }
  }

  /** The loop over the fields. */
  method ShiftRight(fs: Packed, bits: nat) returns (result: Packed)
    ensures result == Shifted(fs, bits)
  {
    result := [];
    var taking := false;
    var pos: nat, k: nat := 0, 0;
    assert fs[0..] == fs;
    while k < |fs|
      invariant k <= |fs|
      invariant taking ==> Shifted(fs, bits) == result + fs[k..]
      invariant !taking ==> result == [] && Pending(fs, bits, k, pos)
    {
      assert fs[k..] == [fs[k]] + fs[k + 1..];
      if bits == pos { taking := true; }
      if taking {
        result := result + [fs[k]];
      } else if bits < pos {
        result := result + [Empty(pos - bits), fs[k]];
        taking := true;
      } else {
        pos := pos + fs[k].size;
      }
      k := k + 1;
    }
    assert fs[k..] == [];
  }

  /** Nothing is taken yet: either the shift is still ahead, or it cut the field just passed. */
  predicate Pending(fs: Packed, bits: nat, k: nat, pos: nat)
    requires k <= |fs|
  {
    if pos <= bits then Shifted(fs, bits) == Shifted(fs[k..], bits - pos)
    else Shifted(fs, bits) == if k == |fs| then [] else [Empty(pos - bits)] + fs[k..]
  }

  // ---- masks ----

  function BitAt(m: nat, i: nat): nat { Shr(m, i) % 2 }

  /** The ones of `m` are exactly the bits from `begin` to `end`. */
  ghost predicate IsRun(m: nat, begin: nat, end: nat) {
    begin <= end && forall i: nat :: BitAt(m, i) == 1 <==> begin <= i <= end
  }

  /** The number of binary digits. */
  function Digits(m: nat): (n: nat)
    ensures n > 0
  {
    if m < 2 then 1 else 1 + Digits(m / 2)
  }

  lemma {:induction false} HighBits(m: nat, i: nat)
    ensures i >= Digits(m) ==> BitAt(m, i) == 0
    decreases i
  {
    if i == 0 {
    } else if m < 2 {
      ZeroShifted(i - 1);
    } else {
      HighBits(m / 2, i - 1);
    }
  }

  lemma {:induction false} TopBit(m: nat)
    requires m > 0
    ensures BitAt(m, Digits(m) - 1) == 1
  {
    if m < 2 {
    } else {
      TopBit(m / 2);
    }
  }

  /** A run of ones is a shifted mask of ones. */
  lemma {:induction false} RunIsMask(m: nat, begin: nat, end: nat)
    requires begin <= end
    ensures IsRun(m, begin, end) <==> m == Shl(Ones(end + 1 - begin), begin)
    decreases end
  {
    if end > 0 {
      RunIsMask(m / 2, if begin > 0 then begin - 1 else 0, end - 1);
      HalfRun(m, begin, end);
    } else {
      OnlyBit(m);
    }
  }

  lemma OnlyBit(m: nat)
    ensures IsRun(m, 0, 0) <==> m == 1
  {
    if IsRun(m, 0, 0) {
      assert BitAt(m, 0) == 1;
      if m >= 2 { TopBit(m); }
    }
    if m == 1 {
      forall i: nat ensures BitAt(m, i) == 1 <==> i == 0 { HighBits(1, i); }
    }
  }

  lemma HalfRun(m: nat, begin: nat, end: nat)
    requires begin <= end && end > 0
    ensures IsRun(m, begin, end) <==>
            IsRun(m / 2, if begin > 0 then begin - 1 else 0, end - 1) && m % 2 == (if begin > 0 then 0 else 1)
  {
    var b := if begin > 0 then begin - 1 else 0;
    if IsRun(m, begin, end) {
      forall i: nat ensures BitAt(m / 2, i) == 1 <==> b <= i <= end - 1 { assert BitAt(m, i + 1) == BitAt(m / 2, i); }
      assert BitAt(m, 0) == m % 2;
    }
    if IsRun(m / 2, b, end - 1) && m % 2 == (if begin > 0 then 0 else 1) {
      forall i: nat ensures BitAt(m, i) == 1 <==> begin <= i <= end {
        if i > 0 { assert BitAt(m, i) == BitAt(m / 2, i - 1); }
      }
    }
  }

  /** The scan for one run of ones, from the lowest bit up. */
  method ScanMask(m: nat) returns (begin: nat, end: nat, run: bool)
    requires m > 0
    ensures run ==> IsRun(m, begin, end)
    ensures !run ==> forall b: nat, e: nat :: !IsRun(m, b, e)
  {
    var length := Digits(m);
    TopBit(m);
    begin := 0;
    while BitAt(m, begin) == 0
      invariant begin < length && forall i: nat | i < begin :: BitAt(m, i) == 0
      decreases length - begin
    {
      begin := begin + 1;
    }
    end := begin;
    while end + 1 < length && BitAt(m, end + 1) == 1
      invariant begin <= end < length && forall i: nat | begin <= i <= end :: BitAt(m, i) == 1
    {
      end := end + 1;
    }
    var i := end + 1;
    while i < length
      invariant end < i && forall j: nat | end < j < i && j < length :: BitAt(m, j) == 0
    {
      if BitAt(m, i) == 1 {
        SecondRun(m, begin, end, i);
        return begin, end, false;
      }
      i := i + 1;
    }
    forall j: nat | j > end ensures BitAt(m, j) == 0 { if j >= length { HighBits(m, j); } }
    return begin, end, true;
  }

  lemma SecondRun(m: nat, begin: nat, end: nat, i: nat)
    requires begin <= end < i && BitAt(m, begin) == 1 && BitAt(m, end + 1) != 1 && BitAt(m, i) == 1
    ensures forall b: nat, e: nat :: !IsRun(m, b, e)
  {
    forall b: nat, e: nat ensures !IsRun(m, b, e) {
      var one, other, gap := BitAt(m, begin) == 1, BitAt(m, i) == 1, BitAt(m, end + 1) == 1;
      assert one && other && !gap;
    }
  }

  /** The field that begins at `begin` and reaches at least to `end`. */
  method AcquireContent(fs: Packed, begin: nat, end: nat) returns (r: Option<Field>)
    ensures r.Some? ==> exists k | 0 <= k < |fs| :: r.value == fs[k] && Reaches(fs, k, begin, end)
    ensures r.None? ==> forall k | 0 <= k < |fs| :: !Reaches(fs, k, begin, end)
  {
    var pos: nat, k: nat := 0, 0;
    while k < |fs|
      invariant k <= |fs| && pos == Offset(fs, k)
      invariant forall j | 0 <= j < k :: !Reaches(fs, j, begin, end)
    {
      if pos == begin && pos + fs[k].size - 1 >= end { return Some(fs[k]); }
      OffsetStep(fs, k);
      pos, k := pos + fs[k].size, k + 1;
    }
    return None;
  }

  predicate Reaches(fs: Packed, k: nat, begin: nat, end: nat)
    requires k < |fs|
  {
    Offset(fs, k) == begin && begin + fs[k].size - 1 >= end
  }

  datatype Masked = Zero | Nothing | Selected(field: Field)

  /** The mask is one run of ones from `b` to `e`, which field `k` covers from its beginning. */
  ghost predicate Covers(fs: Packed, m: nat, b: nat, e: nat, k: nat) {
    k < |fs| && IsRun(m, b, e) && Reaches(fs, k, b, e)
  }

  /** What masking a packed word yields: zero, the field that covers the mask, or nothing known. A field is the masked
      word only where `KeepsMasked` says so. */
  method MaskField(fs: Packed, m: nat) returns (r: Masked)
    ensures m == 0 ==> r == Zero && BitAnd(Word(fs), m) == 0
    ensures forall b: nat, e: nat, k: nat | Covers(fs, m, b, e, k) ::
              r == Selected(fs[k])
              && (Valid(fs) ==> (BitAnd(Word(fs), m) == Bits(fs[k]) <==> KeepsMasked(fs[k], b, e)))
    ensures m > 0 && (forall b: nat, e: nat, k: nat :: !Covers(fs, m, b, e, k)) ==> r == Nothing
  {
    if m == 0 {
      forall b: nat, e: nat, k: nat ensures !Covers(fs, m, b, e, k) { NoRun(b, e); }
      return Zero;
    }
    var begin, end, run := ScanMask(m);
    if !run { return Nothing; }
    var found := AcquireContent(fs, begin, end);
    ghost var i: nat := 0;
    if found.None? {
      r := Nothing;
    } else {
      r := Selected(found.value);
      i :| i < |fs| && found.value == fs[i] && Reaches(fs, i, begin, end);
      assert Covers(fs, m, begin, end, i);
    }
    forall b: nat, e: nat, k: nat | Covers(fs, m, b, e, k)
      ensures r == Selected(fs[k])
      ensures Valid(fs) ==> (BitAnd(Word(fs), m) == Bits(fs[k]) <==> KeepsMasked(fs[k], b, e))
    {
      OneRun(m, b, e, begin, end);
      OneField(fs, i, k, b);
      if Valid(fs) { MaskSelectsExactly(fs, m, b, e, k); }
    }
  }

  lemma NoRun(b: nat, e: nat)
    ensures !IsRun(0, b, e)
  {
    if b <= e {
      ZeroShifted(b);
      assert BitAt(0, b) == 0;
    }
  }

  lemma OneRun(m: nat, b: nat, e: nat, c: nat, f: nat)
    requires IsRun(m, b, e) && IsRun(m, c, f)
    ensures b == c && e == f
  {
    assert BitAt(m, b) == 1 && BitAt(m, e) == 1 && BitAt(m, c) == 1 && BitAt(m, f) == 1;
  }

  /** The shifted word shows the field, from its lowest bit up. */
  lemma FieldShown(fs: Packed, k: nat, n: nat)
    requires Valid(fs) && k < |fs| && n <= fs[k].size
    ensures BitAnd(Shr(Word(fs), Offset(fs, k)), Ones(n)) == BitAnd(Bits(fs[k]), Ones(n))
  {
    ShiftToField(fs, k);
    assert fs[k..][0] == fs[k];
    MaskSum(Bits(fs[k]), Word(fs[k..][1..]), n, fs[k].size - n);
  }

  /** The masked word is what the mask leaves of the field, at the place of the mask. */
  lemma MaskedWord(fs: Packed, m: nat, b: nat, e: nat, k: nat)
    requires Valid(fs) && Covers(fs, m, b, e, k)
    ensures BitAnd(Word(fs), m) == Shl(BitAnd(Bits(fs[k]), Ones(e + 1 - b)), b)
  {
    RunIsMask(m, b, e);
    MaskShifted(Word(fs), e + 1 - b, b);
    FieldShown(fs, k, e + 1 - b);
  }

  /** The field is not moved, and the mask takes nothing from it. */
  predicate KeepsMasked(f: Field, b: nat, e: nat) {
    Bits(f) == 0 || (b == 0 && Fits(Bits(f), e + 1))
  }

  /** The field that is selected stands where it did, and is selected as a whole: it is the masked word exactly when it
      is zero, or the mask begins at bit 0 and no bits of the field lie above it. */
  lemma MaskSelectsExactly(fs: Packed, m: nat, b: nat, e: nat, k: nat)
    requires Valid(fs) && Covers(fs, m, b, e, k)
    ensures BitAnd(Word(fs), m) == Bits(fs[k]) <==> KeepsMasked(fs[k], b, e)
  {
    var x, n := Bits(fs[k]), e + 1 - b;
    MaskedWord(fs, m, b, e, k);
    if b == 0 {
      MaskFits(x, n);
      if x == 0 { ZeroShifted(n); }
    } else {
      if Shl(BitAnd(x, Ones(n)), b) == x { ShiftedApart(x, n, b); }
      if x == 0 {
        ZeroShifted(n);
        MaskFits(x, n);
        ZeroShifted(b);
      }
    }
  }

  /** The second of two bytes, with the value 1. */
  const TWO_BYTES: Packed := [Content("a", 8, 0), Content("b", 8, 1)]

  /** Masking the two bytes with 0xff00 gives 256, but the field that is selected is 1. */
  lemma HighMaskIsNotMoved()
    ensures Covers(TWO_BYTES, 0xff00, 8, 15, 1)
    ensures Valid(TWO_BYTES) && Bits(TWO_BYTES[1]) == 1 && BitAnd(Word(TWO_BYTES), 0xff00) == 256
  {
    HighByte();
    RunIsMask(0xff00, 8, 15);
    assert Offset(TWO_BYTES, 1) == 8 + Offset(TWO_BYTES[1..], 0);
    assert Valid(TWO_BYTES);
    MaskedWord(TWO_BYTES, 0xff00, 8, 15, 1);
    MaskFits(1, 8);
  }

  lemma HighByte()
    ensures Shl(Ones(8), 8) == 0xff00 && Shl(1, 8) == 256 && Fits(0, 8) && Fits(1, 8)
  {
    assert Pow2(8) == 256 by {
      Pow2Split(3, 3);
      Pow2Split(6, 2);
    }
    ShiftsAreArithmetic(0, 8);
    ShiftsAreArithmetic(1, 8);
    ShiftsAreArithmetic(Ones(8), 8);
  }

  // ---- extracting a field ----

  /** Shifting right by the offset of field `k` and masking with its width yields field `k`. */
  method ExtractField(fs: Packed, ghost k: nat, offset: nat, mask: nat) returns (r: Masked)
    requires Valid(fs) && k < |fs| && fs[k].size > 0
    requires offset == Offset(fs, k) && mask == Ones(fs[k].size)
    ensures r == Selected(fs[k]) && Bits(fs[k]) == BitAnd(Shr(Word(fs), offset), mask)
  {
    var shifted := ShiftRight(fs, offset);
    ghost var j := ShiftedAtField(fs, k);
    RunIsMask(mask, 0, fs[k].size - 1);
    FieldShown(fs, k, fs[k].size);
    MaskFits(Bits(fs[k]), fs[k].size);
    r := MaskField(shifted, mask);
    assert Covers(shifted, mask, 0, fs[k].size - 1, k - j);
  }

  /** The shifted list begins with field `k`, or with fields of no size in front of it. */
  lemma {:induction false} ShiftedAtField(fs: Packed, k: nat) returns (j: nat)
    requires k < |fs|
    ensures j <= k && Shifted(fs, Offset(fs, k)) == fs[j..] && Offset(fs[j..], k - j) == 0
    decreases k
  {
    if Offset(fs, k) == 0 {
      j := 0;
      assert fs[0..] == fs;
    } else {
      j := ShiftedAtField(fs[1..], k - 1);
      assert fs[1..][j..] == fs[j + 1..];
      j := j + 1;
    }
  }

  /** No two fields with a size begin at the same place. */
  lemma OneField(fs: Packed, i: nat, k: nat, begin: nat)
    requires i < |fs| && k < |fs| && fs[i].size > 0 && fs[k].size > 0
    requires Offset(fs, i) == begin && Offset(fs, k) == begin
    ensures i == k
  {
    if i < k { LaterIsHigher(fs, i, k); }
    if k < i { LaterIsHigher(fs, k, i); }
  }

  lemma LaterIsHigher(fs: Packed, i: nat, k: nat)
    requires i < k < |fs|
    ensures Offset(fs, k) >= Offset(fs, i) + fs[i].size
  {
    OffsetStep(fs, i);
    OffsetGrows(fs, i + 1, k);
  }

  // ---- simplifying ----

  datatype Simplified = Unchanged | Alone(f: Field) | Scaled(f: Field, factor: nat)

  function Simplify(fs: Packed): Simplified {
    if |fs| == 1 then Alone(fs[0])
    else if |fs| == 2 && fs[0].Empty? then Scaled(fs[1], Pow2(fs[0].size))
    else Unchanged
  }

  /** A single field is taken out of the list, and so is one above bits that hold nothing, as a multiple; the value is
      that of the list. */
  lemma SimplifyKeepsWord(fs: Packed)
    ensures Simplify(fs).Alone? <==> |fs| == 1
    ensures Simplify(fs).Scaled? <==> |fs| == 2 && fs[0].Empty?
    ensures match Simplify(fs)
            case Unchanged => true
            case Alone(f) => Word(fs) == Bits(f)
            case Scaled(f, factor) => Word(fs) == Bits(f) * factor
  {
    if |fs| == 1 {
      assert fs[1..] == [];
      ZeroShifted(fs[0].size);
    } else if |fs| == 2 && fs[0].Empty? {
      assert fs[1..][0] == fs[1] && fs[1..][1..] == [];
      ZeroShifted(fs[1].size);
      assert Word(fs[1..]) == Bits(fs[1]);
      ShiftsAreArithmetic(Bits(fs[1]), fs[0].size);
    }
  }
}
