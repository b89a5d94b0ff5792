/** The two ways the bit-field selector is written as hexadecimal text. */
module SelectorText {
  import opened Arithmetic
  import opened Shifts

  type Digit = d: nat | d < 16

  /** Lower-case digits as their values, the highest first, without leading zeros; zero is one digit. */
  function Hex(n: nat): (s: seq<Digit>)
    ensures s != []
    decreases n
  {
    if n < 16 then [n] else Hex(n / 16) + [n % 16]
  }

  function Value(s: seq<Digit>): nat {
    if s == [] then 0 else Value(s[..|s| - 1]) * 16 + s[|s| - 1]
  }

  function Zeros(n: nat): seq<Digit> { if n == 0 then [] else Zeros(n - 1) + [0] }

  /** Padded to four digits on the left; longer text stays. */
  function PadToFour(s: seq<Digit>): seq<Digit> { Zeros(if |s| < 4 then 4 - |s| else 0) + s }

  /** The selector as two texts, one after the other. */
  function Concatenated(width: nat, offset: nat): seq<Digit> { Hex(width) + PadToFour(Hex(offset)) }

  /** The selector as the text of one number. */
  function Packed(width: nat, offset: nat): seq<Digit> { Hex(BitOr(Shl(width, 16), offset)) }

  /** Or-ing 16 bits to what was shifted past them adds them. */
  lemma PackedIsSum(width: nat, offset: nat)
    requires offset < 0x1_0000
    ensures Packed(width, offset) == Hex(width * 0x1_0000 + offset)
  {
    SixteenTwos();
    ShiftsAreArithmetic(width, 16);
    ShiftsAreArithmetic(offset, 16);
    OrIsSum(width, offset, 16);
  }

  lemma SixteenTwos()
    ensures Pow2(16) == 0x1_0000
  {
    assert Pow2(4) == 16;
    Pow2Split(4, 4);
    Pow2Split(8, 8);
  }

  /** The last four digits of a number, one by one. */
  function FourDigits(n: nat): seq<Digit> {
    var a := n / 16;
    var b := a / 16;
    var c := b / 16;
    [c % 16, b % 16, a % 16, n % 16]
  }

  lemma {:induction false} ValueOfHex(n: nat)
    ensures Value(Hex(n)) == n
    decreases n
  {
    if n < 16 {
    } else {
      ValueOfHex(n / 16);
      var s := Hex(n);
      assert s[..|s| - 1] == Hex(n / 16);
    }
  }

  lemma HexStep(n: nat, d: Digit)
    requires n > 0
    ensures Hex(n * 16 + d) == Hex(n) + [d]
  {}

  lemma FewZeros()
    ensures Zeros(0) == [] && Zeros(1) == [0] && Zeros(2) == [0, 0] && Zeros(3) == [0, 0, 0]
  {
    assert Zeros(1) == Zeros(0) + [0];
    assert Zeros(2) == Zeros(1) + [0];
    assert Zeros(3) == Zeros(2) + [0];
  }

  /** Padding four digits whose leading zeros were left out. */
  lemma Padded(c: Digit, b: Digit, a: Digit, d: Digit)
    ensures PadToFour(Hex(((c * 16 + b) * 16 + a) * 16 + d)) == [c, b, a, d]
  {
    FewZeros();
    if c > 0 {
      HexStep(c, b);
      HexStep(c * 16 + b, a);
      HexStep((c * 16 + b) * 16 + a, d);
    } else if b > 0 {
      HexStep(b, a);
      HexStep(b * 16 + a, d);
    } else if a > 0 {
      HexStep(a, d);
    }
  }

  lemma AppendFour(width: nat, c: Digit, b: Digit, a: Digit, d: Digit)
    requires width > 0
    ensures Hex((((width * 16 + c) * 16 + b) * 16 + a) * 16 + d) == Hex(width) + [c, b, a, d]
  {
    var x := width * 16 + c;
    var y := x * 16 + b;
    var z := y * 16 + a;
    HexStep(width, c);
    HexStep(x, b);
    HexStep(y, a);
    HexStep(z, d);
  }

  /** A number of 16 bits by its four digits. */
  lemma FourDigitsAre(n: nat) returns (c: Digit, b: Digit, a: Digit, d: Digit)
    requires n < 0x1_0000
    ensures FourDigits(n) == [c, b, a, d] && n == ((c * 16 + b) * 16 + a) * 16 + d
  {
    var x := n / 16;
    var y := x / 16;
    var z := y / 16;
    assert n == x * 16 + n % 16 && x == y * 16 + x % 16 && y == z * 16 + y % 16;
    c, b, a, d := z, y % 16, x % 16, n % 16;
  }

  lemma PaddedDigits(n: nat)
    requires n < 0x1_0000
    ensures PadToFour(Hex(n)) == FourDigits(n)
  {
    var c, b, a, d := FourDigitsAre(n);
    Padded(c, b, a, d);
  }

  /** The digits of a number are those of its upper part followed by its last four. */
  lemma HexSplits(width: nat, offset: nat)
    requires width > 0 && offset < 0x1_0000
    ensures Hex(width * 0x1_0000 + offset) == Hex(width) + FourDigits(offset)
  {
    var c, b, a, d := FourDigitsAre(offset);
    AppendFour(width, c, b, a, d);
    assert width * 0x1_0000 + offset == (((width * 16 + c) * 16 + b) * 16 + a) * 16 + d;
  }

  /** Both writers give the same text, for every positive width and every offset of 16 bits. */
  lemma WritersAgree(width: nat, offset: nat)
    requires width > 0 && offset < 0x1_0000
    ensures Concatenated(width, offset) == Packed(width, offset)
    ensures Value(Concatenated(width, offset)) / 0x1_0000 == width
    ensures Value(Concatenated(width, offset)) % 0x1_0000 == offset
  {
    PackedIsSum(width, offset);
    PaddedDigits(offset);
    HexSplits(width, offset);
    ValueOfHex(width * 0x1_0000 + offset);
  }

  /** Different selectors have different texts. */
  lemma TextsDiffer(w1: nat, o1: nat, w2: nat, o2: nat)
    requires w1 > 0 && w2 > 0 && o1 < 0x1_0000 && o2 < 0x1_0000
    ensures Concatenated(w1, o1) == Concatenated(w2, o2) <==> w1 == w2 && o1 == o2
  {
    WritersAgree(w1, o1);
    WritersAgree(w2, o2);
  }

  lemma {:induction false} NoLeadingZero(n: nat)
    ensures Hex(n)[0] == 0 <==> n == 0
    decreases n
  {
    if n < 16 {
    } else {
      NoLeadingZero(n / 16);
    }
  }

  /** For an offset of 16 bits the two texts are the same exactly when the width is positive. */
  lemma WritersAgreeExactly(width: nat, offset: nat)
    requires offset < 0x1_0000
    ensures Concatenated(width, offset) == Packed(width, offset) <==> width > 0
  {
    if width > 0 {
      WritersAgree(width, offset);
    } else {
      PackedIsSum(0, offset);
      PaddedDigits(offset);
      assert Concatenated(0, offset)[0] == 0 && |Concatenated(0, offset)| == 5;
      NoLeadingZero(offset);
      if offset == 0 { assert |Packed(0, 0)| == 1; } else { assert Packed(0, offset)[0] != 0; }
    }
  }
}
