/** The generator and the sampler on one seed, computed step by step. */
module FirstWord {
  import opened Wrappers
  import opened Words
  import opened Counting
  import opened SplitMix
  import opened Floyd

  // ---------- Exclusive or, four hexadecimal digits at a time ----------

  /** The bit of weight m at the top of `x`, and the bits below it. */
  function Top(x: nat, m: nat): nat { if x >= m then 1 else 0 }

  function Below(x: nat, m: nat): nat { if x >= m then x - m else x }

  /** Exclusive or of two hexadecimal digits. */
  function Digit(x: nat, y: nat): nat {
    8 * XorBit(Top(x, 8), Top(y, 8)) + 4 * XorBit(Top(Below(x, 8), 4), Top(Below(y, 8), 4))
    + 2 * XorBit(Top(Below(Below(x, 8), 4), 2), Top(Below(Below(y, 8), 4), 2))
    + XorBit(Below(Below(Below(x, 8), 4), 2), Below(Below(Below(y, 8), 4), 2))
  }

  lemma PutBit(a: nat, b: nat, x: nat, y: nat)
    requires x < 2 && y < 2
    ensures Xor(2 * a + x, 2 * b + y) == 2 * Xor(a, b) + XorBit(x, y)
  {
    hide Xor, XorBit;
    XorHalf(2 * a + x, 2 * b + y);
  }

  lemma PutDigit(a: nat, b: nat, x: nat, y: nat)
    requires x < 16 && y < 16
    ensures Xor(16 * a + x, 16 * b + y) == 16 * Xor(a, b) + Digit(x, y)
  {
    hide Xor, XorBit;
    var x2, y2 := Below(x, 8), Below(y, 8);
    var x1, y1 := Below(x2, 4), Below(y2, 4);
    var a1, b1 := 2 * a + Top(x, 8), 2 * b + Top(y, 8);
    var a2, b2 := 2 * a1 + Top(x2, 4), 2 * b1 + Top(y2, 4);
    var a3, b3 := 2 * a2 + Top(x1, 2), 2 * b2 + Top(y1, 2);
    PutBit(a, b, Top(x, 8), Top(y, 8));
    PutBit(a1, b1, Top(x2, 4), Top(y2, 4));
    PutBit(a2, b2, Top(x1, 2), Top(y1, 2));
    PutBit(a3, b3, Below(x1, 2), Below(y1, 2));
  }

  /** `a` followed by four hexadecimal digits. */
  function Put(a: nat, d: (nat, nat, nat, nat)): nat { 16 * (16 * (16 * (16 * a + d.0) + d.1) + d.2) + d.3 }

  predicate AreDigits(d: (nat, nat, nat, nat)) { d.0 < 16 && d.1 < 16 && d.2 < 16 && d.3 < 16 }

  function Digits(d: (nat, nat, nat, nat), e: (nat, nat, nat, nat)): (nat, nat, nat, nat) {
    (Digit(d.0, e.0), Digit(d.1, e.1), Digit(d.2, e.2), Digit(d.3, e.3))
  }

  lemma PutDigits(a: nat, b: nat, c: nat, d: (nat, nat, nat, nat), e: (nat, nat, nat, nat), f: (nat, nat, nat, nat))
    requires Xor(a, b) == c && AreDigits(d) && AreDigits(e) && Digits(d, e) == f
    ensures Xor(Put(a, d), Put(b, e)) == Put(c, f)
  {
    hide Xor, Digit;
    var a1, b1 := 16 * a + d.0, 16 * b + e.0;
    var a2, b2 := 16 * a1 + d.1, 16 * b1 + e.1;
    var a3, b3 := 16 * a2 + d.2, 16 * b2 + e.2;
    PutDigit(a, b, d.0, e.0);
    PutDigit(a1, b1, d.1, e.1);
    PutDigit(a2, b2, d.2, e.2);
    PutDigit(a3, b3, d.3, e.3);
  }

  lemma HalfThenDivide(a: nat, c: nat)
    requires c > 0
    ensures a / 2 / c == a / (2 * c)
  {
    var q := a / 2 / c;
    DivUnique(a, 2 * c, q, a - 2 * c * q);
  }

  lemma {:induction false} ShrIsQuotient(a: nat, k: nat)
    ensures Shr(a, k) == a / Pow2(k)
  {
    if k == 0 {
    } else {
      ShrIsQuotient(a / 2, k - 1);
      HalfThenDivide(a, Pow2(k - 1));
    }
  }

  lemma ShiftPowers()
    ensures Pow2(27) == 0x800_0000 && Pow2(30) == 0x4000_0000 && Pow2(31) == 0x8000_0000
  {
    assert Pow2(1) == 2 && Pow2(3) == 8;
    Pow2Of8();
    hide Pow2;
    Pow2Add(8, 8);
    Pow2Add(16, 8);
    Pow2Add(24, 3);
    Pow2Add(27, 3);
    Pow2Add(30, 1);
  }

  // ---------- The mixer on the state of seed 1 ----------

  lemma Digits79B9By2()
    ensures Digits((7, 9, 0xB, 9), (0, 0, 0, 2)) == (7, 9, 0xB, 0xB)
  {
  }

  lemma Digits7F4ABy78DD()
    ensures Digits((7, 0xF, 4, 0xA), (7, 8, 0xD, 0xD)) == (0, 7, 9, 7)
  {
  }

  lemma Digits7C16ByE6E5()
    ensures Digits((7, 0xC, 1, 6), (0xE, 6, 0xE, 5)) == (9, 0xA, 0xF, 3)
  {
  }

  lemma Mix30Digits()
    ensures Xor(0x9E37_79B9_7F4A_7C16, 0x2_78DD_E6E5) == 0x9E37_79BB_0797_9AF3
  {
    hide Xor, Digit;
    XorZero(0x9E37);
    Digits79B9By2();
    PutDigits(0x9E37, 0x0, 0x9E37, (7, 9, 0xB, 9), (0, 0, 0, 2), (7, 9, 0xB, 0xB));
    Digits7F4ABy78DD();
    PutDigits(0x9E37_79B9, 0x2, 0x9E37_79BB, (7, 0xF, 4, 0xA), (7, 8, 0xD, 0xD), (0, 7, 9, 7));
    Digits7C16ByE6E5();
    PutDigits(0x9E37_79B9_7F4A, 0x2_78DD, 0x9E37_79BB_0797, (7, 0xC, 1, 6), (0xE, 6, 0xE, 5), (9, 0xA, 0xF, 3));
  }

  lemma Mix30()
    ensures XorShift(0x9E37_79B9_7F4A_7C16, 30) == 0x9E37_79BB_0797_9AF3
  {
    hide Xor, Shr, Pow2, Digit;
    ShiftPowers();
    ShrIsQuotient(0x9E37_79B9_7F4A_7C16, 30);
    assert Shr(0x9E37_79B9_7F4A_7C16, 30) == 0x2_78DD_E6E5;
    Mix30Digits();
  }

  lemma DigitsFC62By15()
    ensures Digits((0xF, 0xC, 6, 2), (0, 0, 1, 5)) == (0xF, 0xC, 7, 7)
  {
  }

  lemma DigitsAE96ByAE1F()
    ensures Digits((0xA, 0xE, 9, 6), (0xA, 0xE, 1, 0xF)) == (0, 0, 8, 9)
  {
  }

  lemma Digits589BBy8C55()
    ensures Digits((5, 8, 9, 0xB), (8, 0xC, 5, 5)) == (0xD, 4, 0xC, 0xE)
  {
  }

  lemma Mix27Digits()
    ensures Xor(0xAD70_FC62_AE96_589B, 0x15_AE1F_8C55) == 0xAD70_FC77_0089_D4CE
  {
    hide Xor, Digit;
    XorZero(0xAD70);
    DigitsFC62By15();
    PutDigits(0xAD70, 0x0, 0xAD70, (0xF, 0xC, 6, 2), (0, 0, 1, 5), (0xF, 0xC, 7, 7));
    DigitsAE96ByAE1F();
    PutDigits(0xAD70_FC62, 0x15, 0xAD70_FC77, (0xA, 0xE, 9, 6), (0xA, 0xE, 1, 0xF), (0, 0, 8, 9));
    Digits589BBy8C55();
    PutDigits(0xAD70_FC62_AE96, 0x15_AE1F, 0xAD70_FC77_0089, (5, 8, 9, 0xB), (8, 0xC, 5, 5), (0xD, 4, 0xC, 0xE));
  }

  lemma Mix27()
    ensures XorShift(0xAD70_FC62_AE96_589B, 27) == 0xAD70_FC77_0089_D4CE
  {
    hide Xor, Shr, Pow2, Digit;
    ShiftPowers();
    ShrIsQuotient(0xAD70_FC62_AE96_589B, 27);
    assert Shr(0xAD70_FC62_AE96_589B, 27) == 0x15_AE1F_8C55;
    Mix27Digits();
  }

  lemma Digits2DEDBy1()
    ensures Digits((2, 0xD, 0xE, 0xD), (0, 0, 0, 1)) == (2, 0xD, 0xE, 0xC)
  {
  }

  lemma DigitsAB16By2214()
    ensures Digits((0xA, 0xB, 1, 6), (2, 2, 1, 4)) == (8, 9, 0, 2)
  {
  }

  lemma Digits071ABy5BDB()
    ensures Digits((0, 7, 1, 0xA), (5, 0xB, 0xD, 0xB)) == (5, 0xC, 0xC, 1)
  {
  }

  lemma Mix31Digits()
    ensures Xor(0x910A_2DED_AB16_071A, 0x1_2214_5BDB) == 0x910A_2DEC_8902_5CC1
  {
    hide Xor, Digit;
    XorZero(0x910A);
    Digits2DEDBy1();
    PutDigits(0x910A, 0x0, 0x910A, (2, 0xD, 0xE, 0xD), (0, 0, 0, 1), (2, 0xD, 0xE, 0xC));
    DigitsAB16By2214();
    PutDigits(0x910A_2DED, 0x1, 0x910A_2DEC, (0xA, 0xB, 1, 6), (2, 2, 1, 4), (8, 9, 0, 2));
    Digits071ABy5BDB();
    PutDigits(0x910A_2DED_AB16, 0x1_2214, 0x910A_2DEC_8902, (0, 7, 1, 0xA), (5, 0xB, 0xD, 0xB), (5, 0xC, 0xC, 1));
  }

  lemma Mix31()
    ensures XorShift(0x910A_2DED_AB16_071A, 31) == 0x910A_2DEC_8902_5CC1
  {
    hide Xor, Shr, Pow2, Digit;
    ShiftPowers();
    ShrIsQuotient(0x910A_2DED_AB16_071A, 31);
    assert Shr(0x910A_2DED_AB16_071A, 31) == 0x1_2214_5BDB;
    Mix31Digits();
  }

  /** The first word of seed 1. */
  lemma FirstWordOfOne()
    ensures Output(1, 1) == 0x910A_2DEC_8902_5CC1
  {
    assert StateAfter(1, 1) == Advance(StateAfter(1, 0)) == 0x9E37_79B9_7F4A_7C16;
    assert Mul1(0x9E37_79BB_0797_9AF3) == 0xAD70_FC62_AE96_589B;
    assert Mul2(0xAD70_FC77_0089_D4CE) == 0x910A_2DED_AB16_071A;
    hide XorShift, Mul1, Mul2, StateAfter;
    Mix30();
    Mix27();
    Mix31();
  }

  lemma FirstDrawOfOne()
    ensures Accepted(0x910A_2DEC_8902_5CC1, 10) && High(0x910A_2DEC_8902_5CC1, 10) == 5
  {
  }

  /** One row sampled from ten with seed 1 is row 5. */
  lemma SampleOfOne()
    ensures Sample(10, 1, 1) == [5]
  {
    hide Output, Accepted, High, Sample, Draw, Calls;
    FirstWordOfOne();
    FirstDrawOfOne();
    FirstCallDraw(1, 10);
    OneRowSampled(10, 1);
  }
}
