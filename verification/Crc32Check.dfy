/** The published check value of the CRC-32 that section 8 of RFC 1952 uses. */
module Crc32Check {
  import opened Common
  import opened Crc32

  // ----- bits of machine words -----

  function Lowest(x: bv32): bool {
    x & 1 != 0
  }

  function Right(x: bv32): bv32 {
    x >> 1
  }

  function Sum(x: bv32, y: bv32): bv32 {
    x ^ y
  }

  /** The lowest `k` bits of a machine word, lowest first. */
  function LowBits(x: bv32, k: nat): (b: Bits)
    ensures |b| == k
    decreases k
  {
    if k == 0 then [] else [Lowest(x)] + LowBits(Right(x), k - 1)
  }

  function WordOf(x: bv32): Word {
    LowBits(x, 32)
  }

  /** The word shifted right, bit by bit. */
  function Dropped(x: bv32, k: nat): bv32
    decreases k
  {
    if k == 0 then x else Dropped(Right(x), k - 1)
  }

  lemma {:induction false} OneMoreBit(x: bv32, k: nat)
    ensures LowBits(x, k + 1) == LowBits(x, k) + [Lowest(Dropped(x, k))]
    decreases k
  {
    hide Lowest, Right;
    if k > 0 {
      OneMoreBit(Right(x), k - 1);
      assert [Lowest(x)] + (LowBits(Right(x), k - 1) + [Lowest(Dropped(x, k))]) == LowBits(x, k) + [Lowest(Dropped(x, k))];
    } else {
      assert LowBits(x, 1) == [Lowest(x)] + LowBits(Right(x), 0);
    }
  }

  predicate AtMost(x: bv32, y: bv32) {
    x <= y
  }

  lemma HalvesAreOrdered(x: bv32, y: bv32)
    requires AtMost(x, y)
    ensures AtMost(Right(x), Right(y))
  {
  }

  lemma {:induction false} DroppedIsMonotone(x: bv32, y: bv32, k: nat)
    requires AtMost(x, y)
    ensures AtMost(Dropped(x, k), Dropped(y, k))
    decreases k
  {
    hide AtMost, Right;
    if k > 0 {
      HalvesAreOrdered(x, y);
      DroppedIsMonotone(Right(x), Right(y), k - 1);
    }
  }

  lemma OneDropped(x: bv32, k: nat, y: bv32)
    requires k > 0 && Right(x) == y
    ensures Dropped(x, k) == Dropped(y, k - 1)
  {
    hide Right;
  }

  lemma NothingDropped(x: bv32)
    ensures Dropped(x, 0) == x
  {
  }

  lemma FewLeft()
    ensures Dropped(0x7FFF, 15) == 0
  {
    hide Dropped;
    OneDropped(0x7FFF, 15, 0x3FFF);
    OneDropped(0x3FFF, 14, 0x1FFF);
    OneDropped(0x1FFF, 13, 0xFFF);
    OneDropped(0xFFF, 12, 0x7FF);
    OneDropped(0x7FF, 11, 0x3FF);
    OneDropped(0x3FF, 10, 0x1FF);
    OneDropped(0x1FF, 9, 0xFF);
    OneDropped(0xFF, 8, 0x7F);
    OneDropped(0x7F, 7, 0x3F);
    OneDropped(0x3F, 6, 0x1F);
    OneDropped(0x1F, 5, 0xF);
    OneDropped(0xF, 4, 0x7);
    OneDropped(0x7, 3, 0x3);
    OneDropped(0x3, 2, 0x1);
    OneDropped(0x1, 1, 0x0);
    NothingDropped(0);
  }

  lemma NoneLeft()
    ensures Dropped(0x7FFFFFFF, 31) == 0
  {
    hide Dropped;
    OneDropped(0x7FFFFFFF, 31, 0x3FFFFFFF);
    OneDropped(0x3FFFFFFF, 30, 0x1FFFFFFF);
    OneDropped(0x1FFFFFFF, 29, 0xFFFFFFF);
    OneDropped(0xFFFFFFF, 28, 0x7FFFFFF);
    OneDropped(0x7FFFFFF, 27, 0x3FFFFFF);
    OneDropped(0x3FFFFFF, 26, 0x1FFFFFF);
    OneDropped(0x1FFFFFF, 25, 0xFFFFFF);
    OneDropped(0xFFFFFF, 24, 0x7FFFFF);
    OneDropped(0x7FFFFF, 23, 0x3FFFFF);
    OneDropped(0x3FFFFF, 22, 0x1FFFFF);
    OneDropped(0x1FFFFF, 21, 0xFFFFF);
    OneDropped(0xFFFFF, 20, 0x7FFFF);
    OneDropped(0x7FFFF, 19, 0x3FFFF);
    OneDropped(0x3FFFF, 18, 0x1FFFF);
    OneDropped(0x1FFFF, 17, 0xFFFF);
    OneDropped(0xFFFF, 16, 0x7FFF);
    FewLeft();
  }

  lemma RightIsSmall(x: bv32)
    ensures AtMost(Right(x), 0x7FFFFFFF)
  {
  }

  lemma NothingIsEven(x: bv32)
    ensures AtMost(x, 0) ==> !Lowest(x)
  {
  }

  lemma HalfOfWord(x: bv32)
    ensures Half(WordOf(x)) == WordOf(Right(x)) && Odd(WordOf(x)) == Lowest(x)
  {
    var y := Right(x);
    OneMoreBit(y, 31);
    RightIsSmall(x);
    DroppedIsMonotone(y, 0x7FFFFFFF, 31);
    NoneLeft();
    NothingIsEven(Dropped(y, 31));
    hide Dropped, Right, Lowest, AtMost;
    LowBitsParts(x, 32);
    hide LowBits;
  }

  lemma FirstBitOfSum(x: bv32, y: bv32)
    ensures Sum(Right(x), Right(y)) == Right(Sum(x, y))
    ensures Lowest(Sum(x, y)) == (Lowest(x) != Lowest(y))
  {
  }

  lemma FirstOfSum(a: Bits, b: Bits)
    requires |a| == |b| > 0
    ensures SumBits(a, b) == [a[0] != b[0]] + SumBits(a[1..], b[1..])
  {
  }

  lemma LowBitsParts(x: bv32, k: nat)
    requires k > 0
    ensures LowBits(x, k) == [Lowest(x)] + LowBits(Right(x), k - 1)
    ensures LowBits(x, k)[0] == Lowest(x) && LowBits(x, k)[1..] == LowBits(Right(x), k - 1)
  {
    hide Lowest, Right;
  }

  lemma NoBitsOfSum(x: bv32, y: bv32)
    ensures SumBits(LowBits(x, 0), LowBits(y, 0)) == LowBits(Sum(x, y), 0)
  {
    hide Lowest, Right, Sum;
  }

  lemma {:induction false} SumOfBits(x: bv32, y: bv32, k: nat)
    ensures SumBits(LowBits(x, k), LowBits(y, k)) == LowBits(Sum(x, y), k)
    decreases k
  {
    hide Lowest, Right, Sum, LowBits, SumBits;
    if k > 0 {
      SumOfBits(Right(x), Right(y), k - 1);
      FirstBitOfSum(x, y);
      LowBitsParts(x, k);
      LowBitsParts(y, k);
      LowBitsParts(Sum(x, y), k);
      FirstOfSum(LowBits(x, k), LowBits(y, k));
    } else {
      NoBitsOfSum(x, y);
    }
  }

  lemma SumOfWords(x: bv32, y: bv32)
    ensures Xor(WordOf(x), WordOf(y)) == WordOf(Sum(x, y))
  {
    SumOfBits(x, y, 32);
    hide LowBits, SumBits, Sum;
  }

  // ----- numbers as words -----

  /** One more bit, which a number and a machine word have in common. */
  lemma OneInCommon(n: nat, x: bv32, y: bv32, k: nat)
    requires k > 0 && Right(x) == y && Lowest(x) == (n % 2 == 1) && BitsOf(n / 2, k - 1) == LowBits(y, k - 1)
    ensures BitsOf(n, k) == LowBits(x, k)
  {
    hide Right, Lowest;
  }

  lemma NoBits()
    ensures BitsOf(0, 0) == LowBits(0, 0)
  {
  }

  lemma PolynomialHalf()
    ensures BitsOf(0xEDB8, 16) == LowBits(0xEDB8, 16)
  {
    NoBits();
    hide BitsOf, LowBits;
    OneInCommon(0x1, 0x1, 0x0, 1);
    OneInCommon(0x3, 0x3, 0x1, 2);
    OneInCommon(0x7, 0x7, 0x3, 3);
    OneInCommon(0xE, 0xE, 0x7, 4);
    OneInCommon(0x1D, 0x1D, 0xE, 5);
    OneInCommon(0x3B, 0x3B, 0x1D, 6);
    OneInCommon(0x76, 0x76, 0x3B, 7);
    OneInCommon(0xED, 0xED, 0x76, 8);
    OneInCommon(0x1DB, 0x1DB, 0xED, 9);
    OneInCommon(0x3B6, 0x3B6, 0x1DB, 10);
    OneInCommon(0x76D, 0x76D, 0x3B6, 11);
    OneInCommon(0xEDB, 0xEDB, 0x76D, 12);
    OneInCommon(0x1DB7, 0x1DB7, 0xEDB, 13);
    OneInCommon(0x3B6E, 0x3B6E, 0x1DB7, 14);
    OneInCommon(0x76DC, 0x76DC, 0x3B6E, 15);
    OneInCommon(0xEDB8, 0xEDB8, 0x76DC, 16);
  }

  lemma PolynomialWord()
    ensures BitsOf(0xEDB88320, 32) == WordOf(0xEDB88320)
  {
    PolynomialHalf();
    hide BitsOf, LowBits;
    OneInCommon(0x1DB71, 0x1DB71, 0xEDB8, 17);
    OneInCommon(0x3B6E2, 0x3B6E2, 0x1DB71, 18);
    OneInCommon(0x76DC4, 0x76DC4, 0x3B6E2, 19);
    OneInCommon(0xEDB88, 0xEDB88, 0x76DC4, 20);
    OneInCommon(0x1DB710, 0x1DB710, 0xEDB88, 21);
    OneInCommon(0x3B6E20, 0x3B6E20, 0x1DB710, 22);
    OneInCommon(0x76DC41, 0x76DC41, 0x3B6E20, 23);
    OneInCommon(0xEDB883, 0xEDB883, 0x76DC41, 24);
    OneInCommon(0x1DB7106, 0x1DB7106, 0xEDB883, 25);
    OneInCommon(0x3B6E20C, 0x3B6E20C, 0x1DB7106, 26);
    OneInCommon(0x76DC419, 0x76DC419, 0x3B6E20C, 27);
    OneInCommon(0xEDB8832, 0xEDB8832, 0x76DC419, 28);
    OneInCommon(0x1DB71064, 0x1DB71064, 0xEDB8832, 29);
    OneInCommon(0x3B6E20C8, 0x3B6E20C8, 0x1DB71064, 30);
    OneInCommon(0x76DC4190, 0x76DC4190, 0x3B6E20C8, 31);
    OneInCommon(0xEDB88320, 0xEDB88320, 0x76DC4190, 32);
  }

  lemma OnesHalf()
    ensures BitsOf(0xFFFF, 16) == LowBits(0xFFFF, 16)
  {
    NoBits();
    hide BitsOf, LowBits;
    OneInCommon(0x1, 0x1, 0x0, 1);
    OneInCommon(0x3, 0x3, 0x1, 2);
    OneInCommon(0x7, 0x7, 0x3, 3);
    OneInCommon(0xF, 0xF, 0x7, 4);
    OneInCommon(0x1F, 0x1F, 0xF, 5);
    OneInCommon(0x3F, 0x3F, 0x1F, 6);
    OneInCommon(0x7F, 0x7F, 0x3F, 7);
    OneInCommon(0xFF, 0xFF, 0x7F, 8);
    OneInCommon(0x1FF, 0x1FF, 0xFF, 9);
    OneInCommon(0x3FF, 0x3FF, 0x1FF, 10);
    OneInCommon(0x7FF, 0x7FF, 0x3FF, 11);
    OneInCommon(0xFFF, 0xFFF, 0x7FF, 12);
    OneInCommon(0x1FFF, 0x1FFF, 0xFFF, 13);
    OneInCommon(0x3FFF, 0x3FFF, 0x1FFF, 14);
    OneInCommon(0x7FFF, 0x7FFF, 0x3FFF, 15);
    OneInCommon(0xFFFF, 0xFFFF, 0x7FFF, 16);
  }

  lemma OnesWord()
    ensures BitsOf(0xFFFFFFFF, 32) == WordOf(0xFFFFFFFF)
  {
    OnesHalf();
    hide BitsOf, LowBits;
    OneInCommon(0x1FFFF, 0x1FFFF, 0xFFFF, 17);
    OneInCommon(0x3FFFF, 0x3FFFF, 0x1FFFF, 18);
    OneInCommon(0x7FFFF, 0x7FFFF, 0x3FFFF, 19);
    OneInCommon(0xFFFFF, 0xFFFFF, 0x7FFFF, 20);
    OneInCommon(0x1FFFFF, 0x1FFFFF, 0xFFFFF, 21);
    OneInCommon(0x3FFFFF, 0x3FFFFF, 0x1FFFFF, 22);
    OneInCommon(0x7FFFFF, 0x7FFFFF, 0x3FFFFF, 23);
    OneInCommon(0xFFFFFF, 0xFFFFFF, 0x7FFFFF, 24);
    OneInCommon(0x1FFFFFF, 0x1FFFFFF, 0xFFFFFF, 25);
    OneInCommon(0x3FFFFFF, 0x3FFFFFF, 0x1FFFFFF, 26);
    OneInCommon(0x7FFFFFF, 0x7FFFFFF, 0x3FFFFFF, 27);
    OneInCommon(0xFFFFFFF, 0xFFFFFFF, 0x7FFFFFF, 28);
    OneInCommon(0x1FFFFFFF, 0x1FFFFFFF, 0xFFFFFFF, 29);
    OneInCommon(0x3FFFFFFF, 0x3FFFFFFF, 0x1FFFFFFF, 30);
    OneInCommon(0x7FFFFFFF, 0x7FFFFFFF, 0x3FFFFFFF, 31);
    OneInCommon(0xFFFFFFFF, 0xFFFFFFFF, 0x7FFFFFFF, 32);
  }

  lemma CheckHalf()
    ensures BitsOf(0xCBF4, 16) == LowBits(0xCBF4, 16)
  {
    NoBits();
    hide BitsOf, LowBits;
    OneInCommon(0x1, 0x1, 0x0, 1);
    OneInCommon(0x3, 0x3, 0x1, 2);
    OneInCommon(0x6, 0x6, 0x3, 3);
    OneInCommon(0xC, 0xC, 0x6, 4);
    OneInCommon(0x19, 0x19, 0xC, 5);
    OneInCommon(0x32, 0x32, 0x19, 6);
    OneInCommon(0x65, 0x65, 0x32, 7);
    OneInCommon(0xCB, 0xCB, 0x65, 8);
    OneInCommon(0x197, 0x197, 0xCB, 9);
    OneInCommon(0x32F, 0x32F, 0x197, 10);
    OneInCommon(0x65F, 0x65F, 0x32F, 11);
    OneInCommon(0xCBF, 0xCBF, 0x65F, 12);
    OneInCommon(0x197E, 0x197E, 0xCBF, 13);
    OneInCommon(0x32FD, 0x32FD, 0x197E, 14);
    OneInCommon(0x65FA, 0x65FA, 0x32FD, 15);
    OneInCommon(0xCBF4, 0xCBF4, 0x65FA, 16);
  }

  lemma CheckWord()
    ensures BitsOf(0xCBF43926, 32) == WordOf(0xCBF43926)
  {
    CheckHalf();
    hide BitsOf, LowBits;
    OneInCommon(0x197E8, 0x197E8, 0xCBF4, 17);
    OneInCommon(0x32FD0, 0x32FD0, 0x197E8, 18);
    OneInCommon(0x65FA1, 0x65FA1, 0x32FD0, 19);
    OneInCommon(0xCBF43, 0xCBF43, 0x65FA1, 20);
    OneInCommon(0x197E87, 0x197E87, 0xCBF43, 21);
    OneInCommon(0x32FD0E, 0x32FD0E, 0x197E87, 22);
    OneInCommon(0x65FA1C, 0x65FA1C, 0x32FD0E, 23);
    OneInCommon(0xCBF439, 0xCBF439, 0x65FA1C, 24);
    OneInCommon(0x197E872, 0x197E872, 0xCBF439, 25);
    OneInCommon(0x32FD0E4, 0x32FD0E4, 0x197E872, 26);
    OneInCommon(0x65FA1C9, 0x65FA1C9, 0x32FD0E4, 27);
    OneInCommon(0xCBF4392, 0xCBF4392, 0x65FA1C9, 28);
    OneInCommon(0x197E8724, 0x197E8724, 0xCBF4392, 29);
    OneInCommon(0x32FD0E49, 0x32FD0E49, 0x197E8724, 30);
    OneInCommon(0x65FA1C93, 0x65FA1C93, 0x32FD0E49, 31);
    OneInCommon(0xCBF43926, 0xCBF43926, 0x65FA1C93, 32);
  }

  // ----- the division -----

  function Shifted(x: bv32, bit: bool): bv32 {
    if Lowest(x) != bit then Sum(0xEDB88320, Right(x)) else Right(x)
  }

  /** After the lowest `k` bits of a number. */
  function After(x: bv32, n: nat, k: nat): bv32
    decreases k
  {
    if k == 0 then x else After(Shifted(x, n % 2 == 1), n / 2, k - 1)
  }

  lemma ShiftOfWord(x: bv32, bit: bool)
    ensures Shift(WordOf(x), bit) == WordOf(Shifted(x, bit))
  {
    PolynomialWord();
    HalfOfWord(x);
    SumOfWords(0xEDB88320, Right(x));
    hide WordOf, Half, Xor, Odd, BitsOf, Lowest, Right, Sum;
  }

  lemma {:induction false} DivideOfWord(x: bv32, n: nat, k: nat)
    ensures Divide(WordOf(x), BitsOf(n, k)) == WordOf(After(x, n, k))
    decreases k
  {
    hide WordOf, Shift, Shifted;
    if k > 0 {
      ShiftOfWord(x, n % 2 == 1);
      DivideOfWord(Shifted(x, n % 2 == 1), n / 2, k - 1);
      assert BitsOf(n, k)[0] == (n % 2 == 1) && BitsOf(n, k)[1..] == BitsOf(n / 2, k - 1);
    }
  }

  // ----- the check value -----

  /** The digits from 1 to 9. */
  const DIGITS: Bytes := [49, 50, 51, 52, 53, 54, 55, 56, 57]

  lemma OneBit(x: bv32, n: nat, k: nat, y: bv32)
    requires k > 0 && Shifted(x, n % 2 == 1) == y
    ensures After(x, n, k) == After(y, n / 2, k - 1)
  {
    hide Shifted;
  }

  lemma NoMoreBits(x: bv32)
    ensures After(x, 0, 0) == x
  {
  }

  lemma AfterDigit1()
    ensures After(0xFFFFFFFF, 49, 8) == 0x7C231048
  {
    hide After;
    OneBit(0xFFFFFFFF, 49, 8, 0x7FFFFFFF);
    OneBit(0x7FFFFFFF, 24, 7, 0xD2477CDF);
    OneBit(0xD2477CDF, 12, 6, 0x849B3D4F);
    OneBit(0x849B3D4F, 6, 5, 0xAFF51D87);
    OneBit(0xAFF51D87, 3, 4, 0x57FA8EC3);
    OneBit(0x57FA8EC3, 1, 3, 0x2BFD4761);
    OneBit(0x2BFD4761, 0, 2, 0xF8462090);
    OneBit(0xF8462090, 0, 1, 0x7C231048);
    NoMoreBits(0x7C231048);
  }

  lemma AfterDigit2()
    ensures After(0x7C231048, 50, 8) == 0xB0ACBB32
  {
    hide After;
    OneBit(0x7C231048, 50, 8, 0x3E118824);
    OneBit(0x3E118824, 25, 7, 0xF2B04732);
    OneBit(0xF2B04732, 12, 6, 0x79582399);
    OneBit(0x79582399, 6, 5, 0xD11492EC);
    OneBit(0xD11492EC, 3, 4, 0x8532CA56);
    OneBit(0x8532CA56, 1, 3, 0xAF21E60B);
    OneBit(0xAF21E60B, 0, 2, 0xBA287025);
    OneBit(0xBA287025, 0, 1, 0xB0ACBB32);
    NoMoreBits(0xB0ACBB32);
  }

  lemma AfterDigit3()
    ensures After(0xB0ACBB32, 51, 8) == 0x77B79C2D
  {
    hide After;
    OneBit(0xB0ACBB32, 51, 8, 0xB5EEDEB9);
    OneBit(0xB5EEDEB9, 25, 7, 0x5AF76F5C);
    OneBit(0x5AF76F5C, 12, 6, 0x2D7BB7AE);
    OneBit(0x2D7BB7AE, 6, 5, 0x16BDDBD7);
    OneBit(0x16BDDBD7, 3, 4, 0x0B5EEDEB);
    OneBit(0x0B5EEDEB, 1, 3, 0x05AF76F5);
    OneBit(0x05AF76F5, 0, 2, 0xEF6F385A);
    OneBit(0xEF6F385A, 0, 1, 0x77B79C2D);
    NoMoreBits(0x77B79C2D);
  }

  lemma AfterDigit4()
    ensures After(0x77B79C2D, 52, 8) == 0x641C1F5C
  {
    hide After;
    OneBit(0x77B79C2D, 52, 8, 0xD6634D36);
    OneBit(0xD6634D36, 26, 7, 0x6B31A69B);
    OneBit(0x6B31A69B, 13, 6, 0x3598D34D);
    OneBit(0x3598D34D, 6, 5, 0xF774EA86);
    OneBit(0xF774EA86, 3, 4, 0x9602F663);
    OneBit(0x9602F663, 1, 3, 0x4B017B31);
    OneBit(0x4B017B31, 0, 2, 0xC8383EB8);
    OneBit(0xC8383EB8, 0, 1, 0x641C1F5C);
    NoMoreBits(0x641C1F5C);
  }

  lemma AfterDigit5()
    ensures After(0x641C1F5C, 53, 8) == 0x340AC5E3
  {
    hide After;
    OneBit(0x641C1F5C, 53, 8, 0xDFB68C8E);
    OneBit(0xDFB68C8E, 26, 7, 0x6FDB4647);
    OneBit(0x6FDB4647, 13, 6, 0x37EDA323);
    OneBit(0x37EDA323, 6, 5, 0xF64E52B1);
    OneBit(0xF64E52B1, 3, 4, 0x7B272958);
    OneBit(0x7B272958, 1, 3, 0xD02B178C);
    OneBit(0xD02B178C, 0, 2, 0x68158BC6);
    OneBit(0x68158BC6, 0, 1, 0x340AC5E3);
    NoMoreBits(0x340AC5E3);
  }

  lemma AfterDigit6()
    ensures After(0x340AC5E3, 54, 8) == 0xF68D2C9E
  {
    hide After;
    OneBit(0x340AC5E3, 54, 8, 0xF7BDE1D1);
    OneBit(0xF7BDE1D1, 27, 7, 0x7BDEF0E8);
    OneBit(0x7BDEF0E8, 13, 6, 0xD057FB54);
    OneBit(0xD057FB54, 6, 5, 0x682BFDAA);
    OneBit(0x682BFDAA, 3, 4, 0xD9AD7DF5);
    OneBit(0xD9AD7DF5, 1, 3, 0x6CD6BEFA);
    OneBit(0x6CD6BEFA, 0, 2, 0x366B5F7D);
    OneBit(0x366B5F7D, 0, 1, 0xF68D2C9E);
    NoMoreBits(0xF68D2C9E);
  }

  lemma AfterDigit7()
    ensures After(0xF68D2C9E, 55, 8) == 0xAFFC9660
  {
    hide After;
    OneBit(0xF68D2C9E, 55, 8, 0x96FE156F);
    OneBit(0x96FE156F, 27, 7, 0x4B7F0AB7);
    OneBit(0x4B7F0AB7, 13, 6, 0x25BF855B);
    OneBit(0x25BF855B, 6, 5, 0xFF67418D);
    OneBit(0xFF67418D, 3, 4, 0x7FB3A0C6);
    OneBit(0x7FB3A0C6, 1, 3, 0xD2615343);
    OneBit(0xD2615343, 0, 2, 0x84882A81);
    OneBit(0x84882A81, 0, 1, 0xAFFC9660);
    NoMoreBits(0xAFFC9660);
  }

  lemma AfterDigit8()
    ensures After(0xAFFC9660, 56, 8) == 0x651F2550
  {
    hide After;
    OneBit(0xAFFC9660, 56, 8, 0x57FE4B30);
    OneBit(0x57FE4B30, 28, 7, 0x2BFF2598);
    OneBit(0x2BFF2598, 14, 6, 0x15FF92CC);
    OneBit(0x15FF92CC, 7, 5, 0xE7474A46);
    OneBit(0xE7474A46, 3, 4, 0x9E1B2603);
    OneBit(0x9E1B2603, 1, 3, 0x4F0D9301);
    OneBit(0x4F0D9301, 0, 2, 0xCA3E4AA0);
    OneBit(0xCA3E4AA0, 0, 1, 0x651F2550);
    NoMoreBits(0x651F2550);
  }

  lemma AfterDigit9()
    ensures After(0x651F2550, 57, 8) == 0x340BC6D9
  {
    hide After;
    OneBit(0x651F2550, 57, 8, 0xDF371188);
    OneBit(0xDF371188, 28, 7, 0x6F9B88C4);
    OneBit(0x6F9B88C4, 14, 6, 0x37CDC462);
    OneBit(0x37CDC462, 7, 5, 0xF65E6111);
    OneBit(0xF65E6111, 3, 4, 0x7B2F3088);
    OneBit(0x7B2F3088, 1, 3, 0xD02F1B64);
    OneBit(0xD02F1B64, 0, 2, 0x68178DB2);
    OneBit(0x68178DB2, 0, 1, 0x340BC6D9);
    NoMoreBits(0x340BC6D9);
  }

  lemma OneMoreOctet(x: bv32, octet: byte, data: Bytes)
    ensures Divide(WordOf(x), MessageBits([octet] + data)) == Divide(WordOf(After(x, octet as nat, 8)), MessageBits(data))
  {
    hide WordOf, BitsOf, After;
    DivideOfWord(x, octet as nat, 8);
    DivideConcat(WordOf(x), BitsOf(octet as nat, 8), MessageBits(data));
    assert ([octet] + data)[1..] == data;
  }

  lemma From9()
    ensures Divide(WordOf(0x651F2550), MessageBits(DIGITS[8..])) == WordOf(0x340BC6D9)
  {
    NothingMore(WordOf(0x340BC6D9));
    AfterDigit9();
    hide WordOf, Divide, MessageBits, After;
    assert DIGITS[8..] == [57] + DIGITS[9..];
    assert DIGITS[9..] == [];
    OneMoreOctet(0x651F2550, 57, DIGITS[9..]);
  }

  lemma From8()
    ensures Divide(WordOf(0xAFFC9660), MessageBits(DIGITS[7..])) == WordOf(0x340BC6D9)
  {
    From9();
    AfterDigit8();
    hide WordOf, Divide, MessageBits, After;
    assert DIGITS[7..] == [56] + DIGITS[8..];
    OneMoreOctet(0xAFFC9660, 56, DIGITS[8..]);
  }

  lemma From7()
    ensures Divide(WordOf(0xF68D2C9E), MessageBits(DIGITS[6..])) == WordOf(0x340BC6D9)
  {
    From8();
    AfterDigit7();
    hide WordOf, Divide, MessageBits, After;
    assert DIGITS[6..] == [55] + DIGITS[7..];
    OneMoreOctet(0xF68D2C9E, 55, DIGITS[7..]);
  }

  lemma From6()
    ensures Divide(WordOf(0x340AC5E3), MessageBits(DIGITS[5..])) == WordOf(0x340BC6D9)
  {
    From7();
    AfterDigit6();
    hide WordOf, Divide, MessageBits, After;
    assert DIGITS[5..] == [54] + DIGITS[6..];
    OneMoreOctet(0x340AC5E3, 54, DIGITS[6..]);
  }

  lemma From5()
    ensures Divide(WordOf(0x641C1F5C), MessageBits(DIGITS[4..])) == WordOf(0x340BC6D9)
  {
    From6();
    AfterDigit5();
    hide WordOf, Divide, MessageBits, After;
    assert DIGITS[4..] == [53] + DIGITS[5..];
    OneMoreOctet(0x641C1F5C, 53, DIGITS[5..]);
  }

  lemma From4()
    ensures Divide(WordOf(0x77B79C2D), MessageBits(DIGITS[3..])) == WordOf(0x340BC6D9)
  {
    From5();
    AfterDigit4();
    hide WordOf, Divide, MessageBits, After;
    assert DIGITS[3..] == [52] + DIGITS[4..];
    OneMoreOctet(0x77B79C2D, 52, DIGITS[4..]);
  }

  lemma From3()
    ensures Divide(WordOf(0xB0ACBB32), MessageBits(DIGITS[2..])) == WordOf(0x340BC6D9)
  {
    From4();
    AfterDigit3();
    hide WordOf, Divide, MessageBits, After;
    assert DIGITS[2..] == [51] + DIGITS[3..];
    OneMoreOctet(0xB0ACBB32, 51, DIGITS[3..]);
  }

  lemma From2()
    ensures Divide(WordOf(0x7C231048), MessageBits(DIGITS[1..])) == WordOf(0x340BC6D9)
  {
    From3();
    AfterDigit2();
    hide WordOf, Divide, MessageBits, After;
    assert DIGITS[1..] == [50] + DIGITS[2..];
    OneMoreOctet(0x7C231048, 50, DIGITS[2..]);
  }

  lemma From1()
    ensures Divide(WordOf(0xFFFFFFFF), MessageBits(DIGITS[0..])) == WordOf(0x340BC6D9)
  {
    From2();
    AfterDigit1();
    hide WordOf, Divide, MessageBits, After;
    assert DIGITS[0..] == [49] + DIGITS[1..];
    OneMoreOctet(0xFFFFFFFF, 49, DIGITS[1..]);
  }

  lemma NothingMore(w: Word)
    ensures Divide(w, MessageBits([])) == w
  {
  }

  /** The check value of the nine digits is 0xCBF43926. */
  lemma CheckOfDigits()
    ensures Crc(DIGITS) == BitsOf(0xCBF43926, 32)
  {
    OnesWord();
    CheckWord();
    From1();
    assert DIGITS[0..] == DIGITS;
    SumOfWords(0x340BC6D9, 0xFFFFFFFF);
    hide WordOf, Divide, MessageBits, BitsOf, Xor, DIGITS;
    assert 0x340BC6D9 ^ 0xFFFFFFFF == 0xCBF43926 as bv32;
  }
}
