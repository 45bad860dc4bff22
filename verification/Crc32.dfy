/**
 * CRC-32 as section 8 of RFC 1952 uses it. The reference divides the message bit by bit, least significant
 * bit of each octet first; the program looks eight bits up in a table at a time. A 32-bit word is modelled
 * as its bits, lowest first.
 */
module Crc32 {
  import opened Common

  type Bits = seq<bool>

  /** The lowest `k` bits of a number, lowest first. */
  function BitsOf(n: nat, k: nat): (b: Bits)
    ensures |b| == k
    decreases k
  {
    if k == 0 then [] else [n % 2 == 1] + BitsOf(n / 2, k - 1)
  }

  function Power(k: nat): nat {
    if k == 0 then 1 else 2 * Power(k - 1)
  }

  function NumberOf(b: Bits): (n: nat)
    ensures n < Power(|b|)
  {
    if b == [] then 0 else (if b[0] then 1 else 0) + 2 * NumberOf(b[1..])
  }

  function Zeros(k: nat): (b: Bits)
    ensures |b| == k && forall i :: 0 <= i < k ==> !b[i]
  {
    if k == 0 then [] else [false] + Zeros(k - 1)
  }

  type Word = b: Bits | |b| == 32 witness Zeros(32)

  const POLYNOMIAL: Word := BitsOf(0xEDB88320, 32)
  const ONES: Word := BitsOf(0xFFFFFFFF, 32)

  function SumBits(a: Bits, b: Bits): (c: Bits)
    requires |a| == |b|
    ensures |c| == |a| && forall i :: 0 <= i < |a| ==> c[i] == (a[i] != b[i])
  {
    if a == [] then [] else [a[0] != b[0]] + SumBits(a[1..], b[1..])
  }

  function Xor(a: Word, b: Word): (c: Word)
    ensures forall i :: 0 <= i < 32 ==> c[i] == (a[i] != b[i])
  {
    SumBits(a, b)
  }

  /** Shift right by one bit. */
  function Half(a: Word): Word {
    a[1..] + [false]
  }

  predicate Odd(a: Word) {
    a[0]
  }

  /** The word that has an octet's bits lowest. */
  function Octet(b: byte): Word {
    BitsOf(b as nat, 8) + Zeros(24)
  }

  // ----- the reference -----

  /** Divide one more message bit into the register. */
  function Shift(register: Word, bit: bool): Word {
    if Odd(register) != bit then Xor(POLYNOMIAL, Half(register)) else Half(register)
  }

  /** Divide message bits, in order. */
  function Divide(register: Word, bits: Bits): Word
    decreases |bits|
  {
    if bits == [] then register else Divide(Shift(register, bits[0]), bits[1..])
  }

  /** The bits of a message: octet by octet, lowest bit first. */
  function MessageBits(data: Bytes): Bits {
    if data == [] then [] else BitsOf(data[0] as nat, 8) + MessageBits(data[1..])
  }

  /** The check value of a message: start from all ones, divide every bit, complement. */
  function Crc(data: Bytes): Word {
    Xor(Divide(ONES, MessageBits(data)), ONES)
  }

  // ----- the program -----

  function Step(value: Word): Word {
    if Odd(value) then Xor(POLYNOMIAL, Half(value)) else Half(value)
  }

  function Steps(value: Word, n: nat): Word
    decreases n
  {
    if n == 0 then value else Steps(Step(value), n - 1)
  }

  function LowOctet(w: Word): (i: nat)
    ensures i < 256
  {
    NumberOf(w[..8])
  }

  /** Shift right by eight bits. */
  function DropOctet(w: Word): Word {
    w[8..] + Zeros(8)
  }

  /** One entry of the table: eight steps from its own index. */
  method TableEntry(index: int) returns (value: Word)
    requires 0 <= index < 256
    ensures value == Steps(BitsOf(index, 32), 8)
  {
    hide Step, Half, Xor, Odd, BitsOf;
    value := BitsOf(index, 32);
    var bit := 0;
    while bit < 8
      invariant 0 <= bit <= 8
      invariant Steps(value, 8 - bit) == Steps(BitsOf(index, 32), 8)
    {
      StepIs(value);
      value := if Odd(value) then Xor(POLYNOMIAL, Half(value)) else Half(value);
      bit := bit + 1;
    }
  }

  method BuildTable() returns (table: array<Word>)
    ensures fresh(table) && table.Length == 256
    ensures forall i :: 0 <= i < 256 ==> table[i] == Steps(BitsOf(i, 32), 8)
  {
    hide Steps, BitsOf;
    table := new Word[256](_ => ONES);
    var index := 0;
    while index < 256
      invariant 0 <= index <= 256
      invariant forall i :: 0 <= i < index ==> table[i] == Steps(BitsOf(i, 32), 8)
    {
      var value := TableEntry(index);
      table[index] := value;
      index := index + 1;
    }
  }

  lemma StepIs(value: Word)
    ensures Step(value) == if Odd(value) then Xor(POLYNOMIAL, Half(value)) else Half(value)
  {
  }

  /** The table loop computes the reference's check value, for messages of any length. */
  method Compute(table: array<Word>, data: Bytes) returns (crc: Word)
    requires table.Length == 256
    requires forall i :: 0 <= i < 256 ==> table[i] == Steps(BitsOf(i, 32), 8)
    ensures crc == Crc(data)
  {
    hide Steps, BitsOf, Octet, Xor, LowOctet, DropOctet, Shift;
    crc := ONES;
    var k := 0;
    assert data[0..] == data;
    while k < |data|
      invariant 0 <= k <= |data|
      invariant Divide(crc, MessageBits(data[k..])) == Divide(ONES, MessageBits(data))
    {
      TableStep(crc, data[k]);
      DivideConcat(crc, BitsOf(data[k] as nat, 8), MessageBits(data[k + 1..]));
      assert data[k..][0] == data[k] && data[k..][1..] == data[k + 1..];
      crc := Xor(table[LowOctet(Xor(crc, Octet(data[k])))], DropOctet(crc));
      k := k + 1;
    }
    crc := Xor(crc, ONES);
  }

  // ----- numbers and bits -----

  lemma {:induction false} BitsOfZero(k: nat)
    ensures BitsOf(0, k) == Zeros(k)
    decreases k
  {
    if k > 0 {
      BitsOfZero(k - 1);
    }
  }

  lemma NumberParts(b: Bits)
    requires b != []
    ensures (NumberOf(b) % 2 == 1) == b[0] && NumberOf(b) / 2 == NumberOf(b[1..])
  {
  }

  /** Writing a word's number in bits again gives the word, padded with zeros. */
  lemma {:induction false} BitsOfNumber(b: Bits, k: nat)
    requires |b| <= k
    ensures BitsOf(NumberOf(b), k) == b + Zeros(k - |b|)
    decreases k
  {
    hide NumberOf;
    if b == [] {
      assert NumberOf([]) == 0 by { NumberOfNothing(); }
      BitsOfZero(k);
    } else {
      NumberParts(b);
      BitsOfNumber(b[1..], k - 1);
      assert b + Zeros(k - |b|) == [b[0]] + (b[1..] + Zeros(k - |b|));
    }
  }

  lemma NumberOfNothing()
    ensures NumberOf([]) == 0
  {
  }

  // ----- why the table agrees with the division -----

  lemma {:induction false} DivideConcat(register: Word, a: Bits, b: Bits)
    ensures Divide(register, a + b) == Divide(Divide(register, a), b)
    decreases |a|
  {
    hide Shift;
    if a == [] {
      assert a + b == b;
    } else {
      assert (a + b)[1..] == a[1..] + b;
      DivideConcat(Shift(register, a[0]), a[1..], b);
    }
  }

  lemma SameWord(a: Word, b: Word)
    requires forall i :: 0 <= i < 32 ==> a[i] == b[i]
    ensures a == b
  {
  }

  /** Feeding a bit and dropping it from what is left is one step on their sum. */
  lemma FeedIsStep(register: Word, w: Word)
    ensures Xor(Shift(register, Odd(w)), Half(w)) == Step(Xor(register, w))
  {
    var left, right := Xor(Shift(register, Odd(w)), Half(w)), Step(Xor(register, w));
    assert Odd(Xor(register, w)) == (Odd(register) != Odd(w));
    forall i | 0 <= i < 32 ensures left[i] == right[i] {
      if i < 31 {
        assert Half(Xor(register, w))[i] == (register[i + 1] != w[i + 1]);
        assert Half(register)[i] == register[i + 1] && Half(w)[i] == w[i + 1];
      }
    }
    SameWord(left, right);
  }

  /** A word whose lowest bits are `bits` and whose others are zero. */
  function Padded(bits: Bits): Word
    requires |bits| <= 32
  {
    bits + Zeros(32 - |bits|)
  }

  lemma {:induction false} DivideIsSteps(register: Word, bits: Bits)
    requires |bits| <= 32
    ensures Divide(register, bits) == Steps(Xor(register, Padded(bits)), |bits|)
    decreases |bits|
  {
    hide Shift, Step, Xor;
    var w := Padded(bits);
    if bits != [] {
      FeedIsStep(register, w);
      assert Half(w) == Padded(bits[1..]);
      DivideIsSteps(Shift(register, bits[0]), bits[1..]);
    } else {
      assert Xor(register, w) == register by { SumWithZeros(register, w); }
    }
  }

  lemma SumWithZeros(register: Word, w: Word)
    requires forall i :: 0 <= i < 32 ==> !w[i]
    ensures Xor(register, w) == register
  {
    SameWord(Xor(register, w), register);
  }

  lemma StepIsLinear(a: Word, h: Word)
    requires !Odd(h)
    ensures Step(Xor(a, h)) == Xor(Step(a), Half(h))
  {
    var left, right := Step(Xor(a, h)), Xor(Step(a), Half(h));
    forall i | 0 <= i < 32 ensures left[i] == right[i] {
      if i < 31 {
        assert Half(Xor(a, h))[i] == (a[i + 1] != h[i + 1]);
        assert Half(a)[i] == a[i + 1] && Half(h)[i] == h[i + 1];
      }
    }
    SameWord(left, right);
  }

  /** Shift right by `n` bits. */
  function Dropped(h: Word, n: nat): Word
    requires n <= 32
  {
    h[n..] + Zeros(n)
  }

  lemma {:induction false} StepsAreLinear(a: Word, h: Word, n: nat)
    requires n <= 32 && forall i :: 0 <= i < n ==> !h[i]
    ensures Steps(Xor(a, h), n) == Xor(Steps(a, n), Dropped(h, n))
    decreases n
  {
    hide Step, Xor;
    if n > 0 {
      StepIsLinear(a, h);
      StepsAreLinear(Step(a), Half(h), n - 1);
      assert Dropped(Half(h), n - 1) == Dropped(h, n);
    } else {
      assert Dropped(h, 0) == h;
    }
  }

  /** The low octet of a word, and the word without it. */
  function Low(w: Word): Word {
    w[..8] + Zeros(24)
  }

  function Cleared(w: Word): Word {
    Zeros(8) + w[8..]
  }

  lemma TwoParts(w: Word)
    ensures Xor(Low(w), Cleared(w)) == w
    ensures Dropped(Cleared(w), 8) == DropOctet(w)
    ensures BitsOf(LowOctet(w), 32) == Low(w)
  {
    SameWord(Xor(Low(w), Cleared(w)), w);
    BitsOfNumber(w[..8], 32);
  }

  lemma SumDropsOctet(crc: Word, b: byte)
    ensures DropOctet(Xor(crc, Octet(b))) == DropOctet(crc)
  {
    SameWord(DropOctet(Xor(crc, Octet(b))), DropOctet(crc));
  }

  /** One table look-up divides eight bits. */
  lemma TableStep(crc: Word, b: byte)
    ensures Xor(Steps(BitsOf(LowOctet(Xor(crc, Octet(b))), 32), 8), DropOctet(crc)) ==
            Divide(crc, BitsOf(b as nat, 8))
  {
    hide Steps, Divide, Xor, BitsOf, LowOctet, Cleared, DropOctet, Dropped, Low;
    var bits := BitsOf(b as nat, 8);
    assert Padded(bits) == Octet(b);
    var w := Xor(crc, Octet(b));
    DivideIsSteps(crc, bits);
    TwoParts(w);
    assert forall i :: 0 <= i < 8 ==> !Cleared(w)[i] by { ClearedIsZero(w); }
    StepsAreLinear(Low(w), Cleared(w), 8);
    SumDropsOctet(crc, b);
  }

  lemma ClearedIsZero(w: Word)
    ensures forall i :: 0 <= i < 8 ==> !Cleared(w)[i]
  {
  }
}
