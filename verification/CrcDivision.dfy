/** The CRC as the remainder of a division of polynomials: section 6.2.2 of MODBUS over Serial Line V1.02
    for `crc16Modbus` (`modbus_core.cpp`). A polynomial over two elements is the list of its
    coefficients, highest power first. */
module CrcDivision {
  import opened Crc

  // ---------------------------------------------------------------- polynomials

  /** x^16 + x^15 + x^2 + 1. */
  const Generator: Bits :=
    [true, true, false, false, false, false, false, false, false, false, false, false, false, false, true, false, true]

  function Zeros(n: nat): (bits: Bits)
    ensures |bits| == n && forall i :: 0 <= i < n ==> !bits[i]
  {
    seq(n, i => false)
  }

  /** The coefficient at a place, clear outside. */
  function At(p: Bits, i: int): bool {
    0 <= i < |p| && p[i]
  }

  /** A coefficient of the product of a polynomial and the generator, the sum of four of its multiples. */
  function ProductAt(q: Bits, i: int): bool {
    (At(q, i) != At(q, i - 1)) != (At(q, i - 14) != At(q, i - 16))
  }

  /** `d` is the product of `q` and the generator, plus `r`. */
  ghost predicate Divides(d: Bits, q: Bits, r: Bits) {
    |d| == |q| + |r| && forall i :: 0 <= i < |d| ==> d[i] == (ProductAt(q, i) != At(r, i - |q|))
  }

  /** One line of a long division: the generator is taken off when the leading coefficient is set. */
  function Reduced(d: Bits): (rest: Bits)
    requires |d| > 16
    ensures |rest| == |d| - 1
  {
    if d[0] then (Flips(d[..17], Generator) + d[17..])[1..] else d[1..]
  }

  function Quotient(d: Bits): (q: Bits)
    requires |d| >= 16
    ensures |q| == |d| - 16
    decreases |d|
  {
    if |d| == 16 then [] else [d[0]] + Quotient(Reduced(d))
  }

  function Remainder(d: Bits): (r: Bits)
    requires |d| >= 16
    ensures |r| == 16
    decreases |d|
  {
    if |d| == 16 then d else Remainder(Reduced(d))
  }

  // ---------------------------------------------------------------- the division is exact

  lemma ReducedAt(d: Bits, i: nat)
    requires |d| > 16 && i < |d| - 1
    ensures Reduced(d)[i] == (d[i + 1] != (d[0] && i < 16 && Generator[i + 1]))
  {
  }

  lemma GeneratorAt(i: nat)
    requires i <= 16
    ensures Generator[i] == (i == 0 || i == 1 || i == 14 || i == 16)
  {
  }

  lemma TailAt(q: Bits, rest: Bits, i: int)
    requires q != [] && rest == q[1..]
    ensures At(q, i + 1) == (At(rest, i) || (i == -1 && q[0]))
  {
  }

  /** The leading coefficient of the quotient adds the generator to the product of the others. */
  lemma ProductLine(q: Bits, rest: Bits, i: nat)
    requires q != [] && rest == q[1..]
    ensures ProductAt(q, i + 1) == (ProductAt(rest, i) != (q[0] && (i == 0 || i == 13 || i == 15)))
    ensures ProductAt(q, 0) == q[0]
  {
    hide At;
    TailAt(q, rest, i);
    TailAt(q, rest, i - 1);
    TailAt(q, rest, i - 14);
    TailAt(q, rest, i - 16);
    NothingBefore(q, rest, i);
  }

  lemma NothingBefore(q: Bits, rest: Bits, i: nat)
    requires q != []
    ensures i < 1 ==> !At(rest, i - 1)
    ensures i < 14 ==> !At(rest, i - 14)
    ensures i < 16 ==> !At(rest, i - 16)
    ensures At(q, 0) == q[0] && !At(q, -1) && !At(q, -14) && !At(q, -16)
  {
  }

  lemma BitOfLine(d: Bits, q: Bits, rest: Bits, r: Bits, i: nat)
    requires |d| > 16 && |q| == |d| - 16 && |r| == 16 && rest == q[1..] && i < |d| - 1 && q[0] == d[0]
    ensures d[i + 1] == (ProductAt(q, i + 1) != At(r, i + 1 - |q|)) <==>
      Reduced(d)[i] == (ProductAt(rest, i) != At(r, i - |rest|))
  {
    hide ProductAt, At, Reduced;
    ProductLine(q, rest, i);
    ReducedAt(d, i);
    if i < 16 {
      GeneratorAt(i + 1);
    }
  }

  /** One line of the division. */
  lemma LineIsExact(d: Bits, q: Bits, rest: Bits, r: Bits)
    requires |d| > 16 && |q| == |d| - 16 && |r| == 16 && rest == q[1..]
    ensures Divides(d, q, r) <==> q[0] == d[0] && Divides(Reduced(d), rest, r)
  {
    hide ProductAt, Reduced;
    ProductLine(q, rest, 0);
    if Divides(d, q, r) {
      assert d[0] == (ProductAt(q, 0) != At(r, 0 - |q|));
      forall i | 0 <= i < |d| - 1 ensures Reduced(d)[i] == (ProductAt(rest, i) != At(r, i - |rest|)) {
        assert d[i + 1] == (ProductAt(q, i + 1) != At(r, i + 1 - |q|));
        BitOfLine(d, q, rest, r, i);
      }
    }
    if q[0] == d[0] && Divides(Reduced(d), rest, r) {
      forall i | 0 <= i < |d| ensures d[i] == (ProductAt(q, i) != At(r, i - |q|)) {
        if i > 0 {
          assert Reduced(d)[i - 1] == (ProductAt(rest, i - 1) != At(r, i - 1 - |rest|));
          BitOfLine(d, q, rest, r, i - 1);
        }
      }
    }
  }

  /** The quotient times the generator plus the remainder is the dividend, and of no other quotient and
      remainder is this so. */
  lemma {:induction false} DivisionIsExact(d: Bits, q: Bits, r: Bits)
    requires |d| >= 16 && |q| == |d| - 16 && |r| == 16
    ensures Divides(d, q, r) <==> q == Quotient(d) && r == Remainder(d)
    decreases |d|
  {
    hide Reduced, Divides;
    if |d| == 16 {
      NoQuotient(d, q, r);
    } else {
      var rest := q[1..];
      DivisionIsExact(Reduced(d), rest, r);
      LineIsExact(d, q, rest, r);
      assert q == [q[0]] + rest;
    }
  }

  lemma NoQuotient(d: Bits, q: Bits, r: Bits)
    requires q == [] && |r| == 16 == |d|
    ensures Divides(d, q, r) <==> r == d
  {
    assert forall i :: 0 <= i < 16 ==> !ProductAt(q, i) && At(r, i - |q|) == r[i];
    if Divides(d, q, r) {
      assert forall i :: 0 <= i < 16 ==> d[i] == r[i];
    }
  }

  // ---------------------------------------------------------------- the register as a polynomial

  /** The coefficients that a register holds, of x^15 first: its lowest bit is the first. */
  function Coefficients(c: Word): (bits: Bits)
    ensures |bits| == 16
  {
    LowBits(c, 16)
  }

  lemma LowBitsTurn(w: Word, k: nat)
    requires k > 0
    ensures LowBits(w, k) == [LowBit(w)] + LowBits(Half(w), k - 1)
  {
  }

  lemma {:induction false} LowBitsOfXor(a: Word, b: Word, k: nat)
    ensures LowBits(Xor(a, b), k) == Flips(LowBits(a, k), LowBits(b, k))
    decreases k
  {
    hide Xor, Half, LowBits;
    if k == 0 {
      NoLowBits(Xor(a, b), a, b);
    } else {
      LowBitsTurn(a, k);
      LowBitsTurn(b, k);
      LowBitsTurn(Xor(a, b), k);
      LowBitOfXor(a, b);
      HalfOfXor(a, b);
      LowBitsOfXor(Half(a), Half(b), k - 1);
    }
  }

  lemma NoLowBits(a: Word, b: Word, c: Word)
    ensures LowBits(a, 0) == LowBits(b, 0) == LowBits(c, 0) == []
  {
  }

  lemma HalfOfXor(a: Word, b: Word)
    ensures Half(Xor(a, b)) == Xor(Half(a), Half(b))
  {
    hide Xor;
    ShiftOfXor(a, b);
  }

  lemma {:induction false} LowBitsOneMore(w: Word, k: nat)
    ensures LowBits(w, k + 1) == LowBits(w, k) + [LowBit(Halve(w, k))]
    decreases k
  {
    hide Half, LowBits, LowBit, Halve;
    LowBitsTurn(w, k + 1);
    if k == 0 {
      HalveNone(w);
      NoLowBits(w, w, Half(w));
    } else {
      LowBitsOneMore(Half(w), k - 1);
      LowBitsTurn(w, k);
      HalveTurn(w, k);
    }
  }

  lemma HalvedAway(c: Word)
    ensures Halve(c, 16) == 0
  {
    hide Halve;
    HalveAgain(c, 8, 8);
    HalveEight(c);
    HalveEight(c >> 8);
    assert (c >> 8) >> 8 == 0;
  }

  /** Nothing comes in at the top when a register is halved. */
  lemma TopOfHalf(w: Word)
    ensures LowBits(Half(w), 16) == LowBits(Half(w), 15) + [false]
  {
    hide LowBits, Halve;
    LowBitsOneMore(Half(w), 15);
    HalveTurn(w, 16);
    HalvedAway(w);
    ZeroStep();
  }

  /** The constant of the source is the generator without its leading term. */
  lemma PolynomialIsGenerator()
    ensures Coefficients(0xA001) == Generator[1..]
  {
    hide LowBits, Half;
    HalvesOfPolynomial();
    LowBitsTurn(0xA001, 16);
    LowBitsTurn(0x5000, 15);
    LowBitsTurn(0x2800, 14);
    LowBitsTurn(0x1400, 13);
    LowBitsTurn(0x0A00, 12);
    LowBitsTurn(0x0500, 11);
    LowBitsTurn(0x0280, 10);
    LowBitsTurn(0x0140, 9);
    LowBitsTurn(0x00A0, 8);
    LowBitsTurn(0x0050, 7);
    LowBitsTurn(0x0028, 6);
    LowBitsTurn(0x0014, 5);
    LowBitsTurn(0x000A, 4);
    LowBitsTurn(0x0005, 3);
    LowBitsTurn(0x0002, 2);
    LowBitsTurn(0x0001, 1);
    NoLowBits(0, 0, 0);
  }

  lemma HalvesOfPolynomial()
    ensures Half(0xA001) == 0x5000 && Half(0x5000) == 0x2800 && Half(0x2800) == 0x1400 && Half(0x1400) == 0x0A00
    ensures Half(0x0A00) == 0x0500 && Half(0x0500) == 0x0280 && Half(0x0280) == 0x0140 && Half(0x0140) == 0x00A0
    ensures Half(0x00A0) == 0x0050 && Half(0x0050) == 0x0028 && Half(0x0028) == 0x0014 && Half(0x0014) == 0x000A
    ensures Half(0x000A) == 0x0005 && Half(0x0005) == 0x0002 && Half(0x0002) == 0x0001 && Half(0x0001) == 0
  {
  }

  /** A clock of the register multiplies by x and takes the generator off when x^16 comes up. */
  lemma StepAt(c: Word, i: nat)
    requires i < 16
    ensures Coefficients(BitStep(c))[i] ==
      ((i < 15 && Coefficients(c)[i + 1]) != (Coefficients(c)[0] && Generator[i + 1]))
  {
    hide BitStep, Xor, LowBits, Half;
    StepIs(c);
    HalfIs(c);
    TopOfHalf(c);
    LowBitsTurn(c, 16);
    LowBitsOfXor(Half(c), 0xA001, 16);
    PolynomialIsGenerator();
  }

  lemma HalfIs(c: Word)
    ensures c >> 1 == Half(c) && (c & 1 != 0) == LowBit(c)
  {
  }

  lemma InputAt(c: Word, b: bool, i: nat)
    requires i < 16
    ensures Coefficients(Xor(c, BitWord(b)))[i] == (Coefficients(c)[i] != (i == 0 && b))
  {
    hide Xor, LowBits, Half;
    LowBitsOfXor(c, BitWord(b), 16);
    LowBitsTurn(BitWord(b), 16);
    HalfOfBit(b);
    LowBitsOfZero(15);
  }

  lemma HalfOfBit(b: bool)
    ensures Half(BitWord(b)) == 0 && LowBit(BitWord(b)) == b
  {
  }

  /** The dividend that a register and the bits still to come stand for. */
  function Dividend(c: Word, bits: Bits): (d: Bits)
    ensures |d| == |bits| + 16
  {
    Flips(bits + Zeros(16), Coefficients(c) + Zeros(|bits|))
  }

  lemma DividendAt(c: Word, bits: Bits, i: nat)
    requires i < |bits| + 16
    ensures Dividend(c, bits)[i] == ((i < |bits| && bits[i]) != (i < 16 && Coefficients(c)[i]))
  {
    hide Zeros, Coefficients;
  }

  lemma ClockIsLine(c: Word, bits: Bits)
    requires bits != []
    ensures Reduced(Dividend(c, bits)) == Dividend(BitStep(Xor(c, BitWord(bits[0]))), bits[1..])
  {
    hide *;
    var d := Dividend(c, bits);
    var x := Xor(c, BitWord(bits[0]));
    forall i | 0 <= i < |d| - 1
      ensures Reduced(d)[i] == Dividend(BitStep(x), bits[1..])[i]
    {
      ClockAt(c, bits, x, i);
    }
  }

  lemma ClockAt(c: Word, bits: Bits, x: Word, i: nat)
    requires bits != [] && i < |bits| + 15 && x == Xor(c, BitWord(bits[0]))
    ensures Reduced(Dividend(c, bits))[i] == Dividend(BitStep(x), bits[1..])[i]
  {
    hide *;
    ReducedAt(Dividend(c, bits), i);
    DividendAt(c, bits, 0);
    DividendAt(c, bits, i + 1);
    DividendAt(BitStep(x), bits[1..], i);
    InputAt(c, bits[0], 0);
    if i < 16 {
      StepAt(x, i);
      if i < 15 {
        InputAt(c, bits[0], i + 1);
      }
    }
  }

  lemma {:induction false} SerialIsRemainder(c: Word, bits: Bits)
    ensures Coefficients(Serial(c, bits)) == Remainder(Dividend(c, bits))
    decreases |bits|
  {
    hide BitStep, Xor, BitWord, Dividend, Reduced, Coefficients;
    if bits == [] {
      NothingToCome(c);
    } else {
      ClockIsLine(c, bits);
      SerialIsRemainder(BitStep(Xor(c, BitWord(bits[0]))), bits[1..]);
    }
  }

  lemma NothingToCome(c: Word)
    ensures Dividend(c, []) == Coefficients(c)
  {
    hide Coefficients;
    assert Coefficients(c) + Zeros(0) == Coefficients(c);
  }

  // ---------------------------------------------------------------- main results

  /** The bits with the first sixteen complemented. */
  function Preset(bits: Bits): (d: Bits)
    ensures |d| == |bits|
    ensures forall i :: 0 <= i < |bits| ==> d[i] == (bits[i] != (i < 16))
  {
    seq(|bits|, i requires 0 <= i < |bits| => bits[i] != (i < 16))
  }

  /** The start value of the source stands for sixteen set coefficients. */
  lemma StartIsOnes()
    ensures forall i :: 0 <= i < 16 ==> Coefficients(0xFFFF)[i]
  {
    hide LowBits, Half, LowBit;
    HalvesOfOnes();
    LowBitsTurn(0xFFFF, 16);
    LowBitsTurn(0x7FFF, 15);
    LowBitsTurn(0x3FFF, 14);
    LowBitsTurn(0x1FFF, 13);
    LowBitsTurn(0x0FFF, 12);
    LowBitsTurn(0x07FF, 11);
    LowBitsTurn(0x03FF, 10);
    LowBitsTurn(0x01FF, 9);
    LowBitsTurn(0x00FF, 8);
    LowBitsTurn(0x007F, 7);
    LowBitsTurn(0x003F, 6);
    LowBitsTurn(0x001F, 5);
    LowBitsTurn(0x000F, 4);
    LowBitsTurn(0x0007, 3);
    LowBitsTurn(0x0003, 2);
    LowBitsTurn(0x0001, 1);
  }

  lemma HalvesOfOnes()
    ensures Half(0xFFFF) == 0x7FFF && Half(0x7FFF) == 0x3FFF && Half(0x3FFF) == 0x1FFF && Half(0x1FFF) == 0x0FFF
    ensures Half(0x0FFF) == 0x07FF && Half(0x07FF) == 0x03FF && Half(0x03FF) == 0x01FF && Half(0x01FF) == 0x00FF
    ensures Half(0x00FF) == 0x007F && Half(0x007F) == 0x003F && Half(0x003F) == 0x001F && Half(0x001F) == 0x000F
    ensures Half(0x000F) == 0x0007 && Half(0x0007) == 0x0003 && Half(0x0003) == 0x0001 && Half(0x0001) == 0x0000
    ensures LowBit(0xFFFF) && LowBit(0x7FFF) && LowBit(0x3FFF) && LowBit(0x1FFF)
    ensures LowBit(0x0FFF) && LowBit(0x07FF) && LowBit(0x03FF) && LowBit(0x01FF)
    ensures LowBit(0x00FF) && LowBit(0x007F) && LowBit(0x003F) && LowBit(0x001F)
    ensures LowBit(0x000F) && LowBit(0x0007) && LowBit(0x0003) && LowBit(0x0001)
  {
  }

  /** The CRC of any bytes is the remainder modulo the generator of their bits in transmission order with
      sixteen zeros behind them and the first sixteen complemented. */
  lemma CrcIsRemainder(data: seq<Byte>)
    ensures Coefficients(CrcOf(data)) == Remainder(Preset(BitsOf(data) + Zeros(16)))
  {
    hide BitsOf, CrcFrom, Serial, Remainder, Zeros, Coefficients;
    CrcIsSerial(0xFFFF, data);
    SerialIsRemainder(0xFFFF, BitsOf(data));
    StartIsOnes();
    assert Dividend(0xFFFF, BitsOf(data)) == Preset(BitsOf(data) + Zeros(16));
  }

  lemma ZeroCoefficients(c: Word)
    ensures Coefficients(c) == Zeros(16) <==> c == 0
  {
    hide LowBits, Halve;
    LowBitsOfZero(16);
    assert Coefficients(0) == Zeros(16);
    if Coefficients(c) == Zeros(16) {
      HalvedAway(c);
      HalvedAway(0);
      LowBitsInjective(c, 0, 16);
    }
  }

  /** A frame of at least four bytes, its CRC included, is accepted exactly when the generator divides it. */
  lemma AcceptedIsDivisible(frame: seq<Byte>)
    requires |frame| >= 4
    ensures Accepted(frame) <==> Remainder(Preset(BitsOf(frame) + Zeros(16))) == Zeros(16)
  {
    hide *;
    AcceptedIsZeroResidue(frame);
    CrcIsRemainder(frame);
    ZeroCoefficients(CrcOf(frame));
  }

  /** The published check value: the CRC of the nine characters "123456789". */
  lemma CheckValue()
    ensures CrcOf([0x31, 0x32, 0x33, 0x34, 0x35, 0x36, 0x37, 0x38, 0x39]) == 0x4B37
  {
    hide ByteStep, CrcFrom;
    CheckBytes();
    var data: seq<Byte> := [0x31, 0x32, 0x33, 0x34, 0x35, 0x36, 0x37, 0x38, 0x39];
    CrcTurn(0xFFFF, data);
    CrcTurn(0x947E, data[1..]);
    CrcTurn(0xF595, data[2..]);
    CrcTurn(0x7A75, data[3..]);
    CrcTurn(0x30BA, data[4..]);
    CrcTurn(0xA471, data[5..]);
    CrcTurn(0x32E4, data[6..]);
    CrcTurn(0x9D73, data[7..]);
    CrcTurn(0x37DD, data[8..]);
    CrcTurn(0x4B37, data[9..]);
  }

  lemma CrcTurn(c: Word, data: seq<Byte>)
    ensures CrcFrom(c, data) == if data == [] then c else CrcFrom(ByteStep(c, data[0]), data[1..])
  {
    hide ByteStep;
  }

  lemma CheckBytes()
    ensures ByteStep(0xFFFF, 0x31) == 0x947E && ByteStep(0x947E, 0x32) == 0xF595 && ByteStep(0xF595, 0x33) == 0x7A75
    ensures ByteStep(0x7A75, 0x34) == 0x30BA && ByteStep(0x30BA, 0x35) == 0xA471 && ByteStep(0xA471, 0x36) == 0x32E4
    ensures ByteStep(0x32E4, 0x37) == 0x9D73 && ByteStep(0x9D73, 0x38) == 0x37DD && ByteStep(0x37DD, 0x39) == 0x4B37
  {
    ClockedByte(0xFFFF, 0x31);
    ClockedByte(0x947E, 0x32);
    ClockedByte(0xF595, 0x33);
    ClockedByte(0x7A75, 0x34);
    ClockedByte(0x30BA, 0x35);
    ClockedByte(0xA471, 0x36);
    ClockedByte(0x32E4, 0x37);
    ClockedByte(0x9D73, 0x38);
    ClockedByte(0x37DD, 0x39);
  }

  lemma ClockedByte(c: Word, b: Byte)
    ensures var x := Xor(c, b as Word);
      ByteStep(c, b) == BitStep(BitStep(BitStep(BitStep(BitStep(BitStep(BitStep(BitStep(x))))))))
  {
    hide BitStep, Shift, Xor;
    ShiftUnfold(Xor(c, b as Word));
  }
}
