/** CRC-16/MODBUS: `crc16Modbus`, `appendCrc16Modbus` and `validateRtuFrame` (`modbus_core.cpp`), and
    sections 2.5.1.2 and 6.2.2 of MODBUS over Serial Line V1.02. */
module Crc {

  type Byte = bv8
  type Word = bv16

  // ---------------------------------------------------------------- the register

  /** One turn of the inner loop. */
  function BitStep(c: Word): Word {
    if c & 1 != 0 then (c >> 1) ^ 0xA001 else c >> 1
  }

  function Shift(k: nat, c: Word): Word {
    if k == 0 then c else Shift(k - 1, BitStep(c))
  }

  /** One turn of the outer loop. */
  function ByteStep(c: Word, b: Byte): Word {
    Shift(8, Xor(c, b as Word))
  }

  function CrcFrom(c: Word, data: seq<Byte>): Word
    decreases |data|
  {
    if data == [] then c else CrcFrom(ByteStep(c, data[0]), data[1..])
  }

  function CrcOf(data: seq<Byte>): Word {
    CrcFrom(0xFFFF, data)
  }

  /** The inner loop. */
  method ClockByte(start: Word) returns (crc: Word)
    ensures crc == Shift(8, start)
  {
    crc := start;
    for bit := 0 to 8
      invariant Shift(8 - bit, crc) == Shift(8, start)
    {
      ghost var before := crc;
      var lsbSet := crc & 1 != 0;
      crc := crc >> 1;
      if lsbSet {
        crc := crc ^ 0xA001;
      }
      assert crc == BitStep(before);
    }
  }

  method Crc16Modbus(data: seq<Byte>) returns (crc: Word)
    ensures crc == CrcOf(data)
  {
    hide Shift, Xor;
    crc := 0xFFFF;
    for i := 0 to |data|
      invariant CrcFrom(crc, data[i..]) == CrcOf(data)
    {
      assert data[i..][0] == data[i] && data[i..][1..] == data[i + 1..];
      crc := ClockByte(Xor(crc, data[i] as Word));
    }
  }

  // ---------------------------------------------------------------- frames

  function LowByte(w: Word): Byte {
    (w & 0x00FF) as Byte
  }

  function HighByte(w: Word): Byte {
    ((w >> 8) & 0x00FF) as Byte
  }

  function Join(low: Byte, high: Byte): Word {
    (low as Word) | ((high as Word) << 8)
  }

  /** `appendCrc16Modbus`: the CRC follows the body, low byte first. */
  function AppendCrc(body: seq<Byte>): seq<Byte> {
    body + [LowByte(CrcOf(body)), HighByte(CrcOf(body))]
  }

  /** `validateRtuFrame`: long enough, and the trailing CRC is that of the body. */
  predicate Accepted(frame: seq<Byte>) {
    |frame| >= 4 && Join(frame[|frame| - 2], frame[|frame| - 1]) == CrcOf(frame[..|frame| - 2])
  }

  // ---------------------------------------------------------------- algebra of the register

  /** Exclusive or, named so that proofs may treat it as a black box. */
  function Xor(a: Word, b: Word): Word {
    a ^ b
  }

  lemma XorIs(a: Word, b: Word)
    ensures Xor(a, b) == a ^ b
  {
  }

  lemma RawShiftOfXor(a: Word, b: Word)
    ensures (a ^ b) >> 1 == (a >> 1) ^ (b >> 1)
  {
  }

  lemma ShiftOfXor(a: Word, b: Word)
    ensures Xor(a, b) >> 1 == Xor(a >> 1, b >> 1)
  {
    hide Xor;
    RawShiftOfXor(a, b);
    XorIs(a, b);
    XorIs(a >> 1, b >> 1);
  }

  lemma LowBitOfXor(a: Word, b: Word)
    ensures (Xor(a, b) & 1 != 0) <==> ((a & 1 != 0) != (b & 1 != 0))
  {
  }

  lemma XorAlgebra(a: Word, b: Word, m: Word)
    ensures Xor(Xor(a, m), b) == Xor(Xor(a, b), m)
    ensures Xor(a, Xor(b, m)) == Xor(Xor(a, b), m)
    ensures Xor(Xor(a, m), Xor(b, m)) == Xor(a, b)
  {
  }

  lemma XorSelf(a: Word, b: Word)
    ensures Xor(a, b) == 0 <==> a == b
    ensures Xor(a, 0) == a && Xor(0, a) == a && Xor(a, a) == 0
  {
    if Xor(a, b) == 0 {
      assert Xor(Xor(a, b), b) == a;
    }
  }

  /** The step with its conditional exclusive or spelled out. */
  lemma StepIs(c: Word)
    ensures BitStep(c) == if c & 1 != 0 then Xor(c >> 1, 0xA001) else c >> 1
  {
  }

  lemma StepLinear(a: Word, b: Word)
    ensures BitStep(Xor(a, b)) == Xor(BitStep(a), BitStep(b))
  {
    hide Xor, BitStep;
    StepIs(a);
    StepIs(b);
    StepIs(Xor(a, b));
    LowBitOfXor(a, b);
    ShiftOfXor(a, b);
    XorAlgebra(a >> 1, b >> 1, 0xA001);
  }

  lemma StepKernel(a: Word)
    requires BitStep(a) == 0
    ensures a == 0
  {
  }

  lemma {:induction false} ShiftLinear(k: nat, a: Word, b: Word)
    ensures Shift(k, Xor(a, b)) == Xor(Shift(k, a), Shift(k, b))
  {
    hide BitStep, Xor;
    if k > 0 {
      StepLinear(a, b);
      ShiftLinear(k - 1, BitStep(a), BitStep(b));
    }
  }

  lemma {:induction false} ShiftZero(k: nat)
    ensures Shift(k, 0) == 0
  {
    if k > 0 {
      assert BitStep(0) == 0;
      ShiftZero(k - 1);
    }
  }

  lemma {:induction false} ShiftKernel(k: nat, a: Word)
    requires Shift(k, a) == 0
    ensures a == 0
  {
    hide BitStep;
    if k > 0 {
      ShiftKernel(k - 1, BitStep(a));
      StepKernel(a);
    }
  }

  /** The register never loses information. */
  lemma ShiftInjective(k: nat, a: Word, b: Word)
    requires Shift(k, a) == Shift(k, b)
    ensures a == b
  {
    hide Shift, Xor;
    ShiftLinear(k, a, b);
    XorSelf(Shift(k, a), Shift(k, b));
    ShiftKernel(k, Xor(a, b));
    XorSelf(a, b);
  }

  lemma EvenStep(c: Word)
    requires c & 1 == 0
    ensures BitStep(c) == c >> 1
  {
  }

  /** A register whose low byte is clear is shifted down unchanged. */
  lemma ShiftHighByte(high: Byte)
    ensures Shift(8, (high as Word) << 8) == high as Word
  {
    hide BitStep;
    var h := high as Word;
    ShiftUnfold(h << 8);
    assert (h << 8) & 1 == 0 && (h << 8) >> 1 == h << 7;
    assert (h << 7) & 1 == 0 && (h << 7) >> 1 == h << 6;
    assert (h << 6) & 1 == 0 && (h << 6) >> 1 == h << 5;
    assert (h << 5) & 1 == 0 && (h << 5) >> 1 == h << 4;
    assert (h << 4) & 1 == 0 && (h << 4) >> 1 == h << 3;
    assert (h << 3) & 1 == 0 && (h << 3) >> 1 == h << 2;
    assert (h << 2) & 1 == 0 && (h << 2) >> 1 == h << 1;
    assert (h << 1) & 1 == 0 && (h << 1) >> 1 == h;
    EvenStep(h << 8);
    EvenStep(h << 7);
    EvenStep(h << 6);
    EvenStep(h << 5);
    EvenStep(h << 4);
    EvenStep(h << 3);
    EvenStep(h << 2);
    EvenStep(h << 1);
  }

  lemma ShiftUnfold(c: Word)
    ensures Shift(8, c) == BitStep(BitStep(BitStep(BitStep(BitStep(BitStep(BitStep(BitStep(c))))))))
  {
    hide BitStep;
    var c1 := BitStep(c);
    var c2 := BitStep(c1);
    var c3 := BitStep(c2);
    var c4 := BitStep(c3);
    assert Shift(8, c) == Shift(7, c1) == Shift(6, c2) == Shift(5, c3) == Shift(4, c4);
    var c5 := BitStep(c4);
    var c6 := BitStep(c5);
    var c7 := BitStep(c6);
    assert Shift(4, c4) == Shift(3, c5) == Shift(2, c6) == Shift(1, c7) == Shift(0, BitStep(c7));
  }

  // ---------------------------------------------------------------- acceptance is a zero residue

  lemma {:induction false} CrcConcat(c: Word, a: seq<Byte>, b: seq<Byte>)
    ensures CrcFrom(c, a + b) == CrcFrom(CrcFrom(c, a), b)
    decreases |a|
  {
    hide ByteStep;
    if a == [] {
      assert a + b == b;
    } else {
      assert (a + b)[0] == a[0] && (a + b)[1..] == a[1..] + b;
      CrcConcat(ByteStep(c, a[0]), a[1..], b);
    }
  }

  lemma JoinIsXor(low: Byte, high: Byte)
    ensures Join(low, high) == Xor(low as Word, (high as Word) << 8)
  {
    assert (low as Word) & 0xFF00 == 0;
    assert ((high as Word) << 8) & 0x00FF == 0;
  }

  lemma XorMoves(a: Word, b: Word, c: Word)
    ensures Xor(a, b) == c <==> a == Xor(b, c)
  {
    if Xor(a, b) == c {
      assert Xor(b, Xor(a, b)) == a;
    }
    if a == Xor(b, c) {
      assert Xor(Xor(b, c), b) == c;
    }
  }

  /** Running the CRC over its own two bytes, low byte first, clears the register. */
  lemma ResidueOfTwo(c: Word, low: Byte, high: Byte)
    ensures ByteStep(ByteStep(c, low), high) == 0 <==> Join(low, high) == c
  {
    hide Shift, Join, Xor;
    var x := Xor(c, low as Word);
    var y := (high as Word) << 8;
    ShiftHighByte(high);
    JoinIsXor(low, high);
    XorMoves(c, low as Word, y);
    XorSelf(Shift(8, x), high as Word);
    if ByteStep(ByteStep(c, low), high) == 0 {
      ShiftKernel(8, Xor(Shift(8, x), high as Word));
      ShiftInjective(8, x, y);
    }
    if Join(low, high) == c {
      ShiftZero(8);
    }
  }

  /** A frame of at least four bytes is accepted exactly when the CRC run over all of it, CRC bytes
      included, is zero. */
  lemma AcceptedIsZeroResidue(frame: seq<Byte>)
    requires |frame| >= 4
    ensures Accepted(frame) <==> CrcOf(frame) == 0
  {
    hide ByteStep, Join;
    var body, low, high := frame[..|frame| - 2], frame[|frame| - 2], frame[|frame| - 1];
    assert frame == body + [low, high];
    CrcConcat(0xFFFF, body, [low, high]);
    var c := CrcOf(body);
    assert CrcFrom(c, [low, high]) == CrcFrom(ByteStep(c, low), [high]) ==
      CrcFrom(ByteStep(ByteStep(c, low), high), []);
    ResidueOfTwo(c, low, high);
  }

  lemma JoinSplit(w: Word)
    ensures Join(LowByte(w), HighByte(w)) == w
  {
  }

  lemma SplitJoin(low: Byte, high: Byte)
    ensures LowByte(Join(low, high)) == low && HighByte(Join(low, high)) == high
  {
  }

  /** What is appended always validates. */
  lemma AppendedIsAccepted(body: seq<Byte>)
    requires |body| >= 2
    ensures Accepted(AppendCrc(body))
  {
    hide CrcFrom, LowByte, HighByte, Join;
    JoinSplit(CrcOf(body));
    assert AppendCrc(body)[..|body|] == body;
  }

  /** And an accepted frame is its body with the CRC appended. */
  lemma AcceptedIsAppended(frame: seq<Byte>)
    requires Accepted(frame)
    ensures frame == AppendCrc(frame[..|frame| - 2])
  {
    hide CrcFrom, LowByte, HighByte, Join;
    SplitJoin(frame[|frame| - 2], frame[|frame| - 1]);
  }

  // ---------------------------------------------------------------- bit by bit

  type Bits = seq<bool>

  function BitWord(b: bool): Word {
    if b then 1 else 0
  }

  /** The same register clocked once per bit, in transmission order. */
  function Serial(c: Word, bits: Bits): Word
    decreases |bits|
  {
    if bits == [] then c else Serial(BitStep(Xor(c, BitWord(bits[0]))), bits[1..])
  }

  function Half(w: Word): Word {
    w >> 1
  }

  /** The low `k` bits of a word, least significant first. */
  function LowBits(w: Word, k: nat): (bits: Bits)
    ensures |bits| == k
  {
    if k == 0 then [] else [w & 1 != 0] + LowBits(Half(w), k - 1)
  }

  function Halve(w: Word, k: nat): Word {
    if k == 0 then w else Halve(Half(w), k - 1)
  }

  /** A frame on the wire: every byte least significant bit first. */
  function BitsOf(data: seq<Byte>): (bits: Bits)
    ensures |bits| == 8 * |data|
  {
    if data == [] then [] else LowBits(data[0] as Word, 8) + BitsOf(data[1..])
  }

  lemma FirstBit(c: Word, w: Word)
    ensures BitStep(Xor(c, w)) == Xor(BitStep(Xor(c, BitWord(w & 1 != 0))), w >> 1)
  {
    hide BitStep, Xor;
    var b := BitWord(w & 1 != 0);
    var rest := Xor(w, b);
    LowBitCleared(w);
    XorAlgebra(c, rest, b);
    XorUndo(w, b);
    XorOrder(c, b, rest);
    StepLinear(Xor(c, b), rest);
    EvenStep(rest);
  }

  lemma LowBitCleared(w: Word)
    ensures var rest := Xor(w, BitWord(w & 1 != 0)); rest & 1 == 0 && rest >> 1 == w >> 1
  {
    assert (w ^ 1) >> 1 == w >> 1;
    assert (w ^ 0) >> 1 == w >> 1;
    assert w & 1 != 0 ==> (w ^ 1) & 1 == 0;
    assert w & 1 == 0 ==> (w ^ 0) & 1 == 0;
  }

  lemma XorUndo(w: Word, b: Word)
    ensures Xor(b, Xor(w, b)) == w
  {
    assert b ^ (w ^ b) == w;
  }

  lemma XorOrder(c: Word, b: Word, r: Word)
    ensures Xor(Xor(c, b), r) == Xor(c, Xor(b, r))
  {
    assert (c ^ b) ^ r == c ^ (b ^ r);
  }

  /** Clocking `k` bits in one by one, or all at once before `k` turns. */
  lemma {:induction false} ShiftIsSerial(k: nat, c: Word, w: Word)
    ensures Shift(k, Xor(c, w)) == Xor(Serial(c, LowBits(w, k)), Halve(w, k))
    decreases k
  {
    hide BitStep, Xor, BitWord;
    if k > 0 {
      FirstBit(c, w);
      ShiftIsSerial(k - 1, BitStep(Xor(c, BitWord(w & 1 != 0))), w >> 1);
    }
  }

  lemma {:induction false} HalveAgain(w: Word, j: nat, k: nat)
    ensures Halve(w, j + k) == Halve(Halve(w, j), k)
  {
    if j > 0 {
      HalveAgain(w >> 1, j - 1, k);
    }
  }

  lemma HalveTwice(w: Word)
    ensures Halve(w, 2) == (w >> 1) >> 1
  {
    assert Halve(w, 2) == Halve(w >> 1, 1) == Halve((w >> 1) >> 1, 0);
  }

  lemma ShiftsAdd(w: Word)
    ensures (w >> 1) >> 1 == w >> 2
    ensures (w >> 2) >> 2 == w >> 4
    ensures (w >> 4) >> 4 == w >> 8
  {
  }

  lemma HalveEight(w: Word)
    ensures Halve(w, 8) == w >> 8
  {
    hide Halve;
    HalveTwice(w);
    ShiftsAdd(w);
    HalveAgain(w, 2, 2);
    HalveTwice(w >> 2);
    HalveAgain(w, 4, 4);
    HalveAgain(w >> 4, 2, 2);
    HalveTwice(w >> 4);
    ShiftsAdd(w >> 4);
    HalveTwice((w >> 4) >> 2);
    ShiftsAdd((w >> 4) >> 2);
    assert (((w >> 4) >> 2) >> 2) == w >> 8;
  }

  lemma ByteHalves(b: Byte)
    ensures Halve(b as Word, 8) == 0
  {
    hide Halve;
    HalveEight(b as Word);
    assert (b as Word) >> 8 == 0;
  }

  lemma ByteIsSerial(c: Word, b: Byte)
    ensures ByteStep(c, b) == Serial(c, LowBits(b as Word, 8))
  {
    hide Shift, Serial, LowBits, Halve, Xor;
    ShiftIsSerial(8, c, b as Word);
    ByteHalves(b);
    XorSelf(Serial(c, LowBits(b as Word, 8)), 0);
  }

  lemma {:induction false} SerialConcat(c: Word, a: Bits, b: Bits)
    ensures Serial(c, a + b) == Serial(Serial(c, a), b)
    decreases |a|
  {
    hide BitStep, Xor, BitWord;
    if a == [] {
      assert a + b == b;
    } else {
      assert (a + b)[0] == a[0] && (a + b)[1..] == a[1..] + b;
      SerialConcat(BitStep(Xor(c, BitWord(a[0]))), a[1..], b);
    }
  }

  /** The byte-wise CRC of the source is the bit-serial register of the wire. */
  lemma {:induction false} CrcIsSerial(c: Word, data: seq<Byte>)
    ensures CrcFrom(c, data) == Serial(c, BitsOf(data))
    decreases |data|
  {
    hide ByteStep, LowBits;
    if data != [] {
      ByteIsSerial(c, data[0]);
      CrcIsSerial(ByteStep(c, data[0]), data[1..]);
      SerialConcat(c, LowBits(data[0] as Word, 8), BitsOf(data[1..]));
    }
  }

  // ---------------------------------------------------------------- errors

  function Flips(a: Bits, b: Bits): (d: Bits)
    requires |a| == |b|
    ensures |d| == |a| && forall i :: 0 <= i < |a| ==> d[i] == (a[i] != b[i])
  {
    seq(|a|, i requires 0 <= i < |a| => a[i] != b[i])
  }

  lemma BitWordXor(x: bool, y: bool)
    ensures Xor(BitWord(x), BitWord(y)) == BitWord(x != y)
  {
    assert (1 as Word) ^ 1 == 0 && (1 as Word) ^ 0 == 1 && (0 as Word) ^ 1 == 1 && (0 as Word) ^ 0 == 0;
  }

  lemma XorPairs(c: Word, d: Word, x: Word, y: Word)
    ensures Xor(Xor(c, x), Xor(d, y)) == Xor(Xor(c, d), Xor(x, y))
  {
    hide Xor;
    XorOrder(Xor(c, x), d, y);
    XorAlgebra(c, d, x);
    XorOrder(Xor(c, d), x, y);
  }

  /** Two registers differ by the register of the flipped bits alone. */
  lemma {:induction false} SerialLinear(c: Word, d: Word, a: Bits, b: Bits)
    requires |a| == |b|
    ensures Xor(Serial(c, a), Serial(d, b)) == Serial(Xor(c, d), Flips(a, b))
    decreases |a|
  {
    hide BitStep, Xor, BitWord;
    if a != [] {
      var x, y := BitWord(a[0]), BitWord(b[0]);
      BitWordXor(a[0], b[0]);
      XorPairs(c, d, x, y);
      StepLinear(Xor(c, x), Xor(d, y));
      SerialLinear(BitStep(Xor(c, x)), BitStep(Xor(d, y)), a[1..], b[1..]);
      assert Flips(a, b)[1..] == Flips(a[1..], b[1..]);
    }
  }

  ghost predicate Clear(bits: Bits) {
    forall i :: 0 <= i < |bits| ==> !bits[i]
  }

  /** Clear bits move the register but never to or from zero. */
  lemma {:induction false} SerialOfClear(c: Word, bits: Bits)
    requires Clear(bits)
    ensures Serial(c, bits) == 0 <==> c == 0
    decreases |bits|
  {
    hide BitStep, Xor;
    if bits != [] {
      assert !bits[0] && Clear(bits[1..]);
      XorSelf(c, 0);
      if BitStep(c) == 0 {
        StepKernel(c);
      }
      assert BitStep(0) == 0 by { StepIs(0); ZeroStep(); }
      SerialOfClear(BitStep(c), bits[1..]);
    }
  }

  lemma ZeroStep()
    ensures (0 as Word) & 1 == 0 && (0 as Word) >> 1 == 0
  {
  }

  /** The bits from `k` up. */
  function Above(k: nat): Word {
    if k == 0 then 0xFFFF else Above(k - 1) << 1
  }

  lemma {:induction false} TopBitAbove(k: nat)
    requires k <= 15
    ensures Above(k) & 0x8000 != 0
  {
    AboveTable();
    assert k == 0 || k == 1 || k == 2 || k == 3 || k == 4 || k == 5 || k == 6 || k == 7
      || k == 8 || k == 9 || k == 10 || k == 11 || k == 12 || k == 13 || k == 14 || k == 15;
  }

  lemma AboveTable()
    ensures Above(0) == 0xFFFF && Above(1) == 0xFFFE && Above(2) == 0xFFFC && Above(3) == 0xFFF8
    ensures Above(4) == 0xFFF0 && Above(5) == 0xFFE0 && Above(6) == 0xFFC0 && Above(7) == 0xFF80
    ensures Above(8) == 0xFF00 && Above(9) == 0xFE00 && Above(10) == 0xFC00 && Above(11) == 0xF800
    ensures Above(12) == 0xF000 && Above(13) == 0xE000 && Above(14) == 0xC000 && Above(15) == 0x8000
  {
    assert Above(1) == Above(0) << 1;
    assert Above(2) == Above(1) << 1;
    assert Above(3) == Above(2) << 1;
    assert Above(4) == Above(3) << 1;
    assert Above(5) == Above(4) << 1;
    assert Above(6) == Above(5) << 1;
    assert Above(7) == Above(6) << 1;
    assert Above(8) == Above(7) << 1;
    assert Above(9) == Above(8) << 1;
    assert Above(10) == Above(9) << 1;
    assert Above(11) == Above(10) << 1;
    assert Above(12) == Above(11) << 1;
    assert Above(13) == Above(12) << 1;
    assert Above(14) == Above(13) << 1;
    assert Above(15) == Above(14) << 1;
  }

  predicate TopClear(c: Word) {
    c & 0x8000 == 0
  }

  /** A step that leaves the top bit clear did not add the polynomial. */
  lemma StepWithoutTop(c: Word)
    requires TopClear(BitStep(c))
    ensures !LowBit(c) && BitStep(c) == Half(c)
  {
  }

  lemma MaskWithTop(c: Word, m: Word)
    requires c & m == 0 && m & 0x8000 != 0
    ensures c & 0x8000 == 0
  {
  }

  lemma MaskDoubles(c: Word, m: Word)
    requires (c >> 1) & m == 0
    ensures c & (m << 1) == 0
  {
  }

  /** A register that reaches zero after at most sixteen bits held exactly those bits. */
  lemma {:induction false} ZeroAfterShort(c: Word, bits: Bits)
    requires |bits| <= 16 && Serial(c, bits) == 0
    ensures bits == LowBits(c, |bits|) && NoneAbove(c, |bits|)
    decreases |bits|
  {
    hide BitStep, Xor, BitWord, NoneAbove, Half;
    if bits == [] {
      ZeroMasked(c);
    } else {
      var next := BitStep(Xor(c, BitWord(bits[0])));
      ZeroAfterShort(next, bits[1..]);
      BackOne(c, bits[0], |bits| - 1);
      assert bits == [bits[0]] + bits[1..];
    }
  }

  /** `c` has no bit at `k` or higher. */
  predicate NoneAbove(c: Word, k: nat) {
    c & Above(k) == 0
  }

  lemma NoneAboveDoubles(c: Word, k: nat)
    requires NoneAbove(Half(c), k)
    ensures NoneAbove(c, k + 1)
  {
    hide Above;
    MaskDoubles(c, Above(k));
    AboveNext(k + 1);
  }

  lemma NoneAboveTop(c: Word, k: nat)
    requires k <= 15 && NoneAbove(c, k)
    ensures TopClear(c)
  {
    hide Above;
    TopBitAbove(k);
    MaskWithTop(c, Above(k));
  }

  lemma BackOne(c: Word, b: bool, k: nat)
    requires k <= 15 && NoneAbove(BitStep(Xor(c, BitWord(b))), k)
    ensures b == LowBit(c) && BitStep(Xor(c, BitWord(b))) == Half(c) && NoneAbove(c, k + 1)
  {
    hide *;
    var x := Xor(c, BitWord(b));
    NoneAboveTop(BitStep(x), k);
    StepWithoutTop(x);
    FirstBitMatches(c, b);
    NoneAboveDoubles(c, k);
  }

  lemma ZeroMasked(c: Word)
    ensures c == 0 ==> NoneAbove(c, 0)
  {
  }

  lemma AboveNext(k: nat)
    requires k > 0
    ensures Above(k) == Above(k - 1) << 1
  {
  }

  lemma FirstBitMatches(c: Word, b: bool)
    requires !LowBit(Xor(c, BitWord(b)))
    ensures b == LowBit(c) && Half(Xor(c, BitWord(b))) == Half(c)
  {
    assert (c ^ 1) >> 1 == c >> 1 && (c ^ 0) >> 1 == c >> 1;
    assert (c ^ 1) & 1 == 0 <==> c & 1 != 0;
    assert (c ^ 0) & 1 == 0 <==> c & 1 == 0;
  }

  lemma {:induction false} LowBitsOfZero(k: nat)
    ensures Clear(LowBits(0, k))
  {
    if k > 0 {
      ZeroStep();
      LowBitsOfZero(k - 1);
    }
  }

  // ---------------------------------------------------------------- main results

  /** The frames agree on every transmitted bit outside a window of sixteen. */
  ghost predicate DifferInWindow(a: seq<Byte>, b: seq<Byte>, start: nat)
    requires |a| == |b|
  {
    forall i :: 0 <= i < |BitsOf(a)| && (i < start || i >= start + 16) ==> BitsOf(a)[i] == BitsOf(b)[i]
  }

  /** Burst errors: two different frames of equal length, of any length, that differ only within
      sixteen consecutive bits are never both accepted. */
  lemma BurstIsDetected(a: seq<Byte>, b: seq<Byte>, start: nat)
    requires |a| == |b| && a != b && DifferInWindow(a, b, start)
    ensures !(Accepted(a) && Accepted(b))
  {
    hide BitStep, Xor, Serial, BitsOf, CrcFrom;
    if Accepted(a) && Accepted(b) {
      AcceptedIsZeroResidue(a);
      AcceptedIsZeroResidue(b);
      CrcIsSerial(0xFFFF, a);
      CrcIsSerial(0xFFFF, b);
      var d := Flips(BitsOf(a), BitsOf(b));
      SerialLinear(0xFFFF, 0xFFFF, BitsOf(a), BitsOf(b));
      XorSelf(0xFFFF, 0xFFFF);
      XorSelf(0, 0);
      assert Serial(0, d) == 0;
      WindowIsClear(d, start);
      BitsInjective(a, b);
    }
  }

  lemma WindowIsClear(d: Bits, start: nat)
    requires Serial(0, d) == 0 && forall i :: 0 <= i < |d| && (i < start || i >= start + 16) ==> !d[i]
    ensures Clear(d)
  {
    hide Serial, LowBits;
    var lo := if start <= |d| then start else |d|;
    var hi := if start + 16 <= |d| then start + 16 else |d|;
    var before, window, after := d[..lo], d[lo..hi], d[hi..];
    assert d == before + window + after;
    SerialConcat(0, before + window, after);
    SerialConcat(0, before, window);
    SerialOfClear(0, before);
    SerialOfClear(Serial(0, window), after);
    ZeroAfterShort(0, window);
    LowBitsOfZero(|window|);
    forall i | 0 <= i < |d|
      ensures !d[i]
    {
      if lo <= i < hi {
        assert window[i - lo] == d[i];
      }
    }
  }

  lemma BitsSplit(a: seq<Byte>, i: nat)
    requires a != [] && i < |BitsOf(a)|
    ensures BitsOf(a)[i] == if i < 8 then LowBits(a[0] as Word, 8)[i] else BitsOf(a[1..])[i - 8]
  {
    hide LowBits;
  }

  lemma {:induction false} BitsInjective(a: seq<Byte>, b: seq<Byte>)
    requires |a| == |b| && Clear(Flips(BitsOf(a), BitsOf(b)))
    ensures a == b
    decreases |a|
  {
    hide LowBits, BitsOf;
    if a != [] {
      var d := Flips(BitsOf(a), BitsOf(b));
      var la, lb := LowBits(a[0] as Word, 8), LowBits(b[0] as Word, 8);
      forall i | 0 <= i < 8
        ensures la[i] == lb[i]
      {
        assert !d[i];
        BitsSplit(a, i);
        BitsSplit(b, i);
      }
      ByteFromBits(a[0], b[0]);
      forall i | 0 <= i < |BitsOf(a[1..])|
        ensures BitsOf(a[1..])[i] == BitsOf(b[1..])[i]
      {
        assert !d[i + 8];
        BitsSplit(a, i + 8);
        BitsSplit(b, i + 8);
      }
      BitsInjective(a[1..], b[1..]);
      assert a == [a[0]] + a[1..] && b == [b[0]] + b[1..];
    }
  }

  function LowBit(w: Word): bool {
    w & 1 != 0
  }

  lemma LowBitsTail(v: Word, w: Word, k: nat)
    requires k > 0 && LowBits(v, k) == LowBits(w, k)
    ensures LowBit(v) == LowBit(w) && LowBits(Half(v), k - 1) == LowBits(Half(w), k - 1)
  {
    var a, b := LowBits(v, k), LowBits(w, k);
    assert a[0] == b[0];
    assert LowBits(Half(v), k - 1) == a[1..];
    assert LowBits(Half(w), k - 1) == b[1..];
  }

  lemma SameHalves(v: Word, w: Word)
    requires Half(v) == Half(w) && LowBit(v) == LowBit(w)
    ensures v == w
  {
  }

  lemma {:induction false} LowBitsInjective(v: Word, w: Word, k: nat)
    requires LowBits(v, k) == LowBits(w, k) && Halve(v, k) == Halve(w, k)
    ensures v == w
    decreases k
  {
    hide LowBits, Halve, LowBit, Half;
    if k == 0 {
      HalveNone(v);
      HalveNone(w);
    } else {
      HalveTurn(v, k);
      HalveTurn(w, k);
      LowBitsTail(v, w, k);
      LowBitsInjective(Half(v), Half(w), k - 1);
      SameHalves(v, w);
    }
  }

  lemma HalveNone(w: Word)
    ensures Halve(w, 0) == w
  {
  }

  lemma HalveTurn(w: Word, k: nat)
    requires k > 0
    ensures Halve(w, k) == Halve(Half(w), k - 1)
  {
  }

  lemma ByteFromBits(x: Byte, y: Byte)
    requires LowBits(x as Word, 8) == LowBits(y as Word, 8)
    ensures x == y
  {
    hide LowBits, Halve;
    ByteHalves(x);
    ByteHalves(y);
    LowBitsInjective(x as Word, y as Word, 8);
    assert (x as Word) == (y as Word) ==> x == y;
  }

  lemma {:induction false} BitsAppend(a: seq<Byte>, b: seq<Byte>)
    ensures BitsOf(a + b) == BitsOf(a) + BitsOf(b)
    decreases |a|
  {
    hide LowBits, BitsOf;
    BitsTurn(a);
    if a == [] {
      assert a + b == b;
    } else {
      assert (a + b)[0] == a[0] && (a + b)[1..] == a[1..] + b;
      BitsTurn(a + b);
      BitsAppend(a[1..], b);
    }
  }

  lemma BitsTurn(a: seq<Byte>)
    ensures BitsOf(a) == if a == [] then [] else LowBits(a[0] as Word, 8) + BitsOf(a[1..])
  {
  }

  /** In particular, frames that differ only in one byte or in two neighbouring bytes. */
  lemma NeighbouringBytesAreDetected(a: seq<Byte>, b: seq<Byte>, i: nat)
    requires |a| == |b| && a != b && forall k :: 0 <= k < |a| && k != i && k != i + 1 ==> a[k] == b[k]
    ensures !(Accepted(a) && Accepted(b))
  {
    hide BitsOf, Accepted;
    var lo := if i <= |a| then i else |a|;
    var hi := if i + 2 <= |a| then i + 2 else |a|;
    assert a == a[..lo] + a[lo..hi] + a[hi..] && b == b[..lo] + b[lo..hi] + b[hi..];
    assert a[..lo] == b[..lo] && a[hi..] == b[hi..];
    BitsAppend(a[..lo] + a[lo..hi], a[hi..]);
    BitsAppend(b[..lo] + b[lo..hi], b[hi..]);
    BitsAppend(a[..lo], a[lo..hi]);
    BitsAppend(b[..lo], b[lo..hi]);
    forall k | 0 <= k < |BitsOf(a)| && (k < 8 * i || k >= 8 * i + 16)
      ensures BitsOf(a)[k] == BitsOf(b)[k]
    {
    }
    BurstIsDetected(a, b, 8 * i);
  }

  // ---------------------------------------------------------------- odd numbers of flipped bits

  /** Whether an odd number of bits is set. */
  ghost function Odd(bits: Bits): bool {
    if bits == [] then false else bits[0] != Odd(bits[1..])
  }

  /** Parity of the low `k` bits. */
  function ParityOf(w: Word, k: nat): bool {
    if k == 0 then false else (w & 1 != 0) != ParityOf(w >> 1, k - 1)
  }

  function Parity(w: Word): bool {
    ParityOf(w, 16)
  }

  lemma {:induction false} ParityLinear(a: Word, b: Word, k: nat)
    ensures ParityOf(Xor(a, b), k) == (ParityOf(a, k) != ParityOf(b, k))
  {
    hide Xor;
    if k > 0 {
      LowBitOfXor(a, b);
      ShiftOfXor(a, b);
      ParityLinear(a >> 1, b >> 1, k - 1);
    }
  }

  lemma {:induction false} ParityOneMore(w: Word, k: nat)
    ensures ParityOf(w, k + 1) == (ParityOf(w, k) != (Halve(w, k) & 1 != 0))
  {
    if k > 0 {
      ParityOneMore(w >> 1, k - 1);
    }
  }

  lemma {:induction false} ParityOfZero(k: nat)
    ensures !ParityOf(0, k)
  {
    if k > 0 {
      ZeroStep();
      ParityOfZero(k - 1);
    }
  }

  lemma ParityTurn(w: Word, k: nat)
    requires k > 0
    ensures ParityOf(w, k) == ((w & 1 != 0) != ParityOf(w >> 1, k - 1))
  {
  }

  /** Halving drops the lowest bit from the parity; nothing comes in at the top. */
  lemma ParityOfHalf(w: Word)
    ensures Parity(w) == ((w & 1 != 0) != Parity(w >> 1))
  {
    hide ParityOf, Halve;
    ParityTurn(w, 16);
    ParityOneMore(w >> 1, 15);
    HalveTurn(w, 16);
    HalveAgain(w, 8, 8);
    HalveEight(w);
    HalveEight(w >> 8);
    assert (w >> 8) >> 8 == 0;
    ZeroStep();
  }

  lemma ParityOfPolynomial()
    ensures Parity(0xA001)
  {
    hide ParityOf;
    ParityTurn(0xA001, 16);
    ParityTurn(0x5000, 15);
    ParityTurn(0x2800, 14);
    ParityTurn(0x1400, 13);
    ParityTurn(0x0A00, 12);
    ParityTurn(0x0500, 11);
    ParityTurn(0x0280, 10);
    ParityTurn(0x0140, 9);
    ParityTurn(0x00A0, 8);
    ParityTurn(0x0050, 7);
    ParityTurn(0x0028, 6);
    ParityTurn(0x0014, 5);
    ParityTurn(0x000A, 4);
    ParityTurn(0x0005, 3);
    ParityTurn(0x0002, 2);
    ParityTurn(0x0001, 1);
    ParityOfZero(0);
  }

  /** The polynomial has an even number of terms, so a step keeps the parity of the register. */
  lemma StepKeepsParity(w: Word)
    ensures Parity(BitStep(w)) == Parity(w)
  {
    hide BitStep, Xor, ParityOf;
    StepIs(w);
    ParityOfHalf(w);
    ParityLinear(w >> 1, 0xA001, 16);
    ParityOfPolynomial();
  }

  lemma ParityOfBit(c: Word, b: bool)
    ensures Parity(Xor(c, BitWord(b))) == (Parity(c) != b)
  {
    hide Xor, ParityOf;
    ParityLinear(c, BitWord(b), 16);
    ParityTurn(1, 16);
    OneHalved();
    ParityOfZero(15);
    ParityOfZero(16);
  }

  lemma OneHalved()
    ensures (1 as Word) >> 1 == 0 && (1 as Word) & 1 != 0
  {
  }

  lemma {:induction false} SerialParity(c: Word, bits: Bits)
    ensures Parity(Serial(c, bits)) == (Parity(c) != Odd(bits))
    decreases |bits|
  {
    hide BitStep, Xor, BitWord, Parity;
    if bits != [] {
      var x := Xor(c, BitWord(bits[0]));
      ParityOfBit(c, bits[0]);
      StepKeepsParity(x);
      SerialParity(BitStep(x), bits[1..]);
    }
  }

  /** An odd number of flipped bits, wherever they are in a frame of whatever length, is detected. */
  lemma OddErrorsAreDetected(a: seq<Byte>, b: seq<Byte>)
    requires |a| == |b| && Odd(Flips(BitsOf(a), BitsOf(b)))
    ensures !(Accepted(a) && Accepted(b))
  {
    hide BitStep, Xor, Serial, BitsOf, CrcFrom, Parity, Odd;
    if Accepted(a) && Accepted(b) {
      AcceptedIsZeroResidue(a);
      AcceptedIsZeroResidue(b);
      CrcIsSerial(0xFFFF, a);
      CrcIsSerial(0xFFFF, b);
      var d := Flips(BitsOf(a), BitsOf(b));
      SerialLinear(0xFFFF, 0xFFFF, BitsOf(a), BitsOf(b));
      XorSelf(0xFFFF, 0xFFFF);
      XorSelf(0, 0);
      SerialParity(0, d);
    }
  }
}
