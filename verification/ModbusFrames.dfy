/** Read requests and responses: `buildReadRequest` and `parseReadResponse` (`modbus_core.cpp`), and
    sections 6.3, 6.4 and 7 of MODBUS Application Protocol V1.1b3. */
module ModbusFrames {
  import opened Options
  import opened Crc

  const MinSlaveId: int := 1
  const MaxSlaveId: int := 247
  const MaxAddress: int := 0xFFFF
  const MaxReadQuantity: int := 125

  const HoldingRegisters: Byte := 0x03
  const InputRegisters: Byte := 0x04

  type Register = n: int | 0 <= n < 0x1_0000

  // ---------------------------------------------------------------- bytes and numbers

  function ByteOf(n: int): Byte
    requires 0 <= n < 0x100
  {
    n as Byte
  }

  function IntOf(b: Byte): (n: int)
    ensures 0 <= n < 0x100
  {
    b as int
  }

  lemma NextByte(b: Byte)
    requires b != 0xFF
    ensures (b + 1) as int == b as int + 1
  {
  }

  /** Every number below 256 is some byte. */
  lemma {:induction false} ByteWith(n: int) returns (b: Byte)
    requires 0 <= n < 0x100
    ensures b as int == n
    decreases n
  {
    if n == 0 {
      b := 0;
    } else {
      var before := ByteWith(n - 1);
      NextByte(before);
      b := before + 1;
    }
  }

  lemma ByteFits(n: int, b: Byte)
    requires 0 <= n < 0x100 && b as int == n
    ensures n as Byte == b
  {
  }

  lemma ByteRoundTrip(n: int)
    requires 0 <= n < 0x100
    ensures IntOf(ByteOf(n)) == n
  {
    var b := ByteWith(n);
    ByteFits(n, b);
  }

  lemma NumberRoundTrip(b: Byte)
    ensures ByteOf(IntOf(b)) == b
  {
  }

  /** `appendUInt16BigEndian`. */
  function BigEndian(n: Register): (bytes: seq<Byte>)
    ensures |bytes| == 2
  {
    [ByteOf(n / 0x100), ByteOf(n % 0x100)]
  }

  /** `readUInt16BigEndian`. */
  function FromBigEndian(high: Byte, low: Byte): Register {
    IntOf(high) * 0x100 + IntOf(low)
  }

  /** Decoding and encoding a register are inverse both ways. */
  lemma BigEndianRoundTrip(n: Register)
    ensures FromBigEndian(BigEndian(n)[0], BigEndian(n)[1]) == n
  {
    hide ByteOf, IntOf;
    ByteRoundTrip(n / 0x100);
    ByteRoundTrip(n % 0x100);
  }

  /** The first byte is the quotient by 256, the second the remainder. */
  lemma HighByteFirst(n: Register)
    ensures IntOf(BigEndian(n)[0]) == n / 0x100 && IntOf(BigEndian(n)[1]) == n % 0x100
  {
    hide ByteOf, IntOf;
    ByteRoundTrip(n / 0x100);
    ByteRoundTrip(n % 0x100);
  }

  lemma BytesRoundTrip(high: Byte, low: Byte)
    ensures BigEndian(FromBigEndian(high, low)) == [high, low]
  {
    hide ByteOf, IntOf;
    NumberRoundTrip(high);
    NumberRoundTrip(low);
    var n := FromBigEndian(high, low);
    assert n / 0x100 == IntOf(high) && n % 0x100 == IntOf(low);
  }

  // ---------------------------------------------------------------- requests

  predicate IsSupportedReadFunction(functionCode: Byte) {
    functionCode == HoldingRegisters || functionCode == InputRegisters
  }

  predicate ValidRequest(slaveId: int, functionCode: Byte, start: int, quantity: int) {
    && MinSlaveId <= slaveId <= MaxSlaveId
    && IsSupportedReadFunction(functionCode)
    && 0 <= start <= MaxAddress
    && 1 <= quantity <= MaxReadQuantity
    && start + quantity - 1 <= MaxAddress
  }

  function RequestBody(slaveId: int, functionCode: Byte, start: int, quantity: int): (body: seq<Byte>)
    requires ValidRequest(slaveId, functionCode, start, quantity)
    ensures |body| == 6
  {
    [ByteOf(slaveId), functionCode] + BigEndian(start) + BigEndian(quantity)
  }

  function RequestFrame(slaveId: int, functionCode: Byte, start: int, quantity: int): (frame: seq<Byte>)
    requires ValidRequest(slaveId, functionCode, start, quantity)
    ensures |frame| == 8
  {
    AppendCrc(RequestBody(slaveId, functionCode, start, quantity))
  }

  method BuildReadRequest(slaveId: int, functionCode: Byte, start: int, quantity: int)
    returns (frame: Option<seq<Byte>>)
    ensures frame.Some? <==> ValidRequest(slaveId, functionCode, start, quantity)
    ensures frame.Some? ==> frame.value == RequestFrame(slaveId, functionCode, start, quantity)
  {
    hide CrcFrom;
    if slaveId < MinSlaveId || slaveId > MaxSlaveId {
      return None;
    }
    if !IsSupportedReadFunction(functionCode) {
      return None;
    }
    if start < 0 || start > MaxAddress {
      return None;
    }
    if quantity < 1 || quantity > MaxReadQuantity {
      return None;
    }
    if start + quantity - 1 > MaxAddress {
      return None;
    }
    var body: seq<Byte> := [];
    body := body + [ByteOf(slaveId)];
    body := body + [functionCode];
    body := body + BigEndian(start);
    body := body + BigEndian(quantity);
    assert body == RequestBody(slaveId, functionCode, start, quantity);
    frame := Some(AppendCrc(body));
  }

  datatype Request = Request(slaveId: int, functionCode: Byte, start: int, quantity: int)

  /** How a device reads a request. */
  function DecodeRequest(frame: seq<Byte>): Option<Request> {
    if |frame| != 8 || !Accepted(frame) then None
    else Some(Request(IntOf(frame[0]), frame[1], FromBigEndian(frame[2], frame[3]), FromBigEndian(frame[4], frame[5])))
  }

  /** A built request validates and carries exactly what was asked for. */
  lemma RequestRoundTrip(slaveId: int, functionCode: Byte, start: int, quantity: int)
    requires ValidRequest(slaveId, functionCode, start, quantity)
    ensures DecodeRequest(RequestFrame(slaveId, functionCode, start, quantity))
      == Some(Request(slaveId, functionCode, start, quantity))
  {
    hide CrcFrom, Accepted, LowByte, HighByte, ByteOf, IntOf, BigEndian, FromBigEndian;
    AppendedIsAccepted(RequestBody(slaveId, functionCode, start, quantity));
    ByteRoundTrip(slaveId);
    BigEndianRoundTrip(start);
    BigEndianRoundTrip(quantity);
  }

  // ---------------------------------------------------------------- responses

  datatype Reading = Reading(address: int, value: Register)

  datatype Response =
    | Rejected
    | Exception(code: Byte)
    | Registers(values: seq<Register>, readings: seq<Reading>)

  /** Sections 6.3 and 6.4: the registers in order, each high byte first. */
  function RegisterBytes(values: seq<Register>): (bytes: seq<Byte>)
    ensures |bytes| == 2 * |values|
  {
    if values == [] then [] else BigEndian(values[0]) + RegisterBytes(values[1..])
  }

  function ResponseFrame(slaveId: int, functionCode: Byte, values: seq<Register>): seq<Byte>
    requires 0 <= slaveId < 0x100 && 2 * |values| < 0x100
  {
    AppendCrc([ByteOf(slaveId), functionCode, ByteOf(2 * |values|)] + RegisterBytes(values))
  }

  /** Section 7: the function code with its high bit set, then the exception code. */
  function ExceptionFrame(slaveId: int, functionCode: Byte, code: Byte): seq<Byte>
    requires 0 <= slaveId < 0x100
  {
    AppendCrc([ByteOf(slaveId), functionCode | 0x80, code])
  }

  /** What the caller must ask for before the function code of the response is even looked at. */
  predicate ValidExpectation(slaveId: int, functionCode: Byte, start: int, quantity: int) {
    && MinSlaveId <= slaveId <= MaxSlaveId
    && IsSupportedReadFunction(functionCode)
    && 0 <= start <= MaxAddress
    && 1 <= quantity
  }

  function DecodeRegisters(payload: seq<Byte>, count: nat): (values: seq<Register>)
    requires |payload| == 2 * count
    ensures |values| == count
    ensures forall i :: 0 <= i < count ==> values[i] == FromBigEndian(payload[2 * i], payload[2 * i + 1])
  {
    seq(count, i requires 0 <= i < count => FromBigEndian(payload[2 * i], payload[2 * i + 1]))
  }

  function ReadingsFrom(start: int, values: seq<Register>): (readings: seq<Reading>)
    ensures |readings| == |values|
    ensures forall i :: 0 <= i < |values| ==> readings[i] == Reading(start + i, values[i])
  {
    seq(|values|, i requires 0 <= i < |values| => Reading(start + i, values[i]))
  }

  lemma PayloadIs(frame: seq<Byte>, body: seq<Byte>)
    requires |frame| >= 5 && body == frame[..|frame| - 2]
    ensures body[3..] == frame[3..|frame| - 2]
  {
  }

  /** The loop of `parseReadResponse`. */
  method ReadRegisters(body: seq<Byte>, registerCount: nat, start: int)
    returns (values: seq<Register>, readings: seq<Reading>)
    requires |body| == 3 + 2 * registerCount
    ensures values == DecodeRegisters(body[3..], registerCount)
    ensures readings == ReadingsFrom(start, values)
  {
    hide FromBigEndian;
    values, readings := [], [];
    for index := 0 to registerCount
      invariant |values| == |readings| == index
      invariant forall i :: 0 <= i < index ==> values[i] == FromBigEndian(body[3 + 2 * i], body[3 + 2 * i + 1])
      invariant forall i :: 0 <= i < index ==> readings[i] == Reading(start + i, values[i])
    {
      var value := FromBigEndian(body[3 + index * 2], body[3 + index * 2 + 1]);
      values := values + [value];
      readings := readings + [Reading(start + index, value)];
    }
    assert values == DecodeRegisters(body[3..], registerCount);
    assert readings == ReadingsFrom(start, values);
  }

  /** `parseReadResponse`. */
  method ParseReadResponse(frame: seq<Byte>, slaveId: int, functionCode: Byte, start: int, quantity: int)
    returns (response: Response)
    ensures response == Parse(frame, slaveId, functionCode, start, quantity)
  {
    hide Accepted, ByteOf, IntOf, DecodeRegisters, ReadingsFrom;
    if !Accepted(frame) {
      return Rejected;
    }
    AcceptedIsLong(frame);
    var body := frame[..|frame| - 2];
    if |body| < 3 {
      return Rejected;
    }
    if slaveId < MinSlaveId || slaveId > MaxSlaveId {
      return Rejected;
    }
    if !IsSupportedReadFunction(functionCode) {
      return Rejected;
    }
    if start < 0 || start > MaxAddress || quantity < 1 {
      return Rejected;
    }
    if body[0] != ByteOf(slaveId) {
      return Rejected;
    }
    if body[1] == functionCode | 0x80 {
      if |body| != 3 {
        return Rejected;
      }
      return Exception(body[2]);
    }
    if body[1] != functionCode {
      return Rejected;
    }
    var byteCount := IntOf(body[2]);
    if byteCount != |body| - 3 || byteCount % 2 != 0 {
      return Rejected;
    }
    var registerCount := byteCount / 2;
    if registerCount != quantity || start + registerCount - 1 > MaxAddress {
      return Rejected;
    }
    var values, readings := ReadRegisters(body, registerCount, start);
    PayloadIs(frame, body);
    response := Registers(values, readings);
  }

  lemma AcceptedIsLong(frame: seq<Byte>)
    requires Accepted(frame)
    ensures |frame| >= 4
  {
  }

  function Parse(frame: seq<Byte>, slaveId: int, functionCode: Byte, start: int, quantity: int): Response {
    if !Accepted(frame) || |frame| < 5 || !ValidExpectation(slaveId, functionCode, start, quantity)
       || frame[0] != ByteOf(slaveId) then Rejected
    else if frame[1] == functionCode | 0x80 then
      if |frame| == 5 then Exception(frame[2]) else Rejected
    else if frame[1] != functionCode || IntOf(frame[2]) != |frame| - 5 || |frame| - 5 != 2 * quantity
            || start + quantity - 1 > MaxAddress then Rejected
    else
      var values := DecodeRegisters(frame[3..|frame| - 2], quantity);
      Registers(values, ReadingsFrom(start, values))
  }

  // ---------------------------------------------------------------- canonical responses

  lemma {:induction false} RegisterBytesAt(values: seq<Register>, i: nat)
    requires i < |values|
    ensures RegisterBytes(values)[2 * i] == BigEndian(values[i])[0]
    ensures RegisterBytes(values)[2 * i + 1] == BigEndian(values[i])[1]
  {
    hide BigEndian;
    if i > 0 {
      RegisterBytesAt(values[1..], i - 1);
    }
  }

  lemma DecodeInvertsEncode(values: seq<Register>)
    ensures DecodeRegisters(RegisterBytes(values), |values|) == values
  {
    hide FromBigEndian, RegisterBytes;
    forall i | 0 <= i < |values|
      ensures DecodeRegisters(RegisterBytes(values), |values|)[i] == values[i]
    {
      RegisterBytesAt(values, i);
      BigEndianRoundTrip(values[i]);
    }
  }

  lemma EncodeInvertsDecode(payload: seq<Byte>, count: nat)
    requires |payload| == 2 * count
    ensures RegisterBytes(DecodeRegisters(payload, count)) == payload
  {
    hide RegisterBytes, DecodeRegisters, BigEndian, FromBigEndian;
    var values := DecodeRegisters(payload, count);
    var bytes := RegisterBytes(values);
    forall k | 0 <= k < 2 * count
      ensures bytes[k] == payload[k]
    {
      var i := k / 2;
      RegisterBytesAt(values, i);
      BytesRoundTrip(payload[2 * i], payload[2 * i + 1]);
      assert k == 2 * i || k == 2 * i + 1;
    }
  }

  lemma HighBitChanges(functionCode: Byte)
    requires IsSupportedReadFunction(functionCode)
    ensures functionCode | 0x80 != functionCode
  {
  }

  /** What is accepted as registers is the encoding of those registers. */
  lemma AcceptedIsCanonical(frame: seq<Byte>, slaveId: int, functionCode: Byte, start: int, quantity: int,
      values: seq<Register>)
    requires Parse(frame, slaveId, functionCode, start, quantity) == Registers(values, ReadingsFrom(start, values))
    ensures |values| == quantity && 2 * quantity < 0x100
    ensures ValidExpectation(slaveId, functionCode, start, quantity)
    ensures frame == ResponseFrame(slaveId, functionCode, values)
  {
    hide Accepted, CrcFrom, AppendCrc, RegisterBytes, DecodeRegisters, ReadingsFrom, ByteOf, IntOf;
    AcceptedIsAppended(frame);
    EncodeInvertsDecode(frame[3..|frame| - 2], quantity);
    NumberRoundTrip(frame[2]);
    assert frame[..|frame| - 2] == [ByteOf(slaveId), functionCode, ByteOf(2 * quantity)] + RegisterBytes(values);
  }

  /** Every encoding of registers in range is accepted as those registers. */
  lemma CanonicalIsAccepted(slaveId: int, functionCode: Byte, start: int, values: seq<Register>)
    requires ValidExpectation(slaveId, functionCode, start, |values|) && start + |values| - 1 <= MaxAddress
    requires 2 * |values| < 0x100
    ensures Parse(ResponseFrame(slaveId, functionCode, values), slaveId, functionCode, start, |values|)
      == Registers(values, ReadingsFrom(start, values))
  {
    hide Accepted, CrcFrom, LowByte, HighByte, RegisterBytes, DecodeRegisters, ReadingsFrom, ByteOf, IntOf;
    var body := [ByteOf(slaveId), functionCode, ByteOf(2 * |values|)] + RegisterBytes(values);
    var frame := AppendCrc(body);
    AppendedIsAccepted(body);
    HighBitChanges(functionCode);
    ByteRoundTrip(2 * |values|);
    DecodeInvertsEncode(values);
    assert |frame| == |body| + 2 && frame[..|body|] == body;
    assert frame[3..|frame| - 2] == RegisterBytes(values);
  }

  /** The parser accepts exactly the canonical responses: it returns registers if and only if the
      parameters are in range and the frame is the encoding of that many registers for that slave
      and function; the registers it returns are the encoded ones, at consecutive addresses. */
  lemma ParsesExactlyCanonical(frame: seq<Byte>, slaveId: int, functionCode: Byte, start: int, quantity: int,
      values: seq<Register>)
    ensures Parse(frame, slaveId, functionCode, start, quantity) == Registers(values, ReadingsFrom(start, values)) <==>
      && ValidExpectation(slaveId, functionCode, start, quantity)
      && start + quantity - 1 <= MaxAddress
      && |values| == quantity && 2 * quantity < 0x100
      && frame == ResponseFrame(slaveId, functionCode, values)
  {
    hide Parse, ResponseFrame, ReadingsFrom;
    if Parse(frame, slaveId, functionCode, start, quantity) == Registers(values, ReadingsFrom(start, values)) {
      AcceptedInRange(frame, slaveId, functionCode, start, quantity);
      AcceptedIsCanonical(frame, slaveId, functionCode, start, quantity, values);
    }
    if ValidExpectation(slaveId, functionCode, start, quantity) && start + quantity - 1 <= MaxAddress
       && |values| == quantity && 2 * quantity < 0x100 && frame == ResponseFrame(slaveId, functionCode, values) {
      CanonicalIsAccepted(slaveId, functionCode, start, values);
    }
  }

  lemma AcceptedInRange(frame: seq<Byte>, slaveId: int, functionCode: Byte, start: int, quantity: int)
    requires Parse(frame, slaveId, functionCode, start, quantity).Registers?
    ensures ValidExpectation(slaveId, functionCode, start, quantity) && start + quantity - 1 <= MaxAddress
  {
    hide Accepted, ByteOf, IntOf;
  }

  /** Whatever the parser returns as registers comes with readings at consecutive addresses. */
  lemma ReadingsAreConsecutive(frame: seq<Byte>, slaveId: int, functionCode: Byte, start: int, quantity: int)
    requires Parse(frame, slaveId, functionCode, start, quantity).Registers?
    ensures var r := Parse(frame, slaveId, functionCode, start, quantity);
      |r.values| == quantity && r.readings == ReadingsFrom(start, r.values) && start + quantity - 1 <= MaxAddress
  {
    hide Accepted;
  }

  /** Exceptions are recognised exactly in their three-byte body. */
  lemma ExceptionsExactly(frame: seq<Byte>, slaveId: int, functionCode: Byte, start: int, quantity: int, code: Byte)
    ensures Parse(frame, slaveId, functionCode, start, quantity) == Exception(code) <==>
      ValidExpectation(slaveId, functionCode, start, quantity) && frame == ExceptionFrame(slaveId, functionCode, code)
  {
    hide Accepted, CrcFrom, LowByte, HighByte;
    if Parse(frame, slaveId, functionCode, start, quantity) == Exception(code) {
      AcceptedIsAppended(frame);
      assert frame[..|frame| - 2] == [ByteOf(slaveId), functionCode | 0x80, code];
    }
    if ValidExpectation(slaveId, functionCode, start, quantity)
      && frame == ExceptionFrame(slaveId, functionCode, code) {
      AppendedIsAccepted([ByteOf(slaveId), functionCode | 0x80, code]);
    }
  }
}
