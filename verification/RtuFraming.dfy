/** Where a response frame ends: `responseFrameLength` (`serial_rtu_transport.cpp`). */
module RtuFraming {
  import opened Options
  import opened Crc
  import opened ModbusFrames

  const MinFrameBytes: nat := 4
  const MaxFrameBytes: nat := 260

  /** The length of the shortest prefix of at least `from` bytes that passes the CRC check. */
  function ShortestValid(bytes: seq<Byte>, from: nat): (length: Option<nat>)
    ensures length.Some? ==> from <= length.value <= |bytes|
    decreases |bytes| + 1 - from
  {
    if from > |bytes| then None
    else if Accepted(bytes[..from]) then Some(from)
    else ShortestValid(bytes, from + 1)
  }

  predicate IsException(functionCode: Byte) {
    functionCode & 0x80 != 0
  }

  /** The length of the frame that `bytes` begins, if it can be told yet; a search from scratch. */
  function FrameLength(bytes: seq<Byte>): Option<nat> {
    if |bytes| < 2 then None
    else if IsException(bytes[1]) then Some(5)
    else if IsSupportedReadFunction(bytes[1]) then
      if |bytes| < 3 then None else Some(5 + IntOf(bytes[2]))
    else ShortestValid(bytes, MinFrameBytes)
  }

  /** No prefix shorter than `next` is a frame. */
  ghost predicate Searched(bytes: seq<Byte>, next: nat) {
    && MinFrameBytes <= next
    && forall n :: MinFrameBytes <= n < next && n <= |bytes| ==> !Accepted(bytes[..n])
  }

  lemma SearchedSkips(bytes: seq<Byte>, from: nat, next: nat)
    requires MinFrameBytes <= from <= next && Searched(bytes, next)
    ensures ShortestValid(bytes, from) == ShortestValid(bytes, next)
    decreases next - from
  {
    hide Accepted;
    if from < next && from <= |bytes| {
      SearchedSkips(bytes, from + 1, next);
    }
  }

  /** `responseFrameLength`: the search goes on from where the last call left it, and finds what a
      search from scratch would. */
  method ResponseFrameLength(response: seq<Byte>, candidate: nat) returns (length: Option<nat>, next: nat)
    requires Searched(response, candidate)
    ensures length == FrameLength(response)
    ensures length.None? || length.value > |response| ==> Searched(response, next)
    ensures candidate <= next <= (if candidate <= |response| then |response| + 1 else candidate)
  {
    hide Accepted;
    next := candidate;
    if |response| < 2 {
      return None, next;
    }
    if IsException(response[1]) {
      return Some(5), next;
    }
    if IsSupportedReadFunction(response[1]) {
      if |response| < 3 {
        return None, next;
      }
      return Some(5 + IntOf(response[2])), next;
    }
    while next <= |response|
      invariant candidate <= next && (next > candidate ==> next <= |response| + 1)
      invariant Searched(response, next)
      decreases |response| + 1 - next
    {
      if Accepted(response[..next]) {
        SearchedSkips(response, MinFrameBytes, next);
        return Some(next), next;
      }
      next := next + 1;
    }
    SearchedSkips(response, MinFrameBytes, next);
    length := None;
  }

  /** What was searched stays searched when more bytes arrive after what there was. */
  lemma SearchedStays(bytes: seq<Byte>, more: seq<Byte>, next: nat)
    requires Searched(bytes, next) && (next <= |bytes| + 1 || next == MinFrameBytes)
    ensures Searched(bytes + more, next)
  {
    hide Accepted;
    forall n | MinFrameBytes <= n < next && n <= |bytes + more|
      ensures !Accepted((bytes + more)[..n])
    {
      assert (bytes + more)[..n] == bytes[..n];
    }
  }

  // ---------------------------------------------------------------- frames in a stream

  predicate Complete(bytes: seq<Byte>) {
    (FrameLength(bytes).Some? && FrameLength(bytes).value <= |bytes|) || |bytes| == MaxFrameBytes
  }

  function FrameOf(bytes: seq<Byte>): (frame: seq<Byte>)
    ensures frame <= bytes
  {
    if FrameLength(bytes).Some? && FrameLength(bytes).value <= |bytes| then bytes[..FrameLength(bytes).value] else bytes
  }

  lemma {:induction false} ShortestValidStays(bytes: seq<Byte>, more: seq<Byte>, from: nat)
    requires ShortestValid(bytes, from).Some?
    ensures ShortestValid(bytes + more, from) == ShortestValid(bytes, from)
    decreases |bytes| + 1 - from
  {
    hide Accepted;
    assert (bytes + more)[..from] == bytes[..from];
    if !Accepted(bytes[..from]) {
      ShortestValidStays(bytes, more, from + 1);
    }
  }

  lemma FrameLengthStays(bytes: seq<Byte>, more: seq<Byte>)
    requires FrameLength(bytes).Some?
    ensures FrameLength(bytes + more) == FrameLength(bytes)
  {
    hide ShortestValid, IntOf;
    if !IsException(bytes[1]) && !IsSupportedReadFunction(bytes[1]) {
      ShortestValidStays(bytes, more, MinFrameBytes);
    }
  }

  /** Once a frame is complete, bytes after it change nothing. */
  lemma CompleteStays(bytes: seq<Byte>, more: seq<Byte>)
    requires Complete(bytes) && |bytes + more| <= MaxFrameBytes
    ensures Complete(bytes + more) && FrameOf(bytes + more) == FrameOf(bytes)
  {
    hide FrameLength;
    if FrameLength(bytes).Some? && FrameLength(bytes).value <= |bytes| {
      FrameLengthStays(bytes, more);
    } else {
      assert bytes + more == bytes;
    }
  }

  function FirstBytes(stream: seq<Byte>): (bytes: seq<Byte>)
    ensures |bytes| <= MaxFrameBytes && bytes <= stream
  {
    if |stream| <= MaxFrameBytes then stream else stream[..MaxFrameBytes]
  }

  /** The frame a stream of bytes begins with, however its bytes arrive. */
  function FrameInStream(stream: seq<Byte>): Option<seq<Byte>> {
    if Complete(FirstBytes(stream)) then Some(FrameOf(FirstBytes(stream))) else None
  }

  lemma FrameInStreamStays(stream: seq<Byte>, more: seq<Byte>)
    requires Complete(FirstBytes(stream))
    ensures FrameInStream(stream + more) == FrameInStream(stream)
  {
    hide Complete, FrameOf;
    var longer := FirstBytes(stream + more);
    var rest := longer[|FirstBytes(stream)|..];
    assert longer == FirstBytes(stream) + rest;
    CompleteStays(FirstBytes(stream), rest);
  }

  // ---------------------------------------------------------------- real responses

  lemma ResponseShape(slaveId: int, functionCode: Byte, values: seq<Register>)
    requires 0 <= slaveId < 0x100 && 2 * |values| < 0x100
    ensures var frame := ResponseFrame(slaveId, functionCode, values);
      |frame| == 5 + 2 * |values| && frame[1] == functionCode && frame[2] == ByteOf(2 * |values|)
  {
    hide CrcFrom, LowByte, HighByte, RegisterBytes, ByteOf;
  }

  lemma ExceptionShape(slaveId: int, functionCode: Byte, code: Byte)
    requires 0 <= slaveId < 0x100
    ensures var frame := ExceptionFrame(slaveId, functionCode, code);
      |frame| == 5 && frame[1] == functionCode | 0x80
  {
    hide CrcFrom, LowByte, HighByte, ByteOf;
  }

  lemma HighBits(functionCode: Byte)
    ensures IsSupportedReadFunction(functionCode) ==> !IsException(functionCode)
    ensures IsException(functionCode | 0x80)
  {
  }

  /** A frame whose length is told by its own bytes is what a stream that begins with it begins with. */
  lemma BeginsStream(frame: seq<Byte>, rest: seq<Byte>)
    requires FrameLength(frame) == Some(|frame|) && |frame| <= MaxFrameBytes
    ensures FrameInStream(frame + rest) == Some(frame)
  {
    hide FrameLength;
    assert frame[..|frame|] == frame;
    FrameInStreamStays(frame, rest);
  }

  /** The response of sections 6.3 and 6.4 is cut out of the stream where it ends, whatever follows it. */
  lemma ResponseIsCut(slaveId: int, functionCode: Byte, values: seq<Register>, rest: seq<Byte>)
    requires IsSupportedReadFunction(functionCode) && 0 <= slaveId < 0x100 && 2 * |values| < 0x100
    ensures FrameInStream(ResponseFrame(slaveId, functionCode, values) + rest)
      == Some(ResponseFrame(slaveId, functionCode, values))
  {
    hide ResponseFrame, IsException, IsSupportedReadFunction, ByteOf, IntOf, ShortestValid, FrameInStream;
    ResponseShape(slaveId, functionCode, values);
    HighBits(functionCode);
    ByteRoundTrip(2 * |values|);
    BeginsStream(ResponseFrame(slaveId, functionCode, values), rest);
  }

  /** So is the exception response of section 7, for any function code. */
  lemma ExceptionIsCut(slaveId: int, functionCode: Byte, code: Byte, rest: seq<Byte>)
    requires 0 <= slaveId < 0x100
    ensures FrameInStream(ExceptionFrame(slaveId, functionCode, code) + rest)
      == Some(ExceptionFrame(slaveId, functionCode, code))
  {
    hide ExceptionFrame, IsException, IsSupportedReadFunction, IntOf, ShortestValid, FrameInStream;
    ExceptionShape(slaveId, functionCode, code);
    HighBits(functionCode);
    BeginsStream(ExceptionFrame(slaveId, functionCode, code), rest);
  }

  /** Under any other function code, a frame ends where the CRC check first passes. */
  lemma OtherFrameIsCut(frame: seq<Byte>, rest: seq<Byte>)
    requires Accepted(frame) && |frame| <= MaxFrameBytes
    requires !IsException(frame[1]) && !IsSupportedReadFunction(frame[1])
    requires forall n :: MinFrameBytes <= n < |frame| ==> !Accepted(frame[..n])
    ensures FrameInStream(frame + rest) == Some(frame)
  {
    hide Accepted, FrameInStream, IsException, IsSupportedReadFunction;
    AcceptedIsLong(frame);
    SearchedSkips(frame, MinFrameBytes, |frame|);
    assert frame[..|frame|] == frame;
    BeginsStream(frame, rest);
  }
}
