/** What an exchange guarantees about the bytes it returns (`serial_rtu_transport.cpp`). */
module RtuTransportTheorems {
  import opened Options
  import opened Crc
  import opened ModbusFrames
  import opened ScanExecution
  import opened RtuFraming
  import opened RtuTransport

  /** The bytes of reads number `from` up to `to`, in order. */
  function Stream(port: Port, from: nat, to: nat): seq<Byte>
    decreases to - from
  {
    if from >= to then [] else port.incoming(from).bytes + Stream(port, from + 1, to)
  }

  /** A read that succeeded for the generation the transport is bound to. */
  predicate Good(port: Port, n: nat) {
    Matches(port, port.incoming(n).operation, ReadKind) && port.incoming(n).operation.status == Succeeded
  }

  ghost predicate AllGood(port: Port, from: nat, to: nat) {
    forall n :: from <= n < to ==> Good(port, n)
  }

  /** Every generation check and every cancellation query answered in between was favourable. */
  ghost predicate Undisturbed(port: Port, from: Used, to: Used) {
    && (forall c :: from.checks <= c < to.checks ==> Current(port, c))
    && (forall p :: from.polls <= p < to.polls ==> !port.cancel(p))
  }

  ghost predicate FromLine(port: Port, bytes: seq<Byte>, used: Used, r: Received) {
    r.verdict == FrameComplete ==>
      && used.taken < r.used.taken && used.checks <= r.used.checks && used.polls <= r.used.polls
      && r.bytes == FirstBytes(bytes + Stream(port, used.taken, r.used.taken))
      && Complete(r.bytes)
      && AllGood(port, used.taken, r.used.taken)
      && Undisturbed(port, used, r.used)
  }

  lemma KeptTurn(port: Port, used: Used)
    requires Turn(port, used).Keeps?
    requires Judge(port, port.incoming(used.taken).operation, Turn(port, used).used).Keeps?
    ensures var after := Judge(port, port.incoming(used.taken).operation, Turn(port, used).used).used;
      && after == Used(used.turns + 1, used.polls + 2, used.checks + 3, used.taken + 1)
      && Good(port, used.taken) && Undisturbed(port, used, after)
  {
  }

  lemma LineJoins(bytes: seq<Byte>, more: seq<Byte>, rest: seq<Byte>)
    requires |bytes| < MaxFrameBytes && |FirstBytes(bytes + more)| < MaxFrameBytes
    ensures FirstBytes(bytes + more) == bytes + more
    ensures FirstBytes(FirstBytes(bytes + more) + rest) == FirstBytes(bytes + (more + rest))
  {
    assert bytes + more + rest == bytes + (more + rest);
  }

  lemma LineAppends(port: Port, bytes: seq<Byte>, used: Used, after: Used, r: Received)
    requires |bytes| < MaxFrameBytes
    requires after.taken == used.taken + 1 && after.checks >= used.checks && after.polls >= used.polls
    requires Good(port, used.taken) && Undisturbed(port, used, after)
    requires var more := port.incoming(used.taken).bytes;
      |FirstBytes(bytes + more)| < MaxFrameBytes && FromLine(port, FirstBytes(bytes + more), after, r)
    ensures FromLine(port, bytes, used, r)
  {
    hide Complete, FirstBytes, Good, Current;
    LineJoins(bytes, port.incoming(used.taken).bytes, Stream(port, after.taken, r.used.taken));
  }

  lemma LineEnds(port: Port, bytes: seq<Byte>, used: Used, after: Used)
    requires |bytes| < MaxFrameBytes
    requires after.taken == used.taken + 1 && after.checks >= used.checks && after.polls >= used.polls
    requires Good(port, used.taken) && Undisturbed(port, used, after)
    requires Complete(FirstBytes(bytes + port.incoming(used.taken).bytes))
    ensures FromLine(port, bytes, used,
      Received(FirstBytes(bytes + port.incoming(used.taken).bytes), FrameComplete, after))
  {
    hide Complete, FirstBytes, Good, Current;
    var more := port.incoming(used.taken).bytes;
    assert Stream(port, after.taken, after.taken) == [];
    assert more + [] == more;
  }

  /** A complete reception is the beginning of the line's bytes, all read for the bound generation. */
  lemma {:induction false} ReceivesFromLine(port: Port, bytes: seq<Byte>, used: Used)
    requires |bytes| < MaxFrameBytes
    ensures FromLine(port, bytes, used, Receive(port, bytes, used))
    decreases port.turns - used.turns
  {
    hide Complete, Turn, Judge, FromLine, Good, Undisturbed;
    var turn := Turn(port, used);
    if turn.Keeps? {
      var more := port.incoming(used.taken).bytes;
      var judged := Judge(port, port.incoming(used.taken).operation, turn.used);
      if judged.Keeps? {
        KeptTurn(port, used);
        if Complete(FirstBytes(bytes + more)) && more != [] {
          LineEnds(port, bytes, used, judged.used);
        } else {
          NotFull(bytes, more);
          ReceivesFromLine(port, FirstBytes(bytes + more), judged.used);
          LineAppends(port, bytes, used, judged.used, Receive(port, FirstBytes(bytes + more), judged.used));
        }
      } else {
        NotComplete(port, bytes, used, judged.verdict, judged.used);
      }
    } else {
      NotComplete(port, bytes, used, turn.verdict, turn.used);
    }
  }

  lemma NotComplete(port: Port, bytes: seq<Byte>, used: Used, verdict: Verdict, after: Used)
    requires verdict != FrameComplete
    ensures FromLine(port, bytes, used, Received(bytes, verdict, after))
  {
  }

  lemma NotFull(bytes: seq<Byte>, more: seq<Byte>)
    requires |bytes| < MaxFrameBytes
    requires more == [] || !Complete(FirstBytes(bytes + more))
    ensures |FirstBytes(bytes + more)| < MaxFrameBytes
    ensures more == [] ==> FirstBytes(bytes + more) == bytes
  {
    hide FrameLength;
    if more == [] {
      assert bytes + more == bytes;
    }
  }

  // ---------------------------------------------------------------- successful exchanges

  /** The reads an exchange makes. */
  function ReadsMade(port: Port, request: seq<Byte>): nat {
    match Send(port, request)
    case NotSent(_) => 0
    case Sent(used) => Receive(port, [], used).used.taken
  }

  function Bytes(port: Port, request: seq<Byte>): seq<Byte> {
    Stream(port, 0, ReadsMade(port, request))
  }

  lemma SentStart(port: Port, request: seq<Byte>)
    ensures Send(port, request).Sent? ==> Send(port, request).used == Used(0, 2, 3, 0)
    ensures Send(port, request).Sent? ==> Undisturbed(port, Used(0, 0, 0, 0), Used(0, 2, 3, 0))
    ensures Send(port, request).NotSent? ==> Send(port, request).outcome.status == Broken
  {
  }

  lemma ConcludedSuccess(port: Port, r: Received)
    requires Conclude(port, r).status == Answered
    ensures r.verdict == FrameComplete && Conclude(port, r).frame == FrameOf(r.bytes)
    ensures Current(port, r.used.checks) && Current(port, r.used.checks + 1)
  {
    hide FrameOf;
  }

  /** A successful exchange returns the frame that begins the bytes it read; every one of those bytes
      came from a read that succeeded for the bound generation, and no query before the return found
      the generation stale or the scan cancelled. */
  lemma SuccessIsTheFrame(port: Port, request: seq<Byte>)
    requires Exchanged(port, request).status == Answered
    ensures FrameInStream(Bytes(port, request)) == Some(Exchanged(port, request).frame)
    ensures AllGood(port, 0, ReadsMade(port, request))
    ensures Send(port, request).Sent? && var end := Receive(port, [], Send(port, request).used).used;
      Undisturbed(port, Used(0, 0, 0, 0), end) && Current(port, end.checks) && Current(port, end.checks + 1)
  {
    hide Send, Receive, Conclude, Complete, FrameOf, FirstBytes, Stream, Good, Current;
    SentStart(port, request);
    var start := Used(0, 2, 3, 0);
    var r := Receive(port, [], start);
    ReceivesFromLine(port, [], start);
    ConcludedSuccess(port, r);
    assert [] + Stream(port, 0, r.used.taken) == Stream(port, 0, r.used.taken);
  }

  /** How the line's bytes were split into reads does not matter: two successful exchanges that read
      from the beginning of the same bytes return the same frame. */
  lemma ChunkingDoesNotMatter(a: Port, b: Port, requestA: seq<Byte>, requestB: seq<Byte>, line: seq<Byte>)
    requires Exchanged(a, requestA).status == Answered && Exchanged(b, requestB).status == Answered
    requires Bytes(a, requestA) <= line && Bytes(b, requestB) <= line
    ensures Exchanged(a, requestA).frame == Exchanged(b, requestB).frame
    ensures FrameInStream(line) == Some(Exchanged(a, requestA).frame)
  {
    hide Exchanged, Bytes, FirstBytes, Complete, FrameOf, Undisturbed;
    SuccessIsTheFrame(a, requestA);
    SuccessIsTheFrame(b, requestB);
    FrameInStreamStays(Bytes(a, requestA), line[|Bytes(a, requestA)|..]);
    FrameInStreamStays(Bytes(b, requestB), line[|Bytes(b, requestB)|..]);
    assert line == Bytes(a, requestA) + line[|Bytes(a, requestA)|..];
    assert line == Bytes(b, requestB) + line[|Bytes(b, requestB)|..];
  }

  // ---------------------------------------------------------------- undisturbed lines

  /** Nobody cancels, the session stays, and the request is written whole. */
  ghost predicate Quiet(port: Port, request: seq<Byte>) {
    && (forall p :: !port.cancel(p))
    && (forall c :: Current(port, c))
    && request != []
    && Matches(port, port.write, WriteKind) && port.write.status == Succeeded && port.write.byteCount == |request|
  }

  lemma QuietTurn(port: Port, request: seq<Byte>, used: Used)
    requires Quiet(port, request) && used.turns < port.turns && Good(port, used.taken)
    ensures Turn(port, used).Keeps?
    ensures Judge(port, port.incoming(used.taken).operation, Turn(port, used).used)
      == Keeps(Used(used.turns + 1, used.polls + 2, used.checks + 3, used.taken + 1))
  {
  }

  lemma {:induction false} QuietReceive(port: Port, request: seq<Byte>, bytes: seq<Byte>, used: Used, n: nat)
    requires Quiet(port, request)
    requires used.taken <= n && used.turns + (n - used.taken) <= port.turns && AllGood(port, used.taken, n)
    requires |bytes| < MaxFrameBytes && !Complete(bytes)
    requires Complete(FirstBytes(bytes + Stream(port, used.taken, n)))
    ensures var r := Receive(port, bytes, used);
      r.verdict == FrameComplete && FrameOf(r.bytes) == FrameOf(FirstBytes(bytes + Stream(port, used.taken, n)))
    decreases n - used.taken
  {
    hide Complete, Turn, Judge, Good, Quiet, FirstBytes, FrameOf;
    if used.taken == n {
      NothingMore(bytes);
    } else {
      QuietTurn(port, request, used);
      var more := port.incoming(used.taken).bytes;
      var rest := Stream(port, used.taken + 1, n);
      var after := Used(used.turns + 1, used.polls + 2, used.checks + 3, used.taken + 1);
      if more != [] && Complete(FirstBytes(bytes + more)) {
        RestIsIgnored(bytes, more, rest);
      } else {
        NotFull(bytes, more);
        LineJoins(bytes, more, rest);
        QuietReceive(port, request, FirstBytes(bytes + more), after, n);
      }
    }
  }

  lemma NothingMore(bytes: seq<Byte>)
    requires |bytes| < MaxFrameBytes
    ensures FirstBytes(bytes + []) == bytes
  {
    assert bytes + [] == bytes;
  }

  lemma RestIsIgnored(bytes: seq<Byte>, more: seq<Byte>, rest: seq<Byte>)
    requires Complete(FirstBytes(bytes + more))
    ensures FrameOf(FirstBytes(bytes + (more + rest))) == FrameOf(FirstBytes(bytes + more))
  {
    hide Complete, FrameOf, FirstBytes;
    FrameInStreamStays(bytes + more, rest);
    assert bytes + more + rest == bytes + (more + rest);
  }

  /** On an undisturbed line, an exchange succeeds as soon as the bytes of the reads it has time for
      hold a frame, and returns that frame, however many reads they came in. */
  lemma QuietExchangeSucceeds(port: Port, request: seq<Byte>, n: nat)
    requires Quiet(port, request) && n <= port.turns && AllGood(port, 0, n)
    requires FrameInStream(Stream(port, 0, n)).Some?
    ensures Exchanged(port, request) ==
      Outcome(Answered, FrameInStream(Stream(port, 0, n)).value, NoReason, false, None)
  {
    hide Complete, FirstBytes, FrameOf, Stream, Receive, Send, AllGood;
    QuietSend(port, request);
    EmptyIsIncomplete();
    var start := Used(0, 2, 3, 0);
    assert [] + Stream(port, 0, n) == Stream(port, 0, n);
    QuietReceive(port, request, [], start, n);
  }

  /** So a device's response is received whole: on an undisturbed line whose bytes begin with it, the
      exchange returns it, whatever follows it and however it is split. */
  lemma QuietResponseArrives(port: Port, request: seq<Byte>, n: nat, slaveId: int, functionCode: Byte,
      values: seq<Register>)
    requires Quiet(port, request) && n <= port.turns && AllGood(port, 0, n)
    requires IsSupportedReadFunction(functionCode) && 0 <= slaveId < 0x100 && 2 * |values| < 0x100
    requires ResponseFrame(slaveId, functionCode, values) <= Stream(port, 0, n)
    ensures Exchanged(port, request) ==
      Outcome(Answered, ResponseFrame(slaveId, functionCode, values), NoReason, false, None)
  {
    hide *;
    var frame, line := ResponseFrame(slaveId, functionCode, values), Stream(port, 0, n);
    assert line == frame + line[|frame|..];
    ResponseIsCut(slaveId, functionCode, values, line[|frame|..]);
    QuietExchangeSucceeds(port, request, n);
  }

  lemma QuietExceptionArrives(port: Port, request: seq<Byte>, n: nat, slaveId: int, functionCode: Byte, code: Byte)
    requires Quiet(port, request) && n <= port.turns && AllGood(port, 0, n)
    requires 0 <= slaveId < 0x100 && ExceptionFrame(slaveId, functionCode, code) <= Stream(port, 0, n)
    ensures Exchanged(port, request) ==
      Outcome(Answered, ExceptionFrame(slaveId, functionCode, code), NoReason, false, None)
  {
    hide *;
    var frame, line := ExceptionFrame(slaveId, functionCode, code), Stream(port, 0, n);
    assert line == frame + line[|frame|..];
    ExceptionIsCut(slaveId, functionCode, code, line[|frame|..]);
    QuietExchangeSucceeds(port, request, n);
  }

  lemma QuietSend(port: Port, request: seq<Byte>)
    requires Quiet(port, request)
    ensures Send(port, request) == Sent(Used(0, 2, 3, 0))
  {
  }

  lemma EmptyIsIncomplete()
    ensures !Complete([])
  {
  }

  // ---------------------------------------------------------------- lines that bring no frame

  /** The use after `k` more reads that were kept. */
  function Further(used: Used, k: nat): Used {
    Used(used.turns + k, used.polls + 2 * k, used.checks + 3 * k, used.taken + k)
  }

  lemma NothingStands(bytes: seq<Byte>, more: seq<Byte>, rest: seq<Byte>)
    requires |bytes| < MaxFrameBytes && !Complete(FirstBytes(bytes + (more + rest)))
    ensures |bytes + more| < MaxFrameBytes && !Complete(bytes + more) && FirstBytes(bytes + more) == bytes + more
    ensures bytes + (more + rest) == (bytes + more) + rest
  {
    hide FrameLength, FrameOf;
    assert bytes + (more + rest) == (bytes + more) + rest;
    if Complete(FirstBytes(bytes + more)) {
      FrameInStreamStays(bytes + more, rest);
    }
  }

  /** Reads that bring no frame are kept and the loop goes on. */
  lemma {:induction false} QuietKeeps(port: Port, request: seq<Byte>, bytes: seq<Byte>, used: Used, n: nat)
    requires Quiet(port, request) && |bytes| < MaxFrameBytes
    requires used.taken <= n && used.turns + (n - used.taken) <= port.turns && AllGood(port, used.taken, n)
    requires !Complete(FirstBytes(bytes + Stream(port, used.taken, n)))
    ensures |bytes + Stream(port, used.taken, n)| < MaxFrameBytes
    ensures Receive(port, bytes, used) ==
      Receive(port, bytes + Stream(port, used.taken, n), Further(used, n - used.taken))
    decreases n - used.taken
  {
    hide Complete, Turn, Judge, Good, Quiet, FirstBytes, FrameOf, Receive, Stream;
    StreamTurn(port, used.taken, n);
    if used.taken == n {
      assert bytes + [] == bytes;
    } else {
      var more, rest := port.incoming(used.taken).bytes, Stream(port, used.taken + 1, n);
      NothingStands(bytes, more, rest);
      QuietTurn(port, request, used);
      ReceiveTurn(port, bytes, used);
      KeptOn(port, bytes, more, Further(used, 1));
      QuietKeeps(port, request, bytes + more, Further(used, 1), n);
    }
  }

  lemma StreamTurn(port: Port, from: nat, end: nat)
    ensures Stream(port, from, end) ==
      if from >= end then [] else port.incoming(from).bytes + Stream(port, from + 1, end)
  {
  }

  lemma KeptOn(port: Port, bytes: seq<Byte>, more: seq<Byte>, used: Used)
    requires |bytes + more| < MaxFrameBytes && !Complete(bytes + more) && FirstBytes(bytes + more) == bytes + more
    ensures Kept(port, bytes, more, used) == Receive(port, bytes + more, used)
  {
    hide Complete, FirstBytes, Receive;
    if more == [] {
      assert bytes + more == bytes;
    }
  }

  /** The end of a line that brought no frame, by the read that ended it or by the deadline. */
  lemma QuietExchangeFails(port: Port, request: seq<Byte>, n: nat)
    requires Quiet(port, request) && n <= port.turns && AllGood(port, 0, n)
    requires FrameInStream(Stream(port, 0, n)).None?
    ensures n == port.turns ==>
      Exchanged(port, request) == Outcome(TimedOut, Stream(port, 0, n), NoResponse, false, None)
    ensures n < port.turns ==> var read := port.incoming(n).operation;
      && (!Matches(port, read, ReadKind) || read.status == RejectedClosed ==>
            Exchanged(port, request) == Outcome(Broken, [], SessionChanged, true, None))
      && (Matches(port, read, ReadKind) && read.status == TimeoutStatus ==>
            Exchanged(port, request) == Outcome(TimedOut, Stream(port, 0, n), NoResponse, false, None))
      && (Matches(port, read, ReadKind) && read.status == CancelledStatus ==>
            Exchanged(port, request) == Outcome(Broken, Stream(port, 0, n), ScanCancelled, true, None))
      && (Matches(port, read, ReadKind)
            && read.status in {AcceptedStatus, RejectedInvalid, RejectedFull, FailedStatus, Disconnected} ==>
            Exchanged(port, request) ==
              Outcome(Broken, Stream(port, 0, n), OperationFailure(read.status, false), false, Some(read)))
  {
    hide *;
    var start, line := Used(0, 2, 3, 0), Stream(port, 0, n);
    QuietSend(port, request);
    NoFrameYet(line);
    assert [] + line == line;
    QuietKeeps(port, request, [], start, n);
    QuietEnd(port, request, line, Further(start, n));
    FurtherIs(start, n);
    ExchangedIs(port, request);
    if n < port.turns {
      QuietRead(port, request, line, Further(start, n));
    }
  }

  lemma FurtherIs(used: Used, k: nat)
    ensures Further(used, k).turns == used.turns + k && Further(used, k).taken == used.taken + k
  {
  }

  lemma NoFrameYet(line: seq<Byte>)
    requires FrameInStream(line).None?
    ensures !Complete(FirstBytes(line)) && |line| < MaxFrameBytes
  {
  }

  lemma ExchangedIs(port: Port, request: seq<Byte>)
    requires Send(port, request) == Sent(Used(0, 2, 3, 0))
    ensures Exchanged(port, request) == Conclude(port, Receive(port, [], Used(0, 2, 3, 0)))
  {
    hide Send, Receive, Conclude;
  }

  lemma QuietEnd(port: Port, request: seq<Byte>, line: seq<Byte>, used: Used)
    requires Quiet(port, request) && |line| < MaxFrameBytes
    ensures used.turns >= port.turns ==>
      Conclude(port, Receive(port, line, used)) == Outcome(TimedOut, line, NoResponse, false, None)
  {
  }

  lemma QuietRead(port: Port, request: seq<Byte>, line: seq<Byte>, used: Used)
    requires Quiet(port, request) && |line| < MaxFrameBytes && used.turns < port.turns
    ensures var read, outcome := port.incoming(used.taken).operation, Conclude(port, Receive(port, line, used));
      && (!Matches(port, read, ReadKind) || read.status == RejectedClosed ==>
            outcome == Outcome(Broken, [], SessionChanged, true, None))
      && (Matches(port, read, ReadKind) && read.status == TimeoutStatus ==>
            outcome == Outcome(TimedOut, line, NoResponse, false, None))
      && (Matches(port, read, ReadKind) && read.status == CancelledStatus ==>
            outcome == Outcome(Broken, line, ScanCancelled, true, None))
      && (Matches(port, read, ReadKind)
            && read.status in {AcceptedStatus, RejectedInvalid, RejectedFull, FailedStatus, Disconnected} ==>
            outcome == Outcome(Broken, line, OperationFailure(read.status, false), false, Some(read)))
  {
    hide Complete, Kept, FrameOf, Receive;
    ReceiveTurn(port, line, used);
  }

  /** The end of an exchange whose request was not written whole, nobody having cancelled it and the
      session having stayed. */
  lemma WriteFails(port: Port, request: seq<Byte>)
    requires (forall p :: !port.cancel(p)) && (forall c :: Current(port, c))
    ensures request == [] ==> Exchanged(port, request) == Outcome(Broken, [], EmptyRequest, false, None)
    ensures request != [] ==> var write := port.write;
      && (!Matches(port, write, WriteKind) || write.status == RejectedClosed ==>
            Exchanged(port, request) == Outcome(Broken, [], SessionChanged, true, None))
      && (Matches(port, write, WriteKind) && write.status == CancelledStatus ==>
            Exchanged(port, request) == Outcome(Broken, [], ScanCancelled, true, None))
      && (Matches(port, write, WriteKind) && write.status !in {Succeeded, CancelledStatus, RejectedClosed} ==>
            Exchanged(port, request) ==
              Outcome(Broken, [], OperationFailure(write.status, true), false, Some(write)))
      && (Matches(port, write, WriteKind) && write.status == Succeeded && write.byteCount != |request| ==>
            Exchanged(port, request) ==
              Outcome(Broken, [], PartialWrite, false, Some(write.(status := FailedStatus))))
  {
    hide Receive, Conclude;
  }

  /** No exchange returns more than a frame's worth of bytes, and one that found its session changed
      returns none. */
  lemma FrameIsBounded(port: Port, request: seq<Byte>)
    ensures |Exchanged(port, request).frame| <= MaxFrameBytes
    ensures Exchanged(port, request).reason == SessionChanged ==> Exchanged(port, request).frame == []
  {
    hide FrameLength;
  }
}
