/** One exchange over the serial line: `SerialRtuTransport::exchange` (`serial_rtu_transport.cpp`).

    The byte stream, the cancellation callback, the generation callback and the clock are arbitrary
    streams of answers. The clock is the number of turns of the read loop that start before the
    deadline: it is a steady clock, so once the deadline has passed the loop ends. */
module RtuTransport {
  import opened Options
  import opened Crc
  import opened ScanExecution
  import opened RtuFraming

  datatype OperationKind = ReadKind | WriteKind | OtherKind

  datatype OperationStatus =
    | AcceptedStatus | Succeeded | RejectedInvalid | RejectedFull | RejectedClosed
    | FailedStatus | TimeoutStatus | CancelledStatus | Disconnected

  datatype OperationResult = OperationResult(kind: OperationKind, generation: nat, status: OperationStatus,
    byteCount: nat)

  datatype ReadResult = ReadResult(operation: OperationResult, bytes: seq<Byte>)

  const UnassignedGeneration: nat := 0

  datatype Port = Port(generation: nat, turns: nat, write: OperationResult, incoming: nat -> ReadResult,
                       cancel: nat -> bool, current: nat -> bool)

  /** Turns of the loop, cancellation queries, generation queries and reads made so far. */
  datatype Used = Used(turns: nat, polls: nat, checks: nat, taken: nat)

  /** Why an exchange ended as it did, in place of its error text. */
  datatype Reason =
    | NoReason | ScanCancelled | SessionChanged | EmptyRequest | PartialWrite | NoResponse
    | OperationFailure(status: OperationStatus, write: bool)

  datatype Outcome = Outcome(status: ExchangeStatus, frame: seq<Byte>, reason: Reason,
                             cancelObserved: bool, failure: Option<OperationResult>)

  predicate Current(port: Port, check: nat) {
    port.generation != UnassignedGeneration && port.current(check)
  }

  predicate Matches(port: Port, result: OperationResult, kind: OperationKind) {
    result.kind == kind && result.generation == port.generation
  }

  // ---------------------------------------------------------------- the specification

  const Stopped := Outcome(Broken, [], ScanCancelled, true, None)
  const Changed := Outcome(Broken, [], SessionChanged, true, None)

  function Failing(result: OperationResult, reason: Reason): Outcome {
    Outcome(Broken, [], reason, false, Some(result))
  }

  datatype Verdict =
    | FrameComplete | DeadlinePassed | CancelSeen | GenerationChanged | ReadFailed(result: OperationResult)

  datatype Received = Received(bytes: seq<Byte>, verdict: Verdict, used: Used)

  /** Whether a read that was made ends the loop, and the queries answered to find out. */
  datatype Judged = Keeps(used: Used) | Ends(verdict: Verdict, used: Used)

  function Judge(port: Port, read: OperationResult, used: Used): (j: Judged)
    ensures j.used.turns == used.turns && j.used.taken == used.taken
    ensures j.Ends? ==> j.verdict != FrameComplete
  {
    if !Matches(port, read, ReadKind) then Ends(GenerationChanged, used)
    else if port.cancel(used.polls) then Ends(CancelSeen, used.(polls := used.polls + 1))
    else
      var asked := used.(polls := used.polls + 1, checks := used.checks + 1);
      if !Current(port, used.checks) && read.status != CancelledStatus && read.status != Disconnected then
        Ends(GenerationChanged, asked)
      else if read.status == CancelledStatus then Ends(CancelSeen, asked)
      else if read.status == RejectedClosed then Ends(GenerationChanged, asked)
      else if read.status == TimeoutStatus then Ends(DeadlinePassed, asked)
      else if read.status != Succeeded then Ends(ReadFailed(read), asked)
      else if !Current(port, asked.checks) then Ends(GenerationChanged, asked.(checks := asked.checks + 1))
      else Keeps(asked.(checks := asked.checks + 1))
  }

  /** Before a read is made: does the turn get that far? */
  function Turn(port: Port, used: Used): (j: Judged)
    ensures j.Keeps? ==> used.turns < port.turns
    ensures j.Keeps? ==> j.used == Used(used.turns + 1, used.polls + 1, used.checks + 1, used.taken + 1)
    ensures j.Ends? ==> j.verdict != FrameComplete
  {
    if used.turns >= port.turns then Ends(DeadlinePassed, used)
    else if port.cancel(used.polls) then Ends(CancelSeen, used.(polls := used.polls + 1))
    else if !Current(port, used.checks) then
      Ends(GenerationChanged, used.(polls := used.polls + 1, checks := used.checks + 1))
    else Keeps(Used(used.turns + 1, used.polls + 1, used.checks + 1, used.taken + 1))
  }

  /** The read loop from a turn on: what is received and why it stops. */
  function Receive(port: Port, bytes: seq<Byte>, used: Used): (r: Received)
    requires |bytes| < MaxFrameBytes
    ensures |r.bytes| <= MaxFrameBytes
    decreases port.turns - used.turns, 0
  {
    var turn := Turn(port, used);
    if turn.Ends? then Received(bytes, turn.verdict, turn.used)
    else
      var read := port.incoming(used.taken);
      var judged := Judge(port, read.operation, turn.used);
      if judged.Ends? then Received(bytes, judged.verdict, judged.used)
      else Kept(port, bytes, read.bytes, judged.used)
  }

  /** The loop from a read that is kept on. */
  function Kept(port: Port, bytes: seq<Byte>, more: seq<Byte>, used: Used): (r: Received)
    requires |bytes| < MaxFrameBytes
    ensures |r.bytes| <= MaxFrameBytes
    decreases port.turns - used.turns, 1
  {
    if more == [] then Receive(port, bytes, used)
    else if Complete(FirstBytes(bytes + more)) then Received(FirstBytes(bytes + more), FrameComplete, used)
    else Receive(port, FirstBytes(bytes + more), used)
  }

  datatype Sending = NotSent(outcome: Outcome) | Sent(used: Used)

  function Send(port: Port, request: seq<Byte>): Sending {
    if port.cancel(0) then NotSent(Stopped)
    else if !Current(port, 0) then NotSent(Changed)
    else if request == [] then NotSent(Outcome(Broken, [], EmptyRequest, false, None))
    else if !Matches(port, port.write, WriteKind) then NotSent(Changed)
    else if port.cancel(1) then NotSent(Stopped)
    else if !Current(port, 1) && port.write.status != CancelledStatus && port.write.status != Disconnected then
      NotSent(Changed)
    else if port.write.status == CancelledStatus then NotSent(Stopped)
    else if port.write.status == RejectedClosed then NotSent(Changed)
    else if port.write.status != Succeeded then
      NotSent(Failing(port.write, OperationFailure(port.write.status, true)))
    else if !Current(port, 2) then NotSent(Changed)
    else if port.write.byteCount != |request| then
      NotSent(Failing(port.write.(status := FailedStatus), PartialWrite))
    else Sent(Used(0, 2, 3, 0))
  }

  /** What the loop leaves before the last two generation checks. */
  function Left(r: Received): Outcome {
    match r.verdict
    case FrameComplete => Outcome(Answered, FrameOf(r.bytes), NoReason, false, None)
    case DeadlinePassed => Outcome(TimedOut, r.bytes, NoReason, false, None)
    case CancelSeen => Outcome(Broken, r.bytes, ScanCancelled, true, None)
    case GenerationChanged => Changed
    case ReadFailed(result) => Outcome(Broken, r.bytes, OperationFailure(result.status, false), false, Some(result))
  }

  /** A generation check after the loop: a stale generation takes the bytes away. */
  function Checked(outcome: Outcome, current: bool): Outcome {
    if current then outcome
    else if outcome.status == Broken then outcome.(frame := [])
    else Changed
  }

  function Conclude(port: Port, r: Received): Outcome {
    var checked := Checked(Checked(Left(r), Current(port, r.used.checks)), Current(port, r.used.checks + 1));
    if checked.status == TimedOut then checked.(reason := NoResponse) else checked
  }

  function Exchanged(port: Port, request: seq<Byte>): Outcome {
    match Send(port, request)
    case NotSent(outcome) => outcome
    case Sent(used) => Conclude(port, Receive(port, [], used))
  }

  // ---------------------------------------------------------------- the class

  class SerialRtuTransport {
    var cancelObserved: bool
    var serialFailure: Option<OperationResult>

    constructor ()
      ensures !cancelObserved && serialFailure == None
    {
      cancelObserved, serialFailure := false, None;
    }

    /** What an exchange adds to the two fields. */
    twostate predicate Recorded(outcome: Outcome)
      reads this
    {
      && cancelObserved == (old(cancelObserved) || outcome.cancelObserved)
      && serialFailure == if outcome.failure.Some? then outcome.failure else old(serialFailure)
    }

    method MarkCancelled() returns (status: ExchangeStatus, reason: Reason)
      modifies this
      ensures status == Broken && reason == ScanCancelled && Recorded(Stopped)
    {
      cancelObserved := true;
      status, reason := Broken, ScanCancelled;
    }

    method MarkGenerationChanged() returns (status: ExchangeStatus, reason: Reason)
      modifies this
      ensures status == Broken && reason == SessionChanged && Recorded(Changed)
    {
      cancelObserved := true;
      status, reason := Broken, SessionChanged;
    }

    method MarkTransportFailure(result: OperationResult, message: Reason)
      returns (status: ExchangeStatus, reason: Reason)
      modifies this
      ensures status == Broken && reason == message && Recorded(Failing(result, message))
    {
      serialFailure := Some(result);
      status, reason := Broken, message;
    }

    /** The first half of `exchange`: the request is written, or the exchange ends. */
    method SendRequest(port: Port, request: seq<Byte>)
      returns (status: ExchangeStatus, reason: Reason, sent: bool, used: Used)
      modifies this
      ensures sent <==> Send(port, request).Sent?
      ensures sent ==> used == Send(port, request).used && unchanged(this)
      ensures !sent ==> var o := Send(port, request).outcome;
        o.frame == [] && o.status == status && o.reason == reason && Recorded(o)
    {
      sent, used := false, Used(0, 2, 3, 0);
      if port.cancel(0) {
        status, reason := MarkCancelled();
        return;
      }
      if !Current(port, 0) {
        status, reason := MarkGenerationChanged();
        return;
      }
      if request == [] {
        status, reason := Broken, EmptyRequest;
        return;
      }
      var write := port.write;
      if !Matches(port, write, WriteKind) {
        status, reason := MarkGenerationChanged();
        return;
      }
      if port.cancel(1) {
        status, reason := MarkCancelled();
        return;
      }
      if !Current(port, 1) && write.status != CancelledStatus && write.status != Disconnected {
        status, reason := MarkGenerationChanged();
        return;
      }
      if write.status == CancelledStatus {
        status, reason := MarkCancelled();
        return;
      }
      if write.status == RejectedClosed {
        status, reason := MarkGenerationChanged();
        return;
      }
      if write.status != Succeeded {
        status, reason := MarkTransportFailure(write, OperationFailure(write.status, true));
        return;
      }
      if !Current(port, 2) {
        status, reason := MarkGenerationChanged();
        return;
      }
      if write.byteCount != |request| {
        status, reason := MarkTransportFailure(write.(status := FailedStatus), PartialWrite);
        return;
      }
      sent := true;
      status, reason := TimedOut, NoReason;
    }

    /** The queries of a turn before its read, and what they mark. */
    method BeginTurn(port: Port, used: Used) returns (judged: Judged, status: ExchangeStatus, reason: Reason)
      requires used.turns < port.turns
      modifies this
      ensures judged == Turn(port, used)
      ensures judged.Keeps? ==> unchanged(this) && status == TimedOut && reason == NoReason
      ensures judged.Ends? ==> Marked(judged.verdict, status, reason)
    {
      status, reason := TimedOut, NoReason;
      if port.cancel(used.polls) {
        status, reason := MarkCancelled();
        return Ends(CancelSeen, used.(polls := used.polls + 1)), status, reason;
      }
      if !Current(port, used.checks) {
        status, reason := MarkGenerationChanged();
        return Ends(GenerationChanged, used.(polls := used.polls + 1, checks := used.checks + 1)), status, reason;
      }
      judged := Keeps(Used(used.turns + 1, used.polls + 1, used.checks + 1, used.taken + 1));
    }

    /** The checks of a read, and what they mark. */
    method CheckRead(port: Port, read: OperationResult, used: Used)
      returns (judged: Judged, status: ExchangeStatus, reason: Reason)
      modifies this
      ensures judged == Judge(port, read, used)
      ensures judged.Keeps? ==> unchanged(this) && status == TimedOut && reason == NoReason
      ensures judged.Ends? ==> Marked(judged.verdict, status, reason)
    {
      status, reason := TimedOut, NoReason;
      if !Matches(port, read, ReadKind) {
        status, reason := MarkGenerationChanged();
        return Ends(GenerationChanged, used), status, reason;
      }
      if port.cancel(used.polls) {
        status, reason := MarkCancelled();
        return Ends(CancelSeen, used.(polls := used.polls + 1)), status, reason;
      }
      var asked := used.(polls := used.polls + 1, checks := used.checks + 1);
      if !Current(port, used.checks) && read.status != CancelledStatus && read.status != Disconnected {
        status, reason := MarkGenerationChanged();
        return Ends(GenerationChanged, asked), status, reason;
      }
      if read.status == CancelledStatus {
        status, reason := MarkCancelled();
        return Ends(CancelSeen, asked), status, reason;
      }
      if read.status == RejectedClosed {
        status, reason := MarkGenerationChanged();
        return Ends(GenerationChanged, asked), status, reason;
      }
      if read.status == TimeoutStatus {
        return Ends(DeadlinePassed, asked), status, reason;
      }
      if read.status != Succeeded {
        status, reason := MarkTransportFailure(read, OperationFailure(read.status, false));
        return Ends(ReadFailed(read), asked), status, reason;
      }
      if !Current(port, asked.checks) {
        status, reason := MarkGenerationChanged();
        return Ends(GenerationChanged, asked.(checks := asked.checks + 1)), status, reason;
      }
      judged := Keeps(asked.(checks := asked.checks + 1));
    }

    /** The read and assemble loop of `exchange`. */
    method ReceiveFrame(port: Port, start: Used)
      returns (status: ExchangeStatus, reason: Reason, response: seq<Byte>, complete: Option<nat>, received: Received)
      modifies this
      ensures received == Receive(port, [], start) && response == received.bytes
      ensures Marked(received.verdict, status, reason)
      ensures complete.Some? <==> received.verdict == FrameComplete
      ensures complete.Some? ==> CutsFrame(response, complete.value)
    {
      hide Receive, Turn, Judge, Complete, FrameOf, FirstBytes, FrameLength, Searched;
      var used := start;
      response, complete := [], None;
      status, reason := TimedOut, NoReason;
      var candidate: nat := MinFrameBytes;
      SearchBegins();
      while used.turns < port.turns
        invariant |response| < MaxFrameBytes && Receive(port, response, used) == Receive(port, [], start)
        invariant Searched(response, candidate) && (candidate <= |response| + 1 || candidate == MinFrameBytes)
        invariant status == TimedOut && reason == NoReason && complete == None && unchanged(this)
        decreases port.turns - used.turns
      {
        ReceiveTurn(port, response, used);
        var judged;
        judged, status, reason := BeginTurn(port, used);
        if judged.Ends? {
          received := Received(response, judged.verdict, judged.used);
          return;
        }
        var remaining := MaxFrameBytes - |response|;
        var read := port.incoming(used.taken);
        judged, status, reason := CheckRead(port, read.operation, judged.used);
        if judged.Ends? {
          received := Received(response, judged.verdict, judged.used);
          return;
        }
        used := judged.used;
        if read.bytes == [] {
          continue;
        }
        var acceptedBytes := if |read.bytes| < remaining then |read.bytes| else remaining;
        GrowsTo(response, read.bytes, acceptedBytes);
        SearchedStays(response, read.bytes[..acceptedBytes], candidate);
        response := response + read.bytes[..acceptedBytes];
        var length;
        length, candidate := ResponseFrameLength(response, candidate);
        CompleteWhen(response);
        if length.Some? && |response| >= length.value {
          complete := length;
          status := Answered;
          received := Received(response, FrameComplete, used);
          return;
        }
        if |response| == MaxFrameBytes {
          complete := Some(|response|);
          status := Answered;
          received := Received(response, FrameComplete, used);
          return;
        }
      }
      ReceiveEnds(port, response, used);
      received := Received(response, DeadlinePassed, used);
    }

    /** What a verdict marks. */
    twostate predicate Marked(verdict: Verdict, status: ExchangeStatus, reason: Reason)
      reads this
    {
      var left := Left(Received([], verdict, Used(0, 0, 0, 0)));
      status == left.status && reason == left.reason && Recorded(left)
    }

    /** `exchange`. */
    method Exchange(port: Port, request: seq<Byte>)
      returns (status: ExchangeStatus, frame: seq<Byte>, reason: Reason)
      modifies this
      ensures var o := Exchanged(port, request);
        status == o.status && frame == o.frame && reason == o.reason && Recorded(o)
    {
      hide Send, Receive, Complete, FrameOf;
      var sent, used;
      frame := [];
      status, reason, sent, used := SendRequest(port, request);
      if !sent {
        return;
      }
      var complete, received;
      status, reason, frame, complete, received := ReceiveFrame(port, used);
      var discard := received.verdict == GenerationChanged;
      if !Current(port, received.used.checks) {
        discard := true;
        if status != Broken {
          status, reason := MarkGenerationChanged();
        }
      }
      if discard {
        frame := [];
      }
      if complete.Some? && |frame| > complete.value {
        frame := frame[..complete.value];
      }
      if !Current(port, received.used.checks + 1) {
        frame := [];
        if status != Broken {
          status, reason := MarkGenerationChanged();
        }
      }
      if status == Answered || status == Broken {
        return;
      }
      reason := NoResponse;
    }
  }

  ghost predicate CutsFrame(response: seq<Byte>, length: nat) {
    length <= |response| && response[..length] == FrameOf(response)
  }

  lemma SearchBegins()
    ensures Searched([], MinFrameBytes)
  {
  }

  lemma ReceiveTurn(port: Port, bytes: seq<Byte>, used: Used)
    requires |bytes| < MaxFrameBytes && used.turns < port.turns
    ensures Turn(port, used).Ends? ==>
      Receive(port, bytes, used) == Received(bytes, Turn(port, used).verdict, Turn(port, used).used)
    ensures Turn(port, used).Keeps? ==>
      var read := port.incoming(used.taken);
      var judged := Judge(port, read.operation, Turn(port, used).used);
      && judged.used.turns == used.turns + 1
      && (judged.Ends? ==> Receive(port, bytes, used) == Received(bytes, judged.verdict, judged.used))
      && (judged.Keeps? ==> Receive(port, bytes, used) == Kept(port, bytes, read.bytes, judged.used))
  {
    hide Turn, Judge, Complete;
  }

  lemma ReceiveEnds(port: Port, bytes: seq<Byte>, used: Used)
    requires |bytes| < MaxFrameBytes && used.turns >= port.turns
    ensures Receive(port, bytes, used) == Received(bytes, DeadlinePassed, used)
  {
  }

  lemma GrowsTo(bytes: seq<Byte>, more: seq<Byte>, count: nat)
    requires |bytes| < MaxFrameBytes && count <= |more|
    requires count == if |more| < MaxFrameBytes - |bytes| then |more| else MaxFrameBytes - |bytes|
    ensures bytes + more[..count] == FirstBytes(bytes + more)
  {
  }

  lemma CompleteWhen(bytes: seq<Byte>)
    ensures Complete(bytes) <==>
      (FrameLength(bytes).Some? && FrameLength(bytes).value <= |bytes|) || |bytes| == MaxFrameBytes
    ensures FrameLength(bytes).Some? && FrameLength(bytes).value <= |bytes| ==>
      CutsFrame(bytes, FrameLength(bytes).value)
    ensures !(FrameLength(bytes).Some? && FrameLength(bytes).value <= |bytes|) ==> CutsFrame(bytes, |bytes|)
  {
    hide FrameLength;
  }
}
