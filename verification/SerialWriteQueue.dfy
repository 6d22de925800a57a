/** The serial write queue as the class it is (`serial_write_queue.cpp`): every method makes the step of
    the same name in `WriteQueue`. */
module SerialWriteQueues {
  import opened Options
  import opened WriteQueue

  function Bytes(pending: seq<Request>): nat {
    if pending == [] then 0 else Bytes(pending[..|pending| - 1]) + pending[|pending| - 1].payloadBytes
  }

  lemma BytesSplit(a: seq<Request>, b: seq<Request>)
    ensures Bytes(a + b) == Bytes(a) + Bytes(b)
  {
    if b == [] {
      assert a + b == a;
    } else {
      BytesSplit(a, b[..|b| - 1]);
      assert (a + b)[..|a + b| - 1] == a + b[..|b| - 1];
    }
  }

  lemma BytesOfOne(r: Request)
    ensures Bytes([r]) == r.payloadBytes
  {
    assert [r][..0] == [];
  }

  lemma BytesWithout(pending: seq<Request>, i: nat)
    requires i < |pending|
    ensures Bytes(pending[..i] + pending[i + 1..]) == Bytes(pending) - pending[i].payloadBytes
  {
    hide Bytes;
    var before, one, after := pending[..i], [pending[i]], pending[i + 1..];
    assert pending == before + (one + after);
    BytesSplit(before, one + after);
    BytesSplit(one, after);
    BytesSplit(before, after);
    BytesOfOne(pending[i]);
  }

  class SerialWriteQueue {
    const limits: Limits
    var generation: Generation
    var nextRequestId: nat
    var pendingBytes: nat
    var highWaterCount: nat
    var highWaterBytes: nat
    var pending: seq<Request>
    var active: Option<Reservation>

    ghost predicate Valid()
      reads this
    {
      nextRequestId <= MaxId && pendingBytes == Bytes(pending)
    }

    ghost function Now(): Queue
      reads this
    {
      Queue(limits, generation, nextRequestId, pendingBytes, highWaterCount, highWaterBytes, pending, active)
    }

    constructor (limits: Limits)
      ensures Valid() && Now() == Fresh(limits)
    {
      this.limits := limits;
      generation, nextRequestId, pendingBytes, highWaterCount, highWaterBytes := Unassigned, 1, 0, 0, 0;
      pending, active := [], None;
    }

    method BeginGeneration(next: Generation) returns (begun: bool)
      requires Valid()
      modifies this
      ensures Valid() && (Now(), begun) == WriteQueue.BeginGeneration(old(Now()), next)
    {
      if next == Unassigned || !(pending == [] && active == None) {
        return false;
      }
      generation := next;
      highWaterCount, highWaterBytes := 0, 0;
      begun := true;
    }

    method ReserveRequestId() returns (id: Option<Id>)
      requires Valid()
      modifies this
      ensures Valid() && (Now(), id) == ReserveId(old(Now()))
    {
      if nextRequestId == 0 {
        return None;
      }
      id := Some(nextRequestId);
      if nextRequestId == MaxId {
        nextRequestId := 0;
      } else {
        nextRequestId := nextRequestId + 1;
      }
    }

    function Count(): nat
      reads this
    {
      |pending| + if active.Some? then 1 else 0
    }

    function ByteCount(): nat
      reads this
    {
      pendingBytes + if active.Some? then active.value.payloadBytes else 0
    }

    /** The last half of `enqueue`. */
    method Append(request: Request)
      requires Valid()
      modifies this
      ensures Valid() && Now() == Admit(old(Now()), request)
    {
      hide Bytes;
      if generation == Unassigned && request.generation != Unassigned {
        generation := request.generation;
        highWaterCount, highWaterBytes := 0, 0;
      }
      BytesSplit(pending, [request]);
      BytesOfOne(request);
      pending := pending + [request];
      pendingBytes := pendingBytes + request.payloadBytes;
      highWaterCount := Max(highWaterCount, Count());
      highWaterBytes := Max(highWaterBytes, ByteCount());
    }

    method Enqueue(payload: seq<bv8>, timeoutMs: int, requested: Generation, deadline: Deadline, byTimeout: int)
      returns (result: Result)
      requires Valid()
      modifies this
      ensures Valid()
      ensures (Now(), result) == WriteQueue.Enqueue(old(Now()), payload, timeoutMs, requested, deadline, byTimeout)
    {
      hide Bytes, Admit;
      if payload == [] {
        return Reject(RejectedInvalid, requested, deadline);
      }
      if timeoutMs <= 0 {
        return Reject(RejectedInvalid, requested, deadline);
      }
      if limits.requestCapacity == 0 || limits.byteCapacity == 0 {
        return Reject(RejectedInvalid, requested, deadline);
      }
      if requested != generation && (!(pending == [] && active == None) || generation != Unassigned) {
        return Reject(RejectedInvalid, requested, deadline);
      }
      if Count() >= limits.requestCapacity || |payload| > limits.byteCapacity
         || ByteCount() > limits.byteCapacity - |payload| {
        return Reject(RejectedFull, requested, deadline);
      }
      var id := ReserveRequestId();
      if id.None? {
        return Reject(RejectedInvalid, requested, deadline);
      }
      var due := if deadline.Some? then deadline else Some(byTimeout);
      Append(Request(id.value, requested, payload, |payload|, timeoutMs, due));
      result := Result(id.value, requested, Accepted, |payload|, due);
    }

    method ActivateNext() returns (request: Option<Request>)
      requires Valid()
      modifies this
      ensures Valid() && (Now(), request) == WriteQueue.ActivateNext(old(Now()))
    {
      hide Bytes;
      if active.Some? || pending == [] {
        return None;
      }
      var first := pending[0];
      BytesWithout(pending, 0);
      assert pending[..0] + pending[1..] == pending[1..];
      pending := pending[1..];
      pendingBytes := pendingBytes - first.payloadBytes;
      active := Some(Reservation(first.id, first.generation, first.payloadBytes, first.deadline));
      request := Some(first);
    }

    /** `std::find_if` over the pending requests. */
    method FindPending(id: Id, wanted: Option<Generation>) returns (found: nat)
      ensures found == Find(pending, id, wanted)
    {
      found := 0;
      while found < |pending|
        invariant found <= |pending| && Find(pending, id, wanted) == found + Find(pending[found..], id, wanted)
      {
        var r := pending[found];
        assert pending[found..][0] == r && pending[found..][1..] == pending[found + 1..];
        if r.id == id && (wanted.Some? ==> r.generation == wanted.value) {
          return;
        }
        found := found + 1;
      }
    }

    method CancelPending(id: Id) returns (result: Result)
      requires Valid()
      modifies this
      ensures Valid() && (Now(), result) == WriteQueue.CancelPending(old(Now()), id)
    {
      hide Bytes, Find;
      if id == 0 {
        return Reject(RejectedInvalid, Unassigned, None);
      }
      var found := FindPending(id, None);
      if found == |pending| {
        return Reject(RejectedInvalid, Unassigned, None);
      }
      var r := pending[found];
      BytesWithout(pending, found);
      result := CancelledResult(r);
      pendingBytes := pendingBytes - r.payloadBytes;
      pending := pending[..found] + pending[found + 1..];
    }

    method CancelByToken(id: Id, wanted: Generation) returns (result: Result)
      requires Valid()
      modifies this
      ensures Valid() && (Now(), result) == WriteQueue.CancelByToken(old(Now()), id, wanted)
    {
      hide Bytes, Find, WriteQueue.CancelPending;
      if id == 0 {
        return Reject(RejectedInvalid, Unassigned, None);
      }
      var found := FindPending(id, Some(wanted));
      if found == |pending| {
        return RejectCompletion(id, wanted);
      }
      result := CancelPending(pending[found].id);
    }

    method CancelAllPending() returns (results: seq<Result>)
      requires Valid()
      modifies this
      ensures Valid() && (Now(), results) == WriteQueue.CancelAllPending(old(Now()))
    {
      results := [];
      ghost var all := pending;
      ghost var rest := Now();
      while pending != []
        invariant |results| <= |all| && pending == all[|results|..]
        invariant forall i :: 0 <= i < |results| ==> results[i] == CancelledResult(all[i])
        invariant Now() == rest.(pending := pending)
        decreases |pending|
      {
        var request := pending[0];
        pending := pending[1..];
        results := results + [CancelledResult(request)];
      }
      pendingBytes := 0;
      assert results == CancelledResults(all);
    }

    method CompleteActive(id: Id, requested: Generation, status: Status, byteCount: nat) returns (result: Result)
      requires Valid()
      modifies this
      ensures Valid() && (Now(), result) == WriteQueue.CompleteActive(old(Now()), id, requested, status, byteCount)
    {
      if !Terminal(status) || active.None? {
        return RejectCompletion(id, requested);
      }
      if active.value.requestId != id || active.value.generation != requested {
        return RejectCompletion(id, requested);
      }
      if byteCount > active.value.payloadBytes {
        return RejectCompletion(id, requested);
      }
      var completed := active.value;
      active := None;
      var settled := status;
      if status == Sent && byteCount != completed.payloadBytes {
        settled := Failed;
      }
      result := Result(completed.requestId, completed.generation, settled, byteCount, completed.deadline);
    }
  }
}
