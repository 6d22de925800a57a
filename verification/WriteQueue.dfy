/** The serial write queue as a state machine on values (`serial_write_queue.cpp`). */
module WriteQueue {
  import opened Options

  type Id = nat
  type Generation = nat
  type Deadline = Option<int>

  const MaxId: nat := 0xFFFF_FFFF_FFFF_FFFF
  const Unassigned: nat := 0

  datatype Status =
    | Accepted | RejectedInvalid | RejectedFull | Sent | Failed | Timeout | Cancelled | Disconnected | Closed

  datatype Limits = Limits(requestCapacity: nat, byteCapacity: nat)

  datatype Request = Request(id: Id, generation: Generation, payload: seq<bv8>, payloadBytes: nat,
                             timeoutMs: int, deadline: Deadline)

  datatype Reservation = Reservation(requestId: Id, generation: Generation, payloadBytes: nat, deadline: Deadline)

  datatype Result = Result(requestId: Id, generation: Generation, status: Status, byteCount: nat, deadline: Deadline)

  /** The fields of the class. */
  datatype Queue = Queue(limits: Limits, generation: Generation, nextRequestId: nat, pendingBytes: nat,
                         highWaterCount: nat, highWaterBytes: nat, pending: seq<Request>, active: Option<Reservation>)

  function Fresh(limits: Limits): Queue {
    Queue(limits, Unassigned, 1, 0, 0, 0, [], None)
  }

  predicate Terminal(status: Status) {
    status in {Sent, Failed, Timeout, Cancelled, Disconnected, Closed}
  }

  // ---------------------------------------------------------------- what the queue counts

  predicate Empty(q: Queue) {
    q.pending == [] && q.active == None
  }

  function CountedCount(q: Queue): nat {
    |q.pending| + if q.active.Some? then 1 else 0
  }

  function CountedBytes(q: Queue): nat {
    q.pendingBytes + if q.active.Some? then q.active.value.payloadBytes else 0
  }

  function Max(a: nat, b: nat): nat {
    if a < b then b else a
  }

  function Reject(status: Status, generation: Generation, deadline: Deadline): Result {
    Result(0, generation, status, 0, deadline)
  }

  function RejectCompletion(id: Id, generation: Generation): Result {
    Result(id, generation, RejectedInvalid, 0, None)
  }

  // ---------------------------------------------------------------- operations

  function BeginGeneration(q: Queue, generation: Generation): (Queue, bool) {
    if generation == Unassigned || !Empty(q) then (q, false)
    else (q.(generation := generation, highWaterCount := 0, highWaterBytes := 0), true)
  }

  function ReserveId(q: Queue): (Queue, Option<Id>) {
    if q.nextRequestId == 0 then (q, None)
    else (q.(nextRequestId := if q.nextRequestId == MaxId then 0 else q.nextRequestId + 1), Some(q.nextRequestId))
  }

  /** Why `enqueue` would turn a request away before it reserves an ID. */
  function Refusal(q: Queue, payload: seq<bv8>, timeoutMs: int, generation: Generation): Option<Status> {
    if payload == [] || timeoutMs <= 0 || q.limits.requestCapacity == 0 || q.limits.byteCapacity == 0 then
      Some(RejectedInvalid)
    else if generation != q.generation && (!Empty(q) || q.generation != Unassigned) then Some(RejectedInvalid)
    else if CountedCount(q) >= q.limits.requestCapacity || |payload| > q.limits.byteCapacity
            || CountedBytes(q) > q.limits.byteCapacity - |payload| then Some(RejectedFull)
    else None
  }

  /** A request that is taken in: the last half of `enqueue`. */
  function Admit(q: Queue, request: Request): Queue {
    var starts := q.generation == Unassigned && request.generation != Unassigned;
    var longer := q.(generation := if starts then request.generation else q.generation,
                     pending := q.pending + [request],
                     pendingBytes := q.pendingBytes + request.payloadBytes);
    longer.(highWaterCount := Max(if starts then 0 else q.highWaterCount, CountedCount(longer)),
            highWaterBytes := Max(if starts then 0 else q.highWaterBytes, CountedBytes(longer)))
  }

  /** `enqueue`; `byTimeout` is the deadline that the timeout gives on the caller's clock. */
  function Enqueue(q: Queue, payload: seq<bv8>, timeoutMs: int, generation: Generation, deadline: Deadline,
      byTimeout: int)
    : (Queue, Result)
  {
    var refusal := Refusal(q, payload, timeoutMs, generation);
    if refusal.Some? then (q, Reject(refusal.value, generation, deadline))
    else
      var (next, id) := ReserveId(q);
      if id.None? then (q, Reject(RejectedInvalid, generation, deadline))
      else
        var due := if deadline.Some? then deadline else Some(byTimeout);
        var request := Request(id.value, generation, payload, |payload|, timeoutMs, due);
        (Admit(next, request), Result(id.value, generation, Accepted, |payload|, due))
  }

  function ActivateNext(q: Queue): (Queue, Option<Request>) {
    if q.active.Some? || q.pending == [] then (q, None)
    else
      var r := q.pending[0];
      (q.(pending := q.pending[1..],
          pendingBytes := if q.pendingBytes >= r.payloadBytes then q.pendingBytes - r.payloadBytes else 0,
          active := Some(Reservation(r.id, r.generation, r.payloadBytes, r.deadline))), Some(r))
  }

  function CancelledResult(r: Request): Result {
    Result(r.id, r.generation, Cancelled, 0, r.deadline)
  }

  /** The position of the first pending request that carries an ID and, when one is asked for, a generation. */
  function Find(pending: seq<Request>, id: Id, generation: Option<Generation>): (i: nat)
    ensures i <= |pending|
    ensures i < |pending| ==> pending[i].id == id && (generation.Some? ==> pending[i].generation == generation.value)
    ensures forall k :: 0 <= k < i ==>
      !(pending[k].id == id && (generation.Some? ==> pending[k].generation == generation.value))
  {
    if pending == [] then 0
    else if pending[0].id == id && (generation.Some? ==> pending[0].generation == generation.value) then 0
    else 1 + Find(pending[1..], id, generation)
  }

  function RemovePending(q: Queue, i: nat): (Queue, Result)
    requires i < |q.pending|
  {
    var r := q.pending[i];
    (q.(pending := q.pending[..i] + q.pending[i + 1..],
        pendingBytes := if q.pendingBytes >= r.payloadBytes then q.pendingBytes - r.payloadBytes else 0),
     CancelledResult(r))
  }

  /** `cancelPending` by request ID. */
  function CancelPending(q: Queue, id: Id): (Queue, Result) {
    var i := Find(q.pending, id, None);
    if id == 0 || i == |q.pending| then (q, Reject(RejectedInvalid, Unassigned, None))
    else RemovePending(q, i)
  }

  /** `cancelPending` by cancellation token. */
  function CancelByToken(q: Queue, id: Id, generation: Generation): (Queue, Result) {
    if id == 0 then (q, Reject(RejectedInvalid, Unassigned, None))
    else if Find(q.pending, id, Some(generation)) == |q.pending| then (q, RejectCompletion(id, generation))
    else CancelPending(q, id)
  }

  function CancelledResults(pending: seq<Request>): (results: seq<Result>)
    ensures |results| == |pending|
    ensures forall i :: 0 <= i < |pending| ==> results[i] == CancelledResult(pending[i])
  {
    seq(|pending|, i requires 0 <= i < |pending| => CancelledResult(pending[i]))
  }

  function CancelAllPending(q: Queue): (Queue, seq<Result>) {
    (q.(pending := [], pendingBytes := 0), CancelledResults(q.pending))
  }

  function CompleteActive(q: Queue, id: Id, generation: Generation, status: Status, byteCount: nat): (Queue, Result) {
    if !Terminal(status) || q.active.None? || q.active.value.requestId != id || q.active.value.generation != generation
       || byteCount > q.active.value.payloadBytes then (q, RejectCompletion(id, generation))
    else
      var a := q.active.value;
      var settled := if status == Sent && byteCount != a.payloadBytes then Failed else status;
      (q.(active := None), Result(a.requestId, a.generation, settled, byteCount, a.deadline))
  }
}
