/** Runs of the serial write queue: what holds after any sequence of calls (`serial_write_queue.cpp`). */
module WriteQueueRuns {
  import opened Options
  import opened WriteQueue
  import opened SerialWriteQueues

  datatype Event =
    | Begin(generation: Generation)
    | Reserve
    | Enter(payload: seq<bv8>, timeoutMs: int, generation: Generation, deadline: Deadline, byTimeout: int)
    | Activate
    | Cancel(id: Id)
    | CancelToken(id: Id, generation: Generation)
    | CancelAll
    | Complete(id: Id, generation: Generation, status: Status, byteCount: nat)

  /** What the callers saw: the IDs handed out, the requests accepted with their sizes, the requests
      taken for writing, the IDs cancelled before that, the terminal results, and the largest counts
      since the marks were last reset. */
  datatype Log = Log(issued: seq<Id>, accepted: seq<Id>, sizes: map<Id, nat>, activated: seq<Id>, withdrawn: set<Id>,
                     settled: seq<Result>, peakCount: nat, peakBytes: nat)

  datatype Run = Run(queue: Queue, log: Log)

  function Start(limits: Limits): Run {
    Run(Fresh(limits), Log([], [], map[], [], {}, [], 0, 0))
  }

  function IdsOf(pending: seq<Request>): (ids: seq<Id>)
    ensures |ids| == |pending|
    ensures forall i :: 0 <= i < |pending| ==> ids[i] == pending[i].id
  {
    seq(|pending|, i requires 0 <= i < |pending| => pending[i].id)
  }

  function SettledIds(results: seq<Result>): (ids: seq<Id>)
    ensures |ids| == |results|
    ensures forall i :: 0 <= i < |results| ==> ids[i] == results[i].requestId
  {
    seq(|results|, i requires 0 <= i < |results| => results[i].requestId)
  }

  function ActiveIds(active: Option<Reservation>): seq<Id> {
    if active.Some? then [active.value.requestId] else []
  }

  // ---------------------------------------------------------------- one call

  /** The peaks after a call that left the queue as `q`, with the marks reset or not. */
  function Peaks(log: Log, q: Queue, reset: bool): Log {
    log.(peakCount := Max(if reset then 0 else log.peakCount, CountedCount(q)),
         peakBytes := Max(if reset then 0 else log.peakBytes, CountedBytes(q)))
  }

  function Next(run: Run, event: Event): Run {
    var q, log := run.queue, run.log;
    match event
    case Begin(generation) =>
      var (after, begun) := BeginGeneration(q, generation);
      Run(after, Peaks(log, after, begun))
    case Reserve =>
      var (after, id) := ReserveId(q);
      Run(after, Peaks(if id.Some? then log.(issued := log.issued + [id.value]) else log, after, false))
    case Enter(payload, timeoutMs, generation, deadline, byTimeout) =>
      var (after, result) := Enqueue(q, payload, timeoutMs, generation, deadline, byTimeout);
      if result.status != Accepted then Run(after, Peaks(log, after, false))
      else Run(after, Peaks(Admitted(log, result.requestId, |payload|), after,
                            q.generation == Unassigned && generation != Unassigned))
    case Activate =>
      var (after, request) := ActivateNext(q);
      var taken := if request.Some? then log.(activated := log.activated + [request.value.id]) else log;
      Run(after, Peaks(taken, after, false))
    case Cancel(id) =>
      var (after, result) := CancelPending(q, id);
      Run(after, Peaks(Withdrawn(log, result), after, false))
    case CancelToken(id, generation) =>
      var (after, result) := CancelByToken(q, id, generation);
      Run(after, Peaks(Withdrawn(log, result), after, false))
    case CancelAll =>
      var (after, results) := CancelAllPending(q);
      Run(after, Peaks(log.(withdrawn := log.withdrawn + (set r | r in results :: r.requestId),
                            settled := log.settled + results), after, false))
    case Complete(id, generation, status, byteCount) =>
      var (after, result) := CompleteActive(q, id, generation, status, byteCount);
      Run(after, Peaks(if Terminal(result.status) then log.(settled := log.settled + [result]) else log, after, false))
  }

  function Admitted(log: Log, id: Id, size: nat): Log {
    log.(issued := log.issued + [id], accepted := log.accepted + [id], sizes := log.sizes[id := size])
  }

  function Withdrawn(log: Log, result: Result): Log {
    if Terminal(result.status) then
      log.(withdrawn := log.withdrawn + {result.requestId}, settled := log.settled + [result])
    else log
  }

  function After(run: Run, events: seq<Event>): Run
    decreases |events|
  {
    if events == [] then run else After(Next(run, events[0]), events[1..])
  }

  // ---------------------------------------------------------------- what always holds

  predicate Ascending(ids: seq<Id>) {
    forall i, j :: 0 <= i < j < |ids| ==> ids[i] < ids[j]
  }

  /** The IDs that are not in a set, in order. */
  function Without(ids: seq<Id>, gone: set<Id>): seq<Id> {
    if ids == [] then []
    else Without(ids[..|ids| - 1], gone) + if ids[|ids| - 1] in gone then [] else [ids[|ids| - 1]]
  }

  /** IDs count up from 1; once the largest is handed out, none is left. */
  ghost predicate IdsFresh(q: Queue, log: Log) {
    && Ascending(log.issued)
    && q.nextRequestId <= MaxId
    && (forall id :: id in log.issued ==> 1 <= id <= MaxId && (q.nextRequestId == 0 || id < q.nextRequestId))
    && (q.nextRequestId == 0 ==> MaxId in log.issued)
  }

  /** Every accepted request is pending, active or settled, and only one of these, once. */
  ghost predicate Partitioned(q: Queue, log: Log) {
    && Ascending(log.accepted)
    && (forall id :: id in log.accepted ==> id in log.issued)
    && multiset(log.accepted) ==
      multiset(IdsOf(q.pending)) + multiset(ActiveIds(q.active)) + multiset(SettledIds(log.settled))
  }

  /** Requests are taken in the order they were accepted, skipping only those cancelled before. */
  ghost predicate InOrder(q: Queue, log: Log) {
    && log.activated + IdsOf(q.pending) == Without(log.accepted, log.withdrawn)
    && (forall id :: id in log.withdrawn ==> id in log.accepted)
  }

  predicate Sized(log: Log, id: Id, size: nat) {
    id in log.sizes && log.sizes[id] == size
  }

  predicate PendingOf(r: Request, generation: Generation, log: Log) {
    r.generation == generation && r.payloadBytes == |r.payload| && Sized(log, r.id, r.payloadBytes)
  }

  /** Whatever is outstanding belongs to the queue's generation and is counted at its full size. */
  ghost predicate Outstanding(q: Queue, log: Log) {
    && (forall i :: 0 <= i < |q.pending| ==> PendingOf(q.pending[i], q.generation, log))
    && (q.active.Some? ==>
          q.active.value.generation == q.generation
            && Sized(log, q.active.value.requestId, q.active.value.payloadBytes))
  }

  /** Byte and request counts are exact, within the limits, and their largest values are the marks. */
  ghost predicate Accounted(q: Queue, log: Log) {
    && q.pendingBytes == Bytes(q.pending)
    && CountedCount(q) <= q.limits.requestCapacity && CountedBytes(q) <= q.limits.byteCapacity
    && q.highWaterCount == log.peakCount && q.highWaterBytes == log.peakBytes
    && CountedCount(q) <= q.highWaterCount && CountedBytes(q) <= q.highWaterBytes
  }

  predicate HonestResult(r: Result, log: Log) {
    && Terminal(r.status)
    && r.requestId in log.sizes && r.byteCount <= log.sizes[r.requestId]
    && (r.status == Sent ==> r.byteCount == log.sizes[r.requestId])
  }

  /** Results are terminal; only a full payload counts as sent. */
  ghost predicate Honest(log: Log) {
    forall i :: 0 <= i < |log.settled| ==> HonestResult(log.settled[i], log)
  }

  ghost predicate Inv(run: Run) {
    && IdsFresh(run.queue, run.log)
    && Partitioned(run.queue, run.log)
    && InOrder(run.queue, run.log)
    && Outstanding(run.queue, run.log)
    && Accounted(run.queue, run.log)
    && Honest(run.log)
  }

  // ---------------------------------------------------------------- sequences of IDs

  lemma {:induction false} WithoutHas(ids: seq<Id>, gone: set<Id>, id: Id)
    ensures id in Without(ids, gone) <==> id in ids && id !in gone
  {
    if ids != [] {
      WithoutHas(ids[..|ids| - 1], gone, id);
    }
  }

  lemma {:induction false} WithoutConcat(a: seq<Id>, b: seq<Id>, gone: set<Id>)
    ensures Without(a + b, gone) == Without(a, gone) + Without(b, gone)
  {
    if b == [] {
      assert a + b == a;
    } else {
      WithoutConcat(a, b[..|b| - 1], gone);
      assert (a + b)[..|a + b| - 1] == a + b[..|b| - 1];
    }
  }

  lemma {:induction false} WithoutNone(ids: seq<Id>, gone: set<Id>)
    requires forall id :: id in ids ==> id !in gone
    ensures Without(ids, gone) == ids
  {
    if ids != [] {
      WithoutNone(ids[..|ids| - 1], gone);
    }
  }

  lemma {:induction false} WithoutAll(ids: seq<Id>, gone: set<Id>)
    requires forall id :: id in ids ==> id in gone
    ensures Without(ids, gone) == []
  {
    if ids != [] {
      WithoutAll(ids[..|ids| - 1], gone);
    }
  }

  lemma {:induction false} WithoutTwice(ids: seq<Id>, gone: set<Id>, more: set<Id>)
    ensures Without(Without(ids, gone), more) == Without(ids, gone + more)
  {
    if ids != [] {
      var shorter, last := ids[..|ids| - 1], ids[|ids| - 1];
      WithoutTwice(shorter, gone, more);
      var tail := if last in gone then [] else [last];
      WithoutConcat(Without(shorter, gone), tail, more);
      assert Without([last], more) == (if last in more then [] else [last]) by {
        assert [last][..0] == [];
      }
    }
  }

  lemma {:induction false} WithoutAscends(ids: seq<Id>, gone: set<Id>)
    requires Ascending(ids)
    ensures Ascending(Without(ids, gone))
  {
    if ids != [] {
      var shorter := ids[..|ids| - 1];
      WithoutAscends(shorter, gone);
      forall i | 0 <= i < |Without(shorter, gone)|
        ensures Without(shorter, gone)[i] < ids[|ids| - 1]
      {
        WithoutHas(shorter, gone, Without(shorter, gone)[i]);
      }
    }
  }

  /** Cancelling part of what is left of an ascending list takes just that part out. */
  lemma Withdraw(accepted: seq<Id>, gone: set<Id>, before: seq<Id>, part: seq<Id>, after: seq<Id>, more: set<Id>)
    requires Ascending(accepted) && Without(accepted, gone) == before + part + after
    requires forall id :: id in more <==> id in part
    ensures Without(accepted, gone + more) == before + after
  {
    hide Without;
    WithoutAscends(accepted, gone);
    var all := before + part + after;
    DistinctParts(before, part, after);
    WithoutTwice(accepted, gone, more);
    WithoutConcat(before + part, after, more);
    WithoutConcat(before, part, more);
    WithoutNone(before, more);
    WithoutAll(part, more);
    WithoutNone(after, more);
    assert before + [] == before;
  }

  lemma DistinctParts(before: seq<Id>, part: seq<Id>, after: seq<Id>)
    requires Ascending(before + part + after)
    ensures forall id :: id in part ==> id !in before && id !in after
  {
    var all := before + part + after;
    forall id | id in part
      ensures id !in before && id !in after
    {
      var k :| 0 <= k < |part| && part[k] == id;
      assert all[|before| + k] == id;
      forall i | 0 <= i < |before| ensures before[i] != id {
        assert all[i] == before[i];
      }
      forall i | 0 <= i < |after| ensures after[i] != id {
        assert all[|before| + |part| + i] == after[i];
      }
    }
  }

  lemma IdsSplit(pending: seq<Request>, i: nat)
    requires i < |pending|
    ensures IdsOf(pending) == IdsOf(pending[..i]) + [pending[i].id] + IdsOf(pending[i + 1..])
    ensures IdsOf(pending[..i] + pending[i + 1..]) == IdsOf(pending[..i]) + IdsOf(pending[i + 1..])
  {
  }

  lemma IdsAppend(pending: seq<Request>, r: Request)
    ensures IdsOf(pending + [r]) == IdsOf(pending) + [r.id]
  {
  }

  lemma SettledAppend(settled: seq<Result>, more: seq<Result>)
    ensures SettledIds(settled + more) == SettledIds(settled) + SettledIds(more)
  {
  }

  // ---------------------------------------------------------------- the steps

  /** Nothing but the generation of an empty queue, the marks and the IDs change. */
  lemma QuietKeeps(run: Run, q: Queue, log: Log)
    requires Inv(run)
    requires q.limits == run.queue.limits && q.pending == run.queue.pending && q.active == run.queue.active
    requires q.pendingBytes == run.queue.pendingBytes
    requires q.generation == run.queue.generation || Empty(run.queue)
    requires log == run.log.(issued := log.issued, peakCount := log.peakCount, peakBytes := log.peakBytes)
    requires IdsFresh(q, log) && run.log.issued <= log.issued
    requires q.highWaterCount == log.peakCount >= CountedCount(q)
    requires q.highWaterBytes == log.peakBytes >= CountedBytes(q)
    ensures Inv(Run(q, log))
  {
    hide IdsFresh, Without, Bytes, HonestResult, PendingOf;
    assert forall r: Request :: PendingOf(r, q.generation, run.log) == PendingOf(r, q.generation, log) by {
      SameSizes(run.log, log);
    }
    assert forall r: Result :: HonestResult(r, run.log) == HonestResult(r, log) by {
      SameSizes(run.log, log);
    }
    PrefixKeepsMembers(run.log.issued, log.issued);
  }

  lemma SameSizes(a: Log, b: Log)
    requires a.sizes == b.sizes
    ensures forall r: Request, g: Generation :: PendingOf(r, g, a) == PendingOf(r, g, b)
    ensures forall r: Result :: HonestResult(r, a) == HonestResult(r, b)
  {
  }

  lemma PrefixKeepsMembers(a: seq<Id>, b: seq<Id>)
    requires a <= b
    ensures forall id :: id in a ==> id in b
  {
  }

  // -- accepting a request

  lemma OnlyAccepted(q: Queue, log: Log, id: Id)
    requires Partitioned(q, log)
    requires id in IdsOf(q.pending) || id in ActiveIds(q.active) || id in SettledIds(log.settled)
    ensures id in log.accepted
  {
    hide IdsOf, SettledIds, ActiveIds, Ascending;
    assert id in multiset(log.accepted);
  }

  /** An ID that was never handed out belongs to nothing yet. */
  lemma NewIdIsUnknown(q: Queue, log: Log, id: Id)
    requires IdsFresh(q, log) && Partitioned(q, log) && InOrder(q, log) && id == q.nextRequestId && id != 0
    ensures id !in log.issued && id !in log.accepted && id !in log.withdrawn
    ensures forall i :: 0 <= i < |q.pending| ==> q.pending[i].id != id
    ensures q.active.Some? ==> q.active.value.requestId != id
    ensures forall i :: 0 <= i < |log.settled| ==> log.settled[i].requestId != id
  {
    hide Without, Ascending;
    forall i | 0 <= i < |q.pending| ensures q.pending[i].id != id {
      assert IdsOf(q.pending)[i] == q.pending[i].id;
      OnlyAccepted(q, log, q.pending[i].id);
    }
    if q.active.Some? {
      OnlyAccepted(q, log, q.active.value.requestId);
    }
    forall i | 0 <= i < |log.settled| ensures log.settled[i].requestId != id {
      assert SettledIds(log.settled)[i] == log.settled[i].requestId;
      OnlyAccepted(q, log, log.settled[i].requestId);
    }
  }

  lemma AscendingAppend(ids: seq<Id>, id: Id)
    requires Ascending(ids) && forall k :: k in ids ==> k < id
    ensures Ascending(ids + [id])
  {
    assert forall i :: 0 <= i < |ids| ==> ids[i] in ids;
  }

  lemma ReservedIsFresh(q: Queue, log: Log)
    requires IdsFresh(q, log) && q.nextRequestId != 0
    ensures IdsFresh(ReserveId(q).0, log.(issued := log.issued + [q.nextRequestId]))
  {
    AscendingAppend(log.issued, q.nextRequestId);
  }

  lemma AdmitPartition(q: Queue, log: Log, after: Queue, later: Log, r: Request)
    requires IdsFresh(q, log) && Partitioned(q, log) && r.id == q.nextRequestId && r.id != 0
    requires after.pending == q.pending + [r] && after.active == q.active
    requires later.accepted == log.accepted + [r.id] && later.issued == log.issued + [r.id]
    requires later.settled == log.settled
    ensures Partitioned(after, later)
  {
    hide IdsOf, SettledIds, ActiveIds;
    IdsAppend(q.pending, r);
    AscendingAppend(log.accepted, r.id);
  }

  lemma AdmitOrder(q: Queue, log: Log, after: Queue, later: Log, r: Request)
    requires InOrder(q, log) && r.id !in log.withdrawn
    requires after.pending == q.pending + [r]
    requires later.accepted == log.accepted + [r.id] && later.activated == log.activated
    requires later.withdrawn == log.withdrawn
    ensures InOrder(after, later)
  {
    hide IdsOf;
    IdsAppend(q.pending, r);
    assert later.accepted[..|log.accepted|] == log.accepted;
    assert log.activated + (IdsOf(q.pending) + [r.id]) == log.activated + IdsOf(q.pending) + [r.id];
  }

  lemma AdmitOutstanding(q: Queue, log: Log, after: Queue, later: Log, r: Request)
    requires Outstanding(q, log) && r.payloadBytes == |r.payload|
    requires r.generation == q.generation || Empty(q)
    requires forall i :: 0 <= i < |q.pending| ==> q.pending[i].id != r.id
    requires q.active.Some? ==> q.active.value.requestId != r.id
    requires after.pending == q.pending + [r] && after.active == q.active && after.generation == r.generation
    requires later.sizes == log.sizes[r.id := r.payloadBytes]
    ensures Outstanding(after, later)
  {
  }

  lemma AdmitHonest(log: Log, later: Log, id: Id, size: nat)
    requires Honest(log) && forall i :: 0 <= i < |log.settled| ==> log.settled[i].requestId != id
    requires later.sizes == log.sizes[id := size] && later.settled == log.settled
    ensures Honest(later)
  {
    forall i | 0 <= i < |later.settled| ensures HonestResult(later.settled[i], later) {
      assert HonestResult(log.settled[i], log);
    }
  }

  lemma AdmitAccounted(q: Queue, log: Log, next: Queue, r: Request, later: Log)
    requires Accounted(q, log) && next == ReserveId(q).0
    requires q.limits.requestCapacity > CountedCount(q) && r.payloadBytes <= q.limits.byteCapacity
    requires CountedBytes(q) <= q.limits.byteCapacity - r.payloadBytes
    requires q.generation == Unassigned && r.generation != Unassigned ==> Empty(q)
    requires later == Peaks(log, Admit(next, r), q.generation == Unassigned && r.generation != Unassigned)
    ensures Accounted(Admit(next, r), later)
  {
    hide Bytes;
    BytesSplit(q.pending, [r]);
    BytesOfOne(r);
  }

  lemma AdmitKeeps(run: Run, r: Request)
    requires Inv(run) && r.id == run.queue.nextRequestId && r.id != 0 && r.payloadBytes == |r.payload|
    requires r.generation == run.queue.generation || (Empty(run.queue) && run.queue.generation == Unassigned)
    requires run.queue.limits.requestCapacity > CountedCount(run.queue)
    requires r.payloadBytes <= run.queue.limits.byteCapacity
    requires CountedBytes(run.queue) <= run.queue.limits.byteCapacity - r.payloadBytes
    ensures var q := Admit(ReserveId(run.queue).0, r);
      Inv(Run(q, Peaks(Admitted(run.log, r.id, r.payloadBytes), q,
                       run.queue.generation == Unassigned && r.generation != Unassigned)))
  {
    hide IdsFresh, Partitioned, InOrder, Outstanding, Accounted, Honest, CountedCount, CountedBytes, Max;
    var q := Admit(ReserveId(run.queue).0, r);
    var later := Admitted(run.log, r.id, r.payloadBytes);
    var marked := Peaks(later, q, run.queue.generation == Unassigned && r.generation != Unassigned);
    NewIdIsUnknown(run.queue, run.log, r.id);
    ReservedIsFresh(run.queue, run.log);
    SameIds(ReserveId(run.queue).0, run.log.(issued := run.log.issued + [r.id]), q, marked);
    AdmitPartition(run.queue, run.log, q, marked, r);
    AdmitOrder(run.queue, run.log, q, marked, r);
    AdmitOutstanding(run.queue, run.log, q, marked, r);
    AdmitHonest(run.log, marked, r.id, r.payloadBytes);
    AdmitAccounted(run.queue, run.log, ReserveId(run.queue).0, r,
                   Peaks(run.log, q, run.queue.generation == Unassigned && r.generation != Unassigned));
    SameMarks(q, Peaks(run.log, q, run.queue.generation == Unassigned && r.generation != Unassigned), marked);
  }

  lemma SameIds(q: Queue, log: Log, after: Queue, later: Log)
    requires IdsFresh(q, log) && after.nextRequestId == q.nextRequestId && later.issued == log.issued
    ensures IdsFresh(after, later)
  {
  }

  lemma SameMarks(q: Queue, log: Log, later: Log)
    requires Accounted(q, log) && later.peakCount == log.peakCount && later.peakBytes == log.peakBytes
    ensures Accounted(q, later)
  {
    hide Bytes;
  }

  // -- taking the next request

  lemma ActivateKeeps(run: Run)
    requires Inv(run) && run.queue.active.None? && run.queue.pending != []
    ensures var q := ActivateNext(run.queue).0;
      Inv(Run(q, Peaks(run.log.(activated := run.log.activated + [run.queue.pending[0].id]), q, false)))
  {
    hide IdsFresh, Partitioned, InOrder, Outstanding, Accounted, Honest, ActivateNext, CountedCount, CountedBytes, Max;
    var q := ActivateNext(run.queue).0;
    var log := run.log.(activated := run.log.activated + [run.queue.pending[0].id]);
    var marked := Peaks(log, q, false);
    ActivateParts(run.queue, run.log, q, marked);
    ActivateAccounted(run.queue, run.log, q, marked);
    ActivateIds(run.queue, q);
    SameIds(run.queue, run.log, q, marked);
    SameSettled(run.log, marked);
  }

  lemma ActivateIds(q: Queue, after: Queue)
    requires after == ActivateNext(q).0
    ensures after.nextRequestId == q.nextRequestId
  {
  }

  lemma SameSettled(log: Log, later: Log)
    requires Honest(log) && later.settled == log.settled && later.sizes == log.sizes
    ensures Honest(later)
  {
    forall i | 0 <= i < |later.settled| ensures HonestResult(later.settled[i], later) {
      assert HonestResult(log.settled[i], log);
    }
  }

  lemma ActivateParts(q: Queue, log: Log, after: Queue, later: Log)
    requires q.active.None? && q.pending != [] && after == ActivateNext(q).0
    requires Partitioned(q, log) && InOrder(q, log) && Outstanding(q, log)
    requires later ==
      log.(activated := log.activated + [q.pending[0].id], peakCount := later.peakCount, peakBytes := later.peakBytes)
    ensures Partitioned(after, later) && InOrder(after, later) && Outstanding(after, later)
  {
    hide *;
    ActivateIdsSplit(q, after);
    ActivatePartition(q, log, after, later);
    ActivateOrder(q, log, after, later);
    ActivateOutstanding(q, log, after, later);
  }

  lemma ActivateIdsSplit(q: Queue, after: Queue)
    requires q.active.None? && q.pending != [] && after == ActivateNext(q).0
    ensures IdsOf(q.pending) == [q.pending[0].id] + IdsOf(after.pending)
    ensures ActiveIds(q.active) == [] && ActiveIds(after.active) == [q.pending[0].id]
  {
    IdsSplit(q.pending, 0);
    NoIds(q.pending[..0]);
  }

  lemma ActivatePartition(q: Queue, log: Log, after: Queue, later: Log)
    requires q.pending != [] && Partitioned(q, log)
    requires IdsOf(q.pending) == [q.pending[0].id] + IdsOf(after.pending)
    requires ActiveIds(q.active) == [] && ActiveIds(after.active) == [q.pending[0].id]
    requires later.issued == log.issued && later.accepted == log.accepted && later.settled == log.settled
    ensures Partitioned(after, later)
  {
    hide IdsOf, SettledIds, ActiveIds, Ascending;
  }

  lemma ActivateOrder(q: Queue, log: Log, after: Queue, later: Log)
    requires q.pending != [] && InOrder(q, log)
    requires IdsOf(q.pending) == [q.pending[0].id] + IdsOf(after.pending)
    requires later.activated == log.activated + [q.pending[0].id]
    requires later.accepted == log.accepted && later.withdrawn == log.withdrawn
    ensures InOrder(after, later)
  {
    hide IdsOf, Without;
    var first, rest := [q.pending[0].id], IdsOf(after.pending);
    assert log.activated + first + rest == log.activated + (first + rest);
  }

  lemma ActivateOutstanding(q: Queue, log: Log, after: Queue, later: Log)
    requires q.active.None? && q.pending != [] && after == ActivateNext(q).0
    requires Outstanding(q, log) && later.sizes == log.sizes
    ensures Outstanding(after, later)
  {
    assert PendingOf(q.pending[0], q.generation, log);
    assert forall i :: 0 <= i < |after.pending| ==> after.pending[i] == q.pending[i + 1];
  }

  lemma NoIds(none: seq<Request>)
    requires none == []
    ensures IdsOf(none) == []
  {
  }

  lemma ActivateAccounted(q: Queue, log: Log, after: Queue, later: Log)
    requires q.active.None? && q.pending != [] && after == ActivateNext(q).0 && Accounted(q, log)
    requires later.peakCount == Max(log.peakCount, CountedCount(after))
    requires later.peakBytes == Max(log.peakBytes, CountedBytes(after))
    ensures Accounted(after, later)
  {
    hide Bytes;
    BytesWithout(q.pending, 0);
    assert q.pending[..0] + q.pending[1..] == q.pending[1..];
  }

  // -- cancelling one pending request

  lemma WithdrawParts(q: Queue, log: Log, i: nat, after: Queue, later: Log)
    requires i < |q.pending| && after == RemovePending(q, i).0
    requires Partitioned(q, log) && InOrder(q, log)
    requires later ==
      log.(withdrawn := log.withdrawn + {q.pending[i].id}, settled := log.settled + [CancelledResult(q.pending[i])],
           peakCount := later.peakCount, peakBytes := later.peakBytes)
    ensures Partitioned(after, later) && InOrder(after, later)
  {
    hide *;
    var id, left, right := q.pending[i].id, IdsOf(q.pending[..i]), IdsOf(q.pending[i + 1..]);
    WithdrawIds(q, i, after, left, right);
    WithdrawSettled(log, later, CancelledResult(q.pending[i]));
    CancelledNames(q.pending[i]);
    WithdrawPartition(q, log, after, later, id, left, right);
    IdIsAccepted(q, log, id, left, right);
    WithdrawOrder(q, log, after, later, id, left, right);
  }

  lemma CancelledNames(r: Request)
    ensures CancelledResult(r).requestId == r.id
  {
  }

  lemma WithdrawIds(q: Queue, i: nat, after: Queue, left: seq<Id>, right: seq<Id>)
    requires i < |q.pending| && after == RemovePending(q, i).0
    requires left == IdsOf(q.pending[..i]) && right == IdsOf(q.pending[i + 1..])
    ensures IdsOf(q.pending) == left + [q.pending[i].id] + right && IdsOf(after.pending) == left + right
    ensures after.active == q.active
  {
    hide IdsOf;
    IdsSplit(q.pending, i);
  }

  lemma WithdrawSettled(log: Log, later: Log, r: Result)
    requires later.settled == log.settled + [r]
    ensures SettledIds(later.settled) == SettledIds(log.settled) + [r.requestId]
  {
    hide SettledIds;
    SettledAppend(log.settled, [r]);
    SettledOne(r);
  }

  lemma WithdrawPartition(q: Queue, log: Log, after: Queue, later: Log, id: Id, left: seq<Id>, right: seq<Id>)
    requires Partitioned(q, log) && after.active == q.active
    requires IdsOf(q.pending) == left + [id] + right && IdsOf(after.pending) == left + right
    requires SettledIds(later.settled) == SettledIds(log.settled) + [id]
    requires later.accepted == log.accepted && later.issued == log.issued
    ensures Partitioned(after, later)
  {
    hide IdsOf, SettledIds, ActiveIds, Ascending;
  }

  lemma IdIsAccepted(q: Queue, log: Log, id: Id, left: seq<Id>, right: seq<Id>)
    requires Partitioned(q, log) && IdsOf(q.pending) == left + [id] + right
    ensures id in log.accepted && Ascending(log.accepted)
  {
    hide IdsOf, SettledIds, ActiveIds, Ascending;
    assert id in left + [id] + right;
    OnlyAccepted(q, log, id);
  }

  lemma WithdrawOrder(q: Queue, log: Log, after: Queue, later: Log, id: Id, left: seq<Id>, right: seq<Id>)
    requires InOrder(q, log) && Ascending(log.accepted) && id in log.accepted
    requires IdsOf(q.pending) == left + [id] + right && IdsOf(after.pending) == left + right
    requires later.activated == log.activated && later.accepted == log.accepted
    requires later.withdrawn == log.withdrawn + {id}
    ensures InOrder(after, later)
  {
    hide IdsOf, Without, Ascending;
    assert log.activated + (left + [id] + right) == log.activated + left + [id] + right;
    Withdraw(log.accepted, log.withdrawn, log.activated + left, [id], right, {id});
    assert log.activated + left + right == log.activated + (left + right);
  }

  lemma SettledOne(r: Result)
    ensures SettledIds([r]) == [r.requestId]
  {
  }

  lemma WithdrawOutstanding(q: Queue, log: Log, i: nat, after: Queue, later: Log)
    requires i < |q.pending| && after == RemovePending(q, i).0 && Outstanding(q, log) && later.sizes == log.sizes
    ensures Outstanding(after, later)
  {
    forall k | 0 <= k < |after.pending| ensures PendingOf(after.pending[k], after.generation, later) {
      var old_k := if k < i then k else k + 1;
      assert after.pending[k] == q.pending[old_k] && PendingOf(q.pending[old_k], q.generation, log);
    }
  }

  lemma WithdrawAccounted(q: Queue, log: Log, i: nat, after: Queue, later: Log)
    requires i < |q.pending| && after == RemovePending(q, i).0 && Accounted(q, log)
    requires later.peakCount == Max(log.peakCount, CountedCount(after))
    requires later.peakBytes == Max(log.peakBytes, CountedBytes(after))
    ensures Accounted(after, later)
  {
    hide Bytes;
    BytesWithout(q.pending, i);
  }

  /** One more result about an accepted request. */
  lemma HonestAppend(log: Log, later: Log, r: Result)
    requires Honest(log) && HonestResult(r, log) && later.sizes == log.sizes && later.settled == log.settled + [r]
    ensures Honest(later)
  {
    forall i | 0 <= i < |later.settled| ensures HonestResult(later.settled[i], later) {
      if i < |log.settled| {
        assert HonestResult(log.settled[i], log);
      }
    }
  }

  lemma WithdrawKeeps(run: Run, i: nat)
    requires Inv(run) && i < |run.queue.pending|
    ensures var (q, result) := RemovePending(run.queue, i);
      Inv(Run(q, Peaks(Withdrawn(run.log, result), q, false)))
  {
    hide IdsFresh, Partitioned, InOrder, Outstanding, Accounted, Honest, CountedCount, CountedBytes, Max;
    var (q, result) := RemovePending(run.queue, i);
    var marked := Peaks(Withdrawn(run.log, result), q, false);
    WithdrawParts(run.queue, run.log, i, q, marked);
    WithdrawOutstanding(run.queue, run.log, i, q, marked);
    WithdrawAccounted(run.queue, run.log, i, q, marked);
    CancelledIsHonest(run.queue, run.log, i);
    HonestAppend(run.log, marked, result);
    SameIds(run.queue, run.log, q, marked);
  }

  lemma CancelledIsHonest(q: Queue, log: Log, i: nat)
    requires i < |q.pending| && Outstanding(q, log)
    ensures HonestResult(CancelledResult(q.pending[i]), log)
  {
    assert PendingOf(q.pending[i], q.generation, log);
  }

  // -- cancelling all of them

  lemma AllWithdrawn(q: Queue, log: Log, gone: set<Id>)
    requires Partitioned(q, log) && InOrder(q, log)
    requires forall id :: id in gone <==> id in IdsOf(q.pending)
    ensures Without(log.accepted, log.withdrawn + gone) == log.activated
    ensures forall id :: id in gone ==> id in log.accepted
  {
    hide Without, IdsOf, SettledIds, Ascending, ActiveIds;
    forall id | id in gone ensures id in log.accepted {
      OnlyAccepted(q, log, id);
    }
    assert log.activated + IdsOf(q.pending) + [] == log.activated + IdsOf(q.pending);
    Withdraw(log.accepted, log.withdrawn, log.activated, IdsOf(q.pending), [], gone);
    assert log.activated + [] == log.activated;
  }

  lemma CancelledIds(pending: seq<Request>, gone: set<Id>)
    requires gone == set r | r in CancelledResults(pending) :: r.requestId
    ensures SettledIds(CancelledResults(pending)) == IdsOf(pending)
    ensures forall id :: id in gone <==> id in IdsOf(pending)
  {
    var results := CancelledResults(pending);
    assert SettledIds(results) == IdsOf(pending);
    forall id | id in IdsOf(pending) ensures id in gone {
      var i :| 0 <= i < |pending| && IdsOf(pending)[i] == id;
      assert results[i] in results && results[i].requestId == id;
    }
  }

  lemma CancelAllKeeps(run: Run)
    requires Inv(run)
    ensures Inv(Next(run, CancelAll))
  {
    hide IdsFresh, Partitioned, InOrder, Outstanding, Accounted, Honest, IdsOf, SettledIds, CancelledResults, Without;
    var q, results := CancelAllPending(run.queue).0, CancelledResults(run.queue.pending);
    var gone := set r | r in results :: r.requestId;
    var marked := Next(run, CancelAll).log;
    CancelledIds(run.queue.pending, gone);
    AllWithdrawn(run.queue, run.log, gone);
    CancelAllParts(run.queue, run.log, gone, q, marked);
    CancelAllRest(run.queue, run.log, q, marked);
    SameIds(run.queue, run.log, q, marked);
  }

  lemma CancelAllParts(q: Queue, log: Log, gone: set<Id>, after: Queue, later: Log)
    requires Partitioned(q, log) && InOrder(q, log) && after == CancelAllPending(q).0
    requires SettledIds(CancelledResults(q.pending)) == IdsOf(q.pending)
    requires Without(log.accepted, log.withdrawn + gone) == log.activated
    requires forall id :: id in gone ==> id in log.accepted
    requires later == log.(withdrawn := log.withdrawn + gone, settled := log.settled + CancelledResults(q.pending),
                           peakCount := later.peakCount, peakBytes := later.peakBytes)
    ensures Partitioned(after, later) && InOrder(after, later)
  {
    hide Without, IdsOf, SettledIds, Ascending, ActiveIds, CancelledResults;
    SettledAppend(log.settled, CancelledResults(q.pending));
    NoIds(after.pending);
    assert log.activated + [] == log.activated;
  }

  lemma CancelAllRest(q: Queue, log: Log, after: Queue, later: Log)
    requires Outstanding(q, log) && Accounted(q, log) && Honest(log) && after == CancelAllPending(q).0
    requires later.sizes == log.sizes && later.settled == log.settled + CancelledResults(q.pending)
    requires later.peakCount == Max(log.peakCount, CountedCount(after))
    requires later.peakBytes == Max(log.peakBytes, CountedBytes(after))
    ensures Outstanding(after, later) && Accounted(after, later) && Honest(later)
  {
    hide HonestResult;
    SameSizes(log, later);
    forall i | 0 <= i < |later.settled| ensures HonestResult(later.settled[i], later) {
      if i < |log.settled| {
        assert HonestResult(log.settled[i], log);
      } else {
        CancelledIsHonest(q, log, i - |log.settled|);
      }
    }
  }

  // -- completing the active request

  lemma CompleteKeeps(run: Run, result: Result)
    requires Inv(run) && run.queue.active.Some? && result.requestId == run.queue.active.value.requestId
    requires Terminal(result.status) && result.byteCount <= run.queue.active.value.payloadBytes
    requires result.status == Sent ==> result.byteCount == run.queue.active.value.payloadBytes
    ensures var q := run.queue.(active := None);
      Inv(Run(q, Peaks(run.log.(settled := run.log.settled + [result]), q, false)))
  {
    hide IdsFresh, Without, IdsOf, SettledIds, Bytes, Ascending, PendingOf;
    var q := run.queue.(active := None);
    var marked := Peaks(run.log.(settled := run.log.settled + [result]), q, false);
    SettledAppend(run.log.settled, [result]);
    SettledOne(result);
    SameIds(run.queue, run.log, q, marked);
    SameSizes(run.log, marked);
    HonestAppend(run.log, marked, result);
  }

  // ---------------------------------------------------------------- every run

  lemma QuietStep(run: Run, q: Queue, issued: seq<Id>, reset: bool)
    requires Inv(run)
    requires q.limits == run.queue.limits && q.pending == run.queue.pending && q.active == run.queue.active
    requires q.pendingBytes == run.queue.pendingBytes
    requires q.generation == run.queue.generation || Empty(run.queue)
    requires IdsFresh(q, run.log.(issued := issued)) && run.log.issued <= issued
    requires reset ==> Empty(run.queue)
    requires q.highWaterCount == (if reset then 0 else run.queue.highWaterCount)
    requires q.highWaterBytes == (if reset then 0 else run.queue.highWaterBytes)
    ensures Inv(Run(q, Peaks(run.log.(issued := issued), q, reset)))
  {
    hide IdsFresh, Without, Honest, Outstanding, Partitioned, InOrder;
    var marked := Peaks(run.log.(issued := issued), q, reset);
    SameIds(q, run.log.(issued := issued), q, marked);
    QuietKeeps(run, q, marked);
  }

  lemma BeginKeeps(run: Run, generation: Generation)
    requires Inv(run)
    ensures Inv(Next(run, Begin(generation)))
  {
    hide Without, Honest, Outstanding, Partitioned, InOrder, Accounted;
    var (q, begun) := BeginGeneration(run.queue, generation);
    SameIds(run.queue, run.log, q, run.log.(issued := run.log.issued));
    QuietStep(run, q, run.log.issued, begun);
    assert run.log.(issued := run.log.issued) == run.log;
  }

  lemma ReserveKeeps(run: Run)
    requires Inv(run)
    ensures Inv(Next(run, Reserve))
  {
    hide Without, Honest, Outstanding, Partitioned, InOrder, Accounted;
    if run.queue.nextRequestId != 0 {
      ReservedIsFresh(run.queue, run.log);
      QuietStep(run, ReserveId(run.queue).0, run.log.issued + [run.queue.nextRequestId], false);
    } else {
      UnchangedKeeps(run);
    }
  }

  lemma UnchangedKeeps(run: Run)
    requires Inv(run)
    ensures Inv(Run(run.queue, Peaks(run.log, run.queue, false)))
  {
    hide Without, Honest, Outstanding, Partitioned, InOrder, Accounted;
    SameIds(run.queue, run.log, run.queue, run.log.(issued := run.log.issued));
    QuietStep(run, run.queue, run.log.issued, false);
    assert run.log.(issued := run.log.issued) == run.log;
  }

  lemma EnterKeeps(run: Run, event: Event)
    requires Inv(run) && event.Enter?
    ensures Inv(Next(run, event))
  {
    hide Inv, Peaks;
    var q := run.queue;
    if Refusal(q, event.payload, event.timeoutMs, event.generation).Some? || q.nextRequestId == 0 {
      UnchangedKeeps(run);
    } else {
      var due := if event.deadline.Some? then event.deadline else Some(event.byTimeout);
      AdmitKeeps(run, Request(q.nextRequestId, event.generation, event.payload, |event.payload|, event.timeoutMs, due));
    }
  }

  lemma CancelKeeps(run: Run, event: Event)
    requires Inv(run) && (event.Cancel? || event.CancelToken?)
    ensures Inv(Next(run, event))
  {
    hide Inv, Peaks;
    UnchangedKeeps(run);
    var i := Find(run.queue.pending, event.id, None);
    if i < |run.queue.pending| {
      WithdrawKeeps(run, i);
    }
  }

  lemma CompletionKeeps(run: Run, event: Event)
    requires Inv(run) && event.Complete?
    ensures Inv(Next(run, event))
  {
    hide Inv, Peaks;
    var (q, result) := CompleteActive(run.queue, event.id, event.generation, event.status, event.byteCount);
    UnchangedKeeps(run);
    if Terminal(result.status) {
      CompleteKeeps(run, result);
    }
  }

  /** Every call keeps everything. */
  lemma StepKeeps(run: Run, event: Event)
    requires Inv(run)
    ensures Inv(Next(run, event))
  {
    hide Inv, Peaks, BeginGeneration, ReserveId, Enqueue, CancelPending, CancelByToken, CancelAllPending,
      CompleteActive;
    match event {
      case Begin(generation) => BeginKeeps(run, generation);
      case Reserve => ReserveKeeps(run);
      case Enter(_, _, _, _, _) => EnterKeeps(run, event);
      case Activate =>
        UnchangedKeeps(run);
        if run.queue.active.None? && run.queue.pending != [] {
          ActivateKeeps(run);
        }
      case Cancel(_) => CancelKeeps(run, event);
      case CancelToken(_, _) => CancelKeeps(run, event);
      case CancelAll => CancelAllKeeps(run);
      case Complete(_, _, _, _) => CompletionKeeps(run, event);
    }
  }

  lemma {:induction false} StepsKeep(run: Run, events: seq<Event>)
    requires Inv(run)
    ensures Inv(After(run, events))
    decreases |events|
  {
    hide Inv, Next;
    if events != [] {
      StepKeeps(run, events[0]);
      StepsKeep(Next(run, events[0]), events[1..]);
    }
  }

  lemma StartHolds(limits: Limits)
    ensures Inv(Start(limits))
  {
  }

  /** After any sequence of calls on a new queue, accepted requests are partitioned, taken in order and
      accounted for. */
  lemma EveryRunHolds(limits: Limits, events: seq<Event>)
    ensures Inv(After(Start(limits), events))
  {
    hide Inv, After, Start;
    StartHolds(limits);
    StepsKeep(Start(limits), events);
  }

  /** First in, first out: in every run, the requests activated so far and then those that wait are the
      accepted ones without the cancelled ones, in the order of acceptance, which is that of their IDs. */
  lemma AdmissionOrder(limits: Limits, events: seq<Event>)
    ensures var run := After(Start(limits), events);
      && run.log.activated + IdsOf(run.queue.pending) == Without(run.log.accepted, run.log.withdrawn)
      && Ascending(run.log.accepted) && Ascending(run.log.activated + IdsOf(run.queue.pending))
  {
    hide After, Start, Ascending, Outstanding, Accounted, Honest, IdsOf, Without, ActiveIds, SettledIds;
    EveryRunHolds(limits, events);
    var run := After(Start(limits), events);
    WithoutAscends(run.log.accepted, run.log.withdrawn);
  }

  function Times(ids: seq<Id>, id: Id): nat {
    multiset(ids)[id]
  }

  lemma {:induction false} DistinctTimes(ids: seq<Id>, id: Id)
    requires Ascending(ids)
    ensures Times(ids, id) == if id in ids then 1 else 0
  {
    if ids != [] {
      var shorter := ids[..|ids| - 1];
      DistinctTimes(shorter, id);
      assert ids == shorter + [ids[|ids| - 1]];
    }
  }

  /** Exactly-once settlement: in every run, an accepted request is waiting, being written, or settled by
      one terminal result, and never two of these; no other ID is anywhere. */
  lemma ExactlyOnce(limits: Limits, events: seq<Event>, id: Id)
    ensures var run := After(Start(limits), events);
      Times(IdsOf(run.queue.pending), id) + Times(ActiveIds(run.queue.active), id) +
        Times(SettledIds(run.log.settled), id)
      == if id in run.log.accepted then 1 else 0
  {
    hide After, Start, Ascending, IdsFresh, InOrder, Outstanding, Accounted, Honest, IdsOf, SettledIds, ActiveIds;
    EveryRunHolds(limits, events);
    DistinctTimes(After(Start(limits), events).log.accepted, id);
  }

  /** IDs are never handed out twice, even once all 64-bit IDs are used up: from then on none is. */
  lemma NeverReissued(limits: Limits, events: seq<Event>)
    ensures var run := After(Start(limits), events);
      && (forall i, j :: 0 <= i < j < |run.log.issued| ==> run.log.issued[i] != run.log.issued[j])
      && (run.queue.nextRequestId == 0 ==> forall event :: Next(run, event).log.issued == run.log.issued)
  {
    hide After, Start, Partitioned, InOrder, Outstanding, Accounted, Honest;
    EveryRunHolds(limits, events);
    var run := After(Start(limits), events);
    if run.queue.nextRequestId == 0 {
      forall event ensures Next(run, event).log.issued == run.log.issued {
        NoneLeft(run, event);
      }
    }
  }

  lemma NoneLeft(run: Run, event: Event)
    requires run.queue.nextRequestId == 0
    ensures Next(run, event).log.issued == run.log.issued && Next(run, event).queue.nextRequestId == 0
  {
    hide CancelledResults;
  }

  /** A completion that names a settled request, or another generation than the queue's, is turned away
      and changes nothing. */
  lemma StaleCompletionIgnored(limits: Limits, events: seq<Event>, id: Id, generation: Generation, status: Status,
      byteCount: nat)
    requires var run := After(Start(limits), events);
      id in SettledIds(run.log.settled) || generation != run.queue.generation
    ensures var run := After(Start(limits), events);
      CompleteActive(run.queue, id, generation, status, byteCount) == (run.queue, RejectCompletion(id, generation))
  {
    hide After, Start, InOrder, Accounted, Honest, IdsFresh, Ascending, IdsOf, SettledIds;
    EveryRunHolds(limits, events);
    var run := After(Start(limits), events);
    ExactlyOnce(limits, events, id);
    if run.queue.active.Some? && run.queue.active.value.requestId == id {
      assert id in ActiveIds(run.queue.active);
    }
  }
}
