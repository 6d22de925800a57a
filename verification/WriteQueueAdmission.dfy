/** Which requests the serial write queue takes in, and how requests are settled, said of what its callers
    saw (`serial_write_queue.cpp`). */
module WriteQueueAdmission {
  import opened Options
  import opened WriteQueue
  import opened SerialWriteQueues
  import opened WriteQueueRuns

  // ---------------------------------------------------------------- what is outstanding

  function Finished(log: Log): set<Id> {
    set r | r in log.settled :: r.requestId
  }

  /** The accepted requests that are not settled, in order. */
  function Unsettled(log: Log): seq<Id> {
    Without(log.accepted, Finished(log))
  }

  function SizeOf(log: Log, id: Id): nat {
    if id in log.sizes then log.sizes[id] else 0
  }

  function TotalSize(log: Log, ids: seq<Id>): nat {
    if ids == [] then 0 else TotalSize(log, ids[..|ids| - 1]) + SizeOf(log, ids[|ids| - 1])
  }

  lemma FinishedIds(log: Log, id: Id)
    ensures id in Finished(log) <==> id in SettledIds(log.settled)
  {
    if id in Finished(log) {
      var r :| r in log.settled && r.requestId == id;
      var i :| 0 <= i < |log.settled| && log.settled[i] == r;
      assert SettledIds(log.settled)[i] == id;
    }
    if id in SettledIds(log.settled) {
      var i :| 0 <= i < |log.settled| && SettledIds(log.settled)[i] == id;
      assert log.settled[i] in log.settled;
    }
  }

  /** Where an ID is counted as waiting or being written. */
  function QueuedIds(q: Queue): seq<Id> {
    IdsOf(q.pending) + ActiveIds(q.active)
  }

  lemma TimesJoin(a: seq<Id>, b: seq<Id>, id: Id)
    ensures Times(a + b, id) == Times(a, id) + Times(b, id)
  {
  }

  lemma TimesIn(a: seq<Id>, id: Id)
    ensures Times(a, id) > 0 <==> id in a
  {
  }

  lemma UnsettledOnce(q: Queue, log: Log, id: Id)
    requires Partitioned(q, log)
    ensures Times(Unsettled(log), id) == Times(QueuedIds(q), id)
  {
    hide Without, Ascending, IdsOf, ActiveIds, SettledIds, Times, Finished;
    TimesSplit(q, log, id);
    DistinctTimes(log.accepted, id);
    WithoutAscends(log.accepted, Finished(log));
    DistinctTimes(Unsettled(log), id);
    WithoutHas(log.accepted, Finished(log), id);
    FinishedIds(log, id);
    TimesIn(SettledIds(log.settled), id);
    TimesJoin(IdsOf(q.pending), ActiveIds(q.active), id);
  }

  lemma TimesSplit(q: Queue, log: Log, id: Id)
    requires Partitioned(q, log)
    ensures Times(log.accepted, id) ==
      Times(IdsOf(q.pending), id) + Times(ActiveIds(q.active), id) + Times(SettledIds(log.settled), id)
  {
    hide Ascending, IdsOf, ActiveIds, SettledIds;
  }

  lemma UnsettledAreQueued(q: Queue, log: Log)
    requires Partitioned(q, log)
    ensures multiset(Unsettled(log)) == multiset(QueuedIds(q))
  {
    hide Unsettled, QueuedIds, Partitioned;
    forall id: Id ensures multiset(Unsettled(log))[id] == multiset(QueuedIds(q))[id] {
      UnsettledOnce(q, log, id);
    }
  }

  // ---------------------------------------------------------------- sums

  lemma {:induction false} TotalJoin(log: Log, a: seq<Id>, b: seq<Id>)
    ensures TotalSize(log, a + b) == TotalSize(log, a) + TotalSize(log, b)
  {
    if b == [] {
      assert a + b == a;
    } else {
      TotalJoin(log, a, b[..|b| - 1]);
      assert (a + b)[..|a + b| - 1] == a + b[..|b| - 1];
    }
  }

  lemma TotalOfOne(log: Log, id: Id)
    ensures TotalSize(log, [id]) == SizeOf(log, id)
  {
    assert [id][..0] == [];
  }

  lemma TotalWithout(log: Log, ids: seq<Id>, i: nat)
    requires i < |ids|
    ensures TotalSize(log, ids) == TotalSize(log, ids[..i] + ids[i + 1..]) + SizeOf(log, ids[i])
  {
    hide TotalSize;
    assert ids == ids[..i] + [ids[i]] + ids[i + 1..];
    TotalJoin(log, ids[..i] + [ids[i]], ids[i + 1..]);
    TotalJoin(log, ids[..i], [ids[i]]);
    TotalJoin(log, ids[..i], ids[i + 1..]);
    TotalOfOne(log, ids[i]);
  }

  /** A sum does not depend on the order. */
  lemma {:induction false} SameTotal(log: Log, a: seq<Id>, b: seq<Id>)
    requires multiset(a) == multiset(b)
    ensures TotalSize(log, a) == TotalSize(log, b)
    decreases |a|
  {
    hide SizeOf;
    assert |a| == |multiset(a)| == |b|;
    if a != [] {
      var shorter, last := a[..|a| - 1], a[|a| - 1];
      assert a == shorter + [last];
      assert last in multiset(b);
      var i :| 0 <= i < |b| && b[i] == last;
      WithoutOne(b, i);
      SameTotal(log, shorter, b[..i] + b[i + 1..]);
      TotalWithout(log, b, i);
    }
  }

  lemma WithoutOne(b: seq<Id>, i: nat)
    requires i < |b|
    ensures multiset(b[..i] + b[i + 1..]) == multiset(b) - multiset{b[i]}
  {
    assert b == b[..i] + [b[i]] + b[i + 1..];
  }

  lemma {:induction false} PendingTotal(q: Queue, log: Log, n: nat)
    requires Outstanding(q, log) && n <= |q.pending|
    ensures TotalSize(log, IdsOf(q.pending[..n])) == Bytes(q.pending[..n])
  {
    hide Bytes, TotalSize, SizeOf;
    if n == 0 {
      NothingPending(log, q.pending[..0]);
    } else {
      PendingTotal(q, log, n - 1);
      var shorter, last := q.pending[..n - 1], q.pending[n - 1];
      assert q.pending[..n] == shorter + [last];
      IdsAppend(shorter, last);
      TotalJoin(log, IdsOf(shorter), [last.id]);
      TotalOfOne(log, last.id);
      BytesSplit(shorter, [last]);
      BytesOfOne(last);
      PendingSize(q, log, n - 1);
    }
  }

  lemma NothingPending(log: Log, none: seq<Request>)
    requires none == []
    ensures TotalSize(log, IdsOf(none)) == 0 == Bytes(none)
  {
  }

  lemma PendingSize(q: Queue, log: Log, i: nat)
    requires Outstanding(q, log) && i < |q.pending|
    ensures SizeOf(log, q.pending[i].id) == q.pending[i].payloadBytes
  {
    assert PendingOf(q.pending[i], q.generation, log);
  }

  lemma ActiveTotal(q: Queue, log: Log)
    requires Outstanding(q, log)
    ensures TotalSize(log, ActiveIds(q.active)) == if q.active.Some? then q.active.value.payloadBytes else 0
  {
    hide TotalSize;
    if q.active.Some? {
      TotalOfOne(log, q.active.value.requestId);
    } else {
      NothingPending(log, []);
    }
  }

  /** What the queue counts is the number and the total size of what is outstanding. */
  lemma CountsOutstanding(run: Run)
    requires Inv(run)
    ensures CountedCount(run.queue) == |Unsettled(run.log)|
    ensures CountedBytes(run.queue) == TotalSize(run.log, Unsettled(run.log))
    ensures Empty(run.queue) <==> Unsettled(run.log) == []
  {
    hide Unsettled, TotalSize, Bytes, IdsFresh, Partitioned, InOrder, Outstanding, Honest, Terminal;
    var q, log := run.queue, run.log;
    UnsettledAreQueued(q, log);
    assert |Unsettled(log)| == |multiset(Unsettled(log))| == |QueuedIds(q)|;
    SameTotal(log, Unsettled(log), QueuedIds(q));
    TotalJoin(log, IdsOf(q.pending), ActiveIds(q.active));
    PendingTotal(q, log, |q.pending|);
    assert q.pending[..|q.pending|] == q.pending;
    ActiveTotal(q, log);
  }

  // ---------------------------------------------------------------- admission

  lemma LimitsStay(run: Run, event: Event)
    ensures Next(run, event).queue.limits == run.queue.limits
  {
    hide Peaks, CancelledResults;
  }

  lemma {:induction false} LimitsStayAfter(run: Run, events: seq<Event>)
    ensures After(run, events).queue.limits == run.queue.limits
    decreases |events|
  {
    hide Next;
    if events != [] {
      LimitsStay(run, events[0]);
      LimitsStayAfter(Next(run, events[0]), events[1..]);
    }
  }

  /** The largest ID was handed out exactly when none is left. */
  lemma NoIdLeft(run: Run)
    requires Inv(run)
    ensures run.queue.nextRequestId == 0 <==> MaxId in run.log.issued
  {
    hide Partitioned, InOrder, Outstanding, Accounted, Honest, Ascending;
  }

  /** One more request of that size fits: its place and its bytes. */
  predicate Fits(limits: Limits, log: Log, size: nat) {
    && |Unsettled(log)| < limits.requestCapacity
    && TotalSize(log, Unsettled(log)) + size <= limits.byteCapacity
  }

  /** The request is well-formed and belongs to the generation of the queue, or begins one. */
  predicate Proper(limits: Limits, run: Run, payload: seq<bv8>, timeoutMs: int, generation: Generation) {
    && payload != [] && timeoutMs > 0 && limits.requestCapacity > 0 && limits.byteCapacity > 0
    && (generation == run.queue.generation || (Unsettled(run.log) == [] && run.queue.generation == Unassigned))
  }

  lemma RefusedExactly(run: Run, payload: seq<bv8>, timeoutMs: int, generation: Generation)
    requires Inv(run)
    ensures var limits, refusal := run.queue.limits, Refusal(run.queue, payload, timeoutMs, generation);
      && (refusal == None <==> Proper(limits, run, payload, timeoutMs, generation) && Fits(limits, run.log, |payload|))
      && (refusal == Some(RejectedFull) <==>
            Proper(limits, run, payload, timeoutMs, generation) && !Fits(limits, run.log, |payload|))
      && (refusal.Some? ==> refusal.value in {RejectedInvalid, RejectedFull})
  {
    hide Inv, Unsettled, TotalSize, Empty, CountedCount, CountedBytes;
    CountsOutstanding(run);
  }

  /** In every run, a request is accepted if and only if it is proper, fits among what is outstanding and an
      ID is left; it is turned away as too much exactly when it is proper and does not fit, and as invalid
      otherwise. An accepted request gets the next ID and a refused one changes nothing. */
  lemma AdmittedExactly(limits: Limits, events: seq<Event>, payload: seq<bv8>, timeoutMs: int,
      generation: Generation, deadline: Deadline, byTimeout: int)
    ensures var run := After(Start(limits), events);
      var (after, result) := Enqueue(run.queue, payload, timeoutMs, generation, deadline, byTimeout);
      var proper, fits, idLeft := Proper(limits, run, payload, timeoutMs, generation),
        Fits(limits, run.log, |payload|), MaxId !in run.log.issued;
      && (result.status == Accepted <==> proper && fits && idLeft)
      && (result.status == RejectedFull <==> proper && !fits)
      && (result.status == RejectedInvalid <==> !proper || (fits && !idLeft))
      && (result.status == Accepted ==>
            && result.requestId !in run.log.issued && result.generation == generation
            && result.byteCount == |payload| && after.generation == generation
            && result.deadline == if deadline.Some? then deadline else Some(byTimeout))
      && (result.status != Accepted ==> after == run.queue && result.requestId == 0)
  {
    hide Inv, After, Refusal, Proper, Fits, Admit;
    EveryRunHolds(limits, events);
    LimitsStayAfter(Start(limits), events);
    var run := After(Start(limits), events);
    NoIdLeft(run);
    NextIsFresh(run);
    RefusedExactly(run, payload, timeoutMs, generation);
    GenerationTaken(run, payload, timeoutMs, generation, deadline, byTimeout);
  }

  lemma GenerationTaken(run: Run, payload: seq<bv8>, timeoutMs: int, generation: Generation, deadline: Deadline,
      byTimeout: int)
    ensures var (after, result) := Enqueue(run.queue, payload, timeoutMs, generation, deadline, byTimeout);
      result.status == Accepted ==> after.generation == generation
  {
    hide CountedCount, CountedBytes, Max;
  }

  lemma NextIsFresh(run: Run)
    requires Inv(run)
    ensures run.queue.nextRequestId !in run.log.issued || run.queue.nextRequestId == 0
  {
    hide Partitioned, InOrder, Outstanding, Accounted, Honest, Ascending;
  }

  // ---------------------------------------------------------------- settlement

  ghost predicate SettledAsCancelled(log: Log, id: Id) {
    exists i :: 0 <= i < |log.settled| && log.settled[i].requestId == id
      && log.settled[i].status == Cancelled && log.settled[i].byteCount == 0
  }

  ghost predicate WithdrawnSettled(log: Log) {
    forall id :: id in log.withdrawn ==> SettledAsCancelled(log, id)
  }

  lemma SettledStays(log: Log, later: Log, id: Id)
    requires SettledAsCancelled(log, id) && log.settled <= later.settled
    ensures SettledAsCancelled(later, id)
  {
    var i :| 0 <= i < |log.settled| && log.settled[i].requestId == id
      && log.settled[i].status == Cancelled && log.settled[i].byteCount == 0;
    assert later.settled[i] == log.settled[i];
  }

  /** The log after a call: more is settled, and whatever is withdrawn by it is settled as cancelled. */
  ghost predicate Withdraws(log: Log, later: Log) {
    && log.settled <= later.settled
    && forall id :: id in later.withdrawn ==> id in log.withdrawn || SettledAsCancelled(later, id)
  }

  lemma CancelledIsLast(log: Log, r: Request)
    ensures Withdraws(log, Withdrawn(log, CancelledResult(r)))
  {
    var later := Withdrawn(log, CancelledResult(r));
    assert later.settled[|log.settled|] == CancelledResult(r);
  }

  lemma PeaksWithdraw(log: Log, later: Log, q: Queue, reset: bool)
    requires Withdraws(log, later)
    ensures Withdraws(log, Peaks(later, q, reset))
  {
    var marked := Peaks(later, q, reset);
    forall id | id in marked.withdrawn ensures id in log.withdrawn || SettledAsCancelled(marked, id) {
      if id !in log.withdrawn {
        SettledStays(later, marked, id);
      }
    }
  }

  lemma AllCancelled(log: Log, pending: seq<Request>, later: Log)
    requires later.settled == log.settled + CancelledResults(pending)
    requires later.withdrawn == log.withdrawn + (set r | r in CancelledResults(pending) :: r.requestId)
    ensures Withdraws(log, later)
  {
    var results := CancelledResults(pending);
    forall id | id in later.withdrawn ensures id in log.withdrawn || SettledAsCancelled(later, id) {
      if id !in log.withdrawn {
        var r :| r in results && r.requestId == id;
        var i :| 0 <= i < |results| && results[i] == r;
        assert later.settled[|log.settled| + i] == CancelledResult(pending[i]);
      }
    }
  }

  lemma CancelWithdraws(run: Run, event: Event)
    requires event.Cancel? || event.CancelToken?
    ensures Withdraws(run.log, Next(run, event).log)
  {
    hide Peaks, Withdraws;
    var i := Find(run.queue.pending, event.id, None);
    NothingWithdrawn(run.log);
    PeaksWithdraw(run.log, run.log, run.queue, false);
    if i < |run.queue.pending| {
      var (q, result) := RemovePending(run.queue, i);
      CancelledIsLast(run.log, run.queue.pending[i]);
      PeaksWithdraw(run.log, Withdrawn(run.log, result), q, false);
    }
  }

  lemma NothingWithdrawn(log: Log)
    ensures Withdraws(log, log)
  {
  }

  lemma StepWithdraws(run: Run, event: Event)
    ensures Withdraws(run.log, Next(run, event).log)
  {
    if event.Cancel? || event.CancelToken? {
      CancelWithdraws(run, event);
    } else if event.CancelAll? {
      AllCancelled(run.log, run.queue.pending, Next(run, event).log);
    } else {
      OthersWithdrawNothing(run, event);
    }
  }

  lemma OthersWithdrawNothing(run: Run, event: Event)
    requires !event.Cancel? && !event.CancelToken? && !event.CancelAll?
    ensures Next(run, event).log.withdrawn == run.log.withdrawn
    ensures run.log.settled <= Next(run, event).log.settled
    ensures Withdraws(run.log, Next(run, event).log)
  {
    hide BeginGeneration, ReserveId, Enqueue, ActivateNext, CompleteActive, CountedCount, CountedBytes, Max, Terminal;
  }

  lemma {:induction false} WithdrawnStaysSettled(run: Run, events: seq<Event>)
    requires WithdrawnSettled(run.log)
    ensures WithdrawnSettled(After(run, events).log)
    decreases |events|
  {
    hide Next, SettledAsCancelled;
    if events != [] {
      var next := Next(run, events[0]);
      StepWithdraws(run, events[0]);
      forall id | id in next.log.withdrawn ensures SettledAsCancelled(next.log, id) {
        if id in run.log.withdrawn {
          SettledStays(run.log, next.log, id);
        }
      }
      WithdrawnStaysSettled(next, events[1..]);
    }
  }

  /** In every run, a request cancelled while it waited is settled as cancelled with no byte written. */
  lemma WithdrawnIsCancelled(limits: Limits, events: seq<Event>, id: Id)
    ensures var log := After(Start(limits), events).log;
      id in log.withdrawn ==> SettledAsCancelled(log, id)
  {
    hide After, SettledAsCancelled;
    WithdrawnStaysSettled(Start(limits), events);
  }

  /** In every run, a completion of the request being written, in its generation, with a terminal status
      and no more bytes than it has, settles it with that status and that byte count; only a request
      reported as sent without all its bytes is settled as failed. Any other completion settles nothing. */
  lemma CompletedExactly(limits: Limits, events: seq<Event>, id: Id, generation: Generation, status: Status,
      byteCount: nat)
    ensures var run := After(Start(limits), events);
      var log := Next(run, Complete(id, generation, status, byteCount)).log;
      if ActiveIds(run.queue.active) == [id] && generation == run.queue.generation && Terminal(status)
         && byteCount <= SizeOf(run.log, id) then
        && |log.settled| == |run.log.settled| + 1 && run.log.settled <= log.settled
        && var r := log.settled[|run.log.settled|];
           r.requestId == id && r.generation == generation && r.byteCount == byteCount
             && r.status == if status == Sent && byteCount < SizeOf(run.log, id) then Failed else status
      else log.settled == run.log.settled
  {
    hide After, IdsFresh, Partitioned, InOrder, Accounted, Honest;
    EveryRunHolds(limits, events);
  }

  // ---------------------------------------------------------------- the other calls

  /** In every run, a generation begins exactly when it is one and nothing is outstanding. */
  lemma BegunExactly(limits: Limits, events: seq<Event>, generation: Generation)
    ensures var run := After(Start(limits), events);
      var (after, begun) := BeginGeneration(run.queue, generation);
      && (begun <==> generation != Unassigned && Unsettled(run.log) == [])
      && after == if begun then run.queue.(generation := generation, highWaterCount := 0, highWaterBytes := 0)
                  else run.queue
  {
    hide Inv, After, Unsettled, CountedBytes;
    EveryRunHolds(limits, events);
    CountsOutstanding(After(Start(limits), events));
  }

  /** In every run, with nothing being written and something waiting, the request that waits longest is
      activated; otherwise none is. */
  lemma ActivatedExactly(limits: Limits, events: seq<Event>)
    ensures var run := After(Start(limits), events);
      var next := Next(run, Activate);
      if ActiveIds(run.queue.active) == [] && IdsOf(run.queue.pending) != [] then
        && next.log.activated == run.log.activated + [IdsOf(run.queue.pending)[0]]
        && ActiveIds(next.queue.active) == [IdsOf(run.queue.pending)[0]]
        && IdsOf(next.queue.pending) == IdsOf(run.queue.pending)[1..]
      else next.queue == run.queue && next.log.activated == run.log.activated
  {
    hide After;
  }

  lemma PendingIds(q: Queue, log: Log, id: Id)
    requires IdsFresh(q, log) && Partitioned(q, log) && Outstanding(q, log) && id in IdsOf(q.pending)
    ensures id != 0
    ensures Find(q.pending, id, None) < |q.pending| && Find(q.pending, id, Some(q.generation)) < |q.pending|
  {
    hide Ascending, SettledIds, ActiveIds;
    OnlyAccepted(q, log, id);
    var i :| 0 <= i < |q.pending| && IdsOf(q.pending)[i] == id;
    assert PendingOf(q.pending[i], q.generation, log);
  }

  lemma FoundIds(q: Queue, log: Log, id: Id, generation: Generation)
    requires Outstanding(q, log)
    ensures Find(q.pending, id, None) < |q.pending| ==> id in IdsOf(q.pending)
    ensures Find(q.pending, id, Some(generation)) < |q.pending| ==> id in IdsOf(q.pending) && generation == q.generation
  {
    var i, j := Find(q.pending, id, None), Find(q.pending, id, Some(generation));
    if i < |q.pending| {
      assert IdsOf(q.pending)[i] == id;
    }
    if j < |q.pending| {
      assert IdsOf(q.pending)[j] == id && PendingOf(q.pending[j], q.generation, log);
    }
  }

  /** One more result, of that request, and one request less waiting. */
  ghost predicate TakenOut(run: Run, next: Run, id: Id) {
    && next.log.withdrawn == run.log.withdrawn + {id}
    && |next.log.settled| == |run.log.settled| + 1 && run.log.settled <= next.log.settled
    && next.log.settled[|run.log.settled|].requestId == id
    && |next.queue.pending| + 1 == |run.queue.pending| && next.queue.active == run.queue.active
  }

  ghost predicate Untouched(run: Run, next: Run) {
    next.queue == run.queue && next.log.withdrawn == run.log.withdrawn && next.log.settled == run.log.settled
  }

  /** In every run, a request is cancelled by its ID exactly when it waits, and by its token exactly when it
      waits and the token names the generation of the queue; any other cancellation changes nothing. */
  lemma CancelledExactly(limits: Limits, events: seq<Event>, id: Id, generation: Generation)
    ensures var run := After(Start(limits), events);
      && (if id in IdsOf(run.queue.pending) then TakenOut(run, Next(run, Cancel(id)), id)
          else Untouched(run, Next(run, Cancel(id))))
      && (if id in IdsOf(run.queue.pending) && generation == run.queue.generation then
            TakenOut(run, Next(run, CancelToken(id, generation)), id)
          else Untouched(run, Next(run, CancelToken(id, generation))))
  {
    hide *;
    EveryRunHolds(limits, events);
    var run := After(Start(limits), events);
    InvParts(run);
    FoundIds(run.queue, run.log, id, generation);
    if id in IdsOf(run.queue.pending) {
      PendingIds(run.queue, run.log, id);
    }
    CancelIs(run, id);
    CancelTokenIs(run, id, generation);
  }

  lemma InvParts(run: Run)
    requires Inv(run)
    ensures IdsFresh(run.queue, run.log) && Partitioned(run.queue, run.log) && Outstanding(run.queue, run.log)
  {
    hide IdsFresh, Partitioned, InOrder, Outstanding, Accounted, Honest;
  }

  lemma CancelIs(run: Run, id: Id)
    ensures if id != 0 && Find(run.queue.pending, id, None) < |run.queue.pending| then
        TakenOut(run, Next(run, Cancel(id)), id)
      else Untouched(run, Next(run, Cancel(id)))
  {
    hide CountedCount, CountedBytes, Max;
  }

  lemma CancelTokenIs(run: Run, id: Id, generation: Generation)
    ensures if id != 0 && Find(run.queue.pending, id, Some(generation)) < |run.queue.pending|
          && Find(run.queue.pending, id, None) < |run.queue.pending| then
        TakenOut(run, Next(run, CancelToken(id, generation)), id)
      else Untouched(run, Next(run, CancelToken(id, generation)))
  {
    hide CountedCount, CountedBytes, Max;
  }

  // ---------------------------------------------------------------- IDs

  /** IDs are handed out as 1, 2, 3 and so on; after the largest there is none. */
  ghost predicate CountsUp(run: Run) {
    && |run.log.issued| <= MaxId
    && (forall i :: 0 <= i < |run.log.issued| ==> run.log.issued[i] == i + 1)
    && run.queue.nextRequestId == if |run.log.issued| == MaxId then 0 else |run.log.issued| + 1
  }

  /** A call hands out the next ID, if there is one, or none. */
  ghost predicate IssuesNext(run: Run, next: Run) {
    || (next.log.issued == run.log.issued && next.queue.nextRequestId == run.queue.nextRequestId)
    || (run.queue.nextRequestId != 0 && next.log.issued == run.log.issued + [run.queue.nextRequestId]
         && next.queue.nextRequestId ==
           if run.queue.nextRequestId == MaxId then 0 else run.queue.nextRequestId + 1)
  }

  lemma StepIssues(run: Run, event: Event)
    ensures IssuesNext(run, Next(run, event))
  {
    hide CountedCount, CountedBytes, Max, CancelledResults, Empty;
  }

  lemma {:induction false} StepsCountUp(run: Run, events: seq<Event>)
    requires CountsUp(run)
    ensures CountsUp(After(run, events))
    decreases |events|
  {
    hide Next;
    if events != [] {
      StepIssues(run, events[0]);
      StepsCountUp(Next(run, events[0]), events[1..]);
    }
  }

  lemma IdsCountUp(limits: Limits, events: seq<Event>)
    ensures CountsUp(After(Start(limits), events))
  {
    hide After;
    StepsCountUp(Start(limits), events);
  }
}
