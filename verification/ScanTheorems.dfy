/** What a scan run guarantees, whatever the transport answers and whenever it is cancelled
    (`modbus_scan_executor_core.cpp`). */
module ScanTheorems {
  import opened Options
  import opened Crc
  import opened ModbusFrames
  import opened ScanPlanner
  import opened ScanExecution

  // ---------------------------------------------------------------- attempts

  /** Attempt `i` of a block is the record of the `i`-th exchange made for it. */
  ghost predicate RecordsExchanges(job: Job, block: ScanBlock, attempts: seq<Attempt>, first: nat, call: nat) {
    forall i :: 0 <= i < |attempts| ==> attempts[i] == AttemptOf(job.plan, block, first + i, job.answers(call + i))
  }

  /** Every attempt but the last failed with a status the options allow to retry. */
  ghost predicate OnlyLastSettles(job: Job, attempts: seq<Attempt>) {
    forall i :: 0 <= i < |attempts| - 1 ==> ShouldRetry(attempts[i].status, job.options)
  }

  /** The last attempt ended the block for a reason: it succeeded, its failure may not be retried, or
      no attempt was left. */
  predicate Exhausted(job: Job, attempts: seq<Attempt>, first: nat) {
    && attempts != []
    && (first + |attempts| == job.plan.retryCount + 1 || !ShouldRetry(attempts[|attempts| - 1].status, job.options))
  }

  /** Of the cancellation answers read, only the last may be true, and it is if and only if the run
      counts as cancelled. */
  ghost predicate StoppedByLastPoll(job: Job, from: nat, to: nat, cancelled: bool) {
    && from <= to
    && (cancelled <==> from < to && job.cancel(to - 1))
    && forall p :: from <= p < to - 1 ==> !job.cancel(p)
  }

  lemma OnePoll(job: Job, from: nat)
    ensures StoppedByLastPoll(job, from, from + 1, job.cancel(from))
    ensures StoppedByLastPoll(job, from, from, false)
  {
  }

  lemma OneMoreRecord(job: Job, block: ScanBlock, attempt: Attempt, rest: seq<Attempt>, first: nat, call: nat)
    requires attempt == AttemptOf(job.plan, block, first, job.answers(call))
    requires RecordsExchanges(job, block, rest, first + 1, call + 1)
    ensures RecordsExchanges(job, block, [attempt] + rest, first, call)
  {
    hide AttemptOf;
    var all := [attempt] + rest;
    forall i | 0 <= i < |all|
      ensures all[i] == AttemptOf(job.plan, block, first + i, job.answers(call + i))
    {
      if i > 0 {
        assert all[i] == rest[i - 1];
      }
    }
  }

  lemma OneMoreRetry(job: Job, attempt: Attempt, rest: seq<Attempt>, first: nat)
    requires ShouldRetry(attempt.status, job.options)
    requires OnlyLastSettles(job, rest)
    ensures OnlyLastSettles(job, [attempt] + rest)
    ensures Exhausted(job, rest, first + 1) ==> Exhausted(job, [attempt] + rest, first)
  {
    hide ShouldRetry;
    var all := [attempt] + rest;
    forall i | 0 <= i < |all| - 1
      ensures ShouldRetry(all[i].status, job.options)
    {
      if i > 0 {
        assert all[i] == rest[i - 1];
      }
    }
  }

  ghost predicate SoundTries(job: Job, block: ScanBlock, k: nat, usage: Usage, t: Tried) {
    && RecordsExchanges(job, block, t.attempts, k, usage.calls)
    && OnlyLastSettles(job, t.attempts)
    && k + |t.attempts| <= job.plan.retryCount + 1
    && (!t.cancelled ==> Exhausted(job, t.attempts, k))
    && (t.cancelled ==> !Succeeded(t.attempts))
    && t.usage.calls == usage.calls + |t.attempts|
    && t.usage.sleeps == usage.sleeps
    && StoppedByLastPoll(job, usage.polls, t.usage.polls, t.cancelled)
  }

  lemma SoundCancelled(job: Job, block: ScanBlock, k: nat, usage: Usage)
    requires k < job.plan.retryCount + 1 && job.cancel(usage.polls)
    ensures SoundTries(job, block, k, usage, Tried([], true, usage.(polls := usage.polls + 1)))
  {
    hide AttemptOf, ShouldRetry;
  }

  /** An attempt that settles its block, with or without a query after it. */
  lemma SoundLast(job: Job, block: ScanBlock, k: nat, usage: Usage, attempt: Attempt, polled: bool, cancelled: bool)
    requires k < job.plan.retryCount + 1 && !job.cancel(usage.polls)
    requires attempt == AttemptOf(job.plan, block, k, job.answers(usage.calls))
    requires cancelled == (polled && job.cancel(usage.polls + 1))
    requires cancelled ==> attempt.status != Success
    requires cancelled || k + 1 == job.plan.retryCount + 1 || !ShouldRetry(attempt.status, job.options)
    ensures SoundTries(job, block, k, usage, Tried([attempt], cancelled,
      Usage(usage.calls + 1, usage.polls + (if polled then 2 else 1), usage.sleeps)))
  {
    hide AttemptOf, ShouldRetry;
  }

  lemma SoundRetry(job: Job, block: ScanBlock, k: nat, usage: Usage, attempt: Attempt, rest: Tried)
    requires k < job.plan.retryCount + 1 && !job.cancel(usage.polls) && !job.cancel(usage.polls + 1)
    requires attempt == AttemptOf(job.plan, block, k, job.answers(usage.calls))
    requires attempt.status != Success && ShouldRetry(attempt.status, job.options)
    requires SoundTries(job, block, k + 1, Usage(usage.calls + 1, usage.polls + 2, usage.sleeps), rest)
    ensures SoundTries(job, block, k, usage, Before([attempt], rest))
  {
    hide AttemptOf, ShouldRetry, RecordsExchanges, OnlyLastSettles;
    OneMoreRecord(job, block, attempt, rest.attempts, k, usage.calls);
    OneMoreRetry(job, attempt, rest.attempts, k);
  }

  /** The attempts made for a block, whatever was answered. */
  lemma {:induction false} TriesAreSound(job: Job, block: ScanBlock, k: nat, usage: Usage)
    requires k < job.plan.retryCount + 1
    ensures SoundTries(job, block, k, usage, Tries(job, block, k, usage))
    decreases job.plan.retryCount + 1 - k
  {
    hide AttemptOf, SoundTries, ShouldRetry;
    if job.cancel(usage.polls) {
      SoundCancelled(job, block, k, usage);
    } else {
      var attempt := AttemptOf(job.plan, block, k, job.answers(usage.calls));
      if attempt.status == Success {
        NoRetryAfterSuccess(job.options);
        SoundLast(job, block, k, usage, attempt, false, false);
      } else if job.cancel(usage.polls + 1) {
        SoundLast(job, block, k, usage, attempt, true, true);
      } else if k + 1 < job.plan.retryCount + 1 && ShouldRetry(attempt.status, job.options) {
        var next := Usage(usage.calls + 1, usage.polls + 2, usage.sleeps);
        TriesAreSound(job, block, k + 1, next);
        SoundRetry(job, block, k, usage, attempt, Tries(job, block, k + 1, next));
      } else {
        SoundLast(job, block, k, usage, attempt, true, false);
      }
    }
  }

  lemma NoRetryAfterSuccess(options: ExecutionOptions)
    ensures !ShouldRetry(Success, options)
  {
  }

  // ---------------------------------------------------------------- blocks

  /** A recorded block: its attempts are the records of its own exchanges, between one and
      `retryCount + 1` of them, only the last of which may have succeeded. */
  ghost predicate SoundBlock(job: Job, r: BlockResult, block: ScanBlock, call: nat) {
    && r.block == block
    && 1 <= |r.attempts| <= job.plan.retryCount + 1
    && RecordsExchanges(job, block, r.attempts, 0, call)
    && OnlyLastSettles(job, r.attempts)
    && r.ok == Succeeded(r.attempts)
    && r.observations == BlockObservations(job.plan, block, r.attempts)
  }

  /** Exchanges made for the blocks of a list. */
  function Calls(blocks: seq<BlockResult>): nat {
    if blocks == [] then 0 else Calls(blocks[..|blocks| - 1]) + |blocks[|blocks| - 1].attempts|
  }

  /** Recorded block `j` is block `i + j` of the plan, and its exchanges follow those of the blocks before. */
  ghost predicate SoundBlocks(job: Job, blocks: seq<BlockResult>, i: nat, call: nat)
    requires i + |blocks| <= |job.plan.blocks|
  {
    forall j :: 0 <= j < |blocks| ==> SoundBlock(job, blocks[j], job.plan.blocks[i + j], call + Calls(blocks[..j]))
  }

  /** A block that failed ends the run unless the options say to go on. */
  ghost predicate StopsAtFailure(job: Job, blocks: seq<BlockResult>) {
    forall j :: 0 <= j < |blocks| - 1 ==> blocks[j].ok || job.options.continueOnBlockError
  }

  /** The recorded blocks are all there are, or the run stopped at its last one. */
  predicate Covers(job: Job, blocks: seq<BlockResult>, i: nat) {
    || i + |blocks| == |job.plan.blocks|
    || (blocks != [] && !blocks[|blocks| - 1].ok && !job.options.continueOnBlockError)
  }

  /** Every block whose attempts nobody cancelled was settled or tried as often as the plan allows. */
  ghost predicate EachExhausted(job: Job, blocks: seq<BlockResult>, cancelled: bool) {
    forall j :: 0 <= j < |blocks| && (j + 1 < |blocks| || !cancelled) ==> Exhausted(job, blocks[j].attempts, 0)
  }

  ghost predicate SoundScan(job: Job, i: nat, usage: Usage, run: Scanned) {
    && i + |run.blocks| <= |job.plan.blocks|
    && SoundBlocks(job, run.blocks, i, usage.calls)
    && StopsAtFailure(job, run.blocks)
    && (!run.cancelled ==> Covers(job, run.blocks, i))
    && EachExhausted(job, run.blocks, run.cancelled)
    && run.usage.calls == usage.calls + Calls(run.blocks)
    && StoppedByLastPoll(job, usage.polls, run.usage.polls, run.cancelled)
  }

  lemma {:induction false} CallsPrepend(first: BlockResult, rest: seq<BlockResult>)
    ensures Calls([first] + rest) == |first.attempts| + Calls(rest)
  {
    if rest == [] {
      assert [first] + rest == [first];
      assert Calls([first]) == Calls([]) + |first.attempts|;
    } else {
      var all := [first] + rest;
      CallsPrepend(first, rest[..|rest| - 1]);
      assert all[..|all| - 1] == [first] + rest[..|rest| - 1];
    }
  }

  lemma SoundBlocksPrepend(job: Job, first: BlockResult, rest: seq<BlockResult>, i: nat, call: nat)
    requires i + 1 + |rest| <= |job.plan.blocks|
    requires SoundBlock(job, first, job.plan.blocks[i], call)
    requires SoundBlocks(job, rest, i + 1, call + |first.attempts|)
    ensures SoundBlocks(job, [first] + rest, i, call)
  {
    hide SoundBlock, Calls;
    var all := [first] + rest;
    forall j | 0 <= j < |all|
      ensures SoundBlock(job, all[j], job.plan.blocks[i + j], call + Calls(all[..j]))
    {
      CallsBefore(first, rest, j);
      if j > 0 {
        assert SoundBlock(job, rest[j - 1], job.plan.blocks[i + 1 + (j - 1)],
          call + |first.attempts| + Calls(rest[..j - 1]));
      }
    }
  }

  lemma CallsBefore(first: BlockResult, rest: seq<BlockResult>, j: nat)
    requires j <= |rest|
    ensures Calls(([first] + rest)[..j]) == if j == 0 then 0 else |first.attempts| + Calls(rest[..j - 1])
  {
    if j > 0 {
      CallsPrepend(first, rest[..j - 1]);
      assert ([first] + rest)[..j] == [first] + rest[..j - 1];
    }
  }

  lemma SoundScanPrepend(job: Job, i: nat, usage: Usage, tried: Tried, first: BlockResult, next: Usage, rest: Scanned)
    requires i < |job.plan.blocks| && !job.cancel(usage.polls) && !tried.cancelled
    requires SoundTries(job, job.plan.blocks[i], 0, usage.(polls := usage.polls + 1), tried)
    requires SoundBlock(job, first, job.plan.blocks[i], usage.calls) && first.attempts == tried.attempts
    requires first.ok || job.options.continueOnBlockError
    requires next.calls == tried.usage.calls && next.polls == tried.usage.polls
    requires SoundScan(job, i + 1, next, rest)
    ensures SoundScan(job, i, usage, BlocksBefore([first], rest))
  {
    hide SoundBlock, SoundBlocks, RecordsExchanges, OnlyLastSettles, Exhausted, Succeeded;
    var all := [first] + rest.blocks;
    SoundBlocksPrepend(job, first, rest.blocks, i, usage.calls);
    CallsPrepend(first, rest.blocks);
    assert forall j :: 0 < j < |all| ==> all[j] == rest.blocks[j - 1];
  }

  lemma SoundScanLast(job: Job, i: nat, usage: Usage, tried: Tried, last: BlockResult)
    requires i < |job.plan.blocks| && !job.cancel(usage.polls)
    requires SoundTries(job, job.plan.blocks[i], 0, usage.(polls := usage.polls + 1), tried)
    requires SoundBlock(job, last, job.plan.blocks[i], usage.calls) && last.attempts == tried.attempts
    requires tried.cancelled || (!last.ok && !job.options.continueOnBlockError)
    ensures SoundScan(job, i, usage, Scanned([last], tried.cancelled, tried.usage))
  {
    hide SoundBlock, RecordsExchanges, OnlyLastSettles, Exhausted, Succeeded;
    var all := [last];
    var none: seq<BlockResult> := [];
    CallsPrepend(last, none);
    assert all + none == all && all[..0] == none;
  }

  lemma SoundScanNone(job: Job, i: nat, usage: Usage, calls: nat, polls: nat, sleeps: seq<int>, cancelled: bool)
    requires i <= |job.plan.blocks| && calls == usage.calls
    requires StoppedByLastPoll(job, usage.polls, polls, cancelled)
    requires !cancelled ==> i == |job.plan.blocks|
    ensures SoundScan(job, i, usage, Scanned([], cancelled, Usage(calls, polls, sleeps)))
  {
    hide SoundBlock, StoppedByLastPoll;
  }

  lemma RecordedBlockIsSound(job: Job, i: nat, usage: Usage, tried: Tried)
    requires i < |job.plan.blocks| && tried.attempts != []
    requires SoundTries(job, job.plan.blocks[i], 0, usage, tried)
    ensures SoundBlock(job, BlockOf(job, job.plan.blocks[i], tried), job.plan.blocks[i], usage.calls)
  {
    hide RecordsExchanges, OnlyLastSettles, Exhausted, Succeeded, StoppedByLastPoll, BlockObservations;
  }

  lemma {:induction false} ScanIsSound(job: Job, i: nat, usage: Usage)
    requires i <= |job.plan.blocks| && job.plan.retryCount >= 0
    ensures SoundScan(job, i, usage, Scan(job, i, usage))
    decreases |job.plan.blocks| - i
  {
    hide Tries, SoundTries, SoundScan, SoundBlock, BlockOf, BlocksBefore, SleepsBefore, StoppedByLastPoll;
    OnePoll(job, usage.polls);
    if i == |job.plan.blocks| {
      SoundScanNone(job, i, usage, usage.calls, usage.polls, usage.sleeps, false);
    } else if job.cancel(usage.polls) {
      SoundScanNone(job, i, usage, usage.calls, usage.polls + 1, usage.sleeps, true);
    } else {
      var polled := usage.(polls := usage.polls + 1);
      var tried := Tries(job, job.plan.blocks[i], 0, polled);
      TriesAreSound(job, job.plan.blocks[i], 0, polled);
      if tried.cancelled && tried.attempts == [] {
        CancelledBetween(job, i, usage, tried);
      } else {
        SomeAttempts(job, i, polled, tried);
        RecordedBlockIsSound(job, i, polled, tried);
        var block := BlockOf(job, job.plan.blocks[i], tried);
        BlockKeepsAttempts(job, i, tried);
        if tried.cancelled || (!block.ok && !job.options.continueOnBlockError) {
          SoundScanLast(job, i, usage, tried, block);
        } else {
          var next := tried.usage.(sleeps := tried.usage.sleeps + SleepsBefore(job, i + 1));
          ScanIsSound(job, i + 1, next);
          SoundScanPrepend(job, i, usage, tried, block, next, Scan(job, i + 1, next));
        }
      }
    }
  }

  lemma BlockKeepsAttempts(job: Job, i: nat, tried: Tried)
    requires i < |job.plan.blocks|
    ensures BlockOf(job, job.plan.blocks[i], tried).attempts == tried.attempts
  {
    hide BlockObservations;
  }

  lemma SomeAttempts(job: Job, i: nat, usage: Usage, tried: Tried)
    requires i < |job.plan.blocks|
    requires SoundTries(job, job.plan.blocks[i], 0, usage, tried)
    requires !(tried.cancelled && tried.attempts == [])
    ensures tried.attempts != []
  {
  }

  lemma CancelledBetween(job: Job, i: nat, usage: Usage, tried: Tried)
    requires i < |job.plan.blocks| && !job.cancel(usage.polls)
    requires SoundTries(job, job.plan.blocks[i], 0, usage.(polls := usage.polls + 1), tried)
    requires tried.cancelled && tried.attempts == []
    ensures SoundScan(job, i, usage, Scanned([], true, tried.usage))
  {
    hide RecordsExchanges, OnlyLastSettles;
    SoundScanNone(job, i, usage, tried.usage.calls, tried.usage.polls, tried.usage.sleeps, true);
  }

  // ---------------------------------------------------------------- results

  /** The registers a block's observations come from. */
  function ValuesOf(plan: ScanPlan, block: ScanBlock, attempt: Attempt): seq<Register> {
    var response := ParsedFor(plan, block, attempt.responseFrame);
    if response.Registers? then response.values else []
  }

  lemma SuccessIsParsed(plan: ScanPlan, block: ScanBlock, index: int, exchange: Exchange)
    ensures var a := AttemptOf(plan, block, index, exchange);
      && a.responseFrame == exchange.responseFrame && a.attemptIndex == index
      && (a.status == Success <==>
            exchange.status == Answered && ParsedFor(plan, block, exchange.responseFrame).Registers?)
  {
    hide Parse;
  }

  lemma ObservationsAre(plan: ScanPlan, block: ScanBlock, attempt: Attempt)
    requires attempt.status == Success && ParsedFor(plan, block, attempt.responseFrame).Registers?
    ensures var values := ValuesOf(plan, block, attempt);
      var seen := ObservationsOf(plan, block, attempt);
      && |values| == block.quantity && |seen| == block.quantity
      && forall k :: 0 <= k < block.quantity ==> seen[k] == Observation(block.index, attempt.attemptIndex,
           plan.slaveId, plan.functionCode, block.startAddress + k, values[k])
  {
    hide Parse;
    ReadingsAreConsecutive(attempt.responseFrame, plan.slaveId, plan.functionCode, block.startAddress, block.quantity);
  }

  /** A block counted as read was answered, by its last exchange, with a canonical response for it; its
      observations are that response's registers at the block's own addresses. */
  lemma ReadBlockIsCanonical(job: Job, r: BlockResult, block: ScanBlock, call: nat)
    requires SoundBlock(job, r, block, call) && r.ok
    ensures var last := job.answers(call + |r.attempts| - 1);
      var values := ValuesOf(job.plan, block, r.attempts[|r.attempts| - 1]);
      && last.status == Answered
      && |values| == block.quantity == |r.observations| && 2 * |values| < 0x100
      && 0 <= job.plan.slaveId < 0x100
      && last.responseFrame == ResponseFrame(job.plan.slaveId, job.plan.functionCode, values)
      && forall k :: 0 <= k < block.quantity ==> r.observations[k] == Observation(block.index, |r.attempts| - 1,
           job.plan.slaveId, job.plan.functionCode, block.startAddress + k, values[k])
  {
    hide ParsedFor, AttemptOf, ObservationsOf, ValuesOf, ResponseFrame;
    var n := |r.attempts| - 1;
    var last := r.attempts[n];
    assert last == AttemptOf(job.plan, block, n, job.answers(call + n));
    SuccessIsParsed(job.plan, block, n, job.answers(call + n));
    ObservationsAre(job.plan, block, last);
    ParsedIsCanonical(job.plan, block, last);
  }

  lemma ParsedIsCanonical(plan: ScanPlan, block: ScanBlock, attempt: Attempt)
    requires ParsedFor(plan, block, attempt.responseFrame).Registers?
    ensures var values := ValuesOf(plan, block, attempt);
      && 2 * |values| < 0x100 && 0 <= plan.slaveId < 0x100
      && attempt.responseFrame == ResponseFrame(plan.slaveId, plan.functionCode, values)
  {
    hide Parse, ResponseFrame, ReadingsFrom;
    var response := ParsedFor(plan, block, attempt.responseFrame);
    ReadingsAreConsecutive(attempt.responseFrame, plan.slaveId, plan.functionCode, block.startAddress, block.quantity);
    ParsesExactlyCanonical(attempt.responseFrame, plan.slaveId, plan.functionCode, block.startAddress, block.quantity,
                           response.values);
  }

  predicate AnswersWith(plan: ScanPlan, block: ScanBlock, frame: seq<Byte>, values: seq<Register>) {
    && |values| == block.quantity && 2 * |values| < 0x100 && 0 <= plan.slaveId < 0x100
    && frame == ResponseFrame(plan.slaveId, plan.functionCode, values)
  }

  /** A block whose request is in range counts as read exactly when its last exchange was answered
      with an encoding of that many registers. */
  lemma ReadExactly(job: Job, r: BlockResult, block: ScanBlock, call: nat)
    requires SoundBlock(job, r, block, call)
    requires ValidRequest(job.plan.slaveId, job.plan.functionCode, block.startAddress, block.quantity)
    ensures var last := job.answers(call + |r.attempts| - 1);
      r.ok <==> last.status == Answered && exists values :: AnswersWith(job.plan, block, last.responseFrame, values)
  {
    hide AttemptOf, ObservationsOf, ResponseFrame, ReadingsFrom, Parse;
    var n := |r.attempts| - 1;
    var last := job.answers(call + n);
    assert r.attempts[n] == AttemptOf(job.plan, block, n, last);
    SuccessIsParsed(job.plan, block, n, last);
    if r.ok {
      ReadBlockIsCanonical(job, r, block, call);
      assert AnswersWith(job.plan, block, last.responseFrame, ValuesOf(job.plan, block, r.attempts[n]));
    }
    if values :| AnswersWith(job.plan, block, last.responseFrame, values) {
      CanonicalIsAccepted(job.plan.slaveId, job.plan.functionCode, block.startAddress, values);
    }
  }

  ghost predicate AllOk(blocks: seq<BlockResult>) {
    forall j :: 0 <= j < |blocks| ==> blocks[j].ok
  }

  lemma {:induction false} AllSucceeding(blocks: seq<BlockResult>)
    ensures Succeeding(blocks) == |blocks| <==> AllOk(blocks)
  {
    if blocks != [] {
      var shorter := blocks[..|blocks| - 1];
      AllSucceeding(shorter);
      SucceedingAtMostAll(shorter);
      assert AllOk(blocks) <==> AllOk(shorter) && blocks[|blocks| - 1].ok;
    }
  }

  /** Whatever the transport answers, a run of a valid plan records a prefix of the plan's blocks, each
      with its own exchanges; it counts every recorded block once, as read or as failed; and it is
      cancelled if and only if the last cancellation query said so, no earlier one having done so. */
  lemma RunIsSound(job: Job, start: Usage, result: ScanResult)
    requires !InvalidPlan(job.plan, job.options)
    requires Finishes(job.plan, Scan(job, 0, start), result)
    ensures |result.blocks| <= |job.plan.blocks|
    ensures SoundBlocks(job, result.blocks, 0, start.calls)
    ensures StopsAtFailure(job, result.blocks)
    ensures result.status != Cancelled ==> Covers(job, result.blocks, 0)
    ensures EachExhausted(job, result.blocks, result.status == Cancelled)
    ensures result.successBlockCount + result.failedBlockCount == |result.blocks|
    ensures result.observations == AllObservations(result.blocks)
    ensures Scan(job, 0, start).usage.calls == start.calls + Calls(result.blocks)
    ensures StoppedByLastPoll(job, start.polls, Scan(job, 0, start).usage.polls, result.status == Cancelled)
  {
    hide Scan, SoundBlocks, StopsAtFailure, StoppedByLastPoll, AllObservations, Succeeding, Calls, InvalidBlock,
      Covers, EachExhausted;
    ScanIsSound(job, 0, start);
  }

  /** A run reports Completed exactly when it was not cancelled and read every block of the plan. */
  lemma CompletedExactly(job: Job, start: Usage, result: ScanResult)
    requires !InvalidPlan(job.plan, job.options)
    requires Finishes(job.plan, Scan(job, 0, start), result)
    ensures result.status == Completed <==>
      !Scan(job, 0, start).cancelled && |result.blocks| == |job.plan.blocks| && AllOk(result.blocks)
  {
    hide Scan, SoundBlocks, StopsAtFailure, StoppedByLastPoll, AllObservations, Succeeding, Calls, InvalidBlock;
    ScanIsSound(job, 0, start);
    AllSucceeding(result.blocks);
  }

  lemma {:induction false} NoneSucceeding(blocks: seq<BlockResult>)
    ensures Succeeding(blocks) == 0 <==> forall j :: 0 <= j < |blocks| ==> !blocks[j].ok
  {
    if blocks != [] {
      var shorter, last := blocks[..|blocks| - 1], blocks[|blocks| - 1];
      NoneSucceeding(shorter);
      assert blocks == shorter + [last];
    }
  }

  /** A run that was not cancelled reports Failed exactly when it read none of the blocks it came to, and
      CompletedWithErrors exactly when it read some of them but not all. */
  lemma ErrorsExactly(job: Job, start: Usage, result: ScanResult)
    requires !InvalidPlan(job.plan, job.options) && result.status != Cancelled
    requires Finishes(job.plan, Scan(job, 0, start), result)
    ensures result.blocks != []
    ensures result.status == Failed <==> forall j :: 0 <= j < |result.blocks| ==> !result.blocks[j].ok
    ensures result.status == CompletedWithErrors <==>
      && (exists j :: 0 <= j < |result.blocks| && result.blocks[j].ok)
      && (exists j :: 0 <= j < |result.blocks| && !result.blocks[j].ok)
  {
    hide Scan, SoundBlocks, StopsAtFailure, StoppedByLastPoll, AllObservations, Succeeding, Calls, InvalidBlock,
      EachExhausted;
    RunIsSound(job, start, result);
    AllSucceeding(result.blocks);
    NoneSucceeding(result.blocks);
  }

  /** The plans that the planner builds are all taken by the executor. */
  lemma BuiltPlansAreTaken(o: ScanOptions, plan: ScanPlan, options: ExecutionOptions)
    requires ValidOptions(o) && Tiles(o, plan.blocks) && options.responseTimeoutMs >= 0
    requires plan.slaveId == o.slaveId && plan.functionCode == o.functionCode && plan.retryCount == o.retryCount
    ensures !InvalidPlan(plan, options)
  {
    hide RequestFrame, NextAddress;
    forall i | 0 <= i < |plan.blocks|
      ensures !InvalidBlock(plan.blocks[i])
    {
      assert GoodBlock(o, plan.blocks[i], i, NextAddress(plan.blocks[..i], o.startAddress));
    }
    NothingPlanned(o.startAddress);
  }

  lemma NothingPlanned(start: int)
    ensures NextAddress([], start) == start
  {
  }

  // ---------------------------------------------------------------- when attempts go on

  /** The frame encodes the registers of the block. */
  ghost predicate AnswersBlock(plan: ScanPlan, block: ScanBlock, frame: seq<Byte>) {
    && block.startAddress + block.quantity - 1 <= MaxAddress
    && exists values :: AnswersWith(plan, block, frame, values)
  }

  predicate ExceptsWith(plan: ScanPlan, block: ScanBlock, frame: seq<Byte>, code: Byte) {
    && 0 <= plan.slaveId < 0x100 && block.startAddress <= MaxAddress
    && frame == ExceptionFrame(plan.slaveId, plan.functionCode, code)
  }

  /** The frame is an exception response of the slave to the function. */
  ghost predicate ExceptsBlock(plan: ScanPlan, block: ScanBlock, frame: seq<Byte>) {
    exists code :: ExceptsWith(plan, block, frame, code)
  }

  /** What the validation of a plan leaves of a block. */
  predicate Askable(plan: ScanPlan, block: ScanBlock) {
    && MinSlaveId <= plan.slaveId <= MaxSlaveId && IsSupportedReadFunction(plan.functionCode)
    && 0 <= block.startAddress && 1 <= block.quantity
  }

  lemma RegistersExactly(plan: ScanPlan, block: ScanBlock, frame: seq<Byte>)
    requires Askable(plan, block)
    ensures ParsedFor(plan, block, frame).Registers? <==> AnswersBlock(plan, block, frame)
  {
    hide ResponseFrame, Parse;
    var response := ParsedFor(plan, block, frame);
    if response.Registers? {
      ReadingsAreConsecutive(frame, plan.slaveId, plan.functionCode, block.startAddress, block.quantity);
      ParsesExactlyCanonical(frame, plan.slaveId, plan.functionCode, block.startAddress, block.quantity,
                             response.values);
      assert AnswersWith(plan, block, frame, response.values);
    }
    if AnswersBlock(plan, block, frame) {
      var values :| AnswersWith(plan, block, frame, values);
      ParsesExactlyCanonical(frame, plan.slaveId, plan.functionCode, block.startAddress, block.quantity, values);
    }
  }

  lemma ExceptionExactly(plan: ScanPlan, block: ScanBlock, frame: seq<Byte>)
    requires Askable(plan, block)
    ensures ParsedFor(plan, block, frame).Exception? <==> ExceptsBlock(plan, block, frame)
    ensures forall code :: ParsedFor(plan, block, frame) == Exception(code) <==> ExceptsWith(plan, block, frame, code)
  {
    hide ExceptionFrame, Parse;
    var response := ParsedFor(plan, block, frame);
    forall code
      ensures response == Exception(code) <==> ExceptsWith(plan, block, frame, code)
    {
      ExceptionsExactly(frame, plan.slaveId, plan.functionCode, block.startAddress, block.quantity, code);
    }
    if response.Exception? {
      assert ExceptsWith(plan, block, frame, response.code);
    }
  }

  /** What is recorded of an exchange, said of its answer alone. */
  ghost predicate Records(plan: ScanPlan, block: ScanBlock, e: Exchange, a: Attempt) {
    && a.blockIndex == block.index && a.responseFrame == e.responseFrame
    && a.requestFrame == (if e.requestFrame == [] then block.requestFrame else e.requestFrame)
    && (a.status == Timeout <==> e.status == TimedOut)
    && (a.status == TransportError <==> e.status == Broken)
    && (a.status == Success <==> e.status == Answered && AnswersBlock(plan, block, e.responseFrame))
    && (a.status == ModbusException <==> e.status == Answered && ExceptsBlock(plan, block, e.responseFrame))
    && (forall code :: a.exceptionCode == Some(code) <==>
          e.status == Answered && ExceptsWith(plan, block, e.responseFrame, code))
  }

  lemma AttemptRecords(plan: ScanPlan, block: ScanBlock, index: int, e: Exchange)
    requires Askable(plan, block)
    ensures Records(plan, block, e, AttemptOf(plan, block, index, e))
    ensures AttemptOf(plan, block, index, e).attemptIndex == index
  {
    hide ParsedFor, AnswersBlock, ExceptsBlock, ExceptsWith;
    RegistersExactly(plan, block, e.responseFrame);
    ExceptionExactly(plan, block, e.responseFrame);
  }

  /** Number of the first exchange of recorded block `j`. */
  function FirstCall(start: Usage, result: ScanResult, j: nat): nat
    requires j <= |result.blocks|
  {
    start.calls + Calls(result.blocks[..j])
  }

  lemma PlannedBlock(job: Job, j: nat)
    requires !InvalidPlan(job.plan, job.options) && j < |job.plan.blocks|
    ensures Askable(job.plan, job.plan.blocks[j])
  {
    assert !InvalidBlock(job.plan.blocks[j]);
  }

  lemma RunBlock(job: Job, start: Usage, result: ScanResult, j: nat)
    requires !InvalidPlan(job.plan, job.options)
    requires Finishes(job.plan, Scan(job, 0, start), result) && j < |result.blocks|
    ensures |result.blocks| <= |job.plan.blocks| && Askable(job.plan, job.plan.blocks[j])
    ensures SoundBlock(job, result.blocks[j], job.plan.blocks[j], FirstCall(start, result, j))
    ensures j + 1 < |result.blocks| || result.status != Cancelled ==> Exhausted(job, result.blocks[j].attempts, 0)
  {
    hide InvalidPlan, Finishes, Scan, SoundBlock, Calls, Exhausted, Askable, StopsAtFailure, StoppedByLastPoll,
      AllObservations, Covers;
    RunIsSound(job, start, result);
    PlannedBlock(job, j);
    assert SoundBlock(job, result.blocks[j], job.plan.blocks[0 + j], start.calls + Calls(result.blocks[..j]));
  }

  /** Attempt `i` of recorded block `j` records the answer to its own exchange: a timeout, a broken
      transport, the registers asked for, an exception, or else a parse error. */
  lemma RunRecords(job: Job, start: Usage, result: ScanResult, j: nat, i: nat)
    requires !InvalidPlan(job.plan, job.options) && Finishes(job.plan, Scan(job, 0, start), result)
    requires j < |result.blocks| && i < |result.blocks[j].attempts|
    ensures |result.blocks| <= |job.plan.blocks| && result.blocks[j].attempts[i].attemptIndex == i
    ensures Records(job.plan, job.plan.blocks[j], job.answers(FirstCall(start, result, j) + i),
                    result.blocks[j].attempts[i])
  {
    hide InvalidPlan, Finishes, Scan, FirstCall, Exhausted, Askable, AttemptOf, Records, OnlyLastSettles,
      BlockObservations;
    RunBlock(job, start, result, j);
    AttemptRecords(job.plan, job.plan.blocks[j], i, job.answers(FirstCall(start, result, j) + i));
    assert result.blocks[j].attempts[i] == AttemptOf(job.plan, job.plan.blocks[j], 0 + i,
      job.answers(FirstCall(start, result, j) + i));
  }

  /** Whether another exchange of the block follows, said of the answer, the options and the attempts left. */
  ghost predicate GoesOn(job: Job, block: ScanBlock, e: Exchange, left: bool, goesOn: bool) {
    && (e.status == TimedOut ==> (goesOn <==> left && job.options.retryOnTimeout))
    && (e.status == Broken ==> (goesOn <==> left && job.options.retryOnTransportError))
    && (e.status == Answered && AnswersBlock(job.plan, block, e.responseFrame) ==> !goesOn)
    && (e.status == Answered && ExceptsBlock(job.plan, block, e.responseFrame) ==>
          (goesOn <==> left && job.options.retryOnModbusException))
    && (e.status == Answered && !AnswersBlock(job.plan, block, e.responseFrame)
          && !ExceptsBlock(job.plan, block, e.responseFrame) ==>
          (goesOn <==> left && job.options.retryOnParseError))
  }

  /** `ShouldRetry` of what is recorded, said of the answer. */
  lemma RetryRecorded(job: Job, block: ScanBlock, e: Exchange, a: Attempt, left: bool)
    requires Records(job.plan, block, e, a)
    ensures GoesOn(job, block, e, left, left && ShouldRetry(a.status, job.options))
  {
    hide AnswersBlock, ExceptsBlock, ExceptsWith;
  }

  lemma SettledExactly(job: Job, attempts: seq<Attempt>, i: nat)
    requires OnlyLastSettles(job, attempts) && Exhausted(job, attempts, 0) && i < |attempts|
    requires |attempts| <= job.plan.retryCount + 1
    ensures i + 1 < |attempts| <==> i < job.plan.retryCount && ShouldRetry(attempts[i].status, job.options)
  {
    hide ShouldRetry;
  }

  /** Exchange `i` of a block is followed by another, if attempts are left and nobody cancels the block,
      exactly when the option for what was answered says so; a timeout, a broken transport, an exception
      and any other frame each have their own, and none is needed after the registers asked for. */
  lemma AttemptsGoOn(job: Job, start: Usage, result: ScanResult, j: nat, i: nat)
    requires !InvalidPlan(job.plan, job.options) && Finishes(job.plan, Scan(job, 0, start), result)
    requires j < |result.blocks| && i < |result.blocks[j].attempts|
    requires j + 1 < |result.blocks| || result.status != Cancelled
    ensures |result.blocks| <= |job.plan.blocks|
    ensures GoesOn(job, job.plan.blocks[j], job.answers(FirstCall(start, result, j) + i),
                   i < job.plan.retryCount, i + 1 < |result.blocks[j].attempts|)
  {
    hide *;
    RunBlock(job, start, result, j);
    RunRecords(job, start, result, j, i);
    var block, call, attempts := job.plan.blocks[j], FirstCall(start, result, j), result.blocks[j].attempts;
    RetryRecorded(job, block, job.answers(call + i), attempts[i], i < job.plan.retryCount);
    SoundAttempts(job, result.blocks[j], block, call);
    SettledExactly(job, attempts, i);
  }

  /** Even when the run is cancelled at a block, an exchange is only followed by another when an attempt
      was left and the option for what was answered says so. */
  lemma NoNeedlessAttempts(job: Job, start: Usage, result: ScanResult, j: nat, i: nat)
    requires !InvalidPlan(job.plan, job.options) && Finishes(job.plan, Scan(job, 0, start), result)
    requires j < |result.blocks| && i + 1 < |result.blocks[j].attempts|
    ensures |result.blocks| <= |job.plan.blocks|
    ensures GoesOn(job, job.plan.blocks[j], job.answers(FirstCall(start, result, j) + i), i < job.plan.retryCount, true)
  {
    hide *;
    RunBlock(job, start, result, j);
    RunRecords(job, start, result, j, i);
    var block, call, attempts := job.plan.blocks[j], FirstCall(start, result, j), result.blocks[j].attempts;
    RetryRecorded(job, block, job.answers(call + i), attempts[i], i < job.plan.retryCount);
    SoundAttempts(job, result.blocks[j], block, call);
    EarlierSettles(job, attempts, i);
  }

  lemma EarlierSettles(job: Job, attempts: seq<Attempt>, i: nat)
    requires OnlyLastSettles(job, attempts) && i + 1 < |attempts|
    ensures ShouldRetry(attempts[i].status, job.options)
  {
    hide ShouldRetry;
  }

  lemma SoundAttempts(job: Job, r: BlockResult, block: ScanBlock, call: nat)
    requires SoundBlock(job, r, block, call)
    ensures OnlyLastSettles(job, r.attempts) && |r.attempts| <= job.plan.retryCount + 1
  {
    hide RecordsExchanges, OnlyLastSettles, BlockObservations;
  }

  // ---------------------------------------------------------------- pauses between blocks

  function Pauses(n: nat, ms: int): (pauses: seq<int>)
    ensures |pauses| == n && forall k :: 0 <= k < n ==> pauses[k] == ms
  {
    seq(n, _ => ms)
  }

  /** The sleeps of a run of `n` recorded blocks: none unless the plan asks for an interval and there is
      something to sleep with; otherwise one between each two blocks, and at most one more when the run was
      cancelled after the last. */
  ghost predicate Paused(job: Job, before: seq<int>, after: seq<int>, n: nat, cancelled: bool) {
    && before <= after && after == before + Pauses(|after| - |before|, job.plan.requestIntervalMs)
    && (!job.options.canSleep || job.plan.requestIntervalMs <= 0 ==> after == before)
    && (job.options.canSleep && job.plan.requestIntervalMs > 0 ==>
          n - 1 <= |after| - |before| <= if cancelled || n == 0 then n else n - 1)
  }

  lemma NoPause(job: Job, sleeps: seq<int>, n: nat, cancelled: bool)
    requires n <= 1
    ensures Paused(job, sleeps, sleeps, n, cancelled)
  {
    assert sleeps + Pauses(0, job.plan.requestIntervalMs) == sleeps;
  }

  lemma OneMorePause(job: Job, before: seq<int>, next: seq<int>, after: seq<int>, i: nat, n: nat, cancelled: bool)
    requires next == before + SleepsBefore(job, i + 1) && Paused(job, next, after, n, cancelled)
    requires i < |job.plan.blocks| && (i + 1 == |job.plan.blocks| ==> n == 0)
    requires i + 1 < |job.plan.blocks| && !cancelled ==> n > 0
    ensures Paused(job, before, after, n + 1, cancelled)
  {
    var k := |after| - |next|;
    assert SleepsBefore(job, i + 1) + Pauses(k, job.plan.requestIntervalMs) ==
      Pauses(|after| - |before|, job.plan.requestIntervalMs);
  }

  lemma ScanCovers(job: Job, i: nat, usage: Usage)
    requires i <= |job.plan.blocks| && job.plan.retryCount >= 0
    ensures var run := Scan(job, i, usage);
      && i + |run.blocks| <= |job.plan.blocks|
      && (i < |job.plan.blocks| && !run.cancelled ==> run.blocks != [])
  {
    hide Scan, SoundBlocks, StopsAtFailure, StoppedByLastPoll, Calls, EachExhausted;
    ScanIsSound(job, i, usage);
  }

  lemma TriesDoNotSleep(job: Job, i: nat, usage: Usage)
    requires i < |job.plan.blocks| && job.plan.retryCount >= 0
    ensures Tries(job, job.plan.blocks[i], 0, usage).usage.sleeps == usage.sleeps
  {
    hide Tries, RecordsExchanges, OnlyLastSettles, Exhausted, Succeeded, StoppedByLastPoll;
    TriesAreSound(job, job.plan.blocks[i], 0, usage);
  }

  /** A run sleeps for the plan's interval between its blocks and at no other time. */
  lemma {:induction false} ScanPauses(job: Job, i: nat, usage: Usage)
    requires i <= |job.plan.blocks| && job.plan.retryCount >= 0
    ensures var run := Scan(job, i, usage); Paused(job, usage.sleeps, run.usage.sleeps, |run.blocks|, run.cancelled)
    decreases |job.plan.blocks| - i
  {
    hide Tries, BlockOf, Paused, SleepsBefore;
    if i == |job.plan.blocks| || job.cancel(usage.polls) {
      NoPause(job, usage.sleeps, 0, i < |job.plan.blocks|);
    } else {
      var polled := usage.(polls := usage.polls + 1);
      var tried := Tries(job, job.plan.blocks[i], 0, polled);
      TriesDoNotSleep(job, i, polled);
      var block := BlockOf(job, job.plan.blocks[i], tried);
      NoPause(job, usage.sleeps, 0, true);
      NoPause(job, usage.sleeps, 1, tried.cancelled);
      if !(tried.cancelled || (!block.ok && !job.options.continueOnBlockError)) {
        var next := tried.usage.(sleeps := tried.usage.sleeps + SleepsBefore(job, i + 1));
        ScanPauses(job, i + 1, next);
        ScanCovers(job, i + 1, next);
        var rest := Scan(job, i + 1, next);
        OneMorePause(job, usage.sleeps, next.sleeps, rest.usage.sleeps, i, |rest.blocks|, rest.cancelled);
      }
    }
  }

  // ---------------------------------------------------------------- end to end

  /** The observations of a list of read blocks: one for each address from the start on. */
  ghost predicate Ascending(seen: seq<Observation>, start: int) {
    forall k :: 0 <= k < |seen| ==> seen[k].address == start + k
  }

  lemma AscendingJoin(a: seq<Observation>, b: seq<Observation>, start: int)
    requires Ascending(a, start) && Ascending(b, start + |a|)
    ensures Ascending(a + b, start)
  {
  }

  lemma LaidBlock(o: ScanOptions, blocks: seq<ScanBlock>, n: nat)
    requires Laid(o, blocks) && n < |blocks|
    ensures blocks[n].startAddress == NextAddress(blocks[..n], o.startAddress)
    ensures NextAddress(blocks[..n + 1], o.startAddress) == blocks[n].startAddress + blocks[n].quantity
  {
    hide RequestFrame;
    assert GoodBlock(o, blocks[n], n, NextAddress(blocks[..n], o.startAddress));
    assert blocks[..n + 1][n] == blocks[n];
  }

  ghost predicate SoundSomewhere(job: Job, r: BlockResult, block: ScanBlock) {
    exists call: nat :: SoundBlock(job, r, block, call)
  }

  lemma ReadAddresses(job: Job, r: BlockResult, block: ScanBlock, call: nat)
    requires SoundBlock(job, r, block, call) && r.ok
    ensures |r.observations| == block.quantity && Ascending(r.observations, block.startAddress)
  {
    hide SoundBlock, ValuesOf, ResponseFrame;
    ReadBlockIsCanonical(job, r, block, call);
  }

  lemma {:induction false} ReadPrefix(job: Job, o: ScanOptions, blocks: seq<BlockResult>, n: nat)
    requires Laid(o, job.plan.blocks)
    requires n <= |blocks| <= |job.plan.blocks| && AllOk(blocks)
    requires forall j :: 0 <= j < |blocks| ==> SoundSomewhere(job, blocks[j], job.plan.blocks[j])
    ensures Ascending(AllObservations(blocks[..n]), o.startAddress)
    ensures |AllObservations(blocks[..n])| == NextAddress(job.plan.blocks[..n], o.startAddress) - o.startAddress
  {
    hide SoundBlock, Ascending, NextAddress, Laid;
    if n == 0 {
      NoneRead(job.plan.blocks[..0], blocks[..0], o.startAddress);
    } else {
      ReadPrefix(job, o, blocks, n - 1);
      var call: nat :| SoundBlock(job, blocks[n - 1], job.plan.blocks[n - 1], call);
      ReadAddresses(job, blocks[n - 1], job.plan.blocks[n - 1], call);
      LaidBlock(o, job.plan.blocks, n - 1);
      AscendingJoin(AllObservations(blocks[..n - 1]), blocks[n - 1].observations, o.startAddress);
      assert blocks[..n][..n - 1] == blocks[..n - 1];
    }
  }

  lemma NoneRead(plan: seq<ScanBlock>, blocks: seq<BlockResult>, start: int)
    requires plan == [] && blocks == []
    ensures Ascending(AllObservations(blocks), start) && AllObservations(blocks) == []
    ensures NextAddress(plan, start) == start
  {
  }

  /** A completed scan of a built plan observed every address of its range exactly once, in ascending
      order, whatever the transport did. */
  lemma CompletedScanIsComplete(job: Job, o: ScanOptions, start: Usage, result: ScanResult)
    requires Tiles(o, job.plan.blocks) && !InvalidPlan(job.plan, job.options)
    requires Finishes(job.plan, Scan(job, 0, start), result) && result.status == Completed
    ensures |result.observations| == o.endAddress - o.startAddress + 1
    ensures forall k :: 0 <= k < |result.observations| ==> result.observations[k].address == o.startAddress + k
  {
    hide Scan, SoundBlock, Succeeding, Calls, InvalidBlock, AllObservations, NextAddress, Laid, StoppedByLastPoll;
    RunIsSound(job, start, result);
    CompletedExactly(job, start, result);
    var n := |result.blocks|;
    forall j | 0 <= j < n
      ensures SoundSomewhere(job, result.blocks[j], job.plan.blocks[j])
    {
      assert SoundBlock(job, result.blocks[j], job.plan.blocks[0 + j], start.calls + Calls(result.blocks[..j]));
    }
    ReadPrefix(job, o, result.blocks, n);
    assert result.blocks[..n] == result.blocks && job.plan.blocks[..n] == job.plan.blocks;
  }
}
