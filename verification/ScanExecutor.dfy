/** The scan executor: `ScanExecutor::execute` (`modbus_scan_executor_core.cpp`).

    The transport and the cancellation callback are arbitrary streams of answers: the n-th exchange
    gets `answers(n)` and the n-th cancellation query gets `cancel(n)`. */
module ScanExecution {
  import opened Options
  import opened Crc
  import opened ModbusFrames
  import opened ScanPlanner

  // ---------------------------------------------------------------- data

  datatype ExchangeStatus = Answered | TimedOut | Broken

  datatype Exchange = Exchange(status: ExchangeStatus, requestFrame: seq<Byte>, responseFrame: seq<Byte>)

  datatype AttemptStatus = Success | ModbusException | ParseError | Timeout | TransportError

  datatype Attempt = Attempt(blockIndex: int, attemptIndex: int, status: AttemptStatus,
                             requestFrame: seq<Byte>, responseFrame: seq<Byte>, exceptionCode: Option<Byte>)

  datatype Observation = Observation(blockIndex: int, attemptIndex: int, slaveId: int, functionCode: Byte,
                                     address: int, value: Register)

  datatype BlockResult = BlockResult(block: ScanBlock, attempts: seq<Attempt>, observations: seq<Observation>, ok: bool)

  datatype ScanStatus = Completed | CompletedWithErrors | Cancelled | Failed

  datatype ScanResult = ScanResult(status: ScanStatus, plan: ScanPlan, blocks: seq<BlockResult>,
                                   observations: seq<Observation>, successBlockCount: nat, failedBlockCount: nat)

  datatype ExecutionOptions = ExecutionOptions(responseTimeoutMs: int, continueOnBlockError: bool, retryOnTimeout: bool,
                                               retryOnTransportError: bool, retryOnParseError: bool,
                                               retryOnModbusException: bool, canSleep: bool)

  /** What a run did to its environment: exchanges made, cancellation queries made, sleeps asked for. */
  datatype Usage = Usage(calls: nat, polls: nat, sleeps: seq<int>)

  /** Everything a run depends on. */
  datatype Job = Job(plan: ScanPlan, options: ExecutionOptions, answers: nat -> Exchange, cancel: nat -> bool)

  // ---------------------------------------------------------------- one attempt

  predicate InvalidBlock(b: ScanBlock) {
    b.requestFrame == [] || b.startAddress < 0 || b.endAddress < b.startAddress || b.quantity <= 0
  }

  /** `invalidPlanMessage`. */
  predicate InvalidPlan(plan: ScanPlan, options: ExecutionOptions) {
    || plan.slaveId < MinSlaveId || plan.slaveId > MaxSlaveId
    || !IsSupportedReadFunction(plan.functionCode)
    || plan.blocks == []
    || plan.retryCount < 0
    || options.responseTimeoutMs < 0
    || exists i :: 0 <= i < |plan.blocks| && InvalidBlock(plan.blocks[i])
  }

  predicate ShouldRetry(status: AttemptStatus, options: ExecutionOptions) {
    match status
    case Success => false
    case Timeout => options.retryOnTimeout
    case TransportError => options.retryOnTransportError
    case ParseError => options.retryOnParseError
    case ModbusException => options.retryOnModbusException
  }

  function ParsedFor(plan: ScanPlan, block: ScanBlock, frame: seq<Byte>): Response {
    Parse(frame, plan.slaveId, plan.functionCode, block.startAddress, block.quantity)
  }

  /** What an exchange for a block is recorded as. */
  function AttemptOf(plan: ScanPlan, block: ScanBlock, index: int, exchange: Exchange): Attempt {
    var sent := if exchange.requestFrame == [] then block.requestFrame else exchange.requestFrame;
    var response := ParsedFor(plan, block, exchange.responseFrame);
    var status := match exchange.status
      case TimedOut => Timeout
      case Broken => TransportError
      case Answered =>
        if response.Registers? then Success else if response.Exception? then ModbusException else ParseError;
    Attempt(block.index, index, status, sent, exchange.responseFrame,
            if status == ModbusException then Some(response.code) else None)
  }

  function ObservationsOf(plan: ScanPlan, block: ScanBlock, attempt: Attempt): seq<Observation> {
    var response := ParsedFor(plan, block, attempt.responseFrame);
    if attempt.status != Success || !response.Registers? then []
    else
      seq(|response.readings|, i requires 0 <= i < |response.readings| =>
        Observation(block.index, attempt.attemptIndex, plan.slaveId, plan.functionCode,
                    response.readings[i].address, response.readings[i].value))
  }

  /** An exchange is turned into an attempt record, and into observations when it succeeded. */
  method RecordAttempt(plan: ScanPlan, block: ScanBlock, index: int, exchange: Exchange)
    returns (attempt: Attempt, observations: seq<Observation>)
    ensures attempt == AttemptOf(plan, block, index, exchange)
    ensures observations == ObservationsOf(plan, block, attempt)
  {
    hide Parse;
    observations := [];
    var sent := if exchange.requestFrame == [] then block.requestFrame else exchange.requestFrame;
    var status :=
      match exchange.status case Answered => ParseError case TimedOut => Timeout case Broken => TransportError;
    var exceptionCode := None;
    if exchange.status == Answered {
      var parsed := ParseReadResponse(exchange.responseFrame, plan.slaveId, plan.functionCode, block.startAddress,
        block.quantity);
      match parsed {
        case Registers(values, readings) =>
          status := Success;
          for i := 0 to |readings|
            invariant |observations| == i
            invariant forall k :: 0 <= k < i ==> observations[k] == Observation(block.index, index, plan.slaveId,
              plan.functionCode, readings[k].address, readings[k].value)
          {
            observations := observations + [Observation(block.index, index, plan.slaveId, plan.functionCode,
                                                        readings[i].address, readings[i].value)];
          }
        case Exception(code) =>
          status := ModbusException;
          exceptionCode := Some(code);
        case Rejected =>
          status := ParseError;
      }
    }
    attempt := Attempt(block.index, index, status, sent, exchange.responseFrame, exceptionCode);
    assert observations == ObservationsOf(plan, block, attempt);
  }

  // ---------------------------------------------------------------- the attempts of one block

  datatype Tried = Tried(attempts: seq<Attempt>, cancelled: bool, usage: Usage)

  function Before(attempts: seq<Attempt>, rest: Tried): Tried {
    Tried(attempts + rest.attempts, rest.cancelled, rest.usage)
  }

  /** The attempts of a block from number `k` on. */
  function Tries(job: Job, block: ScanBlock, k: nat, usage: Usage): Tried
    decreases job.plan.retryCount + 1 - k
  {
    if k >= job.plan.retryCount + 1 then Tried([], false, usage)
    else if job.cancel(usage.polls) then Tried([], true, usage.(polls := usage.polls + 1))
    else TriesOnce(job, block, k, AttemptOf(job.plan, block, k, job.answers(usage.calls)),
                   usage.(calls := usage.calls + 1, polls := usage.polls + 1))
  }

  /** The rest, once attempt `k` is made. */
  function TriesOnce(job: Job, block: ScanBlock, k: nat, attempt: Attempt, usage: Usage): Tried
    requires k < job.plan.retryCount + 1
    decreases job.plan.retryCount + 1 - k, 0
  {
    if attempt.status == Success then Tried([attempt], false, usage)
    else if job.cancel(usage.polls) then Tried([attempt], true, usage.(polls := usage.polls + 1))
    else if k + 1 < job.plan.retryCount + 1 && ShouldRetry(attempt.status, job.options) then
      Before([attempt], Tries(job, block, k + 1, usage.(polls := usage.polls + 1)))
    else Tried([attempt], false, usage.(polls := usage.polls + 1))
  }

  lemma BeforeTwice(first: seq<Attempt>, second: seq<Attempt>, rest: Tried)
    ensures Before(first, Before(second, rest)) == Before(first + second, rest)
    ensures Before([], rest) == rest
  {
    assert first + (second + rest.attempts) == first + second + rest.attempts;
    assert [] + rest.attempts == rest.attempts;
  }

  predicate Succeeded(attempts: seq<Attempt>) {
    attempts != [] && attempts[|attempts| - 1].status == Success
  }

  function BlockObservations(plan: ScanPlan, block: ScanBlock, attempts: seq<Attempt>): seq<Observation> {
    if Succeeded(attempts) then ObservationsOf(plan, block, attempts[|attempts| - 1]) else []
  }

  lemma NoMoreTries(job: Job, block: ScanBlock, k: nat, usage: Usage, attempts: seq<Attempt>)
    ensures k >= job.plan.retryCount + 1 ==>
      Before(attempts, Tries(job, block, k, usage)) == Tried(attempts, false, usage)
    ensures k < job.plan.retryCount + 1 && job.cancel(usage.polls) ==>
      Before(attempts, Tries(job, block, k, usage)) == Tried(attempts, true, usage.(polls := usage.polls + 1))
  {
    assert attempts + [] == attempts;
  }

  lemma NextTry(job: Job, block: ScanBlock, k: nat, usage: Usage, attempt: Attempt, next: Usage)
    requires k < job.plan.retryCount + 1 && !job.cancel(usage.polls)
    requires attempt == AttemptOf(job.plan, block, k, job.answers(usage.calls))
    requires next == usage.(calls := usage.calls + 1, polls := usage.polls + 1)
    ensures Tries(job, block, k, usage) == TriesOnce(job, block, k, attempt, next)
  {
    hide AttemptOf;
  }

  lemma AfterTry(job: Job, block: ScanBlock, k: nat, attempt: Attempt, usage: Usage, attempts: seq<Attempt>)
    requires k < job.plan.retryCount + 1
    ensures var after := usage.(polls := usage.polls + 1);
      Before(attempts, TriesOnce(job, block, k, attempt, usage)) ==
      if attempt.status == Success then Tried(attempts + [attempt], false, usage)
      else if job.cancel(usage.polls) then Tried(attempts + [attempt], true, after)
      else if k + 1 < job.plan.retryCount + 1 && ShouldRetry(attempt.status, job.options) then
        Before(attempts + [attempt], Tries(job, block, k + 1, after))
      else Tried(attempts + [attempt], false, after)
  {
    hide ShouldRetry, Tries;
    BeforeTwice(attempts, [attempt], Tries(job, block, k + 1, usage.(polls := usage.polls + 1)));
  }

  /** The attempt loop of `execute`. */
  method RunAttempts(job: Job, block: ScanBlock, start: Usage)
    returns (tried: Tried, observations: seq<Observation>, ok: bool)
    requires job.plan.retryCount >= 0
    ensures tried == Tries(job, block, 0, start)
    ensures ok == Succeeded(tried.attempts)
    ensures observations == BlockObservations(job.plan, block, tried.attempts)
  {
    hide Parse, AttemptOf, ObservationsOf, ShouldRetry, Tries, TriesOnce, Before;
    var attempts: seq<Attempt> := [];
    var usage := start;
    var cancelled := false;
    var maxAttempts := job.plan.retryCount + 1;
    var attemptIndex := 0;
    observations, ok := [], false;
    ghost var whole := Tries(job, block, 0, start);
    BeforeTwice([], [], whole);
    while attemptIndex < maxAttempts
      invariant 0 <= attemptIndex <= maxAttempts
      invariant whole == Before(attempts, Tries(job, block, attemptIndex, usage))
      invariant !ok && observations == [] && !cancelled && !Succeeded(attempts)
    {
      var polled := job.cancel(usage.polls);
      if polled {
        NoMoreTries(job, block, attemptIndex, usage, attempts);
        usage := usage.(polls := usage.polls + 1);
        tried := Tried(attempts, true, usage);
        return;
      }
      var exchange := job.answers(usage.calls);
      var attempt, seen := RecordAttempt(job.plan, block, attemptIndex, exchange);
      ghost var next := usage.(calls := usage.calls + 1, polls := usage.polls + 1);
      NextTry(job, block, attemptIndex, usage, attempt, next);
      AfterTry(job, block, attemptIndex, attempt, next, attempts);
      usage := usage.(calls := usage.calls + 1, polls := usage.polls + 1);
      observations := seen;
      ok := attempt.status == Success;
      var retryAllowed := attemptIndex + 1 < maxAttempts && ShouldRetry(attempt.status, job.options);
      attempts := attempts + [attempt];
      if !ok {
        ObservedNothing(job.plan, block, attempt);
        var again := job.cancel(usage.polls);
        usage := usage.(polls := usage.polls + 1);
        if again {
          tried := Tried(attempts, true, usage);
          return;
        }
      }
      if ok || !retryAllowed {
        tried := Tried(attempts, false, usage);
        return;
      }
      attemptIndex := attemptIndex + 1;
    }
    NoMoreTries(job, block, attemptIndex, usage, attempts);
    tried := Tried(attempts, false, usage);
  }

  lemma ObservedNothing(plan: ScanPlan, block: ScanBlock, attempt: Attempt)
    requires attempt.status != Success
    ensures ObservationsOf(plan, block, attempt) == []
  {
  }

  // ---------------------------------------------------------------- the blocks of a plan

  datatype Scanned = Scanned(blocks: seq<BlockResult>, cancelled: bool, usage: Usage)

  function BlocksBefore(blocks: seq<BlockResult>, rest: Scanned): Scanned {
    Scanned(blocks + rest.blocks, rest.cancelled, rest.usage)
  }

  function BlockOf(job: Job, block: ScanBlock, tried: Tried): BlockResult {
    BlockResult(block, tried.attempts, BlockObservations(job.plan, block, tried.attempts), Succeeded(tried.attempts))
  }

  /** `sleepBeforeNextBlock`. */
  function SleepsBefore(job: Job, next: int): seq<int> {
    if !job.options.canSleep || job.plan.requestIntervalMs <= 0 || next >= |job.plan.blocks| then []
    else [job.plan.requestIntervalMs]
  }

  /** The run from block `i` on. */
  function Scan(job: Job, i: nat, usage: Usage): Scanned
    decreases |job.plan.blocks| - i
  {
    if i >= |job.plan.blocks| then Scanned([], false, usage)
    else if job.cancel(usage.polls) then Scanned([], true, usage.(polls := usage.polls + 1))
    else ScanOnce(job, i, Tries(job, job.plan.blocks[i], 0, usage.(polls := usage.polls + 1)))
  }

  /** The rest, once the attempts of block `i` are made. */
  function ScanOnce(job: Job, i: nat, tried: Tried): Scanned
    requires i < |job.plan.blocks|
    decreases |job.plan.blocks| - i, 0
  {
    if tried.cancelled && tried.attempts == [] then Scanned([], true, tried.usage)
    else
      var block := BlockOf(job, job.plan.blocks[i], tried);
      if tried.cancelled || (!block.ok && !job.options.continueOnBlockError) then
        Scanned([block], tried.cancelled, tried.usage)
      else
        BlocksBefore([block],
          Scan(job, i + 1, tried.usage.(sleeps := tried.usage.sleeps + SleepsBefore(job, i + 1))))
  }

  // ---------------------------------------------------------------- the whole run

  function Succeeding(blocks: seq<BlockResult>): nat {
    if blocks == [] then 0
    else Succeeding(blocks[..|blocks| - 1]) + if blocks[|blocks| - 1].ok then 1 else 0
  }

  function AllObservations(blocks: seq<BlockResult>): seq<Observation> {
    if blocks == [] then [] else AllObservations(blocks[..|blocks| - 1]) + blocks[|blocks| - 1].observations
  }

  lemma {:induction false} SucceedingAtMostAll(blocks: seq<BlockResult>)
    ensures Succeeding(blocks) <= |blocks|
  {
    if blocks != [] {
      SucceedingAtMostAll(blocks[..|blocks| - 1]);
    }
  }

  function StatusOf(cancelled: bool, succeeded: nat, failed: nat): ScanStatus {
    if cancelled then Cancelled
    else if failed == 0 then Completed
    else if succeeded > 0 then CompletedWithErrors
    else Failed
  }

  ghost predicate Finishes(plan: ScanPlan, run: Scanned, result: ScanResult) {
    && result.plan == plan
    && result.blocks == run.blocks
    && result.observations == AllObservations(run.blocks)
    && result.successBlockCount == Succeeding(run.blocks)
    && result.successBlockCount + result.failedBlockCount == |run.blocks|
    && result.status == StatusOf(run.cancelled, result.successBlockCount, result.failedBlockCount)
  }

  lemma BlocksBeforeTwice(first: seq<BlockResult>, second: seq<BlockResult>, rest: Scanned)
    ensures BlocksBefore(first, BlocksBefore(second, rest)) == BlocksBefore(first + second, rest)
    ensures BlocksBefore([], rest) == rest
  {
    assert first + (second + rest.blocks) == first + second + rest.blocks;
    assert [] + rest.blocks == rest.blocks;
  }

  lemma NoMoreBlocks(job: Job, i: nat, usage: Usage, blocks: seq<BlockResult>)
    ensures i >= |job.plan.blocks| ==> BlocksBefore(blocks, Scan(job, i, usage)) == Scanned(blocks, false, usage)
    ensures i < |job.plan.blocks| && job.cancel(usage.polls) ==>
      BlocksBefore(blocks, Scan(job, i, usage)) == Scanned(blocks, true, usage.(polls := usage.polls + 1))
  {
    assert blocks + [] == blocks;
  }

  lemma NextBlock(job: Job, i: nat, usage: Usage)
    requires i < |job.plan.blocks| && !job.cancel(usage.polls)
    ensures Scan(job, i, usage) == ScanOnce(job, i, Tries(job, job.plan.blocks[i], 0, usage.(polls := usage.polls + 1)))
  {
    hide Tries;
  }

  lemma AfterBlock(job: Job, i: nat, tried: Tried, blocks: seq<BlockResult>, block: BlockResult)
    requires i < |job.plan.blocks| && block == BlockOf(job, job.plan.blocks[i], tried)
    ensures BlocksBefore(blocks, ScanOnce(job, i, tried)) ==
      if tried.cancelled && tried.attempts == [] then Scanned(blocks, true, tried.usage)
      else if tried.cancelled || (!block.ok && !job.options.continueOnBlockError) then
        Scanned(blocks + [block], tried.cancelled, tried.usage)
      else
        BlocksBefore(blocks + [block],
          Scan(job, i + 1, tried.usage.(sleeps := tried.usage.sleeps + SleepsBefore(job, i + 1))))
  {
    hide Scan, BlockOf;
    assert blocks + [] == blocks;
    BlocksBeforeTwice(blocks, [block],
      Scan(job, i + 1, tried.usage.(sleeps := tried.usage.sleeps + SleepsBefore(job, i + 1))));
  }

  lemma OneBlockMore(blocks: seq<BlockResult>, block: BlockResult)
    ensures Succeeding(blocks + [block]) == Succeeding(blocks) + if block.ok then 1 else 0
    ensures AllObservations(blocks + [block]) == AllObservations(blocks) + block.observations
  {
    assert (blocks + [block])[..|blocks|] == blocks;
  }

  method CheckBlocks(plan: ScanPlan) returns (bad: bool)
    ensures bad <==> exists i :: 0 <= i < |plan.blocks| && InvalidBlock(plan.blocks[i])
  {
    for i := 0 to |plan.blocks|
      invariant forall k :: 0 <= k < i ==> !InvalidBlock(plan.blocks[k])
    {
      if InvalidBlock(plan.blocks[i]) {
        return true;
      }
    }
    bad := false;
  }

  /** The block loop of `execute`. */
  method RunBlocks(job: Job, start: Usage)
    returns (run: Scanned, observations: seq<Observation>, succeeded: nat, failed: nat)
    requires job.plan.retryCount >= 0
    ensures run == Scan(job, 0, start)
    ensures Collected(run.blocks, observations, succeeded, failed)
  {
    hide *;
    var blocks: seq<BlockResult> := [];
    observations, succeeded, failed := [], 0, 0;
    var usage := start;
    ghost var whole := Scan(job, 0, start);
    BlocksBeforeTwice([], [], whole);
    NothingScanned();
    var i := 0;
    while i < |job.plan.blocks|
      invariant 0 <= i <= |job.plan.blocks|
      invariant whole == BlocksBefore(blocks, Scan(job, i, usage))
      invariant Collected(blocks, observations, succeeded, failed)
    {
      if job.cancel(usage.polls) {
        NoMoreBlocks(job, i, usage, blocks);
        usage := usage.(polls := usage.polls + 1);
        run := Scanned(blocks, true, usage);
        return;
      }
      NextBlock(job, i, usage);
      usage := usage.(polls := usage.polls + 1);
      var tried, seen, ok := RunAttempts(job, job.plan.blocks[i], usage);
      var block := BlockResult(job.plan.blocks[i], tried.attempts, seen, ok);
      BlockIs(job, job.plan.blocks[i], tried);
      AfterBlock(job, i, tried, blocks, block);
      usage := tried.usage;
      if tried.cancelled && tried.attempts == [] {
        run := Scanned(blocks, true, usage);
        return;
      }
      CollectedOneMore(job, job.plan.blocks[i], tried, blocks, observations, succeeded, failed);
      if ok {
        succeeded := succeeded + 1;
        observations := observations + seen;
      } else {
        failed := failed + 1;
      }
      blocks := blocks + [block];
      if tried.cancelled || (!ok && !job.options.continueOnBlockError) {
        run := Scanned(blocks, tried.cancelled, usage);
        return;
      }
      usage := usage.(sleeps := usage.sleeps + SleepsBefore(job, i + 1));
      i := i + 1;
    }
    NoMoreBlocks(job, i, usage, blocks);
    run := Scanned(blocks, false, usage);
  }

  /** `ScanExecutor::execute`. */
  method Execute(job: Job, start: Usage) returns (result: ScanResult, usage: Usage)
    ensures InvalidPlan(job.plan, job.options) ==>
      result == ScanResult(Failed, job.plan, [], [], 0, 0) && usage == start
    ensures !InvalidPlan(job.plan, job.options) ==> Finishes(job.plan, Scan(job, 0, start), result)
    ensures !InvalidPlan(job.plan, job.options) ==> usage == Scan(job, 0, start).usage
  {
    hide InvalidBlock, Scan, Succeeding, AllObservations;
    var plan := job.plan;
    var badBlock := CheckBlocks(plan);
    if plan.slaveId < MinSlaveId || plan.slaveId > MaxSlaveId || !IsSupportedReadFunction(plan.functionCode)
       || plan.blocks == [] || plan.retryCount < 0 || job.options.responseTimeoutMs < 0 || badBlock {
      return ScanResult(Failed, plan, [], [], 0, 0), start;
    }
    var run, observations, succeeded, failed := RunBlocks(job, start);
    usage := run.usage;
    result := ScanResult(StatusOf(run.cancelled, succeeded, failed), plan, run.blocks, observations, succeeded, failed);
  }

  ghost predicate Collected(blocks: seq<BlockResult>, observations: seq<Observation>, succeeded: nat, failed: nat) {
    && observations == AllObservations(blocks)
    && succeeded == Succeeding(blocks)
    && succeeded + failed == |blocks|
  }

  lemma NothingScanned()
    ensures Collected([], [], 0, 0)
  {
  }

  lemma BlockIs(job: Job, block: ScanBlock, tried: Tried)
    ensures BlockOf(job, block, tried) == BlockResult(block, tried.attempts,
      BlockObservations(job.plan, block, tried.attempts), Succeeded(tried.attempts))
  {
    hide BlockObservations;
  }

  lemma CollectedOneMore(job: Job, block: ScanBlock, tried: Tried, blocks: seq<BlockResult>,
                         observations: seq<Observation>, succeeded: nat, failed: nat)
    requires Collected(blocks, observations, succeeded, failed)
    ensures var b := BlockOf(job, block, tried);
      if b.ok then Collected(blocks + [b], observations + b.observations, succeeded + 1, failed)
      else Collected(blocks + [b], observations, succeeded, failed + 1)
  {
    hide ObservationsOf;
    OneBlockMore(blocks, BlockOf(job, block, tried));
    assert observations + [] == observations;
  }
}
