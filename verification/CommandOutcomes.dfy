/** How each step of a command sequence ends, said of the answers that the backends gave
    (`command_sequence.cpp`). */
module CommandOutcomes {
  import opened Options
  import opened Crc
  import opened ModbusFrames
  import opened ScanPlanner
  import opened ScanExecution
  import opened ScanTheorems
  import opened CommandValidation
  import opened CommandExecution
  import opened CommandTheorems

  // ---------------------------------------------------------------- reads

  lemma PlannedReadIsValid(world: World, c: Command, limits: SafetyLimits)
    requires c.ModbusRead? && Admissible(c, limits) && ValidOptions(ReadOptions(c))
    ensures !InvalidPlan(ReadPlan(c), ReadJob(world, c).options)
  {
    hide RequestFrame;
    ReadRange(c);
  }

  /** What a single-block run made of its exchanges. */
  lemma OneBlockRun(job: Job, start: Usage, result: ScanResult)
    requires !InvalidPlan(job.plan, job.options) && |job.plan.blocks| == 1
    requires Finishes(job.plan, Scan(job, 0, start), result) && result.status != Cancelled
    ensures |result.blocks| == 1 && result.blocks[0].attempts != []
    ensures Scan(job, 0, start).usage.calls == start.calls + |result.blocks[0].attempts|
    ensures result.status == Completed <==> result.blocks[0].ok
    ensures result.blocks[0].ok == Succeeded(result.blocks[0].attempts)
    ensures FirstCall(start, result, 0) == start.calls
  {
    hide InvalidPlan, Scan, StoppedByLastPoll, AllObservations, EachExhausted, RecordsExchanges, OnlyLastSettles,
      Succeeding, Succeeded, BlockObservations;
    RunIsSound(job, start, result);
    CompletedExactly(job, start, result);
    RunBlock(job, start, result, 0);
    assert result.blocks[..0] == [];
    assert Calls(result.blocks) == Calls(result.blocks[..0]) + |result.blocks[0].attempts|;
  }

  lemma ResultFinishes(plan: ScanPlan, run: Scanned)
    ensures Finishes(plan, run, ResultOf(plan, run))
  {
    hide AllObservations, Succeeding;
    SucceedingAtMostAll(run.blocks);
  }

  lemma LastOfOne(blocks: seq<BlockResult>)
    requires |blocks| == 1 && blocks[0].attempts != []
    ensures LastTimedOut(blocks) <==> blocks[0].attempts[|blocks[0].attempts| - 1].status == Timeout
  {
  }

  /** A read that was planned and not cancelled ends as its last exchange says: completed when that was
      answered with the registers asked for, timed out when it was not answered, failed otherwise. */
  lemma ReadEndsAsAnswered(world: World, c: Command, limits: SafetyLimits, memory: Memory, spent: Spent)
    requires c.ModbusRead? && Admissible(c, limits) && world.canRead && ValidOptions(ReadOptions(c))
    requires RunStep(world, c, memory, spent).status != StepCancelled
    ensures var ran := RunStep(world, c, memory, spent);
      && ran.spent.calls > spent.calls
      && var last, block := world.answers(ran.spent.calls - 1), ReadPlan(c).blocks[0];
        && (ran.status == Done <==>
              last.status == Answered && AnswersBlock(ReadPlan(c), block, last.responseFrame))
        && (ran.status == StepTimeout <==> last.status == TimedOut)
        && ran.status in {Done, StepTimeout, Failure}
  {
    hide *;
    var start := Usage(spent.calls, spent.polls, []);
    var job := ReadJob(world, c);
    PlannedReadIsValid(world, c, limits);
    var run := Scan(job, 0, start);
    var result := ResultOf(ReadPlan(c), run);
    ReadRuns(world, c, memory, spent, run, result);
    ResultFinishes(ReadPlan(c), run);
    JobOfRead(world, c);
    OneBlockRun(job, start, result);
    var n := |result.blocks[0].attempts| - 1;
    RunRecords(job, start, result, 0, n);
    LastOfOne(result.blocks);
    Decides(job.plan, job.plan.blocks[0], world.answers(start.calls + n), result.blocks[0].attempts);
  }

  lemma JobOfRead(world: World, c: Command)
    requires c.ModbusRead? && ValidOptions(ReadOptions(c))
    ensures ReadJob(world, c).plan == ReadPlan(c) && |ReadPlan(c).blocks| == 1
    ensures ReadJob(world, c).answers == world.answers
  {
    hide RequestFrame;
  }

  lemma ReadRuns(world: World, c: Command, memory: Memory, spent: Spent, run: Scanned, result: ScanResult)
    requires c.ModbusRead? && world.canRead && ValidOptions(ReadOptions(c))
    requires !InvalidPlan(ReadPlan(c), ReadJob(world, c).options)
    requires run == Scan(ReadJob(world, c), 0, Usage(spent.calls, spent.polls, []))
    requires result == ResultOf(ReadPlan(c), run)
    ensures var ran := RunStep(world, c, memory, spent);
      && ran.spent.calls == run.usage.calls && ran.memory == memory.(lastScan := Some(result))
      && (ran.status == Done <==> result.status == Completed)
      && (ran.status == StepCancelled <==> result.status == Cancelled)
      && (ran.status == StepTimeout <==>
            result.status != Completed && result.status != Cancelled && LastTimedOut(result.blocks))
      && ran.status in {Done, StepCancelled, StepTimeout, Failure}
  {
    hide InvalidPlan, ValidOptions, ReadOptions, ReadPlan, ReadJob, Scan, ResultOf, LastTimedOut, Exchanges;
  }

  lemma Decides(plan: ScanPlan, block: ScanBlock, e: Exchange, attempts: seq<Attempt>)
    requires attempts != [] && Records(plan, block, e, attempts[|attempts| - 1])
    ensures Succeeded(attempts) <==> e.status == Answered && AnswersBlock(plan, block, e.responseFrame)
    ensures attempts[|attempts| - 1].status == Timeout <==> e.status == TimedOut
  {
    hide AnswersBlock, ExceptsBlock, ExceptsWith;
  }

  // ---------------------------------------------------------------- what earlier steps left

  function Writes(steps: seq<Command>, i: nat): nat
    requires i <= |steps|
  {
    if i == 0 then 0 else Writes(steps, i - 1) + if steps[i - 1].SerialWrite? then 1 else 0
  }

  function Waits(steps: seq<Command>, i: nat): nat
    requires i <= |steps|
  {
    if i == 0 then 0 else Waits(steps, i - 1) + if steps[i - 1].WaitForResponse? then 1 else 0
  }

  /** Before step `i` there is a Modbus read. */
  ghost predicate ReadBefore(steps: seq<Command>, i: nat)
    requires i <= |steps|
  {
    exists k :: 0 <= k < i && steps[k].ModbusRead?
  }

  /** What a run that came to step `i` has spent and remembers: each write was accepted, each wait was
      answered and the last read completed. */
  ghost predicate Remembers(world: World, steps: seq<Command>, i: nat, memory: Memory, spent: Spent)
    requires i <= |steps|
  {
    && spent.writes == Writes(steps, i) && spent.waits == Waits(steps, i)
    && memory.lastWrite == (if Writes(steps, i) > 0 then Some(true) else None)
    && memory.lastResponse == (if Waits(steps, i) > 0 then world.responses(Waits(steps, i) - 1) else None)
    && (Waits(steps, i) > 0 ==> memory.lastResponse.Some?)
    && (memory.lastScan.Some? <==> ReadBefore(steps, i))
    && (memory.lastScan.Some? ==> memory.lastScan.value.status == Completed)
  }

  lemma ReadKeepsTheRest(world: World, c: Command, memory: Memory, spent: Spent)
    requires c.ModbusRead? && RunStep(world, c, memory, spent).status == Done
    ensures var ran := RunStep(world, c, memory, spent);
      && ran.memory.lastWrite == memory.lastWrite && ran.memory.lastResponse == memory.lastResponse
      && ran.spent.writes == spent.writes && ran.spent.waits == spent.waits
      && ran.memory.lastScan.Some? && ran.memory.lastScan.value.status == Completed
  {
    hide InvalidPlan, ValidOptions, ReadOptions, ReadPlan, ReadJob, Scan, LastTimedOut, Exchanges, ResultOf;
  }

  lemma OneMoreStep(steps: seq<Command>, i: nat)
    requires i < |steps|
    ensures Writes(steps, i + 1) == Writes(steps, i) + if steps[i].SerialWrite? then 1 else 0
    ensures Waits(steps, i + 1) == Waits(steps, i) + if steps[i].WaitForResponse? then 1 else 0
    ensures ReadBefore(steps, i + 1) <==> ReadBefore(steps, i) || steps[i].ModbusRead?
  {
  }

  lemma StepRemembers(world: World, steps: seq<Command>, i: nat, memory: Memory, spent: Spent)
    requires i < |steps| && Remembers(world, steps, i, memory, spent)
    requires RunStep(world, steps[i], memory, spent).status == Done
    ensures var ran := RunStep(world, steps[i], memory, spent);
      Remembers(world, steps, i + 1, ran.memory, ran.spent)
  {
    hide Writes, Waits, ReadBefore, RunModbusRead, Contains, Slices, Passes;
    OneMoreStep(steps, i);
    if steps[i].ModbusRead? {
      ReadKeepsTheRest(world, steps[i], memory, spent);
    }
  }

  // ---------------------------------------------------------------- every step of a run

  /** A response that has the text somewhere. */
  ghost predicate Carries(response: Option<seq<Byte>>, text: seq<Byte>) {
    response.Some? && exists k: nat :: OccursAt(response.value, text, k)
  }

  /** How step `j` of a run ends that comes to it, the n-th write being told `accepts(n)` and the n-th
      wait `responses(n)`. */
  ghost predicate EndsAsAnswered(world: World, steps: seq<Command>, j: nat, status: CommandStatus)
    requires j < |steps|
  {
    match steps[j]
    case SerialWrite(_, _) =>
      status == if world.canWrite && world.accepts(Writes(steps, j)) then Done else Failure
    case Delay(durationMs) =>
      status == if durationMs == 0 || world.canSleep then Done else Failure
    case WaitForResponse(expected, _) =>
      var response := world.responses(Waits(steps, j));
      && (status == StepTimeout <==> world.canWait && response.None?)
      && (status == Done <==> world.canWait && Carries(response, expected))
      && status in {Done, StepTimeout, Failure}
    case ModbusRead(_, _, _, _, _, _) => status in {Done, StepTimeout, Failure}
    case Assertion(kind, expected, _, _) =>
      && status in {Done, AssertionFailed}
      && (kind == LastSerialWriteAccepted ==> (status == Done <==> Writes(steps, j) > 0))
      && (kind == LastModbusReadSucceeded ==> (status == Done <==> ReadBefore(steps, j)))
      && (kind == LastResponseContains ==>
            (status == Done <==> Waits(steps, j) > 0 && Carries(world.responses(Waits(steps, j) - 1), expected)))
      && (kind == RegisterEquals && !ReadBefore(steps, j) ==> status == AssertionFailed)
  }

  lemma ContainsExactly(haystack: seq<Byte>, needle: seq<Byte>)
    ensures Contains(haystack, needle) <==> exists k: nat :: OccursAt(haystack, needle, k)
  {
    if k: nat :| OccursAt(haystack, needle, k) {
      assert 0 <= k <= |haystack| - |needle| && OccursAt(haystack, needle, k);
    }
  }

  lemma {:induction false} SlicesEnd(world: World, remaining: int, polls: nat)
    ensures Slices(world, remaining, polls).status in {Done, StepCancelled}
    decreases remaining
  {
    if !world.cancel(polls) && remaining > 0 {
      SlicesEnd(world, remaining - (if remaining < DelaySliceMs then remaining else DelaySliceMs), polls + 1);
    }
  }

  lemma StepEnds(world: World, steps: seq<Command>, i: nat, memory: Memory, spent: Spent)
    requires i < |steps| && Remembers(world, steps, i, memory, spent)
    requires RunStep(world, steps[i], memory, spent).status != StepCancelled
    ensures EndsAsAnswered(world, steps, i, RunStep(world, steps[i], memory, spent).status)
  {
    hide Writes, Waits, ReadBefore, RunModbusRead, Contains, OccursAt, Slices, Observed;
    match steps[i] {
      case SerialWrite(_, _) =>
      case Delay(durationMs) => SlicesEnd(world, durationMs, spent.polls);
      case WaitForResponse(expected, _) =>
        if world.responses(spent.waits).Some? {
          ContainsExactly(world.responses(spent.waits).value, expected);
        }
      case ModbusRead(_, _, _, _, _, _) => ReadEnds(world, steps[i], memory, spent);
      case Assertion(_, expected, _, _) =>
        if memory.lastResponse.Some? {
          ContainsExactly(memory.lastResponse.value, expected);
        }
    }
  }

  lemma ReadEnds(world: World, c: Command, memory: Memory, spent: Spent)
    requires c.ModbusRead?
    ensures RunStep(world, c, memory, spent).status in {Done, StepCancelled, StepTimeout, Failure}
  {
    hide InvalidPlan, ValidOptions, ReadOptions, ReadPlan, ReadJob, Scan, LastTimedOut, Exchanges, ResultOf;
  }

  lemma {:induction false} StepsEndAsAnswered(world: World, steps: seq<Command>, i: nat, memory: Memory, spent: Spent,
      j: nat)
    requires i <= j < |steps| && Remembers(world, steps, i, memory, spent)
    requires var e := RunSteps(world, steps, i, memory, spent);
      j - i < |e.steps| && e.steps[j - i] != StepCancelled
    ensures EndsAsAnswered(world, steps, j, RunSteps(world, steps, i, memory, spent).steps[j - i])
    decreases |steps| - i
  {
    hide Remembers, EndsAsAnswered, RunStep;
    var polled := spent.(polls := spent.polls + 1);
    SameButPolls(world, steps, i, memory, spent);
    if !world.cancel(spent.polls) {
      var ran := RunStep(world, steps[i], memory, polled);
      if i == j {
        StepEnds(world, steps, i, memory, polled);
      } else {
        StepRemembers(world, steps, i, memory, polled);
        StepsEndAsAnswered(world, steps, i + 1, ran.memory, ran.spent, j);
      }
    }
  }

  lemma SameButPolls(world: World, steps: seq<Command>, i: nat, memory: Memory, spent: Spent)
    requires i < |steps| && Remembers(world, steps, i, memory, spent)
    ensures Remembers(world, steps, i, memory, spent.(polls := spent.polls + 1))
  {
    hide Writes, Waits, ReadBefore;
  }

  lemma NothingRemembered(world: World, steps: seq<Command>)
    ensures Remembers(world, steps, 0, NothingYet, Unspent)
  {
  }

  /** Every step that a run comes to and does not cancel ends as the backends' answers say: a write when it
      is accepted, a wait when its own answer contains the text, an assertion about the last write or read
      when one came before, and one about the last response when the answer to the last wait contains the
      text. */
  lemma RunEndsAsAnswered(world: World, steps: seq<Command>, j: nat)
    requires var e := RunSteps(world, steps, 0, NothingYet, Unspent);
      j < |e.steps| && j < |steps| && e.steps[j] != StepCancelled
    ensures EndsAsAnswered(world, steps, j, RunSteps(world, steps, 0, NothingYet, Unspent).steps[j])
  {
    hide Remembers, EndsAsAnswered, RunSteps;
    NothingRemembered(world, steps);
    StepsEndAsAnswered(world, steps, 0, NothingYet, Unspent, j);
  }

  // ---------------------------------------------------------------- the budget is reached

  /** Every backend is there, no exchange is answered and nobody cancels. */
  ghost predicate Silent(world: World) {
    && world.canWrite && world.canRead && world.canWait && world.canSleep
    && (forall n :: world.answers(n).status == TimedOut)
    && (forall n :: !world.cancel(n))
  }

  lemma {:induction false} SlicesTakeAll(world: World, remaining: int, polls: nat)
    requires Silent(world) && remaining >= 0
    ensures Slices(world, remaining, polls).status == Done
    decreases remaining
  {
    if remaining > 0 {
      SlicesTakeAll(world, remaining - (if remaining < DelaySliceMs then remaining else DelaySliceMs), polls + 1);
    }
  }

  lemma NobodyCancels(world: World, c: Command, spent: Spent, run: Scanned, result: ScanResult)
    requires c.ModbusRead? && Silent(world) && ValidOptions(ReadOptions(c))
    requires !InvalidPlan(ReadPlan(c), ReadJob(world, c).options)
    requires run == Scan(ReadJob(world, c), 0, Usage(spent.calls, spent.polls, []))
    requires result == ResultOf(ReadPlan(c), run)
    ensures result.status != Cancelled
  {
    hide InvalidPlan, Scan, ResultOf, Finishes, ReadOptions, ReadPlan, SoundBlocks, StopsAtFailure, Calls, Covers,
      EachExhausted, AllObservations;
    JobOfRead(world, c);
    JobCancels(world, c);
    ResultFinishes(ReadPlan(c), run);
    RunIsSound(ReadJob(world, c), Usage(spent.calls, spent.polls, []), result);
  }

  lemma JobCancels(world: World, c: Command)
    requires c.ModbusRead? && ValidOptions(ReadOptions(c))
    ensures ReadJob(world, c).cancel == world.cancel
    ensures ReadJob(world, c).options.retryOnTimeout && ReadPlan(c).retryCount == c.retryCount
  {
    hide RequestFrame;
  }

  /** A planned read that nobody answers makes all its exchanges. */
  lemma ReadTriesAll(world: World, c: Command, limits: SafetyLimits, memory: Memory, spent: Spent)
    requires c.ModbusRead? && Admissible(c, limits) && ValidOptions(ReadOptions(c)) && Silent(world)
    ensures RunStep(world, c, memory, spent).spent.calls == spent.calls + c.retryCount + 1
  {
    hide *;
    var start := Usage(spent.calls, spent.polls, []);
    var job := ReadJob(world, c);
    PlannedReadIsValid(world, c, limits);
    JobOfRead(world, c);
    JobCancels(world, c);
    SilentAnswers(world, 0);
    var run := Scan(job, 0, start);
    var result := ResultOf(ReadPlan(c), run);
    ReadRuns(world, c, memory, spent, run, result);
    NobodyCancels(world, c, spent, run, result);
    ResultFinishes(ReadPlan(c), run);
    OneBlockRun(job, start, result);
    var n := |result.blocks[0].attempts| - 1;
    AttemptsGoOn(job, start, result, 0, n);
    SilentAnswers(world, start.calls + n);
    TimeoutGoesOn(job, job.plan.blocks[0], job.answers(start.calls + n), n < job.plan.retryCount, false);
    RunBlock(job, start, result, 0);
    SoundAttempts(job, result.blocks[0], job.plan.blocks[0], start.calls);
  }

  lemma SilentAnswers(world: World, n: nat)
    requires Silent(world)
    ensures world.answers(n).status == TimedOut && world.canRead
  {
  }

  lemma TimeoutGoesOn(job: Job, block: ScanBlock, e: Exchange, left: bool, goesOn: bool)
    requires GoesOn(job, block, e, left, goesOn) && e.status == TimedOut && job.options.retryOnTimeout
    ensures goesOn <==> left
  {
    hide AnswersBlock, ExceptsBlock;
  }

  /** The cost that the validator adds up for a step is what the step takes when nothing answers, given that a
      read was planned. */
  lemma CostIsReached(world: World, c: Command, limits: SafetyLimits, memory: Memory, spent: Spent)
    requires Admissible(c, limits) && Silent(world)
    requires c.ModbusRead? ==> ValidOptions(ReadOptions(c))
    ensures Time(RunStep(world, c, memory, spent).effects) == Cost(c)
  {
    hide Time, Slices, RunModbusRead, ValidOptions, ReadOptions;
    match c {
      case SerialWrite(_, timeoutMs) => TimeOfOne(Wrote(timeoutMs));
      case Delay(durationMs) =>
        SlicesTakeAll(world, durationMs, spent.polls);
        DelayIsExact(world, c, memory, spent);
      case WaitForResponse(_, timeoutMs) => TimeOfOne(Waited(timeoutMs));
      case ModbusRead(_, _, _, _, responseTimeoutMs, retryCount) =>
        ReadTriesAll(world, c, limits, memory, spent);
        ReadTakes(world, c, limits, memory, spent);
        ExchangesTake(retryCount + 1, responseTimeoutMs);
        FewRetries(c);
      case Assertion(_, _, _, _) => NoSlices();
    }
  }

  lemma FewRetries(c: Command)
    requires c.ModbusRead? && ValidOptions(ReadOptions(c))
    ensures c.retryCount < MaxInt
  {
  }

  lemma ReadTakes(world: World, c: Command, limits: SafetyLimits, memory: Memory, spent: Spent)
    requires c.ModbusRead? && Admissible(c, limits) && ValidOptions(ReadOptions(c)) && world.canRead
    requires RunStep(world, c, memory, spent).spent.calls == spent.calls + c.retryCount + 1
    ensures RunStep(world, c, memory, spent).effects == Exchanges(c.retryCount + 1, c.responseTimeoutMs)
  {
    hide Scan, ResultOf, InvalidPlan, ValidOptions, ReadPlan, ReadJob, ReadOptions, Exchanges;
    PlannedReadIsValid(world, c, limits);
  }
}
