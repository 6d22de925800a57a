/** Running a command sequence: `executeCommandSequence` (`command_sequence.cpp`).

    The backends and the cancellation callback are arbitrary streams of answers. Every wait that a
    backend is asked for is recorded as an effect with its time. */
module CommandExecution {
  import opened Options
  import opened Crc
  import opened ModbusFrames
  import opened ScanPlanner
  import opened ScanExecution
  import opened CommandValidation

  const DelaySliceMs: int := 100

  datatype CommandStatus = Done | Failure | StepTimeout | StepCancelled | AssertionFailed | RejectedUnsafe

  /** A wait with a limit: a sleep, a wait for a response, a write deadline, or one Modbus exchange. */
  datatype Effect = Slept(ms: int) | Waited(ms: int) | Wrote(ms: int) | Exchanged(ms: int)

  function Time(effects: seq<Effect>): int {
    if effects == [] then 0 else Time(effects[..|effects| - 1]) + effects[|effects| - 1].ms
  }

  datatype World = World(canWrite: bool, canRead: bool, canWait: bool, canSleep: bool, accepts: nat -> bool,
                         responses: nat -> Option<seq<Byte>>, answers: nat -> Exchange, cancel: nat -> bool)

  /** Cancellation queries, writes, waits and exchanges so far. */
  datatype Spent = Spent(polls: nat, writes: nat, waits: nat, calls: nat)

  /** What assertions look at. */
  datatype Memory = Memory(lastWrite: Option<bool>, lastResponse: Option<seq<Byte>>, lastScan: Option<ScanResult>)

  datatype Ran = Ran(status: CommandStatus, memory: Memory, spent: Spent, effects: seq<Effect>)

  // ---------------------------------------------------------------- steps

  /** `containsSubsequence`. */
  predicate Contains(haystack: seq<Byte>, needle: seq<Byte>) {
    exists i :: 0 <= i <= |haystack| - |needle| && OccursAt(haystack, needle, i)
  }

  predicate OccursAt(haystack: seq<Byte>, needle: seq<Byte>, i: nat) {
    i + |needle| <= |haystack| && haystack[i..i + |needle|] == needle
  }

  function RunSerialWrite(world: World, c: Command, memory: Memory, spent: Spent): Ran
    requires c.SerialWrite?
  {
    if !world.canWrite then Ran(Failure, memory, spent, [])
    else
      var accepted := world.accepts(spent.writes);
      Ran(if accepted then Done else Failure, memory.(lastWrite := Some(accepted)),
          spent.(writes := spent.writes + 1), [Wrote(c.timeoutMs)])
  }

  datatype Sliced = Sliced(status: CommandStatus, polls: nat, effects: seq<Effect>)

  function SlicesBefore(effects: seq<Effect>, rest: Sliced): Sliced {
    Sliced(rest.status, rest.polls, effects + rest.effects)
  }

  /** The rest of a delay: slices of at most 100 ms, with a cancellation query before each and at the end. */
  function Slices(world: World, remaining: int, polls: nat): Sliced
    decreases remaining
  {
    if world.cancel(polls) then Sliced(StepCancelled, polls + 1, [])
    else if remaining <= 0 then Sliced(Done, polls + 1, [])
    else
      var slice := if remaining < DelaySliceMs then remaining else DelaySliceMs;
      SlicesBefore([Slept(slice)], Slices(world, remaining - slice, polls + 1))
  }

  function RunDelay(world: World, c: Command, memory: Memory, spent: Spent): Ran
    requires c.Delay?
  {
    if c.durationMs == 0 then Ran(Done, memory, spent, [])
    else if !world.canSleep then Ran(Failure, memory, spent, [])
    else
      var s := Slices(world, c.durationMs, spent.polls);
      Ran(s.status, memory, spent.(polls := s.polls), s.effects)
  }

  function RunWait(world: World, c: Command, memory: Memory, spent: Spent): Ran
    requires c.WaitForResponse?
  {
    if !world.canWait then Ran(Failure, memory, spent, [])
    else
      var response := world.responses(spent.waits);
      var after := spent.(waits := spent.waits + 1);
      if response.None? then Ran(StepTimeout, memory, after, [Waited(c.timeoutMs)])
      else Ran(if Contains(response.value, c.expectedPayload) then Done else Failure,
               memory.(lastResponse := response), after, [Waited(c.timeoutMs)])
  }

  function ReadOptions(c: Command): ScanOptions
    requires c.ModbusRead?
  {
    ScanOptions(c.slaveId, c.functionCode, c.startAddress, Wrapped(c.startAddress + c.quantity - 1), c.quantity, 0,
      c.retryCount)
  }

  /** The plan of a read: one block. */
  function ReadPlan(c: Command): ScanPlan
    requires c.ModbusRead? && ValidOptions(ReadOptions(c))
  {
    var o := ReadOptions(c);
    ScanPlan(o.slaveId, o.functionCode, o.startAddress, o.endAddress, o.blockSize, o.requestIntervalMs, o.retryCount,
      [ScanBlock(0, o.startAddress, o.endAddress, o.blockSize,
                 RequestFrame(o.slaveId, o.functionCode, o.startAddress, o.blockSize))])
  }

  function ReadJob(world: World, c: Command): Job
    requires c.ModbusRead? && ValidOptions(ReadOptions(c))
  {
    Job(ReadPlan(c), ExecutionOptions(c.responseTimeoutMs, false, true, true, false, false, false), world.answers,
      world.cancel)
  }

  function ResultOf(plan: ScanPlan, run: Scanned): ScanResult {
    SucceedingAtMostAll(run.blocks);
    var failed := |run.blocks| - Succeeding(run.blocks);
    ScanResult(StatusOf(run.cancelled, Succeeding(run.blocks), failed), plan, run.blocks,
               AllObservations(run.blocks), Succeeding(run.blocks), failed)
  }

  function Exchanges(n: nat, ms: int): (effects: seq<Effect>)
    ensures |effects| == n && forall i :: 0 <= i < n ==> effects[i] == Exchanged(ms)
  {
    seq(n, _ => Exchanged(ms))
  }

  function ReadStatus(result: ScanResult): CommandStatus {
    if result.status == Completed then Done
    else if result.status == Cancelled then StepCancelled
    else if LastTimedOut(result.blocks) then StepTimeout
    else Failure
  }

  /** Whether the last attempt made, if any, timed out. */
  predicate LastTimedOut(blocks: seq<BlockResult>) {
    if blocks == [] then false
    else if blocks[|blocks| - 1].attempts == [] then LastTimedOut(blocks[..|blocks| - 1])
    else
      var attempts := blocks[|blocks| - 1].attempts;
      attempts[|attempts| - 1].status == Timeout
  }

  function RunModbusRead(world: World, c: Command, memory: Memory, spent: Spent): Ran
    requires c.ModbusRead?
  {
    if !world.canRead || !ValidOptions(ReadOptions(c)) then Ran(Failure, memory, spent, [])
    else if InvalidPlan(ReadPlan(c), ReadJob(world, c).options) then
      var result := ScanResult(Failed, ReadPlan(c), [], [], 0, 0);
      Ran(Failure, memory.(lastScan := Some(result)), spent, [])
    else
      var run := Scan(ReadJob(world, c), 0, Usage(spent.calls, spent.polls, []));
      var result := ResultOf(ReadPlan(c), run);
      Ran(ReadStatus(result), memory.(lastScan := Some(result)),
          spent.(polls := run.usage.polls, calls := run.usage.calls),
          Exchanges(if run.usage.calls >= spent.calls then run.usage.calls - spent.calls else 0, c.responseTimeoutMs))
  }

  predicate Observed(result: ScanResult, address: int, value: Register) {
    exists i :: 0 <= i < |result.observations| && result.observations[i].address == address
      && result.observations[i].value == value
  }

  predicate Passes(c: Command, memory: Memory)
    requires c.Assertion?
  {
    match c.kind
    case LastSerialWriteAccepted => memory.lastWrite == Some(true)
    case LastResponseContains => memory.lastResponse.Some? && Contains(memory.lastResponse.value, c.expectedPayload)
    case LastModbusReadSucceeded => memory.lastScan.Some? && memory.lastScan.value.status == Completed
    case RegisterEquals => memory.lastScan.Some? && Observed(memory.lastScan.value, c.registerAddress, c.expectedValue)
  }

  function RunStep(world: World, c: Command, memory: Memory, spent: Spent): Ran {
    match c
    case SerialWrite(_, _) => RunSerialWrite(world, c, memory, spent)
    case Delay(_) => RunDelay(world, c, memory, spent)
    case WaitForResponse(_, _) => RunWait(world, c, memory, spent)
    case ModbusRead(_, _, _, _, _, _) => RunModbusRead(world, c, memory, spent)
    case Assertion(_, _, _, _) => Ran(if Passes(c, memory) then Done else AssertionFailed, memory, spent, [])
  }

  // ---------------------------------------------------------------- sequences

  datatype Execution = Execution(status: CommandStatus, steps: seq<CommandStatus>, effects: seq<Effect>)

  function ExecutionBefore(statuses: seq<CommandStatus>, effects: seq<Effect>, rest: Execution): Execution {
    Execution(rest.status, statuses + rest.steps, effects + rest.effects)
  }

  /** The run of a valid sequence from step `i` on. */
  function RunSteps(world: World, steps: seq<Command>, i: nat, memory: Memory, spent: Spent): Execution
    decreases |steps| - i
  {
    if i >= |steps| then Execution(Done, [], [])
    else if world.cancel(spent.polls) then Execution(StepCancelled, [StepCancelled], [])
    else
      var ran := RunStep(world, steps[i], memory, spent.(polls := spent.polls + 1));
      if ran.status != Done then Execution(ran.status, [ran.status], ran.effects)
      else ExecutionBefore([Done], ran.effects, RunSteps(world, steps, i + 1, ran.memory, ran.spent))
  }

  const NothingYet := Memory(None, None, None)
  const Unspent := Spent(0, 0, 0, 0)

  // ---------------------------------------------------------------- the executor

  lemma SlicesSplit(a: seq<Effect>, b: seq<Effect>, rest: Sliced)
    ensures SlicesBefore(a, SlicesBefore(b, rest)) == SlicesBefore(a + b, rest)
    ensures SlicesBefore([], rest) == rest
    ensures SlicesBefore(a, Sliced(rest.status, rest.polls, [])) == Sliced(rest.status, rest.polls, a)
  {
    assert a + (b + rest.effects) == a + b + rest.effects;
    assert [] + rest.effects == rest.effects && a + [] == a;
  }

  /** `runDelay`. */
  method PerformDelay(world: World, c: Command, memory: Memory, spent: Spent) returns (ran: Ran)
    requires c.Delay?
    ensures ran == RunDelay(world, c, memory, spent)
  {
    hide SlicesBefore;
    if c.durationMs == 0 {
      return Ran(Done, memory, spent, []);
    }
    if !world.canSleep {
      return Ran(Failure, memory, spent, []);
    }
    var remainingMs: int := c.durationMs;
    var polls := spent.polls;
    var effects: seq<Effect> := [];
    ghost var whole := Slices(world, remainingMs, polls);
    SlicesSplit([], [], whole);
    while remainingMs > 0
      invariant whole == SlicesBefore(effects, Slices(world, remainingMs, polls))
    {
      if world.cancel(polls) {
        SlicesSplit(effects, [], Sliced(StepCancelled, polls + 1, []));
        return Ran(StepCancelled, memory, spent.(polls := polls + 1), effects);
      }
      var slice := if remainingMs < DelaySliceMs then remainingMs else DelaySliceMs;
      SlicesSplit(effects, [Slept(slice)], Slices(world, remainingMs - slice, polls + 1));
      effects := effects + [Slept(slice)];
      remainingMs := remainingMs - slice;
      polls := polls + 1;
    }
    SlicesSplit(effects, [], Sliced(Done, polls + 1, []));
    if world.cancel(polls) {
      SlicesSplit(effects, [], Sliced(StepCancelled, polls + 1, []));
      return Ran(StepCancelled, memory, spent.(polls := polls + 1), effects);
    }
    ran := Ran(Done, memory, spent.(polls := polls + 1), effects);
  }

  lemma ReadRange(c: Command)
    requires c.ModbusRead? && ValidOptions(ReadOptions(c))
    ensures ReadOptions(c).endAddress == c.startAddress + c.quantity - 1
  {
  }

  lemma OneBlock(o: ScanOptions, blocks: seq<ScanBlock>)
    requires ValidOptions(o) && Tiles(o, blocks) && o.endAddress == o.startAddress + o.blockSize - 1
    ensures blocks == [ScanBlock(0, o.startAddress, o.endAddress, o.blockSize,
                                 RequestFrame(o.slaveId, o.functionCode, o.startAddress, o.blockSize))]
  {
    hide RequestFrame;
    BlockCount(o, blocks);
    Quotient(o.blockSize + o.blockSize - 1, o.blockSize, 1);
    BlockStart(o, blocks, 0);
  }

  lemma FinishedIsResult(plan: ScanPlan, run: Scanned, result: ScanResult)
    requires Finishes(plan, run, result)
    ensures result == ResultOf(plan, run)
  {
    hide AllObservations, Succeeding;
    SucceedingAtMostAll(run.blocks);
  }

  /** `lastScanAttempt`, and whether it timed out. */
  method FinalAttemptTimedOut(blocks: seq<BlockResult>) returns (timedOut: bool)
    ensures timedOut == LastTimedOut(blocks)
  {
    var n := |blocks|;
    assert blocks[..n] == blocks;
    while n > 0
      invariant 0 <= n <= |blocks| && LastTimedOut(blocks) == LastTimedOut(blocks[..n])
    {
      assert blocks[..n][..n - 1] == blocks[..n - 1];
      if blocks[n - 1].attempts != [] {
        return blocks[n - 1].attempts[|blocks[n - 1].attempts| - 1].status == Timeout;
      }
      n := n - 1;
    }
    timedOut := false;
  }

  /** `runModbusRead`. */
  method PerformRead(world: World, c: Command, memory: Memory, spent: Spent) returns (ran: Ran)
    requires c.ModbusRead?
    ensures ran == RunModbusRead(world, c, memory, spent)
  {
    hide Scan, RequestFrame, InvalidPlan, Tiles, LastTimedOut, ResultOf, Finishes;
    if !world.canRead {
      return Ran(Failure, memory, spent, []);
    }
    var plan := BuildScanPlan(ReadOptions(c));
    if plan.None? {
      return Ran(Failure, memory, spent, []);
    }
    ReadRange(c);
    OneBlock(ReadOptions(c), plan.value.blocks);
    assert plan.value == ReadPlan(c);
    var start := Usage(spent.calls, spent.polls, []);
    var result, usage := Execute(ReadJob(world, c), start);
    if !InvalidPlan(ReadPlan(c), ReadJob(world, c).options) {
      FinishedIsResult(plan.value, Scan(ReadJob(world, c), 0, start), result);
    } else {
      NoneTimedOut();
    }
    var after := memory.(lastScan := Some(result));
    var timedOut := FinalAttemptTimedOut(result.blocks);
    var status := if result.status == Completed then Done
      else if result.status == Cancelled then StepCancelled
      else if timedOut then StepTimeout
      else Failure;
    var made := if usage.calls >= spent.calls then usage.calls - spent.calls else 0;
    ran := Ran(status, after, spent.(polls := usage.polls, calls := usage.calls), Exchanges(made, c.responseTimeoutMs));
  }

  lemma NoneTimedOut()
    ensures !LastTimedOut([])
  {
  }

  /** `runStep`. */
  method PerformStep(world: World, c: Command, memory: Memory, spent: Spent) returns (ran: Ran)
    ensures ran == RunStep(world, c, memory, spent)
  {
    hide RunModbusRead, RunDelay, Contains, Observed;
    match c {
      case SerialWrite(payload, timeoutMs) =>
        if !world.canWrite {
          return Ran(Failure, memory, spent, []);
        }
        var accepted := world.accepts(spent.writes);
        var status := if accepted then Done else Failure;
        ran := Ran(status, memory.(lastWrite := Some(accepted)), spent.(writes := spent.writes + 1),
          [Wrote(timeoutMs)]);
      case Delay(_) =>
        ran := PerformDelay(world, c, memory, spent);
      case WaitForResponse(expected, timeoutMs) =>
        if !world.canWait {
          return Ran(Failure, memory, spent, []);
        }
        var response := world.responses(spent.waits);
        var after := spent.(waits := spent.waits + 1);
        if response.None? {
          return Ran(StepTimeout, memory, after, [Waited(timeoutMs)]);
        }
        var status := if Contains(response.value, expected) then Done else Failure;
        ran := Ran(status, memory.(lastResponse := response), after, [Waited(timeoutMs)]);
      case ModbusRead(_, _, _, _, _, _) =>
        ran := PerformRead(world, c, memory, spent);
      case Assertion(kind, expected, address, value) =>
        var passed := match kind
          case LastSerialWriteAccepted => memory.lastWrite == Some(true)
          case LastResponseContains => memory.lastResponse.Some? && Contains(memory.lastResponse.value, expected)
          case LastModbusReadSucceeded => memory.lastScan.Some? && memory.lastScan.value.status == Completed
          case RegisterEquals => memory.lastScan.Some? && Observed(memory.lastScan.value, address, value);
        ran := Ran(if passed then Done else AssertionFailed, memory, spent, []);
    }
  }

  lemma ExecutionSplit(s: seq<CommandStatus>, e: seq<Effect>, t: seq<CommandStatus>, f: seq<Effect>, rest: Execution)
    ensures ExecutionBefore(s, e, ExecutionBefore(t, f, rest)) == ExecutionBefore(s + t, e + f, rest)
    ensures ExecutionBefore([], [], rest) == rest
    ensures ExecutionBefore(s, e, Execution(rest.status, t, f)) == Execution(rest.status, s + t, e + f)
  {
    assert s + (t + rest.steps) == s + t + rest.steps && e + (f + rest.effects) == e + f + rest.effects;
    assert [] + rest.steps == rest.steps && [] + rest.effects == rest.effects;
  }

  lemma StepsEnd(world: World, steps: seq<Command>, i: nat, memory: Memory, spent: Spent, s: seq<CommandStatus>,
      e: seq<Effect>)
    ensures i >= |steps| ==> ExecutionBefore(s, e, RunSteps(world, steps, i, memory, spent)) == Execution(Done, s, e)
    ensures i < |steps| && world.cancel(spent.polls) ==>
      ExecutionBefore(s, e, RunSteps(world, steps, i, memory, spent)) ==
        Execution(StepCancelled, s + [StepCancelled], e)
  {
    assert s + [] == s && e + [] == e;
  }

  lemma StepsGoOn(world: World, steps: seq<Command>, i: nat, memory: Memory, spent: Spent, ran: Ran,
      s: seq<CommandStatus>, e: seq<Effect>)
    requires i < |steps| && !world.cancel(spent.polls)
    requires ran == RunStep(world, steps[i], memory, spent.(polls := spent.polls + 1))
    ensures ExecutionBefore(s, e, RunSteps(world, steps, i, memory, spent)) ==
      if ran.status != Done then Execution(ran.status, s + [ran.status], e + ran.effects)
      else ExecutionBefore(s + [Done], e + ran.effects, RunSteps(world, steps, i + 1, ran.memory, ran.spent))
  {
    hide RunStep;
    ExecutionSplit(s, e, [Done], ran.effects, RunSteps(world, steps, i + 1, ran.memory, ran.spent));
  }

  /** `executeCommandSequence`. */
  method ExecuteCommandSequence(world: World, steps: seq<Command>, limits: SafetyLimits) returns (result: Execution)
    ensures !Acceptable(steps, limits) ==> result == Execution(RejectedUnsafe, [], [])
    ensures Acceptable(steps, limits) ==> result == RunSteps(world, steps, 0, NothingYet, Unspent)
  {
    hide *;
    var validation := ValidateCommandSequence(steps, limits);
    if validation != Valid {
      return Execution(RejectedUnsafe, [], []);
    }
    var memory, spent := NothingYet, Unspent;
    var statuses: seq<CommandStatus> := [];
    var effects: seq<Effect> := [];
    ghost var whole := RunSteps(world, steps, 0, memory, spent);
    ExecutionSplit([], [], [], [], whole);
    for index := 0 to |steps|
      invariant whole == ExecutionBefore(statuses, effects, RunSteps(world, steps, index, memory, spent))
    {
      if world.cancel(spent.polls) {
        StepsEnd(world, steps, index, memory, spent, statuses, effects);
        return Execution(StepCancelled, statuses + [StepCancelled], effects);
      }
      var ran := PerformStep(world, steps[index], memory, spent.(polls := spent.polls + 1));
      StepsGoOn(world, steps, index, memory, spent, ran, statuses, effects);
      statuses := statuses + [ran.status];
      effects := effects + ran.effects;
      if ran.status != Done {
        return Execution(ran.status, statuses, effects);
      }
      memory, spent := ran.memory, ran.spent;
    }
    StepsEnd(world, steps, |steps|, memory, spent, statuses, effects);
    result := Execution(Done, statuses, effects);
  }
}
