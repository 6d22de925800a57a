/** A static budget bounds what a command sequence can wait for (`command_sequence.cpp`). */
module CommandTheorems {
  import opened ModbusFrames
  import opened ScanPlanner
  import opened ScanExecution
  import opened ScanTheorems
  import opened CommandValidation
  import opened CommandExecution

  lemma {:induction false} TimeJoins(a: seq<Effect>, b: seq<Effect>)
    ensures Time(a + b) == Time(a) + Time(b)
  {
    if b == [] {
      assert a + b == a;
    } else {
      TimeJoins(a, b[..|b| - 1]);
      assert (a + b)[..|a + b| - 1] == a + b[..|b| - 1];
    }
  }

  lemma TimeOfOne(effect: Effect)
    ensures Time([effect]) == effect.ms
  {
    assert [effect][..0] == [];
  }

  // ---------------------------------------------------------------- delays

  ghost predicate InSlices(effects: seq<Effect>) {
    forall i :: 0 <= i < |effects| ==> effects[i].Slept? && 0 < effects[i].ms <= DelaySliceMs
  }

  lemma {:induction false} SlicesFit(world: World, remaining: int, polls: nat)
    requires remaining >= 0
    ensures var s := Slices(world, remaining, polls);
      && InSlices(s.effects) && 0 <= Time(s.effects) <= remaining
      && (s.status == Done || s.status == StepCancelled)
      && (s.status == Done ==> Time(s.effects) == remaining)
    decreases remaining
  {
    hide Time, InSlices;
    NoSlices();
    if !world.cancel(polls) && remaining > 0 {
      var slice := if remaining < DelaySliceMs then remaining else DelaySliceMs;
      SlicesFit(world, remaining - slice, polls + 1);
      var rest := Slices(world, remaining - slice, polls + 1).effects;
      OneMoreSlice(slice, rest);
      TimeJoins([Slept(slice)], rest);
      TimeOfOne(Slept(slice));
    }
  }

  lemma NoSlices()
    ensures InSlices([]) && Time([]) == 0
  {
  }

  lemma OneMoreSlice(slice: int, rest: seq<Effect>)
    requires 0 < slice <= DelaySliceMs && InSlices(rest)
    ensures InSlices([Slept(slice)] + rest)
  {
  }

  /** A delay that completes slept exactly its duration, never more than 100 ms at a time. */
  lemma DelayIsExact(world: World, c: Command, memory: Memory, spent: Spent)
    requires c.Delay? && c.durationMs >= 0
    ensures var ran := RunDelay(world, c, memory, spent);
      && InSlices(ran.effects) && 0 <= Time(ran.effects) <= c.durationMs
      && (ran.status == Done ==> Time(ran.effects) == c.durationMs)
  {
    SlicesFit(world, c.durationMs, spent.polls);
  }

  // ---------------------------------------------------------------- reads

  /** The planner takes an admissible read exactly when it asks for at most 64 registers inside the
      address space with at most 5 retries: the validator alone lets larger reads through. */
  lemma ReadIsPlannedExactly(c: Command, limits: SafetyLimits)
    requires c.ModbusRead? && Admissible(c, limits)
    ensures ValidOptions(ReadOptions(c)) <==>
      c.quantity <= MaxBlockSize && c.startAddress + c.quantity - 1 <= MaxAddress && c.retryCount <= MaxRetryCount
  {
  }

  /** A read that the validator admits and the planner does not take fails without any exchange, on
      every backend; such reads exist as soon as the limits allow more than 64 registers. */
  lemma UnplannedReadFails(world: World, c: Command, memory: Memory, spent: Spent, limits: SafetyLimits)
    requires c.ModbusRead? && Admissible(c, limits)
    requires c.quantity > MaxBlockSize || c.startAddress + c.quantity - 1 > MaxAddress || c.retryCount > MaxRetryCount
    ensures RunStep(world, c, memory, spent) == Ran(Failure, memory, spent, [])
    ensures LimitsValid(limits) && limits.maxModbusQuantity > MaxBlockSize ==>
      Admissible(ModbusRead(1, HoldingRegisters, 0, limits.maxModbusQuantity, 1, 0), limits)
  {
    hide ValidOptions, ReadOptions;
    ReadIsPlannedExactly(c, limits);
  }

  lemma ReadMakesFewExchanges(world: World, c: Command, limits: SafetyLimits, start: Usage)
    requires c.ModbusRead? && Admissible(c, limits) && ValidOptions(ReadOptions(c))
    ensures var run := Scan(ReadJob(world, c), 0, start);
      start.calls <= run.usage.calls <= start.calls + c.retryCount + 1
  {
    hide Scan, StoppedByLastPoll, RecordsExchanges, OnlyLastSettles, Succeeded, BlockObservations, RequestFrame;
    var job := ReadJob(world, c);
    ScanIsSound(job, 0, start);
    var blocks := Scan(job, 0, start).blocks;
    if blocks != [] {
      assert SoundBlock(job, blocks[0], job.plan.blocks[0], start.calls + Calls(blocks[..0]));
      assert blocks[..|blocks| - 1] == [];
    }
  }

  lemma {:induction false} ExchangesTake(n: nat, ms: int)
    ensures Time(Exchanges(n, ms)) == n * ms
  {
    if n > 0 {
      ExchangesTake(n - 1, ms);
      assert Exchanges(n, ms)[..n - 1] == Exchanges(n - 1, ms);
      assert n * ms == (n - 1) * ms + ms;
    }
  }

  lemma Scaled(n: nat, m: nat, ms: int)
    requires n <= m && ms >= 0
    ensures 0 <= n * ms <= m * ms
  {
  }

  lemma ReadFits(world: World, c: Command, limits: SafetyLimits, memory: Memory, spent: Spent)
    requires c.ModbusRead? && Admissible(c, limits)
    ensures 0 <= Time(RunModbusRead(world, c, memory, spent).effects) <= Cost(c)
  {
    hide Scan, ResultOf, InvalidPlan, ValidOptions, ReadPlan, ReadJob, Exchanges;
    CostIsNotNegative(c, limits);
    if world.canRead && ValidOptions(ReadOptions(c)) && !InvalidPlan(ReadPlan(c), ReadJob(world, c).options) {
      ReadIsPlannedExactly(c, limits);
      var start := Usage(spent.calls, spent.polls, []);
      ReadMakesFewExchanges(world, c, limits, start);
      var made := Scan(ReadJob(world, c), 0, start).usage.calls - spent.calls;
      ExchangesTake(made, c.responseTimeoutMs);
      Scaled(made, c.retryCount + 1, c.responseTimeoutMs);
    }
  }

  lemma PlanOfRead(world: World, c: Command)
    requires c.ModbusRead? && ValidOptions(ReadOptions(c))
    ensures Tiles(ReadOptions(c), ReadPlan(c).blocks)
    ensures ReadOptions(c).endAddress == c.startAddress + c.quantity - 1
  {
    hide RequestFrame;
    ReadRange(c);
    var b := ReadPlan(c).blocks;
    assert b[..0] == [];
    assert GoodBlock(ReadOptions(c), b[0], 0, NextAddress(b[..0], c.startAddress));
  }

  /** A read that completes observed each of its addresses once, in ascending order. */
  lemma ReadObservesItsRange(world: World, c: Command, limits: SafetyLimits, memory: Memory, spent: Spent)
    requires c.ModbusRead? && Admissible(c, limits)
    requires RunStep(world, c, memory, spent).status == Done
    ensures var scan := RunStep(world, c, memory, spent).memory.lastScan;
      && scan.Some? && |scan.value.observations| == c.quantity
      && forall k :: 0 <= k < c.quantity ==> scan.value.observations[k].address == c.startAddress + k
  {
    hide Scan, Tiles, ValidOptions, InvalidPlan, AllObservations, Succeeding, LastTimedOut, ReadPlan, ReadOptions;
    var start := Usage(spent.calls, spent.polls, []);
    PlanOfRead(world, c);
    var run := Scan(ReadJob(world, c), 0, start);
    SucceedingAtMostAll(run.blocks);
    CompletedScanIsComplete(ReadJob(world, c), ReadOptions(c), start, ResultOf(ReadPlan(c), run));
    StartOfRead(c);
  }

  lemma StartOfRead(c: Command)
    requires c.ModbusRead?
    ensures ReadOptions(c).startAddress == c.startAddress
  {
  }

  // ---------------------------------------------------------------- sequences

  lemma StepFits(world: World, c: Command, limits: SafetyLimits, memory: Memory, spent: Spent)
    requires Admissible(c, limits)
    ensures 0 <= Time(RunStep(world, c, memory, spent).effects) <= Cost(c)
  {
    hide RunModbusRead, RunDelay, Contains, Passes;
    match c {
      case SerialWrite(_, timeoutMs) => TimeOfOne(Wrote(timeoutMs));
      case Delay(_) => DelayIsExact(world, c, memory, spent);
      case WaitForResponse(_, timeoutMs) => TimeOfOne(Waited(timeoutMs));
      case ModbusRead(_, _, _, _, _, _) => ReadFits(world, c, limits, memory, spent);
      case Assertion(_, _, _, _) =>
    }
  }

  function CostFrom(steps: seq<Command>, i: nat): int
    decreases |steps| - i
  {
    if i >= |steps| then 0 else Cost(steps[i]) + CostFrom(steps, i + 1)
  }

  lemma {:induction false} CostSplit(steps: seq<Command>, i: nat)
    requires i <= |steps|
    ensures TotalCost(steps[..i]) + CostFrom(steps, i) == TotalCost(steps)
    decreases |steps| - i
  {
    hide Cost;
    if i < |steps| {
      CostSplit(steps, i + 1);
      assert steps[..i + 1][..i] == steps[..i];
    } else {
      assert steps[..i] == steps;
    }
  }

  lemma {:induction false} CostFromIsNotNegative(steps: seq<Command>, i: nat, limits: SafetyLimits)
    requires forall k :: 0 <= k < |steps| ==> Admissible(steps[k], limits)
    ensures CostFrom(steps, i) >= 0
    decreases |steps| - i
  {
    hide Cost, Admissible;
    if i < |steps| {
      CostIsNotNegative(steps[i], limits);
      CostFromIsNotNegative(steps, i + 1, limits);
    }
  }

  lemma {:induction false} RunFits(world: World, steps: seq<Command>, i: nat, memory: Memory, spent: Spent,
      limits: SafetyLimits)
    requires forall k :: 0 <= k < |steps| ==> Admissible(steps[k], limits)
    ensures 0 <= Time(RunSteps(world, steps, i, memory, spent).effects) <= CostFrom(steps, i)
    decreases |steps| - i
  {
    hide RunStep, Cost, Admissible;
    CostFromIsNotNegative(steps, i, limits);
    if i < |steps| && !world.cancel(spent.polls) {
      var ran := RunStep(world, steps[i], memory, spent.(polls := spent.polls + 1));
      StepFits(world, steps[i], limits, memory, spent.(polls := spent.polls + 1));
      CostFromIsNotNegative(steps, i + 1, limits);
      if ran.status == Done {
        RunFits(world, steps, i + 1, ran.memory, ran.spent, limits);
        TimeJoins(ran.effects, RunSteps(world, steps, i + 1, ran.memory, ran.spent).effects);
      }
    }
  }

  /** Whatever the backends answer, an accepted sequence asks for waits of at most the total budget:
      sleeps, write deadlines, response waits and every Modbus exchange, retries included. */
  lemma BudgetBoundsTime(world: World, steps: seq<Command>, limits: SafetyLimits)
    requires Acceptable(steps, limits)
    ensures 0 <= Time(RunSteps(world, steps, 0, NothingYet, Unspent).effects) <= limits.maxTotalBudgetMs
  {
    hide Cost, Admissible, RunSteps, Time;
    RunFits(world, steps, 0, NothingYet, Unspent, limits);
    CostSplit(steps, 0);
    assert steps[..0] == [];
  }

  /** Steps run in order up to the first that does not complete, which gives the sequence its status. */
  lemma {:induction false} StopsAtFirstFailure(world: World, steps: seq<Command>, i: nat, memory: Memory, spent: Spent)
    requires i <= |steps|
    ensures StoppedProperly(RunSteps(world, steps, i, memory, spent), |steps| - i)
    decreases |steps| - i
  {
    hide RunStep, StoppedProperly;
    if i >= |steps| {
      StoppedAtOnce(Execution(Done, [], []), 0);
    } else if world.cancel(spent.polls) {
      StoppedAtOnce(Execution(StepCancelled, [StepCancelled], []), |steps| - i);
    } else {
      var ran := RunStep(world, steps[i], memory, spent.(polls := spent.polls + 1));
      if ran.status == Done {
        StopsAtFirstFailure(world, steps, i + 1, ran.memory, ran.spent);
        StoppedLater(RunSteps(world, steps, i + 1, ran.memory, ran.spent), |steps| - i - 1, ran.effects);
      } else {
        StoppedAtOnce(Execution(ran.status, [ran.status], ran.effects), |steps| - i);
      }
    }
  }

  /** The statuses of a run of `n` steps: all but the last completed, and the last is the run's. */
  ghost predicate StoppedProperly(e: Execution, n: nat) {
    && |e.steps| <= n
    && (forall k :: 0 <= k < |e.steps| - 1 ==> e.steps[k] == Done)
    && (e.status == Done <==> |e.steps| == n && forall k :: 0 <= k < |e.steps| ==> e.steps[k] == Done)
    && (e.status != Done ==> e.steps != [] && e.steps[|e.steps| - 1] == e.status)
  }

  lemma StoppedAtOnce(e: Execution, n: nat)
    requires if e.status == Done then n == 0 && e.steps == [] else n > 0 && e.steps == [e.status]
    ensures StoppedProperly(e, n)
  {
  }

  lemma StoppedLater(rest: Execution, n: nat, effects: seq<Effect>)
    requires StoppedProperly(rest, n)
    ensures StoppedProperly(ExecutionBefore([Done], effects, rest), n + 1)
  {
    var e := ExecutionBefore([Done], effects, rest);
    assert e.steps[0] == Done && forall k :: 0 <= k < |rest.steps| ==> e.steps[k + 1] == rest.steps[k];
    assert forall k :: 0 < k < |e.steps| ==> e.steps[k] == rest.steps[k - 1];
  }
}
