/** Command sequences and their validation: `validateCommandSequence` (`command_sequence.cpp`). */
module CommandValidation {
  import opened Crc
  import opened ModbusFrames

  const MaxInt: int := 0x7FFF_FFFF
  const MinInt: int := -0x8000_0000

  type Int32 = x: int | -0x8000_0000 <= x <= 0x7FFF_FFFF

  /** What a 32-bit sum or product leaves when it does not fit. */
  function Wrapped(x: int): Int32 {
    (x - MinInt) % 0x1_0000_0000 + MinInt
  }

  datatype AssertionKind = LastSerialWriteAccepted | LastResponseContains | LastModbusReadSucceeded | RegisterEquals

  datatype Command =
    | SerialWrite(payload: seq<Byte>, timeoutMs: Int32)
    | Delay(durationMs: Int32)
    | WaitForResponse(expectedPayload: seq<Byte>, timeoutMs: Int32)
    | ModbusRead(slaveId: Int32, functionCode: Byte, startAddress: Int32, quantity: Int32,
                 responseTimeoutMs: Int32, retryCount: Int32)
    | Assertion(kind: AssertionKind, expectedPayload: seq<Byte>, registerAddress: Int32, expectedValue: Register)

  datatype SafetyLimits = SafetyLimits(maxCommandCount: nat, maxPayloadBytes: nat, maxCommandTimeoutMs: Int32,
                                       maxDelayMs: Int32, maxTotalBudgetMs: Int32, maxModbusQuantity: Int32,
                                       maxModbusRetries: Int32)

  datatype Validation = Valid | Unsafe(stepIndex: nat)

  // ---------------------------------------------------------------- what is asked of a step

  predicate TimeoutAllowed(timeoutMs: Int32, limits: SafetyLimits) {
    0 < timeoutMs <= limits.maxCommandTimeoutMs
  }

  predicate PayloadAllowed(payload: seq<Byte>, limits: SafetyLimits) {
    0 < |payload| <= limits.maxPayloadBytes
  }

  /** What a step must satisfy by itself. */
  predicate Admissible(c: Command, limits: SafetyLimits) {
    match c
    case SerialWrite(payload, timeoutMs) => PayloadAllowed(payload, limits) && TimeoutAllowed(timeoutMs, limits)
    case Delay(durationMs) => 0 <= durationMs <= limits.maxDelayMs
    case WaitForResponse(expected, timeoutMs) => PayloadAllowed(expected, limits) && TimeoutAllowed(timeoutMs, limits)
    case ModbusRead(slaveId, functionCode, startAddress, quantity, responseTimeoutMs, retryCount) =>
      && MinSlaveId <= slaveId <= MaxSlaveId && IsSupportedReadFunction(functionCode) && startAddress >= 0
      && 0 < quantity <= limits.maxModbusQuantity && 0 <= retryCount <= limits.maxModbusRetries
      && TimeoutAllowed(responseTimeoutMs, limits)
    case Assertion(kind, expected, registerAddress, _) =>
      && (kind == LastResponseContains ==> PayloadAllowed(expected, limits))
      && (kind == RegisterEquals ==> registerAddress >= 0)
  }

  /** The time a step may take: its timeout once per attempt. A retry count of 2^31 - 1 makes the 32-bit
      attempt count negative, and a negative amount is never added. */
  function Cost(c: Command): int {
    match c
    case SerialWrite(_, timeoutMs) => timeoutMs
    case Delay(durationMs) => durationMs
    case WaitForResponse(_, timeoutMs) => timeoutMs
    case ModbusRead(_, _, _, _, responseTimeoutMs, retryCount) =>
      if retryCount == MaxInt then 0 else responseTimeoutMs * (retryCount + 1)
    case Assertion(_, _, _, _) => 0
  }

  lemma CostIsNotNegative(c: Command, limits: SafetyLimits)
    requires Admissible(c, limits)
    ensures Cost(c) >= 0
  {
  }

  function TotalCost(steps: seq<Command>): int {
    if steps == [] then 0 else TotalCost(steps[..|steps| - 1]) + Cost(steps[|steps| - 1])
  }

  predicate LimitsValid(limits: SafetyLimits) {
    && limits.maxPayloadBytes != 0 && limits.maxCommandTimeoutMs > 0 && limits.maxDelayMs >= 0
    && limits.maxTotalBudgetMs > 0 && limits.maxModbusQuantity > 0 && limits.maxModbusRetries >= 0
  }

  /** A sequence that may run: every step is admissible and all their times together fit the budget. */
  ghost predicate Acceptable(steps: seq<Command>, limits: SafetyLimits) {
    && 0 < |steps| <= limits.maxCommandCount
    && LimitsValid(limits)
    && (forall i :: 0 <= i < |steps| ==> Admissible(steps[i], limits))
    && TotalCost(steps) <= limits.maxTotalBudgetMs
  }

  /** Step `i` is the first that is inadmissible or exceeds the budget. */
  ghost predicate FirstBad(steps: seq<Command>, i: nat, limits: SafetyLimits)
    requires i < |steps|
  {
    && (forall k :: 0 <= k < i ==> Admissible(steps[k], limits))
    && TotalCost(steps[..i]) <= limits.maxTotalBudgetMs
    && (!Admissible(steps[i], limits) || TotalCost(steps[..i]) + Cost(steps[i]) > limits.maxTotalBudgetMs)
  }

  // ---------------------------------------------------------------- the validator

  /** `addBudget`. */
  method AddBudget(budgetMs: Int32, valueMs: Int32) returns (added: bool, total: Int32)
    requires budgetMs >= 0
    ensures added <==> valueMs <= 0 || budgetMs + valueMs <= MaxInt
    ensures added ==> total == budgetMs + if valueMs <= 0 then 0 else valueMs
    ensures !added ==> total == budgetMs
  {
    if valueMs <= 0 {
      return true, budgetMs;
    }
    if budgetMs > MaxInt - valueMs {
      return false, budgetMs;
    }
    added, total := true, budgetMs + valueMs;
  }

  /** `validateModbusRead`, whose products are 32 bits wide. */
  method ValidateModbusRead(c: Command, limits: SafetyLimits, budgetMs: Int32) returns (ok: bool, total: Int32)
    requires c.ModbusRead? && budgetMs >= 0
    ensures ok <==> Admissible(c, limits) && budgetMs + Cost(c) <= MaxInt
    ensures ok ==> total == budgetMs + Cost(c)
  {
    total := budgetMs;
    if c.slaveId < MinSlaveId || c.slaveId > MaxSlaveId {
      return false, total;
    }
    if !IsSupportedReadFunction(c.functionCode) {
      return false, total;
    }
    if c.startAddress < 0 {
      return false, total;
    }
    if c.quantity <= 0 || c.quantity > limits.maxModbusQuantity {
      return false, total;
    }
    if c.retryCount < 0 || c.retryCount > limits.maxModbusRetries {
      return false, total;
    }
    if !TimeoutAllowed(c.responseTimeoutMs, limits) {
      return false, total;
    }
    var attemptCount := Wrapped(c.retryCount + 1);
    if attemptCount > 0 && c.responseTimeoutMs > MaxInt / attemptCount {
      TooLong(c.responseTimeoutMs, attemptCount);
      return false, total;
    }
    Fits(c.responseTimeoutMs, c.retryCount);
    ok, total := AddBudget(budgetMs, Wrapped(c.responseTimeoutMs * attemptCount));
  }

  lemma TooLong(t: int, n: int)
    requires n > 0 && t > MaxInt / n
    ensures t * n > MaxInt
  {
    assert MaxInt < n * (MaxInt / n) + n;
    assert n * (MaxInt / n + 1) <= n * t;
  }

  /** What the product leaves: the cost, or nothing that would be added when the attempt count wrapped. */
  lemma Fits(t: Int32, retryCount: Int32)
    requires t > 0 && retryCount >= 0
    requires retryCount < MaxInt ==> t <= MaxInt / (retryCount + 1)
    ensures var n := Wrapped(retryCount + 1);
      if retryCount == MaxInt then n < 0 && Wrapped(t * n) <= 0
      else n == retryCount + 1 && Wrapped(t * n) == t * n >= 0
  {
    if retryCount == MaxInt {
      HalfWraps(t);
    } else {
      var n := retryCount + 1;
      assert n * t <= n * (MaxInt / n) <= MaxInt;
    }
  }

  lemma HalfWraps(t: int)
    requires t > 0
    ensures Wrapped(t * MinInt) <= 0
  {
    var k := t / 2;
    if t % 2 == 0 {
      assert t * MinInt - MinInt == -0x1_0000_0000 * k - MinInt;
      Multiple(-k, 0x8000_0000);
    } else {
      assert t * MinInt - MinInt == -0x1_0000_0000 * k;
      Multiple(-k, 0);
    }
  }

  lemma Multiple(k: int, r: int)
    requires 0 <= r < 0x1_0000_0000
    ensures (0x1_0000_0000 * k + r) % 0x1_0000_0000 == r
  {
  }

  /** `validateStep`. */
  method ValidateStep(c: Command, limits: SafetyLimits, budgetMs: Int32) returns (ok: bool, total: Int32)
    requires budgetMs >= 0
    ensures ok <==> Admissible(c, limits) && budgetMs + Cost(c) <= MaxInt
    ensures ok ==> total == budgetMs + Cost(c)
  {
    total := budgetMs;
    match c {
      case SerialWrite(payload, timeoutMs) =>
        if payload == [] || |payload| > limits.maxPayloadBytes || !TimeoutAllowed(timeoutMs, limits) {
          return false, total;
        }
        ok, total := AddBudget(budgetMs, timeoutMs);
      case Delay(durationMs) =>
        if durationMs < 0 || durationMs > limits.maxDelayMs {
          return false, total;
        }
        ok, total := AddBudget(budgetMs, durationMs);
      case WaitForResponse(expected, timeoutMs) =>
        if expected == [] || |expected| > limits.maxPayloadBytes || !TimeoutAllowed(timeoutMs, limits) {
          return false, total;
        }
        ok, total := AddBudget(budgetMs, timeoutMs);
      case ModbusRead(_, _, _, _, _, _) =>
        ok, total := ValidateModbusRead(c, limits, budgetMs);
      case Assertion(kind, expected, registerAddress, _) =>
        ok := match kind
          case LastSerialWriteAccepted => true
          case LastModbusReadSucceeded => true
          case LastResponseContains => expected != [] && |expected| <= limits.maxPayloadBytes
          case RegisterEquals => registerAddress >= 0;
    }
  }

  /** `validateCommandSequence`: it accepts exactly the acceptable sequences. */
  method ValidateCommandSequence(steps: seq<Command>, limits: SafetyLimits) returns (v: Validation)
    ensures v.Valid? <==> Acceptable(steps, limits)
    ensures v.Unsafe? && 0 < |steps| <= limits.maxCommandCount && LimitsValid(limits) ==>
      v.stepIndex < |steps| && FirstBad(steps, v.stepIndex, limits)
  {
    hide Cost, Admissible;
    if steps == [] {
      return Unsafe(0);
    }
    if limits.maxCommandCount == 0 || |steps| > limits.maxCommandCount {
      return Unsafe(0);
    }
    if limits.maxPayloadBytes == 0 || limits.maxCommandTimeoutMs <= 0 || limits.maxDelayMs < 0
       || limits.maxTotalBudgetMs <= 0 || limits.maxModbusQuantity <= 0 || limits.maxModbusRetries < 0 {
      return Unsafe(0);
    }
    var totalBudgetMs: Int32 := 0;
    for index := 0 to |steps|
      invariant totalBudgetMs == TotalCost(steps[..index]) && 0 <= totalBudgetMs <= limits.maxTotalBudgetMs
      invariant forall i :: 0 <= i < index ==> Admissible(steps[i], limits)
    {
      assert steps[..index + 1][..index] == steps[..index];
      var ok, total := ValidateStep(steps[index], limits, totalBudgetMs);
      if !ok {
        PrefixTooDear(steps, index, limits);
        return Unsafe(index);
      }
      CostIsNotNegative(steps[index], limits);
      totalBudgetMs := total;
      if totalBudgetMs > limits.maxTotalBudgetMs {
        PrefixTooDear(steps, index, limits);
        return Unsafe(index);
      }
    }
    assert steps[..|steps|] == steps;
    v := Valid;
  }

  lemma {:induction false} CostGrows(steps: seq<Command>, n: nat, limits: SafetyLimits)
    requires n <= |steps| && forall i :: 0 <= i < |steps| ==> Admissible(steps[i], limits)
    ensures TotalCost(steps[..n]) <= TotalCost(steps)
  {
    hide Admissible, Cost;
    if n < |steps| {
      var shorter := steps[..|steps| - 1];
      CostGrows(shorter, n, limits);
      CostIsNotNegative(steps[|steps| - 1], limits);
      assert shorter[..n] == steps[..n];
    } else {
      assert steps[..n] == steps;
    }
  }

  /** A prefix that does not fit the budget, or a step that is not admissible, spoils the sequence. */
  lemma PrefixTooDear(steps: seq<Command>, index: nat, limits: SafetyLimits)
    requires index < |steps|
    requires
      || !Admissible(steps[index], limits)
      || TotalCost(steps[..index]) + Cost(steps[index]) > limits.maxTotalBudgetMs
    ensures !Acceptable(steps, limits)
  {
    hide Admissible, Cost;
    if forall i :: 0 <= i < |steps| ==> Admissible(steps[i], limits) {
      CostGrows(steps, index + 1, limits);
      assert steps[..index + 1][..index] == steps[..index];
    }
  }

  // ---------------------------------------------------------------- overflow

  /** The 32-bit attempt count of an admissible read overflows exactly for a retry count of 2^31 - 1,
      which the limits let through only when they allow that many retries. */
  lemma AttemptCountOverflows(limits: SafetyLimits)
    requires LimitsValid(limits)
    ensures (exists c: Command :: c.ModbusRead? && Admissible(c, limits) && c.retryCount + 1 > MaxInt)
      <==> limits.maxModbusRetries == MaxInt
  {
    if limits.maxModbusRetries == MaxInt {
      var c := ModbusRead(1, HoldingRegisters, 0, 1, 1, MaxInt);
      assert Admissible(c, limits);
    }
  }
}
