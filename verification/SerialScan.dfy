/** A scan over the serial line: the executor's exchanges are those of `SerialRtuTransport`
    (`modbus_scan_executor_core.cpp`, `serial_rtu_transport.cpp`). */
module SerialScan {
  import opened Options
  import opened Crc
  import opened ModbusFrames
  import opened ScanPlanner
  import opened ScanExecution
  import opened ScanTheorems
  import opened RtuFraming
  import opened RtuTransport
  import opened RtuTransportTheorems

  /** What the executor is told about an exchange on a port. */
  function OverLine(port: Port, request: seq<Byte>): Exchange {
    var outcome := Exchanged(port, request);
    Exchange(outcome.status, request, outcome.frame)
  }

  /** The exchanges made for a block, the first of them number `call`, go over the line. */
  ghost predicate MadeOverLine(job: Job, ports: nat -> Port, r: BlockResult, block: ScanBlock, call: nat) {
    forall n :: call <= n < call + |r.attempts| ==> job.answers(n) == OverLine(ports(n), block.requestFrame)
  }

  /** Every register a scan reports for a block was in the canonical response with which the bytes of
      one exchange begin, and every read that brought those bytes belonged to the bound session. */
  lemma ReportedRegistersCameOverTheLine(job: Job, ports: nat -> Port, r: BlockResult, block: ScanBlock, call: nat)
    requires SoundBlock(job, r, block, call) && r.ok && MadeOverLine(job, ports, r, block, call)
    ensures var port := ports(call + |r.attempts| - 1);
      var values := ValuesOf(job.plan, block, r.attempts[|r.attempts| - 1]);
      && |values| == block.quantity == |r.observations| && 2 * |values| < 0x100 && 0 <= job.plan.slaveId < 0x100
      && FrameInStream(Bytes(port, block.requestFrame)) ==
        Some(ResponseFrame(job.plan.slaveId, job.plan.functionCode, values))
      && AllGood(port, 0, ReadsMade(port, block.requestFrame))
      && forall k :: 0 <= k < block.quantity ==>
           r.observations[k].address == block.startAddress + k && r.observations[k].value == values[k]
  {
    hide Exchanged, FrameInStream, ResponseFrame, ValuesOf, Bytes, ReadsMade, AllGood, RecordsExchanges,
      OnlyLastSettles, BlockObservations;
    var n := call + |r.attempts| - 1;
    ReadBlockIsCanonical(job, r, block, call);
    assert job.answers(n) == OverLine(ports(n), block.requestFrame);
    SuccessIsTheFrame(ports(n), block.requestFrame);
  }
}
