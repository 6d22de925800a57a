/** The scan planner: `buildScanPlan` (`modbus_core.cpp`). */
module ScanPlanner {
  import opened Options
  import opened Crc
  import opened ModbusFrames

  const MaxBlockSize: int := 64
  const MaxPlanRegisters: int := 4096
  const MaxRetryCount: int := 5

  datatype ScanBlock = ScanBlock(index: int, startAddress: int, endAddress: int, quantity: int, requestFrame: seq<Byte>)

  datatype ScanOptions = ScanOptions(slaveId: int, functionCode: Byte, startAddress: int, endAddress: int,
                                     blockSize: int, requestIntervalMs: int, retryCount: int)

  datatype ScanPlan = ScanPlan(slaveId: int, functionCode: Byte, startAddress: int, endAddress: int,
                               blockSize: int, requestIntervalMs: int, retryCount: int, blocks: seq<ScanBlock>)

  predicate ValidOptions(o: ScanOptions) {
    && MinSlaveId <= o.slaveId <= MaxSlaveId
    && IsSupportedReadFunction(o.functionCode)
    && 0 <= o.startAddress <= o.endAddress <= MaxAddress
    && 1 <= o.blockSize <= MaxBlockSize
    && o.requestIntervalMs >= 0
    && 0 <= o.retryCount <= MaxRetryCount
    && o.endAddress - o.startAddress + 1 <= MaxPlanRegisters
  }

  // ---------------------------------------------------------------- tilings

  /** Where the next block of a list that starts at `start` begins. */
  function NextAddress(blocks: seq<ScanBlock>, start: int): int {
    if blocks == [] then start else blocks[|blocks| - 1].endAddress + 1
  }

  predicate GoodBlock(o: ScanOptions, b: ScanBlock, index: int, start: int) {
    && b.index == index
    && b.startAddress == start
    && 1 <= b.quantity <= o.blockSize
    && b.endAddress == start + b.quantity - 1
    && b.endAddress <= o.endAddress
    && (b.quantity < o.blockSize ==> b.endAddress == o.endAddress)
    && ValidRequest(o.slaveId, o.functionCode, start, b.quantity)
    && b.requestFrame == RequestFrame(o.slaveId, o.functionCode, start, b.quantity)
  }

  /** Blocks numbered in order, each starting where the one before ends, none larger than the block
      size and none smaller unless it ends the range. */
  ghost predicate Laid(o: ScanOptions, blocks: seq<ScanBlock>) {
    forall i :: 0 <= i < |blocks| ==> GoodBlock(o, blocks[i], i, NextAddress(blocks[..i], o.startAddress))
  }

  ghost predicate Tiles(o: ScanOptions, blocks: seq<ScanBlock>) {
    Laid(o, blocks) && NextAddress(blocks, o.startAddress) == o.endAddress + 1
  }

  lemma LaidOneMore(o: ScanOptions, blocks: seq<ScanBlock>, b: ScanBlock)
    requires Laid(o, blocks)
    requires GoodBlock(o, b, |blocks|, NextAddress(blocks, o.startAddress))
    ensures Laid(o, blocks + [b])
  {
    hide GoodBlock, NextAddress;
    var longer := blocks + [b];
    forall i | 0 <= i < |longer|
      ensures GoodBlock(o, longer[i], i, NextAddress(longer[..i], o.startAddress))
    {
      assert longer[..i] == blocks[..i];
      assert blocks[..|blocks|] == blocks;
    }
  }

  method BuildScanPlan(o: ScanOptions) returns (plan: Option<ScanPlan>)
    ensures plan.Some? <==> ValidOptions(o)
    ensures plan.Some? ==> Tiles(o, plan.value.blocks)
    ensures plan.Some? ==> plan.value == ScanPlan(o.slaveId, o.functionCode, o.startAddress, o.endAddress,
                                                  o.blockSize, o.requestIntervalMs, o.retryCount, plan.value.blocks)
  {
    hide RequestFrame;
    if o.slaveId < MinSlaveId || o.slaveId > MaxSlaveId {
      return None;
    }
    if !IsSupportedReadFunction(o.functionCode) {
      return None;
    }
    if o.startAddress < 0 || o.startAddress > MaxAddress {
      return None;
    }
    if o.endAddress < 0 || o.endAddress > MaxAddress {
      return None;
    }
    if o.endAddress < o.startAddress {
      return None;
    }
    if o.blockSize < 1 || o.blockSize > MaxBlockSize {
      return None;
    }
    if o.requestIntervalMs < 0 {
      return None;
    }
    if o.retryCount < 0 || o.retryCount > MaxRetryCount {
      return None;
    }
    var totalRegisters := o.endAddress - o.startAddress + 1;
    if totalRegisters > MaxPlanRegisters {
      return None;
    }
    var blocks: seq<ScanBlock> := [];
    var currentAddress := o.startAddress;
    var blockIndex := 0;
    while currentAddress <= o.endAddress
      invariant ValidOptions(o)
      invariant blockIndex == |blocks|
      invariant currentAddress == NextAddress(blocks, o.startAddress)
      invariant o.startAddress <= currentAddress <= o.endAddress + 1
      invariant Laid(o, blocks)
    {
      hide Laid;
      var quantity := if o.blockSize < o.endAddress - currentAddress + 1 then o.blockSize
                      else o.endAddress - currentAddress + 1;
      var request := BuildReadRequest(o.slaveId, o.functionCode, currentAddress, quantity);
      if request.None? {
        return None;
      }
      var block := ScanBlock(blockIndex, currentAddress, currentAddress + quantity - 1, quantity, request.value);
      LaidOneMore(o, blocks, block);
      blocks := blocks + [block];
      currentAddress := currentAddress + quantity;
      blockIndex := blockIndex + 1;
    }
    plan := Some(ScanPlan(o.slaveId, o.functionCode, o.startAddress, o.endAddress,
                          o.blockSize, o.requestIntervalMs, o.retryCount, blocks));
  }

  // ---------------------------------------------------------------- what a tiling means

  lemma BlockAfter(o: ScanOptions, blocks: seq<ScanBlock>, i: nat)
    requires Laid(o, blocks) && i + 1 < |blocks|
    ensures blocks[i + 1].startAddress == blocks[i].endAddress + 1
    ensures blocks[i].quantity == o.blockSize
  {
    hide RequestFrame;
    assert blocks[..i + 1][i] == blocks[i];
    assert GoodBlock(o, blocks[i], i, NextAddress(blocks[..i], o.startAddress));
    assert GoodBlock(o, blocks[i + 1], i + 1, NextAddress(blocks[..i + 1], o.startAddress));
  }

  /** Block `i` starts `i` block sizes after the start of the range. */
  lemma {:induction false} BlockStart(o: ScanOptions, blocks: seq<ScanBlock>, i: nat)
    requires Laid(o, blocks) && i < |blocks|
    ensures blocks[i].startAddress == o.startAddress + i * o.blockSize
    ensures GoodBlock(o, blocks[i], i, o.startAddress + i * o.blockSize)
  {
    hide RequestFrame;
    assert GoodBlock(o, blocks[i], i, NextAddress(blocks[..i], o.startAddress));
    if i > 0 {
      BlockStart(o, blocks, i - 1);
      BlockAfter(o, blocks, i - 1);
      assert i * o.blockSize == (i - 1) * o.blockSize + o.blockSize;
    }
  }

  lemma Scaled(d: int, a: int, b: int)
    requires d > 0 && a <= b
    ensures d * a <= d * b
  {
  }

  lemma Quotient(n: int, d: int, q: int)
    requires d > 0 && q * d <= n < q * d + d
    ensures n / d == q
  {
    var k := n / d;
    assert d * k <= n < d * k + d;
    if k < q {
      Scaled(d, k + 1, q);
    }
    if k > q {
      Scaled(d, q + 1, k);
    }
  }

  /** There are as many blocks as the ceiling of the range over the block size. */
  lemma BlockCount(o: ScanOptions, blocks: seq<ScanBlock>)
    requires ValidOptions(o) && Tiles(o, blocks)
    ensures |blocks| == (o.endAddress - o.startAddress + 1 + o.blockSize - 1) / o.blockSize
  {
    hide RequestFrame;
    var last := |blocks| - 1;
    BlockStart(o, blocks, last);
    var total := o.endAddress - o.startAddress + 1;
    assert total == last * o.blockSize + blocks[last].quantity;
    assert (last + 1) * o.blockSize == last * o.blockSize + o.blockSize;
    Quotient(total + o.blockSize - 1, o.blockSize, last + 1);
  }

  predicate Holds(b: ScanBlock, address: int) {
    b.startAddress <= address <= b.endAddress
  }

  /** Every address of the range lies in exactly one block, and no other address lies in any. */
  lemma EachAddressOnce(o: ScanOptions, blocks: seq<ScanBlock>, address: int)
    requires ValidOptions(o) && Tiles(o, blocks)
    ensures o.startAddress <= address <= o.endAddress <==>
      exists i :: 0 <= i < |blocks| && Holds(blocks[i], address)
    ensures forall i, j | 0 <= i < |blocks| && 0 <= j < |blocks|
              :: Holds(blocks[i], address) && Holds(blocks[j], address) ==> i == j
  {
    hide GoodBlock;
    forall i | 0 <= i < |blocks| && Holds(blocks[i], address)
      ensures i == (address - o.startAddress) / o.blockSize && o.startAddress <= address <= o.endAddress
    {
      HeldAt(o, blocks, address, i);
    }
    if o.startAddress <= address <= o.endAddress {
      AddressIsHeld(o, blocks, address);
    }
  }

  lemma HeldAt(o: ScanOptions, blocks: seq<ScanBlock>, address: int, i: nat)
    requires ValidOptions(o) && Tiles(o, blocks)
    requires i < |blocks| && Holds(blocks[i], address)
    ensures i == (address - o.startAddress) / o.blockSize && o.startAddress <= address <= o.endAddress
  {
    hide RequestFrame;
    BlockStart(o, blocks, i);
    Quotient(address - o.startAddress, o.blockSize, i);
    assert 0 <= i * o.blockSize;
  }

  lemma {:induction false} AddressIsHeld(o: ScanOptions, blocks: seq<ScanBlock>, address: int)
    requires Laid(o, blocks)
    requires o.startAddress <= address < NextAddress(blocks, o.startAddress)
    ensures exists i :: 0 <= i < |blocks| && Holds(blocks[i], address)
    decreases |blocks|
  {
    hide RequestFrame;
    var last := |blocks| - 1;
    assert GoodBlock(o, blocks[last], last, NextAddress(blocks[..last], o.startAddress));
    if address < blocks[last].startAddress {
      LaidPrefix(o, blocks, last);
      AddressIsHeld(o, blocks[..last], address);
      var i :| 0 <= i < last && Holds(blocks[..last][i], address);
      assert Holds(blocks[i], address);
    } else {
      assert Holds(blocks[last], address);
    }
  }

  lemma LaidPrefix(o: ScanOptions, blocks: seq<ScanBlock>, n: nat)
    requires Laid(o, blocks) && n <= |blocks|
    ensures Laid(o, blocks[..n])
  {
    hide GoodBlock, NextAddress;
    forall i | 0 <= i < n
      ensures GoodBlock(o, blocks[..n][i], i, NextAddress(blocks[..n][..i], o.startAddress))
    {
      assert blocks[..n][..i] == blocks[..i];
    }
  }

  /** Every request frame of a plan validates and asks a device for exactly its block. */
  lemma RequestsAskForTheirBlocks(o: ScanOptions, blocks: seq<ScanBlock>, i: nat)
    requires Laid(o, blocks) && i < |blocks|
    ensures DecodeRequest(blocks[i].requestFrame)
      == Some(Request(o.slaveId, o.functionCode, blocks[i].startAddress, blocks[i].quantity))
  {
    hide RequestFrame, DecodeRequest;
    var b := blocks[i];
    assert GoodBlock(o, b, i, NextAddress(blocks[..i], o.startAddress));
    RequestRoundTrip(o.slaveId, o.functionCode, b.startAddress, b.quantity);
  }
}
