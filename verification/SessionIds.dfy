/** The ID fields of `NativeSessionStore` and the methods that update them. */
module SessionIds {
  import opened Options
  import opened RecordLog
  import opened StoreNames
  import opened LogBytes
  import TailRecovery
  import opened NumberText
  import opened IdCounters

  class SessionStore {
    var disk: Disk
    var nextIds: map<string, int>
    var countersDirty: bool

    ghost function Mem(): Memory
      reads this
    {
      Memory(nextIds, countersDirty)
    }

    constructor (initial: Disk)
      ensures disk == initial && nextIds == map[] && !countersDirty
    {
      disk, nextIds, countersDirty := initial, map[], false;
    }

    /** `absorbRecordIds`. */
    method AbsorbRecordIds(file: string, records: seq<Record>)
      modifies this`nextIds, this`countersDirty
      ensures Mem() == Absorb(old(Mem()), file, records)
    {
      if |records| == 0 {
        return;
      }
      var nextId := if file in nextIds then nextIds[file] else 0;
      if nextId <= 0 {
        nextId := 1;
      }
      ghost var before := Mem();
      for i := 0 to |records|
        invariant nextIds == before.nextIds
        invariant AbsorbFrom(nextId, countersDirty, records[i..]) ==
          AbsorbFrom(NextId(before, file), before.dirty, records)
      {
        assert records[i..][0] == records[i] && records[i..][1..] == records[i + 1..];
        if |records[i]| == 0 {
          continue;
        }
        var usedId := ToInt64(records[i][0], 0);
        if usedId >= nextId {
          nextId := Increment(usedId);
          countersDirty := true;
        }
      }
      nextIds := nextIds[file := nextId];
    }

    /** `allocateId`. */
    method AllocateId(file: string) returns (id: int)
      modifies this`nextIds, this`countersDirty
      ensures (Mem(), id) == Allocate(old(Mem()), file)
    {
      var nextId := if file in nextIds then nextIds[file] else 0;
      if nextId <= 0 {
        nextId := 1;
      }
      id := nextId;
      nextIds := nextIds[file := Increment(nextId)];
      countersDirty := true;
    }

    /** `counterRecords`. */
    method CounterLines() returns (records: seq<Record>)
      ensures records == CounterRecords(Mem())
    {
      records := [];
      for i := 0 to |DataFiles|
        invariant |records| == i && forall j :: 0 <= j < i ==> records[j] == CounterRecord(Mem(), DataFiles[j])
      {
        var name := DataFiles[i];
        var nextId := if name in nextIds then nextIds[name] else 1;
        records := records + [[name, Decimal(if nextId < 1 then 1 else nextId)]];
      }
    }

    /** `persistCounters`; `saved` says whether the replacement of the counters file succeeds. */
    method PersistCounters(saved: bool) returns (ok: bool)
      modifies this
      ensures ok <==> saved || !old(countersDirty)
      ensures (disk, Mem()) == if ok then Persist(old(disk), old(Mem())) else (old(disk), old(Mem()))
    {
      if !countersDirty {
        return true;
      }
      var records := CounterLines();
      if !saved {
        return false;
      }
      disk := disk.(counters := Some(records));
      countersDirty := false;
      ok := true;
    }

    /** `loadPersistedCounters`. */
    method LoadPersistedCounters() returns (ok: bool)
      modifies this`nextIds, this`countersDirty
      ensures ok <==> disk.counters.Some? && LoadCounters(disk.counters.value).Some?
      ensures Mem() == if ok then Memory(LoadCounters(disk.counters.value).value, false) else old(Mem())
    {
      hide ToInt64;
      if disk.counters.None? {
        return false;
      }
      var records := disk.counters.value;
      var loaded: map<string, int> := map[];
      for i := 0 to |records|
        invariant LoadLines(records[i..], loaded) == LoadLines(records, map[])
      {
        assert records[i..][0] == records[i] && records[i..][1..] == records[i + 1..];
        var record := records[i];
        if |record| < 2 {
          return false;
        }
        var nextId := ToInt64(record[1], -1);
        if record[0] == "" || nextId <= 0 {
          return false;
        }
        loaded := loaded[record[0] := nextId];
      }
      for i := 0 to |DataFiles|
        invariant forall j :: 0 <= j < i ==> DataFiles[j] in loaded
      {
        if DataFiles[i] !in loaded {
          assert DataFiles[i] in DataFiles;
          return false;
        }
      }
      nextIds, countersDirty := loaded, false;
      ok := true;
    }

    /** The visiting loop of `reloadCounters`. */
    method LargestId(records: seq<Record>) returns (maxId: int)
      ensures maxId == MaxId(records)
    {
      hide RecordId;
      maxId := 0;
      for k := 0 to |records|
        invariant maxId == MaxId(records[..k])
      {
        assert records[..k + 1][..k] == records[..k];
        if |records[k]| != 0 && RecordId(records[k]) > maxId {
          maxId := RecordId(records[k]);
        }
      }
      assert records[..|records|] == records;
    }

    /** `reloadCounters`: rescan every data file, which stops at one that cannot be read, then persist. */
    method ReloadCounters(saved: bool) returns (ok: bool)
      modifies this
      ensures ok <==> saved && AllReadable(old(disk), DataFiles)
      ensures ok ==> (disk, Mem()) == Persist(old(disk), Rescan(old(disk)))
      ensures !ok ==> disk == old(disk)
    {
      hide DataFiles, MaxId, Persist, Readable, Contents;
      nextIds := map[];
      for i := 0 to |DataFiles|
        invariant disk == old(disk) && AllReadable(disk, DataFiles[..i])
        invariant forall f :: f in nextIds <==> f in DataFiles[..i]
        invariant forall f :: f in nextIds ==> nextIds[f] == Increment(MaxId(RecordsOf(disk, f)))
      {
        if !Readable(BytesOf(disk, DataFiles[i])) {
          assert DataFiles[i] in DataFiles;
          return false;
        }
        var maxId := LargestId(RecordsOf(disk, DataFiles[i]));
        assert DataFiles[..i + 1] == DataFiles[..i] + [DataFiles[i]];
        nextIds := nextIds[DataFiles[i] := Increment(maxId)];
      }
      assert DataFiles[..|DataFiles|] == DataFiles;
      assert nextIds == Rescan(disk).nextIds;
      countersDirty := true;
      ok := PersistCounters(saved);
      assert ok ==> Rescan(old(disk)).dirty;
    }

    /** The file loop of `initializeSchema`: recover each tail, create what is missing. */
    method PrepareFiles()
      modifies this`disk
      ensures disk == PrepareAll(old(disk), DataFiles)
    {
      hide DataFiles;
      for i := 0 to |DataFiles|
        invariant PrepareAll(disk, DataFiles[i..]) == PrepareAll(old(disk), DataFiles)
      {
        var name := DataFiles[i];
        assert DataFiles[i..][0] == name && DataFiles[i..][1..] == DataFiles[i + 1..];
        if name in disk.files {
          var outcome := TailRecovery.RecoverRecordFileTail(disk.files[name]);
          if outcome.Split? {
            disk := WithFile(disk, name, outcome.kept);
          } else {
            assert WithFile(disk, name, disk.files[name]) == disk;
          }
        } else {
          disk := WithFile(disk, name, Header);
        }
      }
    }

    /** `initializeSchema`, from its file loop on. */
    method OpenStore(saved: bool) returns (ok: bool)
      modifies this
      ensures ok <==> Open(old(disk), saved).Running?
      ensures if ok then Running(disk, Mem()) == Open(old(disk), saved) else Down(disk) == Open(old(disk), saved)
    {
      hide LoadCounters, Rescan, Persist, PrepareAll, AllReadable, DataFiles;
      PrepareFiles();
      ok := LoadPersistedCounters();
      if !ok {
        ok := ReloadCounters(saved);
      }
    }

    /** `appendRecords`: counters first, then the bytes; `written` of them reach the file. */
    method AppendRecords(file: string, records: seq<Record>, saved: bool, written: nat) returns (ok: bool)
      modifies this
      ensures var persisted := saved || !Absorb(old(Mem()), file, records).dirty;
        var end := AppendStep(old(disk), old(Mem()), Appended(file, records, persisted, written, true));
        && Running(disk, Mem()) == end
        && (ok <==> records == [] || (persisted && written >= |Addition(BytesOf(old(disk), file), records)|))
    {
      hide AbsorbFrom, CounterRecords, EncodeRecord;
      if |records| == 0 {
        return true;
      }
      AbsorbRecordIds(file, records);
      ok := PersistCounters(saved);
      if !ok {
        return;
      }
      var data := BytesOf(disk, file);
      assert data == BytesOf(old(disk), file);
      ghost var persisted := Persist(old(disk), Absorb(old(Mem()), file, records));
      var needsHeader := data == "";
      var output := if needsHeader then Header else "";
      for i := 0 to |records|
        invariant (disk, Mem()) == persisted
        invariant output + EncodeRecords(records[i..]) == Addition(data, records)
      {
        assert records[i..][0] == records[i] && records[i..][1..] == records[i + 1..];
        ghost var before := output;
        output := WriteRecord(output, records[i]);
        assert output + EncodeRecords(records[i + 1..]) == before + EncodeRecords(records[i..]);
      }
      assert output + "" == output;
      assert output[..|output|] == output;
      disk := WithFile(disk, file, data + if written < |output| then output[..written] else output);
      ok := written >= |output|;
    }
  }
}
