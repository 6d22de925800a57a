/** Record IDs and the persisted counters behind them: the ID functions of `native_session_store.cpp`.

    A data file is its bytes, and an append may stop after any of them.  Replacing the counters file,
    replacing a data file and committing a group are single steps here, which is what `ReplaceTheorems`
    and `TransactionTheorems` prove of them. */
module IdCounters {
  import opened Options
  import opened RecordLog
  import opened NumberText
  import opened StoreNames
  import opened LogBytes

  /** `std::int64_t` addition of one, as two's complement. */
  function Increment(n: int): int {
    if n == MaxInt64 then MinInt64 else n + 1
  }

  /** The numeric ID of a record; a record without fields has none. */
  function RecordId(r: Record): int
    requires r != []
  {
    ToInt64(r[0], 0)
  }

  // ---------------------------------------------------------------- memory and disk

  datatype Memory = Memory(nextIds: map<string, int>, dirty: bool)

  /** `files` holds bytes.  `counters` is `None` while `id_counters.svmr` does not exist. */
  datatype Disk = Disk(files: map<string, string>, counters: Option<seq<Record>>)

  /** `nextIds_[key]`, raised to 1 when absent or not positive. */
  function NextId(m: Memory, file: string): int {
    if file in m.nextIds && m.nextIds[file] > 0 then m.nextIds[file] else 1
  }

  function AbsorbOne(next: int, dirty: bool, r: Record): (int, bool) {
    if r != [] && RecordId(r) >= next then (Increment(RecordId(r)), true) else (next, dirty)
  }

  function AbsorbFrom(next: int, dirty: bool, records: seq<Record>): (int, bool)
    decreases |records|
  {
    if records == [] then (next, dirty) else
      var step := AbsorbOne(next, dirty, records[0]);
      AbsorbFrom(step.0, step.1, records[1..])
  }

  /** `absorbRecordIds`. */
  function Absorb(m: Memory, file: string, records: seq<Record>): Memory {
    if records == [] then m else
      var result := AbsorbFrom(NextId(m, file), m.dirty, records);
      Memory(m.nextIds[file := result.0], result.1)
  }

  /** `allocateId`. */
  function Allocate(m: Memory, file: string): (Memory, int) {
    (Memory(m.nextIds[file := Increment(NextId(m, file))], true), NextId(m, file))
  }

  /** What `counterRecords` writes for one file: at least 1, in decimal. */
  function CounterRecord(m: Memory, file: string): Record {
    var next := if file in m.nextIds then m.nextIds[file] else 1;
    [file, Decimal(if next < 1 then 1 else next)]
  }

  function CounterRecordsFor(m: Memory, files: seq<string>): (records: seq<Record>)
    ensures |records| == |files|
    ensures forall i :: 0 <= i < |files| ==> records[i] == CounterRecord(m, files[i])
  {
    seq(|files|, i requires 0 <= i < |files| => CounterRecord(m, files[i]))
  }

  /** `counterRecords`. */
  function CounterRecords(m: Memory): seq<Record> {
    CounterRecordsFor(m, DataFiles)
  }

  /** The lines of the counters file, or `None` at the first bad one. */
  function LoadLines(records: seq<Record>, loaded: map<string, int>): Option<map<string, int>> {
    if records == [] then Some(loaded)
    else
      var r := records[0];
      if |r| < 2 || r[0] == "" || ToInt64(r[1], -1) <= 0 then None
      else LoadLines(records[1..], loaded[r[0] := ToInt64(r[1], -1)])
  }

  /** `loadPersistedCounters`: usable only when every data file has a counter. */
  function LoadCounters(records: seq<Record>): (counters: Option<map<string, int>>)
    ensures counters.Some? ==> forall f :: f in DataFiles ==> f in counters.value
  {
    var loaded := LoadLines(records, map[]);
    if loaded.Some? && forall f :: f in DataFiles ==> f in loaded.value then loaded else None
  }

  /** `persistCounters`. */
  function Persist(d: Disk, m: Memory): (Disk, Memory) {
    if m.dirty then (d.(counters := Some(CounterRecords(m))), m.(dirty := false)) else (d, m)
  }

  function MaxId(records: seq<Record>): (n: int)
    ensures 0 <= n <= MaxInt64
  {
    if records == [] then 0 else
      var rest := MaxId(records[..|records| - 1]);
      var last := records[|records| - 1];
      if last != [] && RecordId(last) > rest then RecordId(last) else rest
  }

  /** The bytes of a data file; a missing one has none. */
  function BytesOf(d: Disk, file: string): string {
    if file in d.files then d.files[file] else ""
  }

  /** The records that can be read from it. */
  function RecordsOf(d: Disk, file: string): seq<Record> {
    Contents(BytesOf(d, file))
  }

  function WithFile(d: Disk, file: string, bytes: string): Disk {
    d.(files := d.files[file := bytes])
  }

  /** `reloadCounters`, before it persists. */
  function Rescan(d: Disk): Memory {
    Memory(map f | f in DataFiles :: Increment(MaxId(RecordsOf(d, f))), true)
  }

  // ---------------------------------------------------------------- opening

  datatype Store = Running(disk: Disk, memory: Memory) | Down(disk: Disk)

  /** What the file loop of `initializeSchema` does for one file: recover its tail or create it; the new
      header may stop after `cut` bytes. */
  function Prepare(d: Disk, file: string, cut: nat): Disk {
    if file in d.files then WithFile(d, file, Recovered(d.files[file]))
    else WithFile(d, file, if cut < |Header| then Header[..cut] else Header)
  }

  function PrepareAll(d: Disk, files: seq<string>): Disk
    decreases |files|
  {
    if files == [] then d else PrepareAll(Prepare(d, files[0], |Header|), files[1..])
  }

  predicate AllReadable(d: Disk, files: seq<string>) {
    forall f :: f in files ==> Readable(BytesOf(d, f))
  }

  /** The end of `initializeSchema`: the persisted counters if usable, else a rescan, which needs every
      file readable and which is persisted. */
  function OpenCounters(d: Disk, persisted: bool): Store {
    var loaded := if d.counters.None? then None else LoadCounters(d.counters.value);
    if loaded.Some? then Running(d, Memory(loaded.value, false))
    else if persisted && AllReadable(d, DataFiles) then var p := Persist(d, Rescan(d)); Running(p.0, p.1)
    else Down(d)
  }

  /** `initializeSchema`. */
  function Open(d: Disk, persisted: bool): Store {
    OpenCounters(PrepareAll(d, DataFiles), persisted)
  }

  // ---------------------------------------------------------------- steps of a run

  function Filter(records: seq<Record>, keep: Record -> bool): seq<Record> {
    if records == [] then [] else (if keep(records[0]) then [records[0]] else []) + Filter(records[1..], keep)
  }

  datatype Request = Request(file: string, keep: Record -> bool, appended: seq<Record>)

  /** One operation and how far it got.  `persisted` says that persisting dirty counters went
      through; without it nothing else happens.  `written` counts the bytes that reached the file.
      `alive` says that the process goes on afterwards.  An `open` that stops on its way is a number of
      files `Prepared`. */
  datatype Event =
    | Prepared(file: string, cut: nat)
    | Reopened(persisted: bool)
    | Allocated(file: string)
    | Appended(file: string, records: seq<Record>, persisted: bool, written: nat, alive: bool)
    | Rewritten(request: Request, persisted: bool, replaced: bool, alive: bool)
    | Committed(requests: seq<Request>, taken: bool, alive: bool)
    | Compacted(file: string, first: nat, persisted: bool, replaced: bool, alive: bool)
    | Stopped

  function AliveIf(alive: bool, d: Disk, m: Memory): Store {
    if alive then Running(d, m) else Down(d)
  }

  /** The bytes of the new file. */
  function RewrittenBytes(d: Disk, r: Request): string {
    EncodeLog(Filter(RecordsOf(d, r.file), r.keep) + r.appended)
  }

  function Rewrite(d: Disk, r: Request): Disk {
    WithFile(d, r.file, RewrittenBytes(d, r))
  }

  function RewriteAll(d: Disk, requests: seq<Request>): Disk
    decreases |requests|
  {
    if requests == [] then d else RewriteAll(Rewrite(d, requests[0]), requests[1..])
  }

  function AbsorbAll(m: Memory, requests: seq<Request>): Memory
    decreases |requests|
  {
    if requests == [] then m else AbsorbAll(Absorb(m, requests[0].file, requests[0].appended), requests[1..])
  }

  /** `appendRecords`. */
  function AppendStep(d: Disk, m0: Memory, e: Event): Store
    requires e.Appended?
  {
    if e.records == [] then AliveIf(e.alive, d, m0) else
      var m := Absorb(m0, e.file, e.records);
      if !e.persisted then AliveIf(e.alive, d, m) else
        var p := Persist(d, m);
        AliveIf(e.alive, WithFile(p.0, e.file, AppendTo(BytesOf(d, e.file), e.records, e.written)), p.1)
  }

  /** `rewriteRecords` and `rewriteRecordsFiltered`; an unreadable file is not replaced. */
  function RewriteStep(d: Disk, m0: Memory, e: Event): Store
    requires e.Rewritten?
  {
    var m := Absorb(m0, e.request.file, e.request.appended);
    if !e.persisted then AliveIf(e.alive, d, m) else
      var p := Persist(d, m);
      var replaced := e.replaced && Readable(BytesOf(d, e.request.file));
      AliveIf(e.alive, if replaced then Rewrite(p.0, e.request) else p.0, p.1)
  }

  /** The group commits only distinct files, all of them readable. */
  predicate CanCommit(d: Disk, requests: seq<Request>) {
    && (forall i :: 0 <= i < |requests| ==> Readable(BytesOf(d, requests[i].file)))
    && (forall i, j :: 0 <= i < j < |requests| ==> requests[i].file != requests[j].file)
  }

  /** `rewriteRecordsFilteredTransaction`: dirty counters are part of the same commit. */
  function CommitStep(d: Disk, m0: Memory, e: Event): Store
    requires e.Committed?
  {
    if e.requests == [] then AliveIf(e.alive, d, m0) else
      var m := AbsorbAll(m0, e.requests);
      if !e.taken || !CanCommit(d, e.requests) then AliveIf(e.alive, d, m) else
        var p := Persist(RewriteAll(d, e.requests), m);
        AliveIf(e.alive, p.0, p.1)
  }

  /** `compactRawEventsIfNeeded`, keeping the spans from the `first`-th on; a file without records is
      rewritten, which persists dirty counters. */
  function CompactStep(d: Disk, m: Memory, e: Event): Store
    requires e.Compacted?
  {
    var data := BytesOf(d, e.file);
    if e.file !in d.files then AliveIf(e.alive, d, m)
    else if !NoSpans(data) then
      AliveIf(e.alive, if e.replaced then WithFile(d, e.file, CutBefore(data, e.first)) else d, m)
    else if !e.persisted then AliveIf(e.alive, d, m)
    else
      var p := Persist(d, m);
      AliveIf(e.alive, if e.replaced then WithFile(p.0, e.file, CutBefore(data, e.first)) else p.0, p.1)
  }

  function Next(s: Store, e: Event): Store {
    match s
    case Down(d) =>
      if e.Reopened? then Open(d, e.persisted)
      else if e.Prepared? then Down(Prepare(d, e.file, e.cut))
      else s
    case Running(d, m) =>
      match e
      case Prepared(_, _) => s
      case Reopened(persisted) => Open(d, persisted)
      case Allocated(file) => Running(d, Allocate(m, file).0)
      case Appended(_, _, _, _, _) => AppendStep(d, m, e)
      case Rewritten(_, _, _, _) => RewriteStep(d, m, e)
      case Committed(_, _, _) => CommitStep(d, m, e)
      case Compacted(_, _, _, _, _) => CompactStep(d, m, e)
      case Stopped => Down(d)
  }

  function After(s: Store, events: seq<Event>): Store
    decreases |events|
  {
    if events == [] then s else After(Next(s, events[0]), events[1..])
  }

  // ---------------------------------------------------------------- what callers must respect

  /** No caller supplies the one ID after which the counter cannot count. */
  ghost predicate Countable(records: seq<Record>) {
    forall r :: r in records && r != [] ==> RecordId(r) < MaxInt64
  }

  /** No written file passes the largest stream offset. */
  ghost predicate RewritesFit(d: Disk, requests: seq<Request>)
    decreases |requests|
  {
    requests != [] ==>
      Representable(RewrittenBytes(d, requests[0])) && RewritesFit(Rewrite(d, requests[0]), requests[1..])
  }

  /** What an append asks of the file: a read gets to its end. */
  ghost predicate AppendFits(d: Disk, file: string, records: seq<Record>) {
    Readable(BytesOf(d, file)) && Representable(BytesOf(d, file) + Addition(BytesOf(d, file), records))
  }

  ghost predicate Admissible(s: Store, e: Event) {
    match e
    case Prepared(file, _) => file in DataFiles
    case Allocated(file) => file in DataFiles && (s.Running? ==> NextId(s.memory, file) < MaxInt64)
    case Appended(file, records, _, _, _) =>
      file in DataFiles && Countable(records) && (s.Running? && records != [] ==> AppendFits(s.disk, file, records))
    case Rewritten(request, _, _, _) =>
      request.file in DataFiles && Countable(request.appended) && (s.Running? ==> RewritesFit(s.disk, [request]))
    case Committed(requests, _, _) =>
      && (forall i :: 0 <= i < |requests| ==> requests[i].file in DataFiles && Countable(requests[i].appended))
      && (s.Running? ==> RewritesFit(s.disk, requests))
    case Compacted(file, first, _, _, _) =>
      file in DataFiles && (s.Running? ==> Representable(CutBefore(BytesOf(s.disk, file), first)))
    case _ => true
  }

  ghost predicate AllAdmissible(s: Store, events: seq<Event>)
    decreases |events|
  {
    events != [] ==> Admissible(s, events[0]) && AllAdmissible(Next(s, events[0]), events[1..])
  }

  // ---------------------------------------------------------------- the invariant

  ghost predicate Below(records: seq<Record>, bound: int) {
    forall r :: r in records && r != [] ==> RecordId(r) < bound
  }

  /** What holds of the disk whenever the process stops: if the counters file would be used on the
      next open, each counter exceeds every ID that can be read from its file. */
  ghost predicate DiskSafe(d: Disk) {
    forall f :: f in DataFiles ==>
      && Representable(BytesOf(d, f))
      && Countable(RecordsOf(d, f))
      && (d.counters.Some? && LoadCounters(d.counters.value).Some? ==>
            Below(RecordsOf(d, f), LoadCounters(d.counters.value).value[f]))
  }

  ghost predicate Tracked(m: Memory) {
    forall f :: f in DataFiles ==> f in m.nextIds && 0 < m.nextIds[f] <= MaxInt64
  }

  /** The counters file says what memory says. */
  ghost predicate Persisted(d: Disk, m: Memory) {
    && d.counters.Some? && LoadCounters(d.counters.value).Some?
    && forall f :: f in DataFiles && f in m.nextIds ==> LoadCounters(d.counters.value).value[f] == m.nextIds[f]
  }

  ghost predicate Inv(s: Store) {
    && DiskSafe(s.disk)
    && (s.Running? ==>
          && Tracked(s.memory)
          && (forall f :: f in DataFiles && f in s.memory.nextIds ==> Below(RecordsOf(s.disk, f), s.memory.nextIds[f]))
          && (!s.memory.dirty ==> Persisted(s.disk, s.memory)))
  }

  // ---------------------------------------------------------------- counters survive their text form

  lemma CounterText(n: int)
    requires 0 < n <= MaxInt64
    ensures ToInt64(Decimal(n), -1) == n
  {
    hide Decimal, ToSigned;
    PrintedReads(n, -1, MaxInt64 + 1);
  }

  lemma {:induction false} LinesLoad(m: Memory, files: seq<string>, loaded: map<string, int>)
    requires Tracked(m) && forall f :: f in files ==> f in DataFiles && f != ""
    ensures LoadLines(CounterRecordsFor(m, files), loaded).Some?
    ensures var l := LoadLines(CounterRecordsFor(m, files), loaded).value;
      && (forall f :: f in files ==> f in l && l[f] == m.nextIds[f])
      && (forall f :: f in loaded && f !in files ==> f in l && l[f] == loaded[f])
    decreases |files|
  {
    hide ToInt64, Decimal, DataFiles;
    if files != [] {
      var f := files[0];
      assert f in files;
      CounterText(m.nextIds[f]);
      var more := loaded[f := m.nextIds[f]];
      assert forall g :: g in files[1..] ==> g in files;
      LinesLoad(m, files[1..], more);
      assert CounterRecordsFor(m, files)[1..] == CounterRecordsFor(m, files[1..]);
    }
  }

  lemma CountersLoadBack(m: Memory)
    requires Tracked(m)
    ensures LoadCounters(CounterRecords(m)).Some?
    ensures forall f :: f in DataFiles ==> LoadCounters(CounterRecords(m)).value[f] == m.nextIds[f]
  {
    hide LoadLines;
    forall f | f in DataFiles
      ensures f != ""
    {
      var i :| 0 <= i < |DataFiles| && DataFiles[i] == f;
      assert i < 12;
    }
    LinesLoad(m, DataFiles, map[]);
  }

  // ---------------------------------------------------------------- absorbing

  /** Absorbing leaves a counter above every ID absorbed and never lowers it, provided no ID is the
      largest `std::int64_t`. */
  lemma {:induction false} AbsorbFromCovers(next: int, dirty: bool, records: seq<Record>)
    requires 0 < next <= MaxInt64 && Countable(records)
    ensures var result := AbsorbFrom(next, dirty, records);
      && next <= result.0 <= MaxInt64 && Below(records, result.0)
      && (dirty ==> result.1) && (!result.1 ==> result.0 == next)
    decreases |records|
  {
    hide RecordId;
    if records != [] {
      assert records[0] in records;
      var step := AbsorbOne(next, dirty, records[0]);
      assert forall r :: r in records[1..] ==> r in records;
      AbsorbFromCovers(step.0, step.1, records[1..]);
      assert forall r :: r in records ==> r == records[0] || r in records[1..];
    }
  }

  /** The other half: with that ID among them the counter wraps and no longer covers them. */
  lemma {:induction false} AbsorbFromWraps(next: int, dirty: bool, records: seq<Record>)
    requires MinInt64 <= next <= MaxInt64 && !Countable(records)
    ensures !Below(records, AbsorbFrom(next, dirty, records).0)
    decreases |records|
  {
    hide RecordId;
    var r :| r in records && r != [] && RecordId(r) >= MaxInt64;
    IdFits(r);
    StaysInRange(next, dirty, records);
  }

  lemma IdFits(r: Record)
    requires r != []
    ensures MinInt64 <= RecordId(r) <= MaxInt64
  {
  }

  lemma {:induction false} StaysInRange(next: int, dirty: bool, records: seq<Record>)
    requires MinInt64 <= next <= MaxInt64
    ensures MinInt64 <= AbsorbFrom(next, dirty, records).0 <= MaxInt64
    decreases |records|
  {
    hide RecordId;
    if records != [] {
      if records[0] != [] {
        IdFits(records[0]);
      }
      var step := AbsorbOne(next, dirty, records[0]);
      StaysInRange(step.0, step.1, records[1..]);
    }
  }

  /** `absorbRecordIds` covers the records of a write exactly when none of them carries the largest
      `std::int64_t` as its ID. */
  lemma AbsorbCoversExactly(m: Memory, file: string, records: seq<Record>)
    requires records != [] && NextId(m, file) <= MaxInt64
    ensures Below(records, Absorb(m, file, records).nextIds[file]) <==> Countable(records)
  {
    if Countable(records) {
      AbsorbFromCovers(NextId(m, file), m.dirty, records);
    } else {
      AbsorbFromWraps(NextId(m, file), m.dirty, records);
    }
  }

  /** An allocated ID is covered by the counter that follows it exactly when the counter had room. */
  lemma AllocatedIsCoveredExactly(m: Memory, file: string)
    requires NextId(m, file) <= MaxInt64
    ensures Allocate(m, file).1 < NextId(Allocate(m, file).0, file) <==> NextId(m, file) < MaxInt64
  {
  }
}
