/** ID safety over whole runs (`native_session_store.cpp`). */
module IdSafety {
  import opened Options
  import opened RecordLog
  import opened StoreNames
  import opened LogBytes
  import opened NumberText
  import opened IdCounters

  lemma AbsorbTracked(d: Disk, m: Memory, file: string, records: seq<Record>)
    requires Inv(Running(d, m)) && file in DataFiles && Countable(records)
    ensures var n := Absorb(m, file, records);
      && Inv(Running(d, n)) && Below(records, n.nextIds[file])
      && forall f :: f in DataFiles ==> n.nextIds[f] >= m.nextIds[f]
  {
    hide RecordId, LoadCounters, AbsorbFrom, DataFiles, RecordsOf;
    if records != [] {
      AbsorbFromCovers(NextId(m, file), m.dirty, records);
      var n := Absorb(m, file, records);
      assert NextId(m, file) == m.nextIds[file];
      forall f | f in DataFiles
        ensures f in n.nextIds && m.nextIds[f] <= n.nextIds[f] <= MaxInt64 && Below(RecordsOf(d, f), n.nextIds[f])
        ensures !n.dirty ==> n.nextIds[f] == m.nextIds[f]
      {
        assert Below(RecordsOf(d, f), m.nextIds[f]);
      }
    }
  }

  /** Persisting makes the disk cover whatever memory covers. */
  lemma PersistSafe(d: Disk, m: Memory)
    requires Inv(Running(d, m))
    ensures var p := Persist(d, m);
      && Inv(Running(p.0, p.1)) && Persisted(p.0, p.1)
      && p.1.nextIds == m.nextIds && p.0.files == d.files
  {
    hide RecordId, LoadCounters, CounterRecords, DataFiles, Contents;
    if m.dirty {
      CountersLoadBack(m);
      var p := Persist(d, m);
      forall f | f in DataFiles
        ensures RecordsOf(p.0, f) == RecordsOf(d, f) && Below(RecordsOf(d, f), m.nextIds[f])
      {
      }
    }
  }

  /** New bytes for one file, whose IDs are below its counter, once the counter is on disk. */
  lemma FileReplaced(d: Disk, m: Memory, file: string, bytes: string)
    requires Inv(Running(d, m)) && Persisted(d, m) && file in DataFiles
    requires Representable(bytes) && Below(Contents(bytes), m.nextIds[file])
    ensures Inv(Running(WithFile(d, file, bytes), m)) && Persisted(WithFile(d, file, bytes), m)
  {
    hide RecordId, LoadCounters, DataFiles, Contents;
    var t := WithFile(d, file, bytes);
    forall f | f in DataFiles
      ensures Representable(BytesOf(t, f)) && Countable(RecordsOf(t, f)) && Below(RecordsOf(t, f), m.nextIds[f])
      ensures LoadCounters(t.counters.value).value[f] == m.nextIds[f]
    {
      if f != file {
        assert BytesOf(t, f) == BytesOf(d, f);
        assert Countable(RecordsOf(d, f)) && Below(RecordsOf(d, f), m.nextIds[f]);
      }
    }
  }

  ghost predicate PartOf(a: seq<Record>, b: seq<Record>) {
    forall r :: r in a ==> r in b
  }

  lemma BelowPart(a: seq<Record>, b: seq<Record>, bound: int)
    requires PartOf(a, b) && Below(b, bound)
    ensures Below(a, bound)
  {
    hide RecordId;
  }

  /** New bytes that hold no other records than the old ones. */
  lemma FileReduced(d: Disk, file: string, bytes: string)
    requires DiskSafe(d) && Representable(bytes) && PartOf(Contents(bytes), RecordsOf(d, file))
    ensures DiskSafe(WithFile(d, file, bytes))
  {
    hide RecordId, LoadCounters, DataFiles, Contents, Below, PartOf;
    var t := WithFile(d, file, bytes);
    forall f | f in DataFiles
      ensures Representable(BytesOf(t, f)) && Countable(RecordsOf(t, f))
      ensures t.counters.Some? && LoadCounters(t.counters.value).Some? ==>
        Below(RecordsOf(t, f), LoadCounters(t.counters.value).value[f])
    {
      CountableIsBelow(RecordsOf(d, f));
      CountableIsBelow(RecordsOf(t, f));
      if f == file {
        BelowPart(RecordsOf(t, f), RecordsOf(d, f), MaxInt64);
        if d.counters.Some? && LoadCounters(d.counters.value).Some? {
          BelowPart(RecordsOf(t, f), RecordsOf(d, f), LoadCounters(d.counters.value).value[f]);
        }
      } else {
        assert BytesOf(t, f) == BytesOf(d, f);
      }
    }
  }

  lemma CountableIsBelow(records: seq<Record>)
    ensures Countable(records) <==> Below(records, MaxInt64)
  {
    hide RecordId;
  }

  lemma FileReducedAlive(d: Disk, m: Memory, file: string, bytes: string)
    requires Inv(Running(d, m)) && Representable(bytes) && PartOf(Contents(bytes), RecordsOf(d, file))
    ensures Inv(Running(WithFile(d, file, bytes), m))
  {
    hide RecordId, LoadCounters, DataFiles, Contents, Below, PartOf, DiskSafe;
    var t := WithFile(d, file, bytes);
    FileReduced(d, file, bytes);
    forall f | f in DataFiles && f in m.nextIds
      ensures Below(RecordsOf(t, f), m.nextIds[f])
    {
      if f == file {
        BelowPart(RecordsOf(t, f), RecordsOf(d, f), m.nextIds[f]);
      } else {
        assert BytesOf(t, f) == BytesOf(d, f);
      }
    }
  }

  lemma {:induction false} FilterKeepsBelow(records: seq<Record>, keep: Record -> bool, bound: int)
    requires Below(records, bound)
    ensures Below(Filter(records, keep), bound)
    decreases |records|
  {
    hide RecordId;
    if records != [] {
      assert records[0] in records;
      assert forall r :: r in records[1..] ==> r in records;
      FilterKeepsBelow(records[1..], keep, bound);
    }
  }

  lemma BelowConcat(a: seq<Record>, b: seq<Record>, bound: int)
    requires Below(a, bound) && Below(b, bound)
    ensures Below(a + b, bound)
  {
    hide RecordId;
  }

  lemma BelowFirst(a: seq<Record>, bound: int, n: nat)
    requires Below(a, bound) && n <= |a|
    ensures Below(a[..n], bound)
  {
    hide RecordId;
    assert forall r :: r in a[..n] ==> r in a;
  }

  lemma DownIsSafe(d: Disk, m: Memory, alive: bool)
    requires Inv(Running(d, m))
    ensures Inv(AliveIf(alive, d, m))
  {
  }

  lemma AppendPreserves(d: Disk, m0: Memory, e: Event)
    requires e.Appended? && Inv(Running(d, m0)) && e.file in DataFiles && Countable(e.records)
    requires e.records != [] ==> AppendFits(d, e.file, e.records)
    ensures Inv(AppendStep(d, m0, e))
  {
    hide *;
    AppendCases(d, m0, e);
    AbsorbTracked(d, m0, e.file, e.records);
    var m := Absorb(m0, e.file, e.records);
    DownIsSafe(d, m0, e.alive);
    DownIsSafe(d, m, e.alive);
    if e.records != [] {
      PersistSafe(d, m);
      var p := Persist(d, m);
      BelowNow(p.0, p.1, e.file);
      SameRecords(d, p.0, e.file);
      AppendedBelow(d, e.file, e.records, e.written, m.nextIds[e.file]);
      FileReplaced(p.0, p.1, e.file, AppendTo(BytesOf(d, e.file), e.records, e.written));
      DownIsSafe(WithFile(p.0, e.file, AppendTo(BytesOf(d, e.file), e.records, e.written)), p.1, e.alive);
    }
  }

  /** Whatever byte the append stops at, the file holds old records and appended ones. */
  lemma AppendedBelow(d: Disk, file: string, records: seq<Record>, written: nat, bound: int)
    requires AppendFits(d, file, records) && Below(RecordsOf(d, file), bound) && Below(records, bound)
    ensures var bytes := AppendTo(BytesOf(d, file), records, written);
      Representable(bytes) && Below(Contents(bytes), bound)
  {
    hide RecordId, AppendTo, Contents, Readable, Below, Arrived, Addition;
    var data := BytesOf(d, file);
    AppendReads(data, records, written);
    var n := Arrived(data, records, written);
    BelowFirst(records, bound, n);
    BelowConcat(RecordsOf(d, file), records[..n], bound);
  }

  lemma AppendCases(d: Disk, m0: Memory, e: Event)
    requires e.Appended?
    ensures var m := Absorb(m0, e.file, e.records);
      var p := Persist(d, m);
      AppendStep(d, m0, e) ==
        if e.records == [] then AliveIf(e.alive, d, m0)
        else if !e.persisted then AliveIf(e.alive, d, m)
        else AliveIf(e.alive, WithFile(p.0, e.file, AppendTo(BytesOf(d, e.file), e.records, e.written)), p.1)
  {
  }

  lemma BelowNow(d: Disk, m: Memory, file: string)
    requires Inv(Running(d, m)) && file in DataFiles
    ensures file in m.nextIds && Below(RecordsOf(d, file), m.nextIds[file])
  {
  }

  lemma SameRecords(d: Disk, t: Disk, file: string)
    requires t.files == d.files
    ensures RecordsOf(t, file) == RecordsOf(d, file)
  {
  }

  lemma RewritePreserves(d: Disk, m: Memory, r: Request)
    requires Inv(Running(d, m)) && Persisted(d, m) && r.file in DataFiles && Below(r.appended, m.nextIds[r.file])
    requires Representable(RewrittenBytes(d, r))
    ensures Inv(Running(Rewrite(d, r), m)) && Persisted(Rewrite(d, r), m)
  {
    hide RecordId, LoadCounters, DataFiles, Inv, Persisted, Below, Filter, EncodeLog, Contents, WithFile;
    BelowNow(d, m, r.file);
    FilterKeepsBelow(RecordsOf(d, r.file), r.keep, m.nextIds[r.file]);
    BelowConcat(Filter(RecordsOf(d, r.file), r.keep), r.appended, m.nextIds[r.file]);
    WrittenContents(Filter(RecordsOf(d, r.file), r.keep) + r.appended);
    FileReplaced(d, m, r.file, RewrittenBytes(d, r));
  }

  lemma SameRewrite(d: Disk, t: Disk, r: Request)
    requires t.files == d.files
    ensures RewrittenBytes(t, r) == RewrittenBytes(d, r)
  {
  }

  lemma OneFits(d: Disk, r: Request)
    requires RewritesFit(d, [r])
    ensures Representable(RewrittenBytes(d, r))
  {
  }

  lemma RewriteStepPreserves(d: Disk, m0: Memory, e: Event)
    requires e.Rewritten? && Inv(Running(d, m0)) && e.request.file in DataFiles && Countable(e.request.appended)
    requires RewritesFit(d, [e.request])
    ensures Inv(RewriteStep(d, m0, e))
  {
    hide RecordId, LoadCounters, DataFiles, Inv, Persisted, Below, Persist, Rewrite, Absorb, AliveIf, Countable;
    hide Readable, RewrittenBytes, RewritesFit, BytesOf, RecordsOf;
    AbsorbTracked(d, m0, e.request.file, e.request.appended);
    var m := Absorb(m0, e.request.file, e.request.appended);
    DownIsSafe(d, m, e.alive);
    PersistSafe(d, m);
    var p := Persist(d, m);
    DownIsSafe(p.0, p.1, e.alive);
    BelowNow(p.0, p.1, e.request.file);
    OneFits(d, e.request);
    SameRewrite(d, p.0, e.request);
    RewritePreserves(p.0, p.1, e.request);
    DownIsSafe(Rewrite(p.0, e.request), p.1, e.alive);
  }

  /** The appended records of every request are covered. */
  ghost predicate Covered(m: Memory, requests: seq<Request>) {
    forall i :: 0 <= i < |requests| ==>
      requests[i].file in DataFiles && requests[i].file in m.nextIds
        && Below(requests[i].appended, m.nextIds[requests[i].file])
  }

  lemma {:induction false} AbsorbAllTracked(d: Disk, m: Memory, requests: seq<Request>, done: seq<Request>)
    requires Inv(Running(d, m)) && Covered(m, done)
    requires forall i :: 0 <= i < |requests| ==> requests[i].file in DataFiles && Countable(requests[i].appended)
    ensures Inv(Running(d, AbsorbAll(m, requests))) && Covered(AbsorbAll(m, requests), done + requests)
    decreases |requests|
  {
    hide RecordId, LoadCounters, DataFiles, Absorb, Countable, Inv, Covered;
    if requests == [] {
      assert done + requests == done;
    } else {
      var r := requests[0];
      AbsorbTracked(d, m, r.file, r.appended);
      var n := Absorb(m, r.file, r.appended);
      CoveredOneMore(d, m, n, done, r);
      AbsorbAllTracked(d, n, requests[1..], done + [r]);
      assert done + [r] + requests[1..] == done + requests;
    }
  }

  lemma CoveredOneMore(d: Disk, m: Memory, n: Memory, done: seq<Request>, r: Request)
    requires Covered(m, done) && Inv(Running(d, n)) && r.file in DataFiles
    requires Below(r.appended, n.nextIds[r.file])
    requires forall f :: f in DataFiles && f in m.nextIds && f in n.nextIds ==> n.nextIds[f] >= m.nextIds[f]
    ensures Covered(n, done + [r])
  {
    hide RecordId, LoadCounters, DataFiles;
    forall i | 0 <= i < |done|
      ensures done[i].file in n.nextIds && Below(done[i].appended, n.nextIds[done[i].file])
    {
      assert Below(done[i].appended, m.nextIds[done[i].file]);
    }
  }

  lemma {:induction false} RewriteAllPreserves(d: Disk, m: Memory, requests: seq<Request>)
    requires Inv(Running(d, m)) && Persisted(d, m) && Covered(m, requests) && RewritesFit(d, requests)
    ensures Inv(Running(RewriteAll(d, requests), m)) && Persisted(RewriteAll(d, requests), m)
    decreases |requests|
  {
    hide RecordId, LoadCounters, DataFiles, Inv, Persisted, Below, Rewrite, RewrittenBytes;
    if requests != [] {
      RewritePreserves(d, m, requests[0]);
      RewriteAllPreserves(Rewrite(d, requests[0]), m, requests[1..]);
    }
  }

  lemma CountersAside(d: Disk, counters: Option<seq<Record>>, r: Request)
    ensures Rewrite(d.(counters := counters), r) == Rewrite(d, r).(counters := counters)
    ensures RewrittenBytes(d.(counters := counters), r) == RewrittenBytes(d, r)
    ensures Rewrite(d, r).counters == d.counters
  {
    hide Filter, EncodeLog, Contents;
  }

  lemma {:induction false} CountersApart(d: Disk, counters: Option<seq<Record>>, requests: seq<Request>)
    ensures RewriteAll(d.(counters := counters), requests) == RewriteAll(d, requests).(counters := counters)
    ensures RewriteAll(d, requests).counters == d.counters
    ensures RewritesFit(d, requests) ==> RewritesFit(d.(counters := counters), requests)
    decreases |requests|
  {
    hide Rewrite, RewrittenBytes;
    if requests != [] {
      CountersAside(d, counters, requests[0]);
      CountersApart(Rewrite(d, requests[0]), counters, requests[1..]);
    }
  }

  lemma CommitPreserves(d: Disk, m0: Memory, e: Event)
    requires e.Committed? && Inv(Running(d, m0)) && RewritesFit(d, e.requests)
    requires forall i :: 0 <= i < |e.requests| ==> e.requests[i].file in DataFiles && Countable(e.requests[i].appended)
    ensures Inv(CommitStep(d, m0, e))
  {
    hide RecordId, LoadCounters, DataFiles, Inv, Persisted, Countable, Covered, CounterRecords, AliveIf, RewriteAll,
      AbsorbAll;
    hide CanCommit, RewritesFit;
    DownIsSafe(d, m0, e.alive);
    assert Covered(m0, []) by { NothingCovered(m0); }
    AbsorbAllTracked(d, m0, e.requests, []);
    assert [] + e.requests == e.requests;
    var m := AbsorbAll(m0, e.requests);
    DownIsSafe(d, m, e.alive);
    PersistSafe(d, m);
    var p := Persist(d, m);
    assert Covered(p.1, e.requests) by { CoveredByIds(m, p.1, e.requests); }
    CountersApart(d, Some(CounterRecords(m)), e.requests);
    RewriteAllPreserves(p.0, p.1, e.requests);
    var q := Persist(RewriteAll(d, e.requests), m);
    assert q == (RewriteAll(p.0, e.requests), p.1);
    DownIsSafe(q.0, q.1, e.alive);
  }

  lemma NothingCovered(m: Memory)
    ensures Covered(m, [])
  {
  }

  lemma CoveredByIds(m: Memory, n: Memory, requests: seq<Request>)
    requires m.nextIds == n.nextIds && Covered(m, requests)
    ensures Covered(n, requests)
  {
  }

  lemma AllocatePreserves(d: Disk, m: Memory, file: string)
    requires Inv(Running(d, m)) && file in DataFiles && NextId(m, file) < MaxInt64
    ensures Inv(Running(d, Allocate(m, file).0))
  {
    hide RecordId, LoadCounters, DataFiles, RecordsOf;
    var n := Allocate(m, file).0;
    forall f | f in DataFiles
      ensures f in n.nextIds && 0 < n.nextIds[f] <= MaxInt64 && Below(RecordsOf(d, f), n.nextIds[f])
    {
      assert Below(RecordsOf(d, f), m.nextIds[f]);
    }
  }

  lemma CompactPreserves(d: Disk, m: Memory, e: Event)
    requires e.Compacted? && Inv(Running(d, m)) && Representable(CutBefore(BytesOf(d, e.file), e.first))
    requires Representable(BytesOf(d, e.file))
    ensures Inv(CompactStep(d, m, e))
  {
    hide Inv, CutBefore, NoSpans, Contents, Persist, WithFile, Representable, AliveIf;
    var data := BytesOf(d, e.file);
    CutIsPart(data, e.first);
    DownIsSafe(d, m, e.alive);
    FileReducedAlive(d, m, e.file, CutBefore(data, e.first));
    DownIsSafe(WithFile(d, e.file, CutBefore(data, e.first)), m, e.alive);
    PersistSafe(d, m);
    var p := Persist(d, m);
    DownIsSafe(p.0, p.1, e.alive);
    FileReducedAlive(p.0, p.1, e.file, CutBefore(data, e.first));
    DownIsSafe(WithFile(p.0, e.file, CutBefore(data, e.first)), p.1, e.alive);
  }

  lemma CutIsPart(data: string, j: nat)
    requires Representable(data)
    ensures PartOf(Contents(CutBefore(data, j)), Contents(data))
  {
    hide Contents, CutBefore;
    var n := CutBeforeReads(data, j);
    assert forall r :: r in Contents(data)[n..] ==> r in Contents(data);
  }

  // ---------------------------------------------------------------- opening

  lemma {:induction false} MaxIdBounds(records: seq<Record>)
    ensures forall r :: r in records && r != [] ==> RecordId(r) <= MaxId(records)
    ensures Countable(records) ==> MaxId(records) < MaxInt64
    decreases |records|
  {
    hide RecordId;
    if records != [] {
      var rest, last := records[..|records| - 1], records[|records| - 1];
      assert forall r :: r in rest ==> r in records;
      MaxIdBounds(rest);
      assert last in records;
      forall r | r in records && r != []
        ensures RecordId(r) <= MaxId(records)
      {
        assert r in rest || r == last;
      }
    }
  }

  /** Preparing a file loses no record that can be read, wherever it stops. */
  lemma PrepareKeeps(d: Disk, file: string, cut: nat)
    requires Representable(BytesOf(d, file))
    ensures var t := Prepare(d, file, cut);
      && t.counters == d.counters && Representable(BytesOf(t, file))
      && (forall f :: RecordsOf(t, f) == RecordsOf(d, f)) && forall f :: f != file ==> BytesOf(t, f) == BytesOf(d, f)
  {
    hide Contents, Recovered;
    EmptyContents();
    HeaderAlone();
    if file in d.files {
      RecoveredReads(d.files[file]);
    } else if cut < |Header| {
      CutHeader(cut);
    }
  }

  lemma PreparePreserves(d: Disk, file: string, cut: nat)
    requires DiskSafe(d) && file in DataFiles
    ensures DiskSafe(Prepare(d, file, cut))
  {
    hide RecordId, LoadCounters, DataFiles, RecordsOf, Below, Countable, Prepare, BytesOf, Representable;
    assert Representable(BytesOf(d, file));
    PrepareKeeps(d, file, cut);
    var t := Prepare(d, file, cut);
    forall f | f in DataFiles
      ensures Representable(BytesOf(t, f))
    {
    }
  }

  lemma {:induction false} PrepareAllKeeps(d: Disk, files: seq<string>)
    requires DiskSafe(d) && forall f :: f in files ==> f in DataFiles
    ensures var t := PrepareAll(d, files);
      DiskSafe(t) && t.counters == d.counters && forall f :: RecordsOf(t, f) == RecordsOf(d, f)
    decreases |files|
  {
    hide DiskSafe, RecordsOf, Prepare, DataFiles, Representable, BytesOf;
    if files != [] {
      assert files[0] in files;
      assert Representable(BytesOf(d, files[0])) by { SafeFits(d, files[0]); }
      PrepareKeeps(d, files[0], |Header|);
      PreparePreserves(d, files[0], |Header|);
      PrepareAllKeeps(Prepare(d, files[0], |Header|), files[1..]);
    }
  }

  lemma SafeFits(d: Disk, file: string)
    requires DiskSafe(d) && file in DataFiles
    ensures Representable(BytesOf(d, file))
  {
  }

  lemma CountersOpen(d: Disk, persisted: bool)
    requires DiskSafe(d)
    ensures Inv(OpenCounters(d, persisted)) && OpenCounters(d, persisted).disk.files == d.files
  {
    hide RecordId, LoadLines, ToInt64, MaxId, CounterRecords, RecordsOf, BytesOf, AllReadable;
    var loaded := if d.counters.None? then None else LoadCounters(d.counters.value);
    if loaded.Some? {
      LoadedInRange(d.counters.value);
    } else {
      var m := Rescan(d);
      forall f | f in DataFiles
        ensures 0 < m.nextIds[f] <= MaxInt64 && Below(RecordsOf(d, f), m.nextIds[f])
      {
        MaxIdBounds(RecordsOf(d, f));
      }
      assert Inv(Running(d, m));
      PersistSafe(d, m);
    }
  }

  /** From any safe disk, opening establishes the whole invariant and loses no record that can be read. */
  lemma OpenEstablishes(d: Disk, persisted: bool)
    requires DiskSafe(d)
    ensures Inv(Open(d, persisted)) && forall f :: RecordsOf(Open(d, persisted).disk, f) == RecordsOf(d, f)
  {
    hide DiskSafe, Inv, OpenCounters, PrepareAll, Contents, DataFiles;
    PrepareAllKeeps(d, DataFiles);
    CountersOpen(PrepareAll(d, DataFiles), persisted);
  }

  lemma LoadedInRange(records: seq<Record>)
    requires LoadCounters(records).Some?
    ensures forall f :: f in DataFiles ==> 0 < LoadCounters(records).value[f] <= MaxInt64
  {
    hide ToInt64, DataFiles;
    LinesInRange(records, map[]);
  }

  lemma {:induction false} LinesInRange(records: seq<Record>, loaded: map<string, int>)
    requires LoadLines(records, loaded).Some? && forall f :: f in loaded ==> 0 < loaded[f] <= MaxInt64
    ensures forall f :: f in LoadLines(records, loaded).value ==> 0 < LoadLines(records, loaded).value[f] <= MaxInt64
    decreases |records|
  {
    hide ToInt64;
    if records != [] {
      var r := records[0];
      LinesInRange(records[1..], loaded[r[0] := ToInt64(r[1], -1)]);
    }
  }

  // ---------------------------------------------------------------- the main results

  lemma StepPreserves(s: Store, e: Event)
    requires Inv(s) && Admissible(s, e)
    ensures Inv(Next(s, e))
  {
    hide RecordId, LoadCounters, DataFiles, DiskSafe, Open, AppendStep, RewriteStep, CommitStep, CompactStep, Allocate;
    hide Countable, Tracked, Persisted, Below, AppendFits, RewritesFit, CutBefore, BytesOf, Prepare, Representable;
    if e.Reopened? {
      OpenEstablishes(s.disk, e.persisted);
    } else if s.Down? && e.Prepared? {
      PreparePreserves(s.disk, e.file, e.cut);
    } else if s.Running? {
      var d, m := s.disk, s.memory;
      match e
      case Allocated(file) => AllocatePreserves(d, m, file);
      case Appended(_, _, _, _, _) => AppendPreserves(d, m, e);
      case Rewritten(_, _, _, _) => RewriteStepPreserves(d, m, e);
      case Committed(_, _, _) => CommitPreserves(d, m, e);
      case Compacted(file, _, _, _, _) =>
        SafeFits(d, file);
        CompactPreserves(d, m, e);
      case _ =>
    }
  }

  /** ID safety over every run: whatever is appended, rewritten, committed, compacted, stopped and
      reopened, in any order and stopped after any byte, the invariant holds afterwards, as long as no
      append lands on a file that a read rejects and no caller brings the last ID. */
  lemma {:induction false} RunsAreSafe(s: Store, events: seq<Event>)
    requires Inv(s) && AllAdmissible(s, events)
    ensures Inv(After(s, events))
    decreases |events|
  {
    hide Inv, Next, Admissible;
    if events != [] {
      StepPreserves(s, events[0]);
      RunsAreSafe(Next(s, events[0]), events[1..]);
    }
  }

  /** So whenever the store is open after such a run, each counter exceeds every ID that can be read from
      its file, and the next allocated ID belongs to no record of it. */
  lemma AllocationIsFresh(s: Store, events: seq<Event>, file: string)
    requires Inv(s) && AllAdmissible(s, events) && After(s, events).Running? && file in DataFiles
    ensures var t := After(s, events);
      && (forall f :: f in DataFiles ==> f in t.memory.nextIds && Below(RecordsOf(t.disk, f), t.memory.nextIds[f]))
      && forall r :: r in RecordsOf(t.disk, file) && r != [] ==> RecordId(r) != Allocate(t.memory, file).1
  {
    hide RecordId, LoadCounters, DataFiles, RecordsOf, After, AllAdmissible;
    RunsAreSafe(s, events);
    var t := After(s, events);
    assert Below(RecordsOf(t.disk, file), t.memory.nextIds[file]);
    forall r | r in RecordsOf(t.disk, file) && r != []
      ensures RecordId(r) != Allocate(t.memory, file).1
    {
    }
  }

  /** An empty store directory is a safe start. */
  lemma EmptyIsSafe()
    ensures Inv(Down(Disk(map[], None)))
  {
    EmptyContents();
  }
}
