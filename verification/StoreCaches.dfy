/** The read caches of the session store (`native_session_store_cache.cpp`) and the transactional save of
    a scan execution (`native_session_store.cpp`). */
module StoreCaches {
  import opened Options
  import opened RecordLog
  import opened RecordLogTheorems
  import opened TableRows

  datatype Table =
    | ScanSessions | MatchRuns | VerificationRuns
    | ScanAttempts | ScanObservations | MatchCandidates | VerificationResults
    | Uncached(name: string)

  /** Tables whose rows are cached as a whole, in file order. */
  const Parents: set<Table> := {ScanSessions, MatchRuns, VerificationRuns}

  /** Tables of which the rows of one owner are cached, sorted. */
  const Children: set<Table> := {ScanAttempts, ScanObservations, MatchCandidates, VerificationResults}

  datatype Cache = Cache(valid: bool, key: string, rows: seq<Row>)

  datatype Codec = Codec(decode: Table -> Decoder, encode: Table -> (Row -> Record))

  type Disk = map<Table, string>

  function File(disk: Disk, t: Table): Option<string> {
    if t in disk then Some(disk[t]) else None
  }

  // ---------------------------------------------------------------- coherence

  /** What a fresh read of one owner's rows gives: those rows of the file, sorted. */
  ghost predicate FreshRows(decode: Decoder, file: Option<string>, owner: string, rows: seq<Row>) {
    && Visit(file).Some?
    && multiset(rows) == multiset(Owned(Rows(decode, Visit(file).value), owner))
    && InOrder(rows)
  }

  ghost predicate FreshTable(decode: Decoder, file: Option<string>, rows: seq<Row>) {
    Visit(file).Some? && rows == Rows(decode, Visit(file).value)
  }

  /** A cache marked valid holds what a fresh read of the current file would give for its key. */
  ghost predicate Coherent(codec: Codec, disk: Disk, t: Table, cache: Cache) {
    cache.valid ==>
      if t in Parents then FreshTable(codec.decode(t), File(disk, t), cache.rows)
      else FreshRows(codec.decode(t), File(disk, t), cache.key, cache.rows)
  }

  /** The rows of a table, none if it cannot be read. */
  function TableRowsOf(codec: Codec, disk: Disk, t: Table): seq<Row> {
    var records := Visit(File(disk, t));
    if records.Some? then Rows(codec.decode(t), records.value) else []
  }

  /** The table has a row of that owner. */
  ghost predicate Listed(codec: Codec, disk: Disk, t: Table, owner: string) {
    exists i :: 0 <= i < |TableRowsOf(codec, disk, t)| && TableRowsOf(codec, disk, t)[i].owner == owner
  }

  /** The caches that `invalidateCachesForFile` clears for a file. */
  function Touched(t: Table): (touched: set<Table>)
    ensures touched <= Parents + Children
    ensures t in Parents + Children ==> t in touched
  {
    match t
    case ScanSessions => {ScanSessions, ScanAttempts, ScanObservations}
    case MatchRuns => {MatchRuns, MatchCandidates}
    case VerificationRuns => {VerificationRuns, VerificationResults}
    case ScanAttempts => {ScanAttempts}
    case ScanObservations => {ScanObservations}
    case MatchCandidates => {MatchCandidates}
    case VerificationResults => {VerificationResults}
    case Uncached(_) => {}
  }

  /** One rewrite of a transaction: an owner's records in a table give way to new ones. */
  datatype Request = Request(table: Table, owner: string, added: seq<Record>)

  function NewContents(codec: Codec, disk: Disk, r: Request): Option<string> {
    var records := Visit(File(disk, r.table));
    if records.None? then None
    else Some(EncodeLog(Rewritten(codec.decode(r.table), records.value, r.owner, r.added)))
  }

  /** The files after the first `n` requests of a transaction on `base` were put in place. */
  function Replaced(codec: Codec, base: Disk, requests: seq<Request>, n: nat): Disk
    requires n <= |requests|
    requires forall i :: 0 <= i < n ==> NewContents(codec, base, requests[i]).Some?
  {
    if n == 0 then base
    else
      Replaced(codec, base, requests, n - 1)[requests[n - 1].table := NewContents(codec, base, requests[n - 1]).value]
  }

  ghost predicate DistinctTables(requests: seq<Request>) {
    forall i, j :: 0 <= i < j < |requests| ==> requests[i].table != requests[j].table
  }

  predicate Readable(codec: Codec, disk: Disk, requests: seq<Request>) {
    forall i :: 0 <= i < |requests| ==> NewContents(codec, disk, requests[i]).Some?
  }

  /** A transaction gives each of its tables its own new contents and leaves every other file alone. */
  lemma {:induction false} ReplacedFiles(codec: Codec, base: Disk, requests: seq<Request>, n: nat, t: Table)
    requires n <= |requests| && DistinctTables(requests)
    requires forall i :: 0 <= i < n ==> NewContents(codec, base, requests[i]).Some?
    ensures (forall i :: 0 <= i < n ==> requests[i].table != t) ==>
      File(Replaced(codec, base, requests, n), t) == File(base, t)
    ensures forall i :: 0 <= i < n && requests[i].table == t ==>
      File(Replaced(codec, base, requests, n), t) == NewContents(codec, base, requests[i])
  {
    hide NewContents;
    if n > 0 {
      ReplacedFiles(codec, base, requests, n - 1, t);
    }
  }

  // ---------------------------------------------------------------- what a save means to readers

  /** Decoding these rows, once encoded, gives them back. */
  ghost predicate Faithful(codec: Codec, t: Table, rows: seq<Row>) {
    forall i :: 0 <= i < |rows| ==> codec.decode(t)(codec.encode(t)(rows[i])) == rows[i]
  }

  function Encoded(codec: Codec, t: Table, rows: seq<Row>): seq<Record> {
    if rows == [] then [] else Encoded(codec, t, rows[..|rows| - 1]) + [codec.encode(t)(rows[|rows| - 1])]
  }

  lemma {:induction false} EncodedRows(codec: Codec, t: Table, rows: seq<Row>)
    requires Faithful(codec, t, rows)
    ensures Rows(codec.decode(t), Encoded(codec, t, rows)) == rows
  {
    if rows != [] {
      var shorter, last := rows[..|rows| - 1], rows[|rows| - 1];
      EncodedRows(codec, t, shorter);
      RowsJoin(codec.decode(t), Encoded(codec, t, shorter), [codec.encode(t)(last)]);
      RowsOfOne(codec.decode(t), codec.encode(t)(last));
      assert rows == shorter + [last];
    }
  }

  /** After a save put its new contents in place, the table reads back as what was kept and what was
      added. The owner's rows are then exactly the saved ones, and everyone else's are unchanged, if and
      only if every saved row names that owner. */
  lemma SavedRowsRead(codec: Codec, base: Disk, t: Table, owner: string, rows: seq<Row>)
    requires Faithful(codec, t, rows) && Visit(File(base, t)).Some?
    requires Representable(NewContents(codec, base, Request(t, owner, Encoded(codec, t, rows))).value)
    ensures var after := Visit(NewContents(codec, base, Request(t, owner, Encoded(codec, t, rows))));
      && after.Some?
      && (AllOwnedBy(rows, owner) <==>
            Owned(Rows(codec.decode(t), after.value), owner) == rows
            && OthersKeep(codec.decode(t), Visit(File(base, t)).value, after.value, owner))
  {
    hide Rows, Owned, Rewritten, Encoded, ReadStream, EncodeLog, Representable, OthersKeep;
    var records := Visit(File(base, t)).value;
    var added := Encoded(codec, t, rows);
    EncodedRows(codec, t, rows);
    RoundTrip(Rewritten(codec.decode(t), records, owner, added));
    SaveIsExact(codec.decode(t), records, owner, added);
  }

  // ---------------------------------------------------------------- the store

  class SessionStoreReader {
    const codec: Codec
    var disk: Disk
    var caches: map<Table, Cache>

    ghost predicate Valid()
      reads this
    {
      && caches.Keys == Parents + Children
      && forall t :: t in Parents + Children ==> Coherent(codec, disk, t, caches[t])
    }

    /** `open`: every cache starts invalid. */
    constructor (codec: Codec, disk: Disk)
      ensures Valid() && this.codec == codec && this.disk == disk
    {
      this.codec, this.disk := codec, disk;
      caches := map t | t in Parents + Children :: Cache(false, "", []);
    }

    method InvalidateCachesForFile(t: Table)
      requires Valid()
      modifies `caches
      ensures Valid()
      ensures forall u :: u in Touched(t) ==> caches[u] == old(caches)[u].(valid := false, rows := [])
      ensures forall u :: u in (Parents + Children) - Touched(t) ==> caches[u] == old(caches)[u]
    {
      hide FreshRows, FreshTable;
      caches := map u | u in Parents + Children ::
        if u in Touched(t) then caches[u].(valid := false, rows := []) else caches[u];
    }

    /** The readers of whole tables, such as `cachedScanSessions`. */
    method CachedTable(t: Table) returns (rows: seq<Row>)
      requires Valid() && t in Parents
      modifies `caches
      ensures Valid()
      ensures if Visit(File(disk, t)).Some? then FreshTable(codec.decode(t), File(disk, t), rows) else rows == []
    {
      hide Visit, Rows, FreshRows;
      if caches[t].valid {
        return caches[t].rows;
      }
      var records := Visit(File(disk, t));
      if records.None? {
        SetCache(t, Cache(false, caches[t].key, []));
        return [];
      }
      rows := DecodeRows(codec.decode(t), records.value);
      SetCache(t, Cache(true, caches[t].key, rows));
    }

    method SetCache(t: Table, cache: Cache)
      requires Valid() && t in Parents + Children && Coherent(codec, disk, t, cache)
      modifies `caches
      ensures Valid() && caches == old(caches)[t := cache]
    {
      hide Coherent;
      caches := caches[t := cache];
    }

    /** The readers of one owner's rows, such as `cachedScanAttempts`. */
    method CachedRows(t: Table, owner: string) returns (rows: seq<Row>)
      requires Valid() && t in Children
      modifies `caches
      ensures Valid()
      ensures if Visit(File(disk, t)).Some? then FreshRows(codec.decode(t), File(disk, t), owner, rows) else rows == []
    {
      hide Visit, Rows, Owned, InOrder;
      if caches[t].valid && caches[t].key == owner {
        return caches[t].rows;
      }
      var records := Visit(File(disk, t));
      if records.None? {
        SetCache(t, Cache(false, owner, []));
        return [];
      }
      var found := OwnedRows(codec.decode(t), records.value, owner);
      rows := SortRows(found);
      SetCache(t, Cache(true, owner, rows));
    }

    /** `scanSession`, reduced to whether there is one. */
    method HasScanSession(sessionId: string) returns (found: bool)
      requires Valid()
      modifies `caches
      ensures Valid()
      ensures found <==> SessionExists(sessionId)
    {
      hide Visit, Rows, Coherent;
      var sessions := CachedTable(ScanSessions);
      assert sessions == SessionRows();
      found := false;
      for i := 0 to |sessions|
        invariant forall k :: 0 <= k < i ==> sessions[k].owner != sessionId
      {
        if sessions[i].owner == sessionId {
          assert SessionRows()[i].owner == sessionId;
          return true;
        }
      }
    }

    ghost function SessionRows(): seq<Row>
      reads this
    {
      TableRowsOf(codec, disk, ScanSessions)
    }

    ghost predicate SessionExists(sessionId: string)
      reads this
    {
      Listed(codec, disk, ScanSessions, sessionId)
    }

    /** `scanAttempts` and `scanObservations`. */
    method RowsOfSession(t: Table, sessionId: string) returns (rows: seq<Row>)
      requires Valid() && (t == ScanAttempts || t == ScanObservations)
      modifies `caches
      ensures Valid()
      ensures if sessionId != "" && SessionExists(sessionId) && Visit(File(disk, t)).Some? then
          FreshRows(codec.decode(t), File(disk, t), sessionId, rows)
        else rows == []
    {
      hide FreshRows, Coherent, Visit, Listed;
      if sessionId == "" {
        return [];
      }
      var found := HasScanSession(sessionId);
      if !found {
        return [];
      }
      rows := CachedRows(t, sessionId);
    }

    /** `rewriteRecordsFilteredTransaction`: all the files are replaced, or none; `committed` is the
        outcome of `commitReplacementTargets`. */
    method RewriteTransaction(requests: seq<Request>, committed: bool) returns (ok: bool)
      requires Valid() && DistinctTables(requests)
      modifies this
      ensures Valid()
      ensures ok <==> requests == [] || (Readable(codec, old(disk), requests) && committed)
      ensures !ok ==> disk == old(disk)
      ensures ok ==> Readable(codec, old(disk), requests) && disk == Replaced(codec, old(disk), requests, |requests|)
    {
      hide NewContents;
      if requests == [] {
        return true;
      }
      InvalidateAll(requests);
      ghost var base := disk;
      var temps: seq<string> := [];
      for n := 0 to |requests|
        invariant |temps| == n && disk == base && Valid()
        invariant forall i :: 0 <= i < n ==> NewContents(codec, base, requests[i]) == Some(temps[i])
        invariant forall i :: 0 <= i < |requests| ==> AllInvalid(requests[i].table)
      {
        var contents := NewContents(codec, disk, requests[n]);
        if contents.None? {
          return false;
        }
        temps := temps + [contents.value];
      }
      if !committed {
        return false;
      }
      PutInPlace(requests, temps);
      InvalidateAll(requests);
      ok := true;
    }

    ghost predicate AllInvalid(t: Table)
      reads this
      requires caches.Keys == Parents + Children
    {
      forall u :: u in Touched(t) ==> !caches[u].valid
    }

    method InvalidateAll(requests: seq<Request>)
      requires Valid()
      modifies `caches
      ensures Valid()
      ensures forall i :: 0 <= i < |requests| ==> AllInvalid(requests[i].table)
    {
      hide Coherent, Touched;
      for n := 0 to |requests|
        invariant Valid()
        invariant forall i :: 0 <= i < n ==> AllInvalid(requests[i].table)
      {
        InvalidateCachesForFile(requests[n].table);
      }
    }

    /** The committed targets, one file after the other; their caches are invalid already. */
    method PutInPlace(requests: seq<Request>, temps: seq<string>)
      requires Valid() && |temps| == |requests|
      requires forall i :: 0 <= i < |requests| ==> NewContents(codec, disk, requests[i]) == Some(temps[i])
      requires forall i :: 0 <= i < |requests| ==> AllInvalid(requests[i].table)
      modifies `disk
      ensures Valid()
      ensures Readable(codec, old(disk), requests) && disk == Replaced(codec, old(disk), requests, |requests|)
    {
      hide NewContents, FreshRows, FreshTable;
      ghost var base := disk;
      for n := 0 to |requests|
        invariant Valid() && disk == Replaced(codec, base, requests, n)
      {
        disk := disk[requests[n].table := temps[n]];
      }
    }

    /** `saveScanExecution`; `firstAttemptId` and `firstObservationId` are the next IDs of the two tables. */
    method SaveScanExecution(session: Row, attempts: seq<Row>, observations: seq<Row>,
                             firstAttemptId: int, firstObservationId: int, committed: bool)
      returns (ok: bool, ghost savedAttempts: seq<Row>, ghost savedObservations: seq<Row>)
      requires Valid()
      modifies this
      ensures Valid()
      ensures Filled(attempts, savedAttempts, session.owner, firstAttemptId)
      ensures Filled(observations, savedObservations, session.owner, firstObservationId)
      ensures !ok ==> disk == old(disk)
      ensures ok <==> session.owner != "" && ScanTablesReadable(old(disk)) && committed
      ensures ok ==> Saves(old(disk), disk, codec, session.owner, [session], savedAttempts, savedObservations)
    {
      hide NewContents, Coherent, Encoded, Saves, Readable, Replaced;
      var newAttempts := FillRows(attempts, session.owner, firstAttemptId);
      var newObservations := FillRows(observations, session.owner, firstObservationId);
      savedAttempts, savedObservations := newAttempts, newObservations;
      if session.owner == "" {
        return false, savedAttempts, savedObservations;
      }
      var sessionRecords := EncodeRows(codec, ScanSessions, [session]);
      var attemptRecords := EncodeRows(codec, ScanAttempts, newAttempts);
      var observationRecords := EncodeRows(codec, ScanObservations, newObservations);
      var requests := [Request(ScanSessions, session.owner, sessionRecords),
                       Request(ScanAttempts, session.owner, attemptRecords),
                       Request(ScanObservations, session.owner, observationRecords)];
      ghost var base := disk;
      ok := RewriteTransaction(requests, committed);
      ReadableTables(codec, base, requests);
      if ok {
        ScanTablesSaved(codec, base, disk, requests, session.owner, [session], savedAttempts, savedObservations);
      }
    }
  }

  // ---------------------------------------------------------------- loops of the readers and savers

  /** The visitor that decodes every record. */
  method DecodeRows(decode: Decoder, records: seq<Record>) returns (rows: seq<Row>)
    ensures rows == Rows(decode, records)
  {
    rows := [];
    for n := 0 to |records|
      invariant rows == Rows(decode, records[..n])
    {
      assert records[..n + 1][..n] == records[..n];
      rows := rows + [decode(records[n])];
    }
    assert records[..|records|] == records;
  }

  /** The visitor that decodes every record and keeps one owner's. */
  method OwnedRows(decode: Decoder, records: seq<Record>, owner: string) returns (rows: seq<Row>)
    ensures rows == Owned(Rows(decode, records), owner)
  {
    rows := [];
    for n := 0 to |records|
      invariant rows == Owned(Rows(decode, records[..n]), owner)
    {
      assert records[..n + 1][..n] == records[..n];
      var row := decode(records[n]);
      OwnedJoin(Rows(decode, records[..n]), [row], owner);
      OwnedOne(row, owner);
      if row.owner == owner {
        rows := rows + [row];
      }
    }
    assert records[..|records|] == records;
  }

  method EncodeRows(codec: Codec, t: Table, rows: seq<Row>) returns (records: seq<Record>)
    ensures records == Encoded(codec, t, rows)
  {
    records := [];
    for n := 0 to |rows|
      invariant records == Encoded(codec, t, rows[..n])
    {
      assert rows[..n + 1][..n] == rows[..n];
      records := records + [codec.encode(t)(rows[n])];
    }
    assert rows[..|rows|] == rows;
  }

  function Missing(rows: seq<Row>): nat {
    if rows == [] then 0 else Missing(rows[..|rows| - 1]) + if rows[|rows| - 1].id <= 0 then 1 else 0
  }

  /** A row without an owner gets the session's; one without an ID gets the next, in order. */
  function FilledRow(rows: seq<Row>, i: nat, owner: string, firstId: int): Row
    requires i < |rows|
  {
    rows[i].(owner := if rows[i].owner == "" then owner else rows[i].owner,
             id := if rows[i].id <= 0 then firstId + Missing(rows[..i]) else rows[i].id)
  }

  ghost predicate Filled(rows: seq<Row>, saved: seq<Row>, owner: string, firstId: int) {
    |saved| == |rows| && forall i :: 0 <= i < |rows| ==> saved[i] == FilledRow(rows, i, owner, firstId)
  }

  /** Every saved row names the session exactly when each row named it or nobody. */
  lemma FilledOwners(rows: seq<Row>, saved: seq<Row>, owner: string, firstId: int)
    requires Filled(rows, saved, owner, firstId)
    ensures AllOwnedBy(saved, owner) <==> forall i :: 0 <= i < |rows| ==> rows[i].owner == "" || rows[i].owner == owner
  {
    hide Missing;
    if AllOwnedBy(saved, owner) {
      forall i | 0 <= i < |rows|
        ensures rows[i].owner == "" || rows[i].owner == owner
      {
        assert saved[i] == FilledRow(rows, i, owner, firstId);
      }
    }
  }

  /** The rows that have an ID keep it; the first row without one gets `firstId`, and each later one the
      next after that of the one before it. Nothing but owners and IDs is filled in. */
  lemma FilledIds(rows: seq<Row>, saved: seq<Row>, owner: string, firstId: int, i: nat)
    requires Filled(rows, saved, owner, firstId) && i < |rows|
    ensures saved[i].rank == rows[i].rank && saved[i].rest == rows[i].rest
    ensures rows[i].id > 0 ==> saved[i].id == rows[i].id
    ensures rows[i].id <= 0 && NoneMissing(rows, 0, i) ==> saved[i].id == firstId
    ensures forall j :: 0 <= j < i && rows[j].id <= 0 && rows[i].id <= 0 && NoneMissing(rows, j + 1, i) ==>
      saved[i].id == saved[j].id + 1
  {
    hide Missing;
    assert saved[i] == FilledRow(rows, i, owner, firstId);
    if NoneMissing(rows, 0, i) {
      MissingBetween(rows, 0, i);
      NothingMissing(rows[..0]);
    }
    forall j | 0 <= j < i && rows[j].id <= 0 && rows[i].id <= 0 && NoneMissing(rows, j + 1, i)
      ensures saved[i].id == saved[j].id + 1
    {
      assert saved[j] == FilledRow(rows, j, owner, firstId);
      MissingBetween(rows, j + 1, i);
      OneMoreMissing(rows, j);
    }
  }

  /** The rows from number `from` up to `end` have IDs. */
  ghost predicate NoneMissing(rows: seq<Row>, from: nat, end: nat) {
    forall k :: from <= k < end && k < |rows| ==> rows[k].id > 0
  }

  lemma NothingMissing(rows: seq<Row>)
    requires rows == []
    ensures Missing(rows) == 0
  {
  }

  lemma OneMoreMissing(rows: seq<Row>, n: nat)
    requires n < |rows|
    ensures Missing(rows[..n + 1]) == Missing(rows[..n]) + if rows[n].id <= 0 then 1 else 0
  {
    assert rows[..n + 1][..n] == rows[..n];
  }

  lemma {:induction false} MissingBetween(rows: seq<Row>, from: nat, end: nat)
    requires from <= end <= |rows| && NoneMissing(rows, from, end)
    ensures Missing(rows[..end]) == Missing(rows[..from])
    decreases end
  {
    hide Missing;
    if from < end {
      MissingBetween(rows, from, end - 1);
      OneMoreMissing(rows, end - 1);
    }
  }

  method FillRows(rows: seq<Row>, owner: string, firstId: int) returns (saved: seq<Row>)
    ensures Filled(rows, saved, owner, firstId)
  {
    saved := [];
    var nextId := firstId;
    for n := 0 to |rows|
      invariant |saved| == n && nextId == firstId + Missing(rows[..n])
      invariant forall i :: 0 <= i < n ==> saved[i] == FilledRow(rows, i, owner, firstId)
    {
      assert rows[..n + 1][..n] == rows[..n];
      var row := rows[n];
      if row.owner == "" {
        row := row.(owner := owner);
      }
      if row.id <= 0 {
        row := row.(id := nextId);
        nextId := nextId + 1;
      }
      saved := saved + [row];
    }
  }

  /** The file of a table after a scan execution was saved. */
  function SavedFile(base: Disk, codec: Codec, owner: string, sessions: seq<Row>, attempts: seq<Row>,
                     observations: seq<Row>, t: Table): Option<string>
  {
    match t
    case ScanSessions => NewContents(codec, base, Request(t, owner, Encoded(codec, t, sessions)))
    case ScanAttempts => NewContents(codec, base, Request(t, owner, Encoded(codec, t, attempts)))
    case ScanObservations => NewContents(codec, base, Request(t, owner, Encoded(codec, t, observations)))
    case _ => File(base, t)
  }

  lemma ReadableTables(codec: Codec, base: Disk, requests: seq<Request>)
    requires |requests| == 3
    requires requests[0].table == ScanSessions && requests[1].table == ScanAttempts
    requires requests[2].table == ScanObservations
    ensures Readable(codec, base, requests) <==> ScanTablesReadable(base)
  {
    hide Visit, NewContents;
    ContentsWhenReadable(codec, base, requests[0]);
    ContentsWhenReadable(codec, base, requests[1]);
    ContentsWhenReadable(codec, base, requests[2]);
  }

  lemma ContentsWhenReadable(codec: Codec, base: Disk, r: Request)
    ensures NewContents(codec, base, r).Some? <==> Visit(File(base, r.table)).Some?
  {
    hide Visit;
  }

  predicate ScanTablesReadable(disk: Disk) {
    && Visit(File(disk, ScanSessions)).Some?
    && Visit(File(disk, ScanAttempts)).Some?
    && Visit(File(disk, ScanObservations)).Some?
  }

  ghost predicate Saves(base: Disk, disk: Disk, codec: Codec, owner: string, sessions: seq<Row>, attempts: seq<Row>,
                        observations: seq<Row>) {
    forall t :: File(disk, t) == SavedFile(base, codec, owner, sessions, attempts, observations, t)
  }

  lemma ScanTablesSaved(codec: Codec, base: Disk, disk: Disk, requests: seq<Request>, owner: string,
      sessions: seq<Row>, attempts: seq<Row>, observations: seq<Row>)
    requires |requests| == 3 && Readable(codec, base, requests) && disk == Replaced(codec, base, requests, 3)
    requires requests[0] == Request(ScanSessions, owner, Encoded(codec, ScanSessions, sessions))
    requires requests[1] == Request(ScanAttempts, owner, Encoded(codec, ScanAttempts, attempts))
    requires requests[2] == Request(ScanObservations, owner, Encoded(codec, ScanObservations, observations))
    ensures Saves(base, disk, codec, owner, sessions, attempts, observations)
  {
    hide NewContents, Encoded, Replaced;
    forall t
      ensures File(disk, t) == SavedFile(base, codec, owner, sessions, attempts, observations, t)
    {
      ReplacedFiles(codec, base, requests, 3, t);
      assert requests[0].table == ScanSessions && requests[1].table == ScanAttempts
        && requests[2].table == ScanObservations;
    }
  }
}
