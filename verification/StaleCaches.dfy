/** Read caches filled while a save has failed half-way and its abort too (`native_session_store_cache.cpp`,
    `native_session_store.cpp`). The recovery that begins the next transaction puts files back without
    clearing the caches of tables it does not rewrite. */
module StaleCaches {
  import opened Options
  import opened RecordLog
  import opened RecordLogTheorems
  import opened StoreNames
  import opened FileActions
  import opened Transaction
  import TS = TransactionStates
  import TT = TransactionTheorems
  import CS = CommitSteps
  import opened FailedAborts
  import opened TableRows
  import opened StoreCaches

  /** The file of a table. */
  function FileOf(t: Table): string {
    match t
    case ScanSessions => "scan_sessions.svmr"
    case MatchRuns => "match_runs.svmr"
    case VerificationRuns => "rule_verification_runs.svmr"
    case ScanAttempts => "scan_attempts.svmr"
    case ScanObservations => "scan_observations.svmr"
    case MatchCandidates => "match_candidates.svmr"
    case VerificationResults => "rule_verification_results.svmr"
    case Uncached(name) => name
  }

  lemma FilesAreManaged(t: Table)
    requires t in Parents + Children
    ensures IsManaged(FileOf(t))
  {
    assert DataFiles[4] == FileOf(ScanSessions) && DataFiles[5] == FileOf(ScanAttempts);
    assert DataFiles[6] == FileOf(ScanObservations) && DataFiles[7] == FileOf(MatchRuns);
    assert DataFiles[8] == FileOf(MatchCandidates) && DataFiles[10] == FileOf(VerificationRuns);
    assert DataFiles[11] == FileOf(VerificationResults);
    assert FileOf(t) in DataFiles;
  }

  /** The cached tables as the readers find them in a directory. */
  function TablesOf(fs: Files): Disk {
    map t: Table | t in Parents + Children && Live(FileOf(t)) in fs :: fs[Live(FileOf(t))]
  }

  lemma TableFile(fs: Files, t: Table)
    requires t in Parents + Children
    ensures File(TablesOf(fs), t) == if Live(FileOf(t)) in fs then Some(fs[Live(FileOf(t))]) else None
  {
  }

  /** Every cache that is right in `s` is still right in `t`. */
  ghost predicate CachesLast(codec: Codec, s: Files, t: Files, table: Table) {
    forall cache :: Coherent(codec, TablesOf(s), table, cache) ==> Coherent(codec, TablesOf(t), table, cache)
  }

  lemma SameFileLasts(codec: Codec, s: Files, t: Files, table: Table)
    requires table in Parents + Children && SameAt(t, s, Live(FileOf(table)))
    ensures CachesLast(codec, s, t, table)
  {
    hide FileOf, FreshRows, FreshTable;
    TableFile(s, table);
    TableFile(t, table);
  }

  // ---------------------------------------------------------------- a cache that does not last

  const Something: seq<Record> := [["x"]]

  /** A valid cache of a table with these records, for the owner of the first of them. */
  function CacheOf(codec: Codec, table: Table, records: seq<Record>): Cache {
    Cache(true, codec.decode(table)(Something[0]).owner, Rows(codec.decode(table), records))
  }

  lemma OneRow(decode: Decoder)
    ensures Rows(decode, Something) == [decode(Something[0])] && Rows(decode, []) == []
    ensures Owned(Rows(decode, Something), decode(Something[0]).owner) == [decode(Something[0])]
    ensures forall owner :: Owned(Rows(decode, []), owner) == []
  {
    RowsOfOne(decode, Something[0]);
    OwnedOne(decode(Something[0]), decode(Something[0]).owner);
  }

  /** One reader finds something in the table and the other nothing. */
  lemma Disagree(codec: Codec, a: Disk, b: Disk, table: Table, x: seq<Record>, y: seq<Record>)
    requires (x == [] && y == Something) || (x == Something && y == [])
    requires Visit(File(a, table)) == Some(x) && Visit(File(b, table)) == Some(y)
    ensures Coherent(codec, a, table, CacheOf(codec, table, x))
    ensures !Coherent(codec, b, table, CacheOf(codec, table, x))
  {
    hide Visit, File, Rows, Owned, Something, RowBefore;
    var decode := codec.decode(table);
    OneRow(decode);
    assert Something != [] by { NotNothing(); }
    var row := decode(Something[0]);
    assert multiset([row]) != multiset([]) by { assert row in multiset([row]); }
  }

  lemma NotNothing()
    ensures Something != []
  {
  }

  lemma Reads(records: seq<Record>)
    requires records == [] || records == Something
    ensures Visit(Some(EncodeLog(records))) == Some(records) && Visit(None) == Some([])
  {
    LogsAreShort();
    hide EncodeLog, ReadStream;
    RoundTrip(records);
  }

  lemma LogsAreShort()
    ensures Representable(EncodeLog([])) && Representable(EncodeLog(Something))
  {
    assert EncodeFields(["x"]) == Decimal(1) + ":" + "x" + EncodeFields([]);
    assert EncodeRecords(Something) == EncodeRecord(["x"]) + EncodeRecords([]);
  }

  /** The same save, with contents that differ as far as they can in file `i`. */
  function Telling(tx: TS.Tx, i: nat): TS.Tx
    requires i < |tx.files| == |tx.contents|
  {
    var f := tx.files[i];
    if Live(f) in tx.before then
      TS.Tx(tx.before[Live(f) := EncodeLog(Something)], tx.files, tx.contents[i := EncodeLog([])])
    else TS.Tx(tx.before, tx.files, tx.contents[i := EncodeLog(Something)])
  }

  lemma TellingShape(tx: TS.Tx, i: nat)
    requires i < |tx.files| == |tx.contents|
    ensures SameShape(tx, Telling(tx, i))
  {
    hide EncodeLog;
    var f := tx.files[i];
    if Live(f) in tx.before {
      assert tx.before[Live(f) := EncodeLog(Something)].Keys == tx.before.Keys;
    }
  }

  /** With the old version out of place, a read of those contents caches what recovery then takes back. */
  lemma TellingTells(codec: Codec, tx: TS.Tx, fault: Fault, done: nat, table: Table, i: nat)
    requires tx.Valid() && Hits(fault, tx.Targets()) && table in Parents + Children
    requires i < |tx.files| && tx.files[i] == FileOf(table)
    requires !OldInPlace(tx.before, AtAbort(tx, fault, done), FileOf(table))
    ensures |tx.contents| == |tx.files| && SameShape(tx, Telling(tx, i))
    ensures var s := AtAbort(Telling(tx, i), fault, done); !CachesLast(codec, s, NextRecovery(s), table)
  {
    hide *;
    TT.SameLengths(tx);
    TellingShape(tx, i);
    var tell := Telling(tx, i);
    SameAtAbort(tx, tell, fault, done);
    SameLengthsOf(tx, tell);
    FilesAreManaged(table);
    InPlace(tell, fault, done, FileOf(table));
    var s := AtAbort(tell, fault, done);
    Told(codec, tx, i, table, s, NextRecovery(s));
  }

  lemma SameLengthsOf(a: TS.Tx, b: TS.Tx)
    requires SameShape(a, b)
    ensures |a.files| == |a.contents| == |b.files| == |b.contents| && a.files == b.files
  {
  }

  lemma Told(codec: Codec, tx: TS.Tx, i: nat, table: Table, s: Files, t: Files)
    requires i < |tx.files| == |tx.contents| && tx.files[i] == FileOf(table) && table in Parents + Children
    requires var tell := Telling(tx, i);
      && |tell.files| == |tell.contents| && tell.files == tx.files
      && SameAt(t, tell.before, Live(FileOf(table))) && TS.OnlyNew(tell, s, FileOf(table))
      && !OldInPlace(tell.before, s, FileOf(table))
    ensures !CachesLast(codec, s, t, table)
  {
    hide FileOf, EncodeLog, Visit, Coherent, CacheOf, TablesOf, File;
    TableFile(s, table);
    TableFile(t, table);
    Reads([]);
    Reads(Something);
    if Live(tx.files[i]) in tx.before {
      Disagree(codec, TablesOf(s), TablesOf(t), table, [], Something);
    } else {
      Disagree(codec, TablesOf(s), TablesOf(t), table, Something, []);
    }
  }

  // ---------------------------------------------------------------- the main result

  /** A cache filled after the failed abort lasts through the next recovery, whatever the files hold, if
      and only if the old version of its file is in place: the file had one and there is no backup, or it
      had none and is not there. */
  lemma CacheLastsExactly(codec: Codec, tx: TS.Tx, fault: Fault, done: nat, table: Table)
    requires tx.Valid() && Hits(fault, tx.Targets()) && table in Parents + Children
    ensures OldInPlace(tx.before, AtAbort(tx, fault, done), FileOf(table)) <==>
      forall other :: SameShape(tx, other) ==>
        CachesLast(codec, AtAbort(other, fault, done), NextRecovery(AtAbort(other, fault, done)), table)
  {
    hide *;
    TT.SameLengths(tx);
    FilesAreManaged(table);
    if OldInPlace(tx.before, AtAbort(tx, fault, done), FileOf(table)) {
      forall other | SameShape(tx, other)
        ensures |other.files| == |other.contents|
        ensures CachesLast(codec, AtAbort(other, fault, done), NextRecovery(AtAbort(other, fault, done)), table)
      {
        SameAtAbort(tx, other, fault, done);
        SameLengthsOf(tx, other);
        InPlace(other, fault, done, FileOf(table));
        var s := AtAbort(other, fault, done);
        SameBoth(other.before, s, NextRecovery(s), Live(FileOf(table)));
        SameFileLasts(codec, s, NextRecovery(s), table);
      }
    } else {
      InPlace(tx, fault, done, FileOf(table));
      var i := CS.ByIndex(tx, FileOf(table));
      TellingTells(codec, tx, fault, done, table, i);
    }
  }

  lemma SameBoth(a: Files, s: Files, t: Files, n: Name)
    requires SameAt(s, a, n) && SameAt(t, a, n)
    ensures SameAt(t, s, n)
  {
  }

  // ---------------------------------------------------------------- two runs

  /** A save of one table, from some records to others. */
  function SaveOf(table: Table, was: seq<Record>, comes: seq<Record>): TS.Tx {
    TS.Tx(map[Live(FileOf(table)) := EncodeLog(was)], [FileOf(table)], [EncodeLog(comes)])
  }

  lemma SaveIsValid(table: Table, was: seq<Record>, comes: seq<Record>)
    requires table in Parents + Children
    ensures SaveOf(table, was, comes).Valid()
  {
    FilesAreManaged(table);
    hide IsManaged, FileOf, EncodeLog;
    var tx := SaveOf(table, was, comes);
    assert tx.files == [FileOf(table)];
  }

  /** The rename of the new file fails, and so does the first step of the abort: a read caches the missing
      table as empty, and recovery brings its records back behind the cache. */
  lemma MissingIsCached(codec: Codec, table: Table)
    requires table in Parents + Children
    ensures var tx := SaveOf(table, Something, []);
      && tx.Valid() && |tx.contents| == |tx.files| && Hits(AtPlace(0), tx.Targets())
      && var s := Begun(tx, AtPlace(0));
        && Live(FileOf(table)) !in s
        && Coherent(codec, TablesOf(s), table, CacheOf(codec, table, []))
        && !Coherent(codec, TablesOf(NextRecovery(s)), table, CacheOf(codec, table, []))
  {
    hide *;
    var tx := SaveOf(table, Something, []);
    SaveIsValid(table, Something, []);
    OneTarget(table, Something, []);
    AbortBegins(tx, AtPlace(0));
    var s := Begun(tx, AtPlace(0));
    NothingPlaced(tx, s);
    Restored(tx, AtPlace(0), table);
    Reads([]);
    Reads(Something);
    TableFile(s, table);
    TableFile(NextRecovery(s), table);
    Disagree(codec, TablesOf(s), TablesOf(NextRecovery(s)), table, [], Something);
  }

  /** The rename of the marker fails, and so does the first step of the abort: a read caches the records of
      the save that was refused, and recovery takes them back behind the cache. */
  lemma RefusedIsCached(codec: Codec, table: Table)
    requires table in Parents + Children
    ensures var tx := SaveOf(table, [], Something);
      && tx.Valid() && |tx.contents| == |tx.files| && Hits(AtMarker, tx.Targets())
      && var s := Begun(tx, AtMarker);
        && Live(FileOf(table)) in s && s[Live(FileOf(table))] == EncodeLog(Something)
        && Coherent(codec, TablesOf(s), table, CacheOf(codec, table, Something))
        && !Coherent(codec, TablesOf(NextRecovery(s)), table, CacheOf(codec, table, Something))
  {
    hide *;
    var tx := SaveOf(table, [], Something);
    SaveIsValid(table, [], Something);
    OneTarget(table, [], Something);
    AbortBegins(tx, AtMarker);
    var s := Begun(tx, AtMarker);
    AllInPlace(tx, s);
    Restored(tx, AtMarker, table);
    Reads([]);
    Reads(Something);
    TableFile(s, table);
    TableFile(NextRecovery(s), table);
    Disagree(codec, TablesOf(s), TablesOf(NextRecovery(s)), table, Something, []);
  }

  lemma OneTarget(table: Table, was: seq<Record>, comes: seq<Record>)
    ensures var tx := SaveOf(table, was, comes);
      && tx.files == [FileOf(table)] && tx.contents == [EncodeLog(comes)]
      && Live(FileOf(table)) in tx.before && tx.before[Live(FileOf(table))] == EncodeLog(was)
      && Hits(AtPlace(0), tx.Targets()) && Hits(AtMarker, tx.Targets())
  {
    hide FileOf, EncodeLog;
  }

  lemma NothingPlaced(tx: TS.Tx, s: Files)
    requires tx.Valid() && Hits(AtPlace(0), tx.Targets()) && TT.Reached(tx, AtPlace(0), s)
    ensures Live(tx.files[0]) !in s
  {
  }

  lemma AllInPlace(tx: TS.Tx, s: Files)
    requires tx.Valid() && Hits(AtMarker, tx.Targets()) && TT.Reached(tx, AtMarker, s)
    ensures Live(tx.files[0]) in s && s[Live(tx.files[0])] == tx.contents[0]
  {
    assert TS.IsNew(tx, s, 0);
  }

  lemma Restored(tx: TS.Tx, fault: Fault, table: Table)
    requires tx.Valid() && |tx.contents| == |tx.files| && Hits(fault, tx.Targets()) && table in Parents + Children
    requires Live(FileOf(table)) in tx.before
    ensures var t := NextRecovery(Begun(tx, fault));
      Live(FileOf(table)) in t && t[Live(FileOf(table))] == tx.before[Live(FileOf(table))]
  {
    hide *;
    FilesAreManaged(table);
    BegunIs(tx, fault);
    InPlace(tx, fault, UntilAbort(tx, fault), FileOf(table));
    AtSame(NextRecovery(Begun(tx, fault)), tx.before, Live(FileOf(table)));
  }

  lemma AtSame(s: Files, t: Files, n: Name)
    requires SameAt(s, t, n) && n in t
    ensures n in s && s[n] == t[n]
  {
  }
}
