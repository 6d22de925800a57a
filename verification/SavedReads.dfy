/** What readers see after a scan execution was saved (`native_session_store.cpp`,
    `native_session_store_cache.cpp`). */
module SavedReads {
  import opened RecordLog
  import opened TableRows
  import opened StoreCaches

  /** One table of a save, as the stream reader finds it. */
  lemma TableSaved(codec: Codec, base: Disk, disk: Disk, t: Table, owner: string, rows: seq<Row>)
    requires Faithful(codec, t, rows) && Visit(File(base, t)).Some? && AllOwnedBy(rows, owner)
    requires File(disk, t) == NewContents(codec, base, Request(t, owner, Encoded(codec, t, rows)))
    requires Representable(File(disk, t).value)
    ensures Visit(File(disk, t)).Some?
    ensures Owned(Rows(codec.decode(t), Visit(File(disk, t)).value), owner) == rows
    ensures OthersKeep(codec.decode(t), Visit(File(base, t)).value, Visit(File(disk, t)).value, owner)
  {
    hide Rows, Owned, Encoded, Visit, OthersKeep, AllOwnedBy, Representable;
    SavedRowsRead(codec, base, t, owner, rows);
  }

  /** A fresh read of the owner gives the saved rows in order, of anyone else what it gave before. */
  lemma FreshAfter(codec: Codec, base: Disk, disk: Disk, t: Table, owner: string, rows: seq<Row>, found: seq<Row>)
    requires Visit(File(base, t)).Some? && Visit(File(disk, t)).Some?
    requires Owned(Rows(codec.decode(t), Visit(File(disk, t)).value), owner) == rows
    requires OthersKeep(codec.decode(t), Visit(File(base, t)).value, Visit(File(disk, t)).value, owner)
    ensures FreshRows(codec.decode(t), File(disk, t), owner, found) <==>
      multiset(found) == multiset(rows) && InOrder(found)
    ensures forall other :: other != owner ==>
      (FreshRows(codec.decode(t), File(disk, t), other, found) <==>
        FreshRows(codec.decode(t), File(base, t), other, found))
  {
    hide Rows, Owned, Visit, InOrder;
  }

  lemma {:induction false} OwnedIsThere(rows: seq<Row>, owner: string)
    ensures Owned(rows, owner) != [] <==> exists i :: 0 <= i < |rows| && rows[i].owner == owner
  {
    if rows != [] {
      var shorter := rows[..|rows| - 1];
      OwnedIsThere(shorter, owner);
      if i :| 0 <= i < |rows| && rows[i].owner == owner {
        assert i < |shorter| ==> shorter[i].owner == owner;
      }
      if Owned(rows, owner) != [] && Owned(shorter, owner) != [] {
        var i :| 0 <= i < |shorter| && shorter[i].owner == owner;
        assert rows[i].owner == owner;
      }
    }
  }

  lemma ListedIsOwned(codec: Codec, disk: Disk, t: Table, owner: string)
    requires Visit(File(disk, t)).Some?
    ensures Listed(codec, disk, t, owner) <==> Owned(Rows(codec.decode(t), Visit(File(disk, t)).value), owner) != []
  {
    hide Rows, Owned, Visit;
    OwnedIsThere(TableRowsOf(codec, disk, t), owner);
  }

  /** The codec gives back each row of this save. */
  ghost predicate SaveIsFaithful(codec: Codec, session: Row, attempts: seq<Row>, observations: seq<Row>) {
    && Faithful(codec, ScanSessions, [session])
    && Faithful(codec, ScanAttempts, attempts)
    && Faithful(codec, ScanObservations, observations)
  }

  /** The three files that a save writes stay below the largest stream offset. */
  ghost predicate ScanTablesFit(disk: Disk) {
    forall t :: t in {ScanSessions, ScanAttempts, ScanObservations} && File(disk, t).Some? ==>
      Representable(File(disk, t).value)
  }

  /** What the readers give for this session after the save, and for the others. */
  ghost predicate ReadsAsSaved(codec: Codec, base: Disk, disk: Disk, t: Table, owner: string, rows: seq<Row>) {
    && Visit(File(disk, t)).Some?
    && (forall found ::
          FreshRows(codec.decode(t), File(disk, t), owner, found) <==>
            multiset(found) == multiset(rows) && InOrder(found))
    && forall other, found :: other != owner ==>
         (FreshRows(codec.decode(t), File(disk, t), other, found) <==>
           FreshRows(codec.decode(t), File(base, t), other, found))
  }

  lemma TableReads(codec: Codec, base: Disk, disk: Disk, t: Table, owner: string, rows: seq<Row>)
    requires Faithful(codec, t, rows) && Visit(File(base, t)).Some? && AllOwnedBy(rows, owner)
    requires File(disk, t) == NewContents(codec, base, Request(t, owner, Encoded(codec, t, rows)))
    requires Representable(File(disk, t).value)
    ensures ReadsAsSaved(codec, base, disk, t, owner, rows)
    ensures forall other :: other != owner ==> (Listed(codec, disk, t, other) <==> Listed(codec, base, t, other))
    ensures rows != [] ==> Listed(codec, disk, t, owner)
  {
    hide *;
    TableSaved(codec, base, disk, t, owner, rows);
    forall found ensures FreshAs(codec, base, disk, t, owner, rows, found) {
      FreshAfter(codec, base, disk, t, owner, rows, found);
      FreshAsIs(codec, base, disk, t, owner, rows, found);
    }
    AllFresh(codec, base, disk, t, owner, rows);
    ListedIsOwned(codec, disk, t, owner);
    forall other | other != owner ensures Listed(codec, disk, t, other) <==> Listed(codec, base, t, other) {
      ListedIsOwned(codec, disk, t, other);
      ListedIsOwned(codec, base, t, other);
      OtherKeeps(codec, base, disk, t, owner, other);
    }
  }

  ghost predicate FreshAs(codec: Codec, base: Disk, disk: Disk, t: Table, owner: string, rows: seq<Row>,
      found: seq<Row>) {
    && (FreshRows(codec.decode(t), File(disk, t), owner, found) <==>
          multiset(found) == multiset(rows) && InOrder(found))
    && forall other :: other != owner ==>
         (FreshRows(codec.decode(t), File(disk, t), other, found) <==>
           FreshRows(codec.decode(t), File(base, t), other, found))
  }

  lemma FreshAsIs(codec: Codec, base: Disk, disk: Disk, t: Table, owner: string, rows: seq<Row>, found: seq<Row>)
    requires FreshRows(codec.decode(t), File(disk, t), owner, found) <==>
      multiset(found) == multiset(rows) && InOrder(found)
    requires forall other :: other != owner ==>
      (FreshRows(codec.decode(t), File(disk, t), other, found) <==>
        FreshRows(codec.decode(t), File(base, t), other, found))
    ensures FreshAs(codec, base, disk, t, owner, rows, found)
  {
    hide FreshRows, InOrder;
  }

  lemma AllFresh(codec: Codec, base: Disk, disk: Disk, t: Table, owner: string, rows: seq<Row>)
    requires Visit(File(disk, t)).Some? && forall found :: FreshAs(codec, base, disk, t, owner, rows, found)
    ensures ReadsAsSaved(codec, base, disk, t, owner, rows)
  {
    hide FreshRows, InOrder, Visit;
    forall found
      ensures FreshRows(codec.decode(t), File(disk, t), owner, found) <==>
        multiset(found) == multiset(rows) && InOrder(found)
    {
      assert FreshAs(codec, base, disk, t, owner, rows, found);
    }
    forall other, found | other != owner
      ensures FreshRows(codec.decode(t), File(disk, t), other, found) <==>
        FreshRows(codec.decode(t), File(base, t), other, found)
    {
      assert FreshAs(codec, base, disk, t, owner, rows, found);
    }
  }

  lemma OtherKeeps(codec: Codec, base: Disk, disk: Disk, t: Table, owner: string, other: string)
    requires Visit(File(base, t)).Some? && Visit(File(disk, t)).Some? && other != owner
    requires OthersKeep(codec.decode(t), Visit(File(base, t)).value, Visit(File(disk, t)).value, owner)
    ensures Owned(Rows(codec.decode(t), Visit(File(disk, t)).value), other) ==
      Owned(Rows(codec.decode(t), Visit(File(base, t)).value), other)
  {
    hide Rows, Owned, Visit;
  }

  /** After a successful `saveScanExecution` whose rows all name the session: the session is found, reads
      give exactly the saved attempts and observations, sorted, and reads of every other session give what
      they gave before. */
  lemma SaveIsRead(codec: Codec, base: Disk, disk: Disk, session: Row, attempts: seq<Row>, observations: seq<Row>)
    requires Saves(base, disk, codec, session.owner, [session], attempts, observations)
    requires SaveIsFaithful(codec, session, attempts, observations)
    requires ScanTablesReadable(base) && ScanTablesFit(disk)
    requires AllOwnedBy(attempts, session.owner) && AllOwnedBy(observations, session.owner)
    ensures Listed(codec, disk, ScanSessions, session.owner)
    ensures ReadsAsSaved(codec, base, disk, ScanAttempts, session.owner, attempts)
    ensures ReadsAsSaved(codec, base, disk, ScanObservations, session.owner, observations)
    ensures forall other :: other != session.owner ==>
      (Listed(codec, disk, ScanSessions, other) <==> Listed(codec, base, ScanSessions, other))
  {
    hide *;
    SavedTables(codec, base, disk, session, attempts, observations);
    TableReads(codec, base, disk, ScanSessions, session.owner, [session]);
    TableReads(codec, base, disk, ScanAttempts, session.owner, attempts);
    TableReads(codec, base, disk, ScanObservations, session.owner, observations);
  }

  lemma SavedTables(codec: Codec, base: Disk, disk: Disk, session: Row, attempts: seq<Row>, observations: seq<Row>)
    requires Saves(base, disk, codec, session.owner, [session], attempts, observations)
    requires SaveIsFaithful(codec, session, attempts, observations)
    requires ScanTablesReadable(base) && ScanTablesFit(disk)
    ensures Faithful(codec, ScanSessions, [session])
    ensures Faithful(codec, ScanAttempts, attempts) && Faithful(codec, ScanObservations, observations)
    ensures AllOwnedBy([session], session.owner)
    ensures Visit(File(base, ScanSessions)).Some? && Visit(File(base, ScanAttempts)).Some?
    ensures Visit(File(base, ScanObservations)).Some?
    ensures File(disk, ScanSessions) ==
      NewContents(codec, base, Request(ScanSessions, session.owner, Encoded(codec, ScanSessions, [session])))
    ensures File(disk, ScanAttempts) ==
      NewContents(codec, base, Request(ScanAttempts, session.owner, Encoded(codec, ScanAttempts, attempts)))
    ensures File(disk, ScanObservations) ==
      NewContents(codec, base, Request(ScanObservations, session.owner, Encoded(codec, ScanObservations, observations)))
    ensures File(disk, ScanSessions).Some? && Representable(File(disk, ScanSessions).value)
    ensures File(disk, ScanAttempts).Some? && Representable(File(disk, ScanAttempts).value)
    ensures File(disk, ScanObservations).Some? && Representable(File(disk, ScanObservations).value)
  {
    hide Visit, Encoded, Faithful, Rewritten, EncodeLog, Representable;
    assert SavedFile(base, codec, session.owner, [session], attempts, observations, ScanSessions).Some?;
    assert SavedFile(base, codec, session.owner, [session], attempts, observations, ScanAttempts).Some?;
    assert SavedFile(base, codec, session.owner, [session], attempts, observations, ScanObservations).Some?;
  }
}
