/** Recovery succeeds from every stop and stays on its side (`recoverReplacementTransaction`,
    `recoverReplacementArtifacts`, `initializeSchema`). */
module RecoverySteps {
  import opened Options
  import opened StoreNames
  import opened FileActions
  import opened ManifestFile
  import opened Transaction
  import opened TransactionStates
  import opened CommitSteps
  import opened RollbackPath

  // ---------------------------------------------------------------- recovery

  /** `recoverReplacementTransaction` succeeds from every stop, stays on its side at every step, and
      leaves no trace of the transaction. */
  lemma RecoverSteps(tx: Tx, side: Side, s: Files)
    requires tx.Valid() && Holds(tx, side, s)
    ensures Recover(s).Some? && Always(tx, side, s, Recover(s).value)
    ensures var t := Run(s, Recover(s).value);
      Settled(t) && forall f :: f in tx.files ==> Backup(f) !in t && (Manifest in s ==> Temp(f) !in t)
  {
    hide ManifestBytes, LoadManifest, IsManaged, Holds, Always, Rollback, Finish;
    SideFacts(tx, side, s);
    if Manifest !in s {
      var quiet := [Drop(ManifestTemp), Drop(CommitTemp)];
      ScratchActions(tx, side, s, quiet);
      AlwaysAtEnd(tx, side, s, quiet);
      RunTwo(s, quiet[0], quiet[1]);
      var t := Run(s, quiet);
      if Commit in s {
        MarkerDropped(tx, t);
        AlwaysOne(tx, New, t, Drop(Commit));
        RunOne(t, Drop(Commit));
        AlwaysConcat(tx, New, s, quiet, [Drop(Commit)]);
        RunConcat(s, quiet, [Drop(Commit)]);
        AlwaysAtEnd(tx, side, s, quiet + [Drop(Commit)]);
      } else {
        assert quiet + [] == quiet;
      }
      SideFacts(tx, side, Run(s, Recover(s).value));
    } else {
      ManifestRoundTrip(tx.Targets());
      if side.New? {
        assert AllPlaced(s, tx.Targets());
        FinishSteps(tx, s);
      } else {
        RollbackSteps(tx, s);
        AlwaysAtEnd(tx, Old, s, Rollback(s, tx.Targets()));
        SideFacts(tx, Old, Run(s, Rollback(s, tx.Targets())));
      }
    }
  }

  lemma SideFacts(tx: Tx, side: Side, s: Files)
    requires tx.Valid() && Holds(tx, side, s)
    ensures Manifest in s ==> HasManifest(tx, s) && (Commit in s <==> side == New)
    ensures side == Old ==> Commit !in s
    ensures Manifest !in s ==> forall f :: f in tx.files ==> Backup(f) !in s
    ensures side == New ==> forall i :: 0 <= i < |tx.files| ==> Live(tx.files[i]) in s
  {
    hide ManifestBytes, IsManaged, Framed;
    if side == New {
      forall i | 0 <= i < |tx.files|
        ensures Live(tx.files[i]) in s
      {
        assert IsNew(tx, s, i);
      }
    }
  }

  lemma NoBackups(tx: Tx, side: Side, s: Files, f: string)
    requires tx.Valid() && Holds(tx, side, s) && Manifest !in s && IsManaged(f)
    ensures Backup(f) !in s
  {
    hide ManifestBytes, IsManaged;
    if f !in tx.files {
      assert !Owned(tx, Backup(f));
      assert SameAt(s, tx.before, Backup(f));
    }
  }

  /** The per-file stage finds no backup to restore: it only drops temporary files. */
  lemma {:induction false} SweepSteps(tx: Tx, side: Side, s: Files, files: seq<string>)
    requires tx.Valid() && Holds(tx, side, s) && Settled(s)
    requires forall f :: f in files ==> IsManaged(f)
    ensures Always(tx, side, s, AllArtifacts(s, files))
    ensures var t := Run(s, AllArtifacts(s, files));
      && Settled(t)
      && (forall f :: f in files ==> Backup(f) !in t && Temp(f) !in t)
      && (forall n :: n in t ==> n in s)
    decreases |files|
  {
    hide ManifestBytes, IsManaged, Holds;
    if files != [] {
      var f := files[0];
      NoBackups(tx, side, s, f);
      var sweep := Artifacts(s, f);
      assert sweep == if Temp(f) in s then [Drop(Temp(f))] else [];
      ScratchActions(tx, side, s, sweep);
      AlwaysAtEnd(tx, side, s, sweep);
      var t := Run(s, sweep);
      if Temp(f) in s {
        RunOne(s, Drop(Temp(f)));
      }
      SweepSteps(tx, side, t, files[1..]);
      AlwaysConcat(tx, side, s, sweep, AllArtifacts(t, files[1..]));
      RunConcat(s, sweep, AllArtifacts(t, files[1..]));
      var u := Run(t, AllArtifacts(t, files[1..]));
      forall g | g in files
        ensures Backup(g) !in u && Temp(g) !in u
      {
        assert g == files[0] || g in files[1..];
      }
    }
  }

  /** Once the transaction stage is through, no managed file has a backup, so the per-file stage that
      follows cannot bring back the old copy of a committed file. */
  lemma NothingToRestore(tx: Tx, side: Side, s: Files, f: string)
    requires tx.Valid() && Holds(tx, side, s) && IsManaged(f)
    ensures Recover(s).Some? && Backup(f) !in Run(s, Recover(s).value)
  {
    hide ManifestBytes, IsManaged, Holds, Recover, Always;
    RecoverSteps(tx, side, s);
    AlwaysAtEnd(tx, side, s, Recover(s).value);
    NoBackups(tx, side, Run(s, Recover(s).value), f);
  }

  /** Nothing of a transaction and no artefact of a swept file is left. */
  ghost predicate Swept(s: Files) {
    Settled(s) && forall f :: f in SweptFiles ==> Backup(f) !in s && Temp(f) !in s
  }

  /** Both stages of recovery, from any stop. */
  lemma ReopenSteps(tx: Tx, side: Side, s: Files)
    requires tx.Valid() && Holds(tx, side, s)
    ensures Reopen(s).Some? && Always(tx, side, s, Reopen(s).value)
    ensures var t := Run(s, Reopen(s).value); Swept(t) && Holds(tx, side, t)
  {
    hide ManifestBytes, IsManaged, Holds, Always, Recover;
    RecoverSteps(tx, side, s);
    var recover := Recover(s).value;
    AlwaysAtEnd(tx, side, s, recover);
    var t := Run(s, recover);
    SweptAreManaged();
    SweepSteps(tx, side, t, SweptFiles);
    AlwaysConcat(tx, side, s, recover, AllArtifacts(t, SweptFiles));
    RunConcat(s, recover, AllArtifacts(t, SweptFiles));
    AlwaysAtEnd(tx, side, s, Reopen(s).value);
  }

  lemma SweptAreManaged()
    ensures forall f :: f in SweptFiles ==> IsManaged(f)
  {
    forall f | f in SweptFiles
      ensures f in ManagedFiles
    {
      if f in DataFiles {
        assert f in DataFiles + [SchemaFile, CountersFile];
      } else {
        assert f == CountersFile;
        assert ManagedFiles[13] == CountersFile;
      }
    }
  }

  lemma {:induction false} SweptNeedsNothing(s: Files, files: seq<string>)
    requires forall f :: f in files ==> Backup(f) !in s && Temp(f) !in s
    ensures AllArtifacts(s, files) == []
    decreases |files|
  {
    if files != [] {
      assert files[0] in files;
      SweptNeedsNothing(s, files[1..]);
    }
  }

  /** A second reopen changes nothing. */
  lemma ReopenIsStable(s: Files)
    requires Swept(s)
    ensures Reopen(s).Some? && Run(s, Reopen(s).value) == s
  {
    var quiet := [Drop(ManifestTemp), Drop(CommitTemp)];
    assert Recover(s) == Some(quiet + []);
    assert quiet + [] == quiet;
    RunTwo(s, quiet[0], quiet[1]);
    assert Run(s, quiet) == s;
    SweptNeedsNothing(s, SweptFiles);
  }
}
