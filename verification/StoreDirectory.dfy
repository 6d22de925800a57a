/** `native_store_file_ops.cpp` as it runs: a directory changed call by call. */
module StoreDirectory {
  import opened RecordLog
  import opened StoreNames
  import opened FileActions
  import opened ManifestFile
  import opened Transaction
  import opened StoreOpening
  import TailRecovery

  /** The directory and, as a ghost, every call made on it.  The process may stop after any of them,
      which is what `Interrupted` ranges over. */
  class Directory {
    var files: Files
    ghost var journal: seq<Action>

    constructor (initial: Files)
      ensures files == initial && journal == []
    {
      files, journal := initial, [];
    }

    // -------------------------------------------------------------- single calls

    method Rename(from: Name, to: Name)
      requires from in files
      modifies this
      ensures files == Run(old(files), [Move(from, to)]) && journal == old(journal) + [Move(from, to)]
    {
      RunOne(files, Move(from, to));
      files := (files - {from})[to := files[from]];
      journal := journal + [Move(from, to)];
    }

    method Remove(name: Name)
      modifies this
      ensures files == Run(old(files), [Drop(name)]) && journal == old(journal) + [Drop(name)]
    {
      RunOne(files, Drop(name));
      files := files - {name};
      journal := journal + [Drop(name)];
    }

    method WriteFile(name: Name, content: string)
      modifies this
      ensures files == Run(old(files), [Write(name, content)]) && journal == old(journal) + [Write(name, content)]
    {
      RunOne(files, Write(name, content));
      files := files[name := content];
      journal := journal + [Write(name, content)];
    }

    // -------------------------------------------------------------- commit

    /** `writeTransactionManifest`. */
    method WriteTransactionManifest(targets: seq<Target>, fault: Fault) returns (ok: bool)
      modifies this
      ensures ok <==> !fault.AtManifest?
      ensures var done := if ok then PublishManifest(targets) else PublishManifest(targets)[..2] + [Drop(ManifestTemp)];
        files == Run(old(files), done) && journal == old(journal) + done
    {
      hide ManifestBytes;
      var bytes := ManifestBytes(targets);
      ghost var a, b := Drop(ManifestTemp), Write(ManifestTemp, bytes);
      Remove(ManifestTemp);
      WriteFile(ManifestTemp, bytes);
      RunConcat(old(files), [a], [b]);
      RunTwo(old(files), a, b);
      if fault.AtManifest? {
        Remove(ManifestTemp);
        RunConcat(old(files), [a] + [b], [Drop(ManifestTemp)]);
        assert PublishManifest(targets)[..2] == [a] + [b];
        return false;
      }
      Rename(ManifestTemp, Manifest);
      RunConcat(old(files), [a] + [b], [Move(ManifestTemp, Manifest)]);
      assert PublishManifest(targets) == [a] + [b] + [Move(ManifestTemp, Manifest)];
      ok := true;
    }

    /** The loop that moves every old file aside; stops before target `fault.i` when its rename fails. */
    method MoveAside(targets: seq<Target>, fault: Fault) returns (ok: bool)
      requires OldIn(files, targets) && Distinct(FilesOf(targets))
      modifies this
      ensures ok <==> !(fault.AtBackup? && Hits(fault, targets))
      ensures var done := BackUp(if ok then targets else targets[..fault.i]);
        files == Run(old(files), done) && journal == old(journal) + done
      ensures forall i :: 0 <= i < |targets| ==> SameAt(files, old(files), Temp(targets[i].file))
    {
      NoActions(files);
      assert targets[..0] == [] && BackUp([]) == [];
      hide BackUp, Run, FilesOf, Distinct;
      for k := 0 to |targets|
        invariant files == Run(old(files), BackUp(targets[..k])) && journal == old(journal) + BackUp(targets[..k])
        invariant forall i :: k <= i < |targets| && targets[i].hadPath ==> Live(targets[i].file) in files
        invariant forall i :: 0 <= i < |targets| ==> SameAt(files, old(files), Temp(targets[i].file))
        invariant fault.AtBackup? && fault.i < k ==> !targets[fault.i].hadPath
      {
        BackUpNext(targets, k);
        ghost var before := files;
        if targets[k].hadPath {
          if fault == AtBackup(k) {
            return false;
          }
          ghost var a := Move(Live(targets[k].file), Backup(targets[k].file));
          Rename(Live(targets[k].file), Backup(targets[k].file));
          RunOne(before, a);
          RunConcat(old(files), BackUp(targets[..k]), [a]);
          LaterFilesStay(before, files, targets, k);
        } else {
          assert BackUp(targets[..k]) + [] == BackUp(targets[..k]);
        }
      }
      assert targets[..|targets|] == targets;
      ok := true;
    }

    /** The loop that moves every new file into place; stops before target `fault.i` when its rename fails. */
    method MoveIntoPlace(targets: seq<Target>, fault: Fault) returns (ok: bool)
      requires TempsIn(files, targets) && Distinct(FilesOf(targets))
      modifies this
      ensures ok <==> !(fault.AtPlace? && Hits(fault, targets))
      ensures var done := Place(if ok then targets else targets[..fault.i]);
        files == Run(old(files), done) && journal == old(journal) + done
      ensures ok ==> AllPlaced(files, targets)
    {
      NoActions(files);
      assert targets[..0] == [] && Place([]) == [];
      hide Place, Run, FilesOf;
      for k := 0 to |targets|
        invariant files == Run(old(files), Place(targets[..k])) && journal == old(journal) + Place(targets[..k])
        invariant forall i :: k <= i < |targets| ==> Temp(targets[i].file) in files
        invariant forall i :: 0 <= i < k ==> Live(targets[i].file) in files
        invariant fault.AtPlace? ==> fault.i >= k
      {
        PlaceNext(targets, k);
        if fault == AtPlace(k) {
          return false;
        }
        ghost var before := files;
        ghost var a := Move(Temp(targets[k].file), Live(targets[k].file));
        Rename(Temp(targets[k].file), Live(targets[k].file));
        RunOne(before, a);
        RunConcat(old(files), Place(targets[..k]), [a]);
        forall i | k < i < |targets|
          ensures Temp(targets[i].file) in files
        {
          assert FilesOf(targets)[k] != FilesOf(targets)[i];
        }
      }
      assert targets[..|targets|] == targets;
      ok := true;
    }

    /** `writeTransactionCommitMarker`. */
    method WriteTransactionCommitMarker(fault: Fault) returns (ok: bool)
      modifies this
      ensures ok <==> !fault.AtMarker?
      ensures var done := if ok then PublishMarker else PublishMarker[..2] + [Drop(CommitTemp)];
        files == Run(old(files), done) && journal == old(journal) + done
      ensures forall f :: SameAt(files, old(files), Live(f))
    {
      ghost var a, b := Drop(CommitTemp), Write(CommitTemp, MarkerText);
      Remove(CommitTemp);
      WriteFile(CommitTemp, MarkerText);
      RunConcat(old(files), [a], [b]);
      RunTwo(old(files), a, b);
      ghost var s := files;
      if fault.AtMarker? {
        Remove(CommitTemp);
        RunOne(s, Drop(CommitTemp));
        RunConcat(old(files), [a] + [b], [Drop(CommitTemp)]);
        assert PublishMarker[..2] == [a] + [b];
        return false;
      }
      Rename(CommitTemp, Commit);
      RunOne(s, Move(CommitTemp, Commit));
      RunConcat(old(files), [a] + [b], [Move(CommitTemp, Commit)]);
      assert PublishMarker == [a] + [b] + [Move(CommitTemp, Commit)];
      ok := true;
    }

    /** The loop after the marker that removes the backups. */
    method RemoveBackups(targets: seq<Target>)
      modifies this
      ensures files == Run(old(files), DropBackups(targets)) && journal == old(journal) + DropBackups(targets)
      ensures forall f :: SameAt(files, old(files), Live(f))
    {
      assert targets[..0] == [];
      for k := 0 to |targets|
        invariant files == Run(old(files), DropBackups(targets[..k]))
        invariant journal == old(journal) + DropBackups(targets[..k])
        invariant forall f :: SameAt(files, old(files), Live(f))
      {
        DropBackupsNext(targets, k);
        ghost var before := files;
        Remove(Backup(targets[k].file));
        RunOne(before, Drop(Backup(targets[k].file)));
        RunConcat(old(files), DropBackups(targets[..k]), [Drop(Backup(targets[k].file))]);
      }
      assert targets[..|targets|] == targets;
    }

    /** The loop of `finishCommittedTransaction` that removes what a transaction leaves beside its files. */
    method RemoveArtifacts(targets: seq<Target>)
      modifies this
      ensures files == Run(old(files), DropArtifacts(targets)) && journal == old(journal) + DropArtifacts(targets)
    {
      assert targets[..0] == [];
      for k := 0 to |targets|
        invariant files == Run(old(files), DropArtifacts(targets[..k]))
        invariant journal == old(journal) + DropArtifacts(targets[..k])
      {
        DropArtifactsNext(targets, k);
        ghost var done, a, b := DropArtifacts(targets[..k]), Drop(Backup(targets[k].file)), Drop(Temp(targets[k].file));
        Remove(Backup(targets[k].file));
        Remove(Temp(targets[k].file));
        RunConcat(old(files), done, [a]);
        RunConcat(old(files), done + [a], [b]);
        assert done + [a] + [b] == done + [a, b];
      }
      assert targets[..|targets|] == targets;
    }

    /** The removals that end `finishCommittedTransaction`: the manifest first, then the marker. */
    method RemoveTransaction()
      modifies this
      ensures files == Run(old(files), DropTransaction) && journal == old(journal) + DropTransaction
    {
      hide Run;
      ghost var a, b, c, d := [Drop(Manifest)], [Drop(Commit)], [Drop(ManifestTemp)], [Drop(CommitTemp)];
      Remove(Manifest);
      Remove(Commit);
      RunConcat(old(files), a, b);
      Remove(ManifestTemp);
      RunConcat(old(files), a + b, c);
      Remove(CommitTemp);
      RunConcat(old(files), a + b + c, d);
      assert DropTransaction == a + b + c + d;
    }

    /** `finishCommittedTransaction`. */
    method FinishCommittedTransaction(targets: seq<Target>) returns (ok: bool)
      modifies this
      ensures ok <==> AllPlaced(old(files), targets)
      ensures var done := if ok then Finish(targets) else [];
        files == Run(old(files), done) && journal == old(journal) + done
    {
      for i := 0 to |targets|
        invariant files == old(files) && journal == old(journal)
        invariant forall j :: 0 <= j < i ==> Live(targets[j].file) in files
      {
        if Live(targets[i].file) !in files {
          return false;
        }
      }
      RemoveArtifacts(targets);
      RemoveTransaction();
      RunConcat(old(files), DropArtifacts(targets), DropTransaction);
      ok := true;
    }

    // -------------------------------------------------------------- rollback

    /** The body of the rollback loop. */
    method UndoTarget(t: Target)
      modifies this
      ensures files == Run(old(files), UndoOne(old(files), t)) && journal == old(journal) + UndoOne(old(files), t)
    {
      ghost var done: seq<Action> := [];
      if Backup(t.file) in files {
        if Live(t.file) in files {
          Remove(Live(t.file));
          RunOne(old(files), Drop(Live(t.file)));
          done := [Drop(Live(t.file))];
        }
        Rename(Backup(t.file), Live(t.file));
        RunConcat(old(files), done, [Move(Backup(t.file), Live(t.file))]);
        done := done + [Move(Backup(t.file), Live(t.file))];
      } else if !t.hadPath {
        Remove(Live(t.file));
        done := [Drop(Live(t.file))];
      }
      Remove(Temp(t.file));
      RunConcat(old(files), done, [Drop(Temp(t.file))]);
      assert UndoOne(old(files), t) == done + [Drop(Temp(t.file))];
    }

    /** The consistency checks of `rollbackUncommittedTransaction`. */
    method CheckUndo(targets: seq<Target>) returns (ok: bool)
      ensures ok <==> CanUndo(files, targets)
    {
      for i := 0 to |targets|
        invariant CanUndo(files, targets[..i])
      {
        var hasPath, hasBackup := Live(targets[i].file) in files, Backup(targets[i].file) in files;
        if targets[i].hadPath && !hasPath && !hasBackup {
          return false;
        }
        if !targets[i].hadPath && hasBackup {
          return false;
        }
        assert targets[..i + 1] == targets[..i] + [targets[i]];
      }
      assert targets[..|targets|] == targets;
      ok := true;
    }

    /** The rollback loop, last target first. */
    method UndoTargets(targets: seq<Target>)
      modifies this
      ensures files == Run(old(files), UndoAll(old(files), targets))
      ensures journal == old(journal) + UndoAll(old(files), targets)
    {
      hide UndoOne;
      var k := |targets|;
      ghost var done: seq<Action> := [];
      assert targets[..|targets|] == targets;
      assert done + UndoAll(files, targets) == UndoAll(files, targets);
      while k > 0
        invariant 0 <= k <= |targets|
        invariant files == Run(old(files), done) && journal == old(journal) + done
        invariant done + UndoAll(files, targets[..k]) == UndoAll(old(files), targets)
      {
        ghost var undo := UndoOne(files, targets[k - 1]);
        UndoNext(files, targets, k, done);
        UndoTarget(targets[k - 1]);
        RunConcat(old(files), done, undo);
        done := done + undo;
        k := k - 1;
      }
      assert done + [] == done;
    }

    /** `rollbackUncommittedTransaction`. */
    method RollbackUncommittedTransaction(targets: seq<Target>) returns (ok: bool)
      modifies this
      ensures ok <==> CanUndo(old(files), targets)
      ensures files == Run(old(files), Abort(old(files), targets))
      ensures journal == old(journal) + Abort(old(files), targets)
    {
      hide Run, UndoAll, CanUndo;
      ok := CheckUndo(targets);
      if !ok {
        NoActions(files);
        return;
      }
      ghost var undo := UndoAll(files, targets);
      ghost var a, b, c := [Drop(Manifest)], [Drop(ManifestTemp)], [Drop(CommitTemp)];
      UndoTargets(targets);
      Remove(Manifest);
      RunConcat(old(files), undo, a);
      Remove(ManifestTemp);
      RunConcat(old(files), undo + a, b);
      Remove(CommitTemp);
      RunConcat(old(files), undo + a + b, c);
      assert Rollback(old(files), targets) == undo + a + b + c;
    }

    // -------------------------------------------------------------- the commit as a whole

    /** The checks of `commitReplacementTargets` on each target. */
    method CheckTargets(names: seq<string>) returns (ok: bool)
      ensures ok <==> forall f :: f in names ==> Temp(f) in files && Backup(f) !in files
    {
      for i := 0 to |names|
        invariant forall j :: 0 <= j < i ==> Temp(names[j]) in files && Backup(names[j]) !in files
      {
        if Temp(names[i]) !in files || Backup(names[i]) in files {
          assert names[i] in names;
          return false;
        }
      }
      ok := true;
    }

    /** `abortTransaction`. */
    method AbortTransaction(targets: seq<Target>, ghost start: Files, ghost done: seq<Action>)
      requires files == Run(start, done)
      modifies this
      ensures files == Run(start, done + Abort(Run(start, done), targets))
      ensures journal == old(journal) + Abort(Run(start, done), targets)
    {
      hide Run, Abort;
      var _ := RollbackUncommittedTransaction(targets);
      RunConcat(start, done, Abort(Run(start, done), targets));
    }

    /** `commitReplacementTargets` once its checks have passed. */
    method CommitChecked(targets: seq<Target>, fault: Fault) returns (ok: bool)
      requires Distinct(FilesOf(targets)) && TempsIn(files, targets) && OldIn(files, targets)
      modifies this
      ensures ok <==> !Hits(fault, targets)
      ensures var done := CommitTargets(old(files), targets, fault);
        files == Run(old(files), done) && journal == old(journal) + done
    {
      hide *;
      ghost var s := files;
      CommitParts(s, targets, fault);
      ok := WriteTransactionManifest(targets, fault);
      if !ok {
        return;
      }
      ghost var done := PublishManifest(targets);
      NamesKeptByManifest(s, targets);
      ok := MoveAside(targets, fault);
      ghost var step := BackUp(if ok then targets else targets[..fault.i]);
      RunConcat(s, done, step);
      done := done + step;
      if !ok {
        AbortTransaction(targets, s, done);
        return;
      }
      TempsKept(targets, Run(s, PublishManifest(targets)), files);
      ok := MoveIntoPlace(targets, fault);
      step := Place(if ok then targets else targets[..fault.i]);
      RunConcat(s, done, step);
      done := done + step;
      if !ok {
        AbortTransaction(targets, s, done);
        return;
      }
      ok := CommitPlaced(targets, fault, s, done);
    }

    /** From the marker on. */
    method CommitPlaced(targets: seq<Target>, fault: Fault, ghost start: Files, ghost done: seq<Action>)
      returns (ok: bool)
      requires files == Run(start, done) && AllPlaced(files, targets) && |PublishMarker| == 3
      modifies this
      ensures ok <==> !fault.AtMarker?
      ensures var undone := PublishMarker[..2] + [Drop(CommitTemp)];
        var more := if ok then PublishMarker + DropBackups(targets) + Finish(targets)
          else undone + Abort(Run(start, done + undone), targets);
        files == Run(start, done + more) && journal == old(journal) + more
    {
      hide *;
      ghost var placed := files;
      ok := WriteTransactionCommitMarker(fault);
      if !ok {
        ghost var undone := PublishMarker[..2] + [Drop(CommitTemp)];
        RunConcat(start, done, undone);
        AbortTransaction(targets, start, done + undone);
        assert done + undone + Abort(Run(start, done + undone), targets) ==
          done + (undone + Abort(Run(start, done + undone), targets));
        return;
      }
      RunConcat(start, done, PublishMarker);
      ghost var marked := files;
      RemoveBackups(targets);
      RunConcat(start, done + PublishMarker, DropBackups(targets));
      LiveKept(targets, placed, marked, files);
      var finished := FinishCommittedTransaction(targets);
      RunConcat(start, done + PublishMarker + DropBackups(targets), Finish(targets));
      assert done + PublishMarker + DropBackups(targets) + Finish(targets)
        == done + (PublishMarker + DropBackups(targets) + Finish(targets));
    }

    /** `commitReplacementTargets`. */
    method CommitReplacementTargets(names: seq<string>, fault: Fault) returns (ok: bool)
      modifies this
      ensures names == [] ==> ok && files == old(files) && journal == old(journal)
      ensures names != [] && !Ready(old(files), names) ==> !ok && files == old(files) && journal == old(journal)
      ensures names != [] && Ready(old(files), names) ==>
        && (ok <==> !Hits(fault, TargetsOf(old(files), names)))
        && files == Run(old(files), CommitActions(old(files), names, fault))
        && journal == old(journal) + CommitActions(old(files), names, fault)
    {
      hide Run, CommitTargets, ValidTargets, Hits;
      if |names| == 0 {
        return true;
      }
      ok := ValidateTargets(names);
      if !ok || Manifest in files || Commit in files {
        return false;
      }
      ok := CheckTargets(names);
      if !ok {
        return;
      }
      var targets := TargetsOf(files, names);
      ValidAreDistinct(names);
      TargetsAreThere(files, names);
      ok := CommitChecked(targets, fault);
    }

    // -------------------------------------------------------------- recovery

    /** `recoverReplacementTransaction`. */
    method RecoverReplacementTransaction() returns (outcome: Return)
      modifies this
      ensures outcome.Succeeded? <==> Recover(old(files)).Some?
      ensures outcome.NeverReturns? <==> ReadsForever(old(files))
      ensures var done := if outcome.Succeeded? then Recover(old(files)).value else [];
        files == Run(old(files), done) && journal == old(journal) + done
    {
      hide Run, LoadManifest, ValidTargets, Finish, Rollback, AllPlaced, CanUndo;
      NoActions(files);
      if Manifest !in files {
        ghost var a, b := [Drop(ManifestTemp)], [Drop(CommitTemp)];
        var hasCommit := Commit in files;
        Remove(ManifestTemp);
        MarkerStays(old(files), ManifestTemp);
        Remove(CommitTemp);
        RunConcat(old(files), a, b);
        assert a + b == [Drop(ManifestTemp), Drop(CommitTemp)];
        if hasCommit {
          Remove(Commit);
          RunConcat(old(files), a + b, [Drop(Commit)]);
        } else {
          assert a + b + [] == a + b;
        }
        return Succeeded;
      }
      var loaded := LoadTransactionManifest(files[Manifest]);
      if loaded.NeverLoads? {
        return NeverReturns;
      }
      if loaded.BadManifest? {
        return Failed;
      }
      var targets := loaded.targets;
      var ok := ValidateTargets(FilesOf(targets));
      if ok {
        if Commit in files {
          ok := FinishCommittedTransaction(targets);
        } else {
          ok := RollbackUncommittedTransaction(targets);
        }
      }
      outcome := if ok then Succeeded else Failed;
    }

    /** `recoverReplacementArtifacts`. */
    method RecoverReplacementArtifacts(file: string)
      modifies this
      ensures files == Run(old(files), Artifacts(old(files), file))
      ensures journal == old(journal) + Artifacts(old(files), file)
    {
      ghost var done: seq<Action> := [];
      if Backup(file) in files {
        if Live(file) in files {
          Remove(Live(file));
          RunOne(old(files), Drop(Live(file)));
          done := [Drop(Live(file))];
        }
        ghost var before := files;
        Rename(Backup(file), Live(file));
        RunOne(before, Move(Backup(file), Live(file)));
        RunConcat(old(files), done, [Move(Backup(file), Live(file))]);
        done := done + [Move(Backup(file), Live(file))];
      }
      if Temp(file) in files {
        Remove(Temp(file));
        RunConcat(old(files), done, [Drop(Temp(file))]);
      } else {
        assert done + [] == done;
      }
    }

    /** Both recovery stages of `initializeSchema`. */
    method RecoverStore() returns (outcome: Return)
      modifies this
      ensures outcome.Succeeded? <==> Reopen(old(files)).Some?
      ensures outcome.NeverReturns? <==> ReadsForever(old(files))
      ensures var done := if outcome.Succeeded? then Reopen(old(files)).value else [];
        files == Run(old(files), done) && journal == old(journal) + done
    {
      hide *;
      outcome := RecoverReplacementTransaction();
      ReopenIs(old(files));
      if !outcome.Succeeded? {
        return;
      }
      ghost var recover := Recover(old(files)).value;
      SweepStore();
      RunConcat(old(files), recover, AllArtifacts(Run(old(files), recover), SweptFiles));
    }

    /** The loop of `initializeSchema` over the store's files. */
    method SweepStore()
      modifies this
      ensures var done := AllArtifacts(old(files), SweptFiles);
        files == Run(old(files), done) && journal == old(journal) + done
    {
      hide Run, Artifacts;
      ghost var s := files;
      ghost var done: seq<Action> := [];
      NoActions(s);
      assert SweptFiles[0..] == SweptFiles && done + AllArtifacts(s, SweptFiles) == AllArtifacts(s, SweptFiles);
      for i := 0 to |SweptFiles|
        invariant files == Run(s, done) && journal == old(journal) + done
        invariant done + AllArtifacts(files, SweptFiles[i..]) == AllArtifacts(s, SweptFiles)
      {
        SweepNext(files, SweptFiles, i, done);
        ghost var sweep := Artifacts(files, SweptFiles[i]);
        RecoverReplacementArtifacts(SweptFiles[i]);
        RunConcat(s, done, sweep);
        done := done + sweep;
      }
      assert done + [] == done;
    }

    // -------------------------------------------------------------- opening

    /** `recoverRecordFileTail` on a file that exists. */
    method RecoverRecordFileTail(file: string)
      requires Live(file) in files
      modifies this
      ensures files == Run(old(files), TailActions(old(files), file))
      ensures journal == old(journal) + TailActions(old(files), file)
    {
      hide *;
      var data := files[Live(file)];
      var outcome := TailRecovery.RecoverRecordFileTail(data);
      TailIs(old(files), file);
      NoActions(files);
      if !outcome.Split? {
        assert old(journal) + [] == old(journal);
        return;
      }
      ghost var at := TailRecovery.ScanTail(data, BodyStart(data)).at;
      CopyTail(file, outcome.kept, outcome.orphan);
      CopiesAre(data, at, file);
      ghost var copied := files;
      var ok := ReplaceFileWithTemp(file, NoReplaceFault);
      RunConcat(old(files), Copies(data, at, file), Replace(copied, file, NoReplaceFault));
    }

    /** Its two copies. */
    method CopyTail(file: string, kept: string, orphan: string)
      modifies this
      ensures
        var copies := [Drop(Temp(file)), Drop(Orphan(file)), Write(Orphan(file), orphan), Write(Temp(file), kept)];
        files == Run(old(files), copies) && journal == old(journal) + copies
      ensures Temp(file) in files
    {
      ghost var a, b := Drop(Temp(file)), Drop(Orphan(file));
      ghost var c, d := Write(Orphan(file), orphan), Write(Temp(file), kept);
      Remove(Temp(file));
      Remove(Orphan(file));
      RunConcat(old(files), [a], [b]);
      ghost var dropped := files;
      WriteFile(Orphan(file), orphan);
      WriteFile(Temp(file), kept);
      RunTwo(dropped, c, d);
      RunConcat(dropped, [c], [d]);
      RunConcat(old(files), [a] + [b], [c] + [d]);
      assert [a] + [b] + ([c] + [d]) == [a, b, c, d];
    }

    /** One turn of the file loop of `initializeSchema`. */
    method OpenDataFile(file: string)
      modifies this
      ensures files == Run(old(files), OpenFile(old(files), file))
      ensures journal == old(journal) + OpenFile(old(files), file)
    {
      hide Run, Artifacts, TailActions;
      RecoverReplacementArtifacts(file);
      ghost var swept := files;
      if Live(file) in files {
        RecoverRecordFileTail(file);
      } else {
        WriteFile(Live(file), Header);
      }
      RunConcat(old(files), Artifacts(old(files), file), TailOrCreate(swept, file));
    }

    /** The file loop of `initializeSchema`. */
    method OpenDataFiles()
      modifies this
      ensures files == Run(old(files), OpenFiles(old(files), DataFiles))
      ensures journal == old(journal) + OpenFiles(old(files), DataFiles)
    {
      hide Run, OpenFile, OpenFiles, DataFiles;
      ghost var s := files;
      ghost var done: seq<Action> := [];
      NoActions(s);
      assert DataFiles[0..] == DataFiles && done + OpenFiles(s, DataFiles) == OpenFiles(s, DataFiles);
      for i := 0 to |DataFiles|
        invariant files == Run(s, done) && journal == old(journal) + done
        invariant done + OpenFiles(files, DataFiles[i..]) == OpenFiles(s, DataFiles)
      {
        OpenNext(files, DataFiles, i, done);
        ghost var open := OpenFile(files, DataFiles[i]);
        OpenDataFile(DataFiles[i]);
        RunConcat(s, done, open);
        done := done + open;
      }
      NoneToOpen(files);
      assert DataFiles[|DataFiles|..] == [] && done + [] == done;
    }

    /** `initializeSchema` up to the counters. */
    method InitializeSchema() returns (outcome: Return)
      modifies this
      ensures outcome.Succeeded? <==> Opening(old(files)).Some?
      ensures outcome.NeverReturns? <==> ReadsForever(old(files))
      ensures var done := if outcome.Succeeded? then Opening(old(files)).value else [];
        files == Run(old(files), done) && journal == old(journal) + done
    {
      hide *;
      outcome := RecoverReplacementTransaction();
      OpeningIs(old(files));
      if !outcome.Succeeded? {
        return;
      }
      ghost var recover := Recover(old(files)).value;
      ghost var s := files;
      ghost var schema := [Write(Live(SchemaFile), SchemaText)];
      WriteFile(Live(SchemaFile), SchemaText);
      ghost var s1 := files;
      OpenDataFiles();
      ghost var s2 := files;
      RecoverReplacementArtifacts(CountersFile);
      RunConcat(s, schema, OpenFiles(s1, DataFiles));
      OpenRestIs(s);
      RunConcat(s, schema + OpenFiles(s1, DataFiles), Artifacts(s2, CountersFile));
      RunConcat(old(files), recover, OpenRest(s));
    }

    // -------------------------------------------------------------- one file

    /** `replaceFileWithTemp`, called when the temporary file has just been written. */
    method ReplaceFileWithTemp(file: string, fault: ReplaceFault) returns (ok: bool)
      requires Temp(file) in files
      modifies this
      ensures ok <==> fault.NoReplaceFault? || (fault.BackupRenameFails? && Live(file) !in old(files))
      ensures files == Run(old(files), Replace(old(files), file, fault))
      ensures journal == old(journal) + Replace(old(files), file, fault)
    {
      ghost var done: seq<Action> := [];
      var hasPath := Live(file) in files;
      if hasPath {
        if Backup(file) in files {
          Remove(Backup(file));
          RunOne(old(files), Drop(Backup(file)));
          done := [Drop(Backup(file))];
        }
        if fault.BackupRenameFails? {
          Remove(Temp(file));
          RunConcat(old(files), done, [Drop(Temp(file))]);
          return false;
        }
        ghost var before := files;
        Rename(Live(file), Backup(file));
        RunOne(before, Move(Live(file), Backup(file)));
        RunConcat(old(files), done, [Move(Live(file), Backup(file))]);
        done := done + [Move(Live(file), Backup(file))];
      }
      ok := FinishReplace(file, hasPath, fault, done, old(files), old(journal));
      ghost var away, place := Move(Live(file), Backup(file)), Move(Temp(file), Live(file));
      if hasPath {
        ghost var first := if Backup(file) in old(files) then [Drop(Backup(file))] else [];
        assert done == first + [away];
        assert first + [away] + ([place] + [Drop(Backup(file))]) == first + [away, place, Drop(Backup(file))];
        assert first + [away] + ([Move(Backup(file), Live(file))] + [Drop(Temp(file))])
          == first + [away, Move(Backup(file), Live(file)), Drop(Temp(file))];
      }
    }

    /** The rest of `replaceFileWithTemp`: the rename into place and what follows it. */
    method FinishReplace(file: string, hasPath: bool, fault: ReplaceFault, ghost done: seq<Action>,
        ghost start: Files, ghost log: seq<Action>)
      returns (ok: bool)
      requires Temp(file) in files && (hasPath ==> Backup(file) in files && Live(file) !in files)
      requires files == Run(start, done) && journal == log + done
      modifies this
      ensures ok <==> !fault.PlaceRenameFails?
      ensures var all := done +
        if !fault.PlaceRenameFails? then [Move(Temp(file), Live(file))] + (if hasPath then [Drop(Backup(file))] else [])
        else (if hasPath then [Move(Backup(file), Live(file))] else []) + [Drop(Temp(file))];
        files == Run(start, all) && journal == log + all
    {
      hide Run;
      if fault.PlaceRenameFails? {
        ghost var back: seq<Action> := [];
        if hasPath {
          back := [Move(Backup(file), Live(file))];
          Rename(Backup(file), Live(file));
          RunConcat(start, done, back);
        } else {
          assert done + back == done;
        }
        Remove(Temp(file));
        RunConcat(start, done + back, [Drop(Temp(file))]);
        assert done + (back + [Drop(Temp(file))]) == done + back + [Drop(Temp(file))];
        return false;
      }
      ghost var place, clean := [Move(Temp(file), Live(file))], [Drop(Backup(file))];
      Rename(Temp(file), Live(file));
      RunConcat(start, done, place);
      if hasPath {
        Remove(Backup(file));
        RunConcat(start, done + place, clean);
        assert done + (place + clean) == done + place + clean;
      } else {
        assert place + [] == place;
      }
      ok := true;
    }
  }

  // ---------------------------------------------------------------- what the steps leave alone

  lemma NoActions(s: Files)
    ensures Run(s, []) == s
  {
  }

  lemma ValidAreDistinct(names: seq<string>)
    requires ValidTargets(names)
    ensures names != [] && Distinct(names)
  {
  }

  lemma MarkerStays(s: Files, name: Name)
    requires name != Commit
    ensures Commit in Run(s, [Drop(name)]) <==> Commit in s
  {
    RunOne(s, Drop(name));
  }

  ghost predicate TempsIn(s: Files, targets: seq<Target>) {
    forall i :: 0 <= i < |targets| ==> Temp(targets[i].file) in s
  }

  lemma LaterFilesStay(s: Files, t: Files, targets: seq<Target>, k: nat)
    requires k < |targets| && Distinct(FilesOf(targets))
    requires t == Apply(s, Move(Live(targets[k].file), Backup(targets[k].file)))
    ensures forall i :: k < i < |targets| && Live(targets[i].file) in s ==> Live(targets[i].file) in t
  {
    forall i | k < i < |targets| && Live(targets[i].file) in s ensures Live(targets[i].file) in t {
      assert FilesOf(targets)[k] != FilesOf(targets)[i];
    }
  }

  ghost predicate OldIn(s: Files, targets: seq<Target>) {
    forall i :: 0 <= i < |targets| && targets[i].hadPath ==> Live(targets[i].file) in s
  }

  lemma TargetsAreThere(s: Files, names: seq<string>)
    requires forall f :: f in names ==> Temp(f) in s
    ensures TempsIn(s, TargetsOf(s, names)) && OldIn(s, TargetsOf(s, names))
  {
    var targets := TargetsOf(s, names);
    forall i | 0 <= i < |targets|
      ensures Temp(targets[i].file) in s
    {
      assert targets[i].file == names[i] && names[i] in names;
    }
  }

  /** The commit, fault by fault, as the sum of its loops. */
  lemma CommitParts(s: Files, targets: seq<Target>, fault: Fault)
    ensures |PublishMarker| == 3
    ensures var m, b, p, k := PublishManifest(targets), BackUp(targets), Place(targets), PublishMarker;
      var all, undone := CommitTargets(s, targets, fault), PublishMarker[..2] + [Drop(CommitTemp)];
      if !Hits(fault, targets) then
        !fault.AtManifest? && !fault.AtMarker? && all == m + b + p + (k + DropBackups(targets) + Finish(targets))
      else if fault.AtManifest? then all == m[..2] + [Drop(ManifestTemp)]
      else if fault.AtBackup? then
        fault.i < |targets|
          && all == m + BackUp(targets[..fault.i]) + Abort(Run(s, m + BackUp(targets[..fault.i])), targets)
      else if fault.AtPlace? then
        fault.i < |targets|
          && all == m + b + Place(targets[..fault.i]) + Abort(Run(s, m + b + Place(targets[..fault.i])), targets)
      else
        fault.AtMarker? && all == m + b + p + (undone + Abort(Run(s, m + b + p + undone), targets))
  {
    hide PublishManifest, BackUp, Place, DropBackups, Finish, Abort, Run;
    var m, b, p, k := PublishManifest(targets), BackUp(targets), Place(targets), PublishMarker;
    var undone := PublishMarker[..2] + [Drop(CommitTemp)];
    if !Hits(fault, targets) {
      assert k == PublishMarker[..2] + [PublishMarker[2]];
      assert m + b + p + (k + DropBackups(targets) + Finish(targets)) == UntilMarker(targets) + FromMarker(targets);
    } else if fault.AtMarker? {
      assert Attempt(targets, fault) == m + b + p + undone;
    }
  }

  lemma NamesKeptByManifest(s: Files, targets: seq<Target>)
    requires TempsIn(s, targets) && OldIn(s, targets)
    ensures var t := Run(s, PublishManifest(targets)); TempsIn(t, targets) && OldIn(t, targets)
  {
    hide ManifestBytes;
    var a, b, c := Drop(ManifestTemp), Write(ManifestTemp, ManifestBytes(targets)), Move(ManifestTemp, Manifest);
    assert PublishManifest(targets) == [a, b] + [c];
    RunTwo(s, a, b);
    RunConcat(s, [a, b], [c]);
    RunOne(Apply(Apply(s, a), b), c);
  }

  lemma TempsKept(targets: seq<Target>, s: Files, t: Files)
    requires TempsIn(s, targets)
    requires forall i :: 0 <= i < |targets| ==> SameAt(t, s, Temp(targets[i].file))
    ensures TempsIn(t, targets)
  {
  }

  lemma LiveKept(targets: seq<Target>, placed: Files, marked: Files, cleaned: Files)
    requires AllPlaced(placed, targets)
    requires forall f :: SameAt(marked, placed, Live(f))
    requires forall f :: SameAt(cleaned, marked, Live(f))
    ensures AllPlaced(cleaned, targets)
  {
    forall i | 0 <= i < |targets|
      ensures Live(targets[i].file) in cleaned
    {
      assert SameAt(cleaned, marked, Live(targets[i].file)) && SameAt(marked, placed, Live(targets[i].file));
    }
  }

  // ---------------------------------------------------------------- one more turn of a loop

  lemma {:induction false} BackUpNext(targets: seq<Target>, k: nat)
    requires k < |targets|
    ensures var t := targets[k];
      BackUp(targets[..k + 1]) == BackUp(targets[..k]) + if t.hadPath then [Move(Live(t.file), Backup(t.file))] else []
    decreases k
  {
    assert targets[..k + 1][0] == targets[0];
    if k == 0 {
      assert targets[..1][1..] == [] && targets[..0] == [];
    } else {
      BackUpNext(targets[1..], k - 1);
      assert targets[..k + 1][1..] == targets[1..][..k] && targets[..k][1..] == targets[1..][..k - 1];
    }
  }

  lemma {:induction false} PlaceNext(targets: seq<Target>, k: nat)
    requires k < |targets|
    ensures Place(targets[..k + 1]) == Place(targets[..k]) + [Move(Temp(targets[k].file), Live(targets[k].file))]
    decreases k
  {
    if k == 0 {
      assert targets[..1][1..] == [] && targets[..0] == [];
    } else {
      PlaceNext(targets[1..], k - 1);
      assert targets[..k + 1][1..] == targets[1..][..k] && targets[..k][1..] == targets[1..][..k - 1];
    }
  }

  lemma {:induction false} DropBackupsNext(targets: seq<Target>, k: nat)
    requires k < |targets|
    ensures DropBackups(targets[..k + 1]) == DropBackups(targets[..k]) + [Drop(Backup(targets[k].file))]
    decreases k
  {
    if k == 0 {
      assert targets[..1][1..] == [] && targets[..0] == [];
    } else {
      DropBackupsNext(targets[1..], k - 1);
      assert targets[..k + 1][1..] == targets[1..][..k] && targets[..k][1..] == targets[1..][..k - 1];
    }
  }

  lemma {:induction false} DropArtifactsNext(targets: seq<Target>, k: nat)
    requires k < |targets|
    ensures DropArtifacts(targets[..k + 1])
      == DropArtifacts(targets[..k]) + [Drop(Backup(targets[k].file)), Drop(Temp(targets[k].file))]
    decreases k
  {
    if k == 0 {
      assert targets[..1][1..] == [] && targets[..0] == [];
    } else {
      DropArtifactsNext(targets[1..], k - 1);
      assert targets[..k + 1][1..] == targets[1..][..k] && targets[..k][1..] == targets[1..][..k - 1];
    }
  }

  lemma UndoNext(s: Files, targets: seq<Target>, k: nat, done: seq<Action>)
    requires 0 < k <= |targets|
    ensures var undo := UndoOne(s, targets[k - 1]);
      done + UndoAll(s, targets[..k]) == done + undo + UndoAll(Run(s, undo), targets[..k - 1])
  {
    hide UndoOne;
    assert targets[..k][k - 1] == targets[k - 1] && targets[..k][..k - 1] == targets[..k - 1];
  }

  lemma SweepNext(s: Files, names: seq<string>, i: nat, done: seq<Action>)
    requires i < |names|
    ensures var sweep := Artifacts(s, names[i]);
      done + AllArtifacts(s, names[i..]) == done + sweep + AllArtifacts(Run(s, sweep), names[i + 1..])
  {
    hide Artifacts;
    assert names[i..][1..] == names[i + 1..];
  }

  lemma ReopenIs(s: Files)
    ensures Reopen(s).Some? <==> Recover(s).Some?
    ensures Recover(s).Some? ==>
      Reopen(s).value == Recover(s).value + AllArtifacts(Run(s, Recover(s).value), SweptFiles)
  {
    hide Recover, AllArtifacts, Run;
  }

  lemma OpenNext(s: Files, names: seq<string>, i: nat, done: seq<Action>)
    requires i < |names|
    ensures var open := OpenFile(s, names[i]);
      done + OpenFiles(s, names[i..]) == done + open + OpenFiles(Run(s, open), names[i + 1..])
  {
    hide OpenFile;
    assert names[i..][1..] == names[i + 1..];
  }

  lemma TailIs(s: Files, file: string)
    requires Live(file) in s
    ensures var data := s[Live(file)];
      var scan := TailRecovery.ScanTail(data, BodyStart(data));
      && (scan.Clean? ==> TailActions(s, file) == [])
      && (scan.Cut? ==> scan.at <= |data|)
      && (scan.Cut? ==>
            TailActions(s, file) ==
              Copies(data, scan.at, file) + Replace(Run(s, Copies(data, scan.at, file)), file, NoReplaceFault))
  {
    hide BodyStart, Copies, Replace, Run;
  }

  lemma CopiesAre(data: string, at: nat, file: string)
    requires at <= |data|
    ensures Copies(data, at, file) ==
      [Drop(Temp(file)), Drop(Orphan(file)), Write(Orphan(file), data[at..]), Write(Temp(file), data[..at])]
  {
  }

  lemma NoneToOpen(s: Files)
    ensures OpenFiles(s, []) == []
  {
  }
}
