/** Every step of a rollback keeps the old version within reach (`rollbackUncommittedTransaction`). */
module RollbackPath {
  import opened StoreNames
  import opened FileActions
  import opened ManifestFile
  import opened Transaction
  import opened TransactionStates
  import opened CommitSteps

  // ---------------------------------------------------------------- rollback

  /** While the manifest is there, each step of putting a file back leaves the old version within reach. */
  lemma OldStep(tx: Tx, s: Files, f: string, a: Action)
    requires tx.Valid() && Holds(tx, Old, s) && Manifest in s && f in tx.files && KeepsOld(tx, s, f)
    requires
      || (a == Drop(Live(f)) && (Backup(f) in s || Live(f) !in tx.before))
      || (a == Move(Backup(f), Live(f)) && Backup(f) in s && Live(f) !in s)
      || a == Drop(Temp(f))
    ensures var t := Apply(s, a);
      && Holds(tx, Old, t) && Manifest in t
      && (a.Move? ==> IsOld(tx, t, f))
      && (a == Drop(Live(f)) && Live(f) !in tx.before ==> IsOld(tx, t, f))
      && (a == Drop(Temp(f)) && IsOld(tx, s, f) ==> IsOld(tx, t, f) && Temp(f) !in t)
  {
    hide ManifestBytes, IsManaged;
    var t := Apply(s, a);
    forall n | !Owned(tx, n)
      ensures SameAt(t, tx.before, n)
    {
      assert SameAt(s, tx.before, n);
    }
    forall g | g in tx.files
      ensures KeepsOld(tx, t, g)
    {
      assert KeepsOld(tx, s, g);
    }
  }

  /** `UndoOne` puts one file back and touches no other. */
  lemma UndoStep(tx: Tx, s: Files, t: Target)
    requires tx.Valid() && Holds(tx, Old, s) && Manifest in s && t in tx.Targets()
    ensures Always(tx, Old, s, UndoOne(s, t))
    ensures var u := Run(s, UndoOne(s, t));
      && Manifest in u && IsOld(tx, u, t.file) && Temp(t.file) !in u
      && forall n :: n !in {Live(t.file), Backup(t.file), Temp(t.file)} ==> SameAt(u, s, n)
  {
    hide ManifestBytes, IsManaged, Always, Holds;
    var f := t.file;
    var k :| 0 <= k < |tx.files| && tx.Targets()[k] == t;
    assert f == tx.files[k] && t.hadPath == (Live(f) in tx.before);
    ManifestMeansKept(tx, s, f);
    if Backup(f) in s {
      var m := Move(Backup(f), Live(f));
      if Live(f) in s {
        ReplaceBackAndClean(tx, s, f);
        assert UndoOne(s, t) == [Drop(Live(f)), m, Drop(Temp(f))];
      } else {
        MoveBackAndClean(tx, s, f);
        assert UndoOne(s, t) == [m, Drop(Temp(f))];
      }
    } else if !t.hadPath {
      var d := Drop(Live(f));
      OldStep(tx, s, f, d);
      CleanOne(tx, Apply(s, d), f);
      StepFirst(tx, s, d, [Drop(Temp(f))]);
      assert UndoOne(s, t) == [d] + [Drop(Temp(f))];
    } else {
      CleanOne(tx, s, f);
      assert UndoOne(s, t) == [Drop(Temp(f))];
    }
  }

  lemma ManifestMeansKept(tx: Tx, s: Files, f: string)
    requires tx.Valid() && Holds(tx, Old, s) && Manifest in s && f in tx.files
    ensures KeepsOld(tx, s, f) && HasManifest(tx, s) && Commit !in s
  {
  }

  lemma StepFirst(tx: Tx, s: Files, a: Action, rest: seq<Action>)
    requires tx.Valid() && !a.Write? && Holds(tx, Old, s) && Always(tx, Old, Apply(s, a), rest)
    ensures Always(tx, Old, s, [a] + rest)
    ensures Run(s, [a] + rest) == Run(Apply(s, a), rest)
  {
    hide Holds, Apply;
    assert ([a] + rest)[1..] == rest;
  }

  lemma CleanOne(tx: Tx, s: Files, f: string)
    requires tx.Valid() && Holds(tx, Old, s) && Manifest in s && f in tx.files && IsOld(tx, s, f)
    ensures Always(tx, Old, s, [Drop(Temp(f))])
    ensures var u := Run(s, [Drop(Temp(f))]);
      && Manifest in u && IsOld(tx, u, f) && Temp(f) !in u
      && forall n :: n != Temp(f) ==> SameAt(u, s, n)
  {
    hide ManifestBytes, IsManaged, Holds;
    OldStep(tx, s, f, Drop(Temp(f)));
    AlwaysOne(tx, Old, s, Drop(Temp(f)));
    RunOne(s, Drop(Temp(f)));
  }

  lemma MoveBackAndClean(tx: Tx, s: Files, f: string)
    requires tx.Valid() && Holds(tx, Old, s) && Manifest in s && f in tx.files && KeepsOld(tx, s, f)
    requires Backup(f) in s && Live(f) !in s
    ensures Always(tx, Old, s, [Move(Backup(f), Live(f)), Drop(Temp(f))])
    ensures var u := Run(s, [Move(Backup(f), Live(f)), Drop(Temp(f))]);
      && Manifest in u && IsOld(tx, u, f) && Temp(f) !in u
      && forall n :: n !in {Live(f), Backup(f), Temp(f)} ==> SameAt(u, s, n)
  {
    hide ManifestBytes, IsManaged, Holds, Always;
    var m := Move(Backup(f), Live(f));
    OldStep(tx, s, f, m);
    CleanOne(tx, Apply(s, m), f);
    StepFirst(tx, s, m, [Drop(Temp(f))]);
    assert [m, Drop(Temp(f))] == [m] + [Drop(Temp(f))];
  }

  lemma ReplaceBackAndClean(tx: Tx, s: Files, f: string)
    requires tx.Valid() && Holds(tx, Old, s) && Manifest in s && f in tx.files && KeepsOld(tx, s, f)
    requires Backup(f) in s && Live(f) in s
    ensures Always(tx, Old, s, [Drop(Live(f)), Move(Backup(f), Live(f)), Drop(Temp(f))])
    ensures var u := Run(s, [Drop(Live(f)), Move(Backup(f), Live(f)), Drop(Temp(f))]);
      && Manifest in u && IsOld(tx, u, f) && Temp(f) !in u
      && forall n :: n !in {Live(f), Backup(f), Temp(f)} ==> SameAt(u, s, n)
  {
    hide ManifestBytes, IsManaged, Holds, Always, Run;
    var d, rest := Drop(Live(f)), [Move(Backup(f), Live(f)), Drop(Temp(f))];
    OldStep(tx, s, f, d);
    var s1 := Apply(s, d);
    ManifestMeansKept(tx, s1, f);
    MoveBackAndClean(tx, s1, f);
    StepFirst(tx, s, d, rest);
    assert [d] + rest == [Drop(Live(f)), Move(Backup(f), Live(f)), Drop(Temp(f))];
    var u := Run(s1, rest);
    forall n | n !in {Live(f), Backup(f), Temp(f)}
      ensures SameAt(u, s, n)
    {
      assert SameAt(u, s1, n) && SameAt(s1, s, n);
    }
  }

  /** The rollback loop: the first `k` targets are still to come. */
  lemma {:induction false} UndoSteps(tx: Tx, s: Files, k: nat)
    requires tx.Valid() && k <= |tx.files| && Holds(tx, Old, s) && Manifest in s
    requires forall i :: k <= i < |tx.files| ==> IsOld(tx, s, tx.files[i]) && Temp(tx.files[i]) !in s
    ensures Always(tx, Old, s, UndoAll(s, tx.Targets()[..k]))
    ensures var t := Run(s, UndoAll(s, tx.Targets()[..k]));
      && Manifest in t
      && forall i :: 0 <= i < |tx.files| ==> IsOld(tx, t, tx.files[i]) && Temp(tx.files[i]) !in t
    decreases k
  {
    hide *;
    if k == 0 {
      NothingToUndo(tx, s, tx.Targets());
    } else {
      var last := tx.Targets()[k - 1];
      var undo := UndoOne(s, last);
      TargetAt(tx, k - 1);
      UndoStep(tx, s, last);
      AlwaysAtEnd(tx, Old, s, undo);
      var u := Run(s, undo);
      UndoneStay(tx, s, u, k);
      UndoSteps(tx, u, k - 1);
      UndoAllStep(s, tx.Targets(), k);
      AlwaysConcat(tx, Old, s, undo, UndoAll(u, tx.Targets()[..k - 1]));
      RunConcat(s, undo, UndoAll(u, tx.Targets()[..k - 1]));
    }
  }

  lemma NothingToUndo(tx: Tx, s: Files, targets: seq<Target>)
    requires tx.Valid() && Holds(tx, Old, s)
    ensures UndoAll(s, targets[..0]) == [] && Run(s, []) == s && Always(tx, Old, s, [])
  {
    hide Holds;
    assert targets[..0] == [];
  }

  lemma TargetAt(tx: Tx, i: nat)
    requires i < |tx.files|
    ensures tx.Targets()[i] in tx.Targets() && tx.Targets()[i].file == tx.files[i]
  {
    assert FilesOf(tx.Targets())[i] == tx.files[i];
  }

  lemma UndoAllStep(s: Files, targets: seq<Target>, k: nat)
    requires 0 < k <= |targets|
    ensures var undo := UndoOne(s, targets[k - 1]);
      UndoAll(s, targets[..k]) == undo + UndoAll(Run(s, undo), targets[..k - 1])
  {
    hide UndoOne, Run;
    assert targets[..k][..k - 1] == targets[..k - 1];
  }

  /** What later targets were given back stays when an earlier one is undone. */
  lemma UndoneStay(tx: Tx, s: Files, u: Files, k: nat)
    requires tx.Valid() && 0 < k <= |tx.files|
    requires forall i :: k <= i < |tx.files| ==> IsOld(tx, s, tx.files[i]) && Temp(tx.files[i]) !in s
    requires IsOld(tx, u, tx.files[k - 1]) && Temp(tx.files[k - 1]) !in u
    requires var f := tx.files[k - 1];
      forall n :: n !in {Live(f), Backup(f), Temp(f)} ==> SameAt(u, s, n)
    ensures forall i :: k - 1 <= i < |tx.files| ==> IsOld(tx, u, tx.files[i]) && Temp(tx.files[i]) !in u
  {
    hide ManifestBytes, IsManaged;
    forall i | k <= i < |tx.files|
      ensures IsOld(tx, u, tx.files[i]) && Temp(tx.files[i]) !in u
    {
      var f := tx.files[i];
      assert tx.files[k - 1] != f;
      assert SameAt(u, s, Live(f)) && SameAt(u, s, Backup(f)) && SameAt(u, s, Temp(f));
    }
  }

  /** `rollbackUncommittedTransaction` from any state of the old side that has its manifest. */
  lemma RollbackSteps(tx: Tx, s: Files)
    requires tx.Valid() && Holds(tx, Old, s) && Manifest in s
    ensures CanUndo(s, tx.Targets())
    ensures Always(tx, Old, s, Rollback(s, tx.Targets()))
    ensures var t := Run(s, Rollback(s, tx.Targets()));
      Settled(t) && forall f :: f in tx.files ==> Temp(f) !in t
  {
    hide ManifestBytes, IsManaged, Holds, UndoAll;
    forall i | 0 <= i < |tx.files|
      ensures var t := tx.Targets()[i];
        if t.hadPath then Live(t.file) in s || Backup(t.file) in s else Backup(t.file) !in s
    {
      ManifestMeansKept(tx, s, tx.files[i]);
    }
    assert tx.Targets()[..|tx.files|] == tx.Targets();
    UndoSteps(tx, s, |tx.files|);
    var undo := UndoAll(s, tx.Targets());
    AlwaysAtEnd(tx, Old, s, undo);
    var t := Run(s, undo);
    forall f | f in tx.files
      ensures IsOld(tx, t, f) && Temp(f) !in t
    {
      var i := ByIndex(tx, f);
    }
    ManifestDropped(tx, Old, t);
    ManifestMeansKept(tx, t, tx.files[0]);
    var d, quiet := Drop(Manifest), [Drop(ManifestTemp), Drop(CommitTemp)];
    var u := Apply(t, d);
    ScratchActions(tx, Old, u, quiet);
    RunTwo(u, quiet[0], quiet[1]);
    StepFirst(tx, t, d, quiet);
    AlwaysConcat(tx, Old, s, undo, [d] + quiet);
    RunConcat(s, undo, [d] + quiet);
    assert Rollback(s, tx.Targets()) == undo + ([d] + quiet);
  }
}
