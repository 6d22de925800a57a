/** Crash safety of the replacement transaction: stopped anywhere, and stopped again in any number of
    recoveries, it ends all old or all new, all new exactly when its commit marker was published. */
module TransactionTheorems {
  import opened Options
  import opened StoreNames
  import opened FileActions
  import opened ManifestFile
  import opened Transaction
  import opened TransactionStates
  import opened CommitSteps
  import opened RollbackPath
  import opened RecoverySteps

  // ---------------------------------------------------------------- the whole session

  /** Staging the new contents and committing them, with at most one failing rename. */
  function SessionActions(tx: Tx, fault: Fault): seq<Action>
    requires |tx.files| == |tx.contents|
  {
    var stage := Stage(tx.files, tx.contents);
    stage + CommitActions(Run(tx.before, stage), tx.files, fault)
  }

  /** Whether the marker had been published when the process stopped. */
  predicate MarkerOut(tx: Tx, fault: Fault, stop: Stop)
    requires |tx.files| == |tx.contents|
  {
    !Hits(fault, tx.Targets()) && stop.done > |Stage(tx.files, tx.contents)| + |UntilMarker(tx.Targets())|
  }

  lemma UntilMarkerSteps(tx: Tx, s: Files)
    requires tx.Valid() && Staged(tx, s)
    ensures Always(tx, Old, s, UntilMarker(tx.Targets()))
    ensures Holds(tx, New, Apply(Run(s, UntilMarker(tx.Targets())), PublishMarker[2]))
  {
    hide *;
    var n := |tx.files|;
    var targets := tx.Targets();
    Whole(tx);
    var m, b, p, k := PublishManifest(targets), BackUp(targets), Place(targets), PublishMarker[..2];
    ManifestSteps(tx, s);
    var s1 := Run(s, m);
    BackUpSteps(tx, s1, 0, n);
    var s2 := Run(s1, b);
    AllAside(tx, s2);
    PlaceSteps(tx, s2, 0, n);
    var s3 := Run(s2, p);
    MarkerWritten(tx, s3);
    AlwaysConcat(tx, Old, s, m, b);
    RunConcat(s, m, b);
    AlwaysConcat(tx, Old, s, m + b, p);
    RunConcat(s, m + b, p);
    AlwaysConcat(tx, Old, s, m + b + p, k);
    RunConcat(s, m + b + p, k);
    UntilMarkerIs(targets);
  }

  lemma UntilMarkerIs(targets: seq<Target>)
    ensures UntilMarker(targets) == PublishManifest(targets) + BackUp(targets) + Place(targets) + PublishMarker[..2]
  {
  }

  lemma Whole(tx: Tx)
    ensures tx.Targets()[0..|tx.files|] == tx.Targets() && |PublishMarker| == 3
  {
  }

  lemma AllAside(tx: Tx, s: Files)
    requires tx.Valid() && BackedUp(tx, s, |tx.files|)
    ensures Placed(tx, s, 0)
  {
  }

  lemma FromMarkerSteps(tx: Tx, s: Files)
    requires tx.Valid() && Holds(tx, New, s)
    ensures var rest := DropBackups(tx.Targets()) + Finish(tx.Targets());
      && Always(tx, New, s, rest)
      && Settled(Run(s, rest))
      && forall f :: f in tx.files ==> Backup(f) !in Run(s, rest) && Temp(f) !in Run(s, rest)
  {
    hide Holds, Always, Finish, IsManaged, ManifestBytes, DropBackups;
    var targets := tx.Targets();
    forall i | 0 <= i < |targets|
      ensures targets[i].file in tx.files
    {
      assert targets[i].file == tx.files[i];
    }
    CleanUpIsHarmless(tx, targets);
    HarmlessSteps(tx, s, DropBackups(targets));
    AlwaysAtEnd(tx, New, s, DropBackups(targets));
    var t := Run(s, DropBackups(targets));
    FinishSteps(tx, t);
    AlwaysConcat(tx, New, s, DropBackups(targets), Finish(targets));
    RunConcat(s, DropBackups(targets), Finish(targets));
  }

  /** How far the commit got when its rename failed. */
  ghost predicate Reached(tx: Tx, fault: Fault, s: Files)
    requires tx.Valid() && Hits(fault, tx.Targets())
  {
    match fault
    case AtBackup(i) => BackedUp(tx, s, i)
    case AtPlace(i) => Placed(tx, s, i)
    case AtMarker => forall i :: 0 <= i < |tx.files| ==> IsNew(tx, s, i)
    case _ => true
  }

  lemma ReachedManifest(tx: Tx, s: Files)
    requires tx.Valid()
    ensures Reached(tx, AtManifest, s)
  {
  }

  lemma ReachedBackup(tx: Tx, i: nat, s: Files)
    requires tx.Valid() && Hits(AtBackup(i), tx.Targets()) && i <= |tx.files| && BackedUp(tx, s, i)
    ensures Reached(tx, AtBackup(i), s)
  {
  }

  lemma ReachedPlace(tx: Tx, i: nat, s: Files)
    requires tx.Valid() && Hits(AtPlace(i), tx.Targets()) && i <= |tx.files| && Placed(tx, s, i)
    ensures Reached(tx, AtPlace(i), s)
  {
  }

  lemma ReachedMarker(tx: Tx, s: Files, t: Files)
    requires tx.Valid() && Placed(tx, s, |tx.files|) && forall n :: !Scratch(n) ==> SameAt(t, s, n)
    ensures Reached(tx, AtMarker, t)
  {
    hide ManifestBytes, IsManaged;
    forall i | 0 <= i < |tx.files| ensures IsNew(tx, t, i) {
      assert IsNew(tx, s, i) && SameAt(t, s, Live(tx.files[i]));
    }
  }

  /** A failed rename: everything up to it and the rollback stay on the old side. */
  lemma FaultSteps(tx: Tx, s: Files, fault: Fault)
    requires tx.Valid() && Staged(tx, s) && Hits(fault, tx.Targets())
    ensures Always(tx, Old, s, Attempt(tx.Targets(), fault))
    ensures !fault.AtManifest? ==> Manifest in Run(s, Attempt(tx.Targets(), fault))
    ensures Reached(tx, fault, Run(s, Attempt(tx.Targets(), fault)))
  {
    hide *;
    var targets := tx.Targets();
    var n := |tx.files|;
    Whole(tx);
    HitsInside(tx, fault);
    var m := PublishManifest(targets);
    if fault.AtManifest? {
      StagedHolds(tx, s);
      FirstTwo(targets);
      ScratchActions(tx, Old, s, Attempt(targets, fault));
      ReachedManifest(tx, Run(s, Attempt(targets, fault)));
    } else {
      ManifestSteps(tx, s);
      var s1 := Run(s, m);
      var i := if fault.AtBackup? then fault.i else n;
      BackUpSteps(tx, s1, 0, i);
      var b := BackUp(targets[0..i]);
      AlwaysConcat(tx, Old, s, m, b);
      RunConcat(s, m, b);
      var s2 := Run(s1, b);
      if fault.AtBackup? {
        BackedUpMarks(tx, s2, i);
        ReachedBackup(tx, i, s2);
      } else {
        AllAside(tx, s2);
        var j := if fault.AtPlace? then fault.i else n;
        PlaceSteps(tx, s2, 0, j);
        var p := Place(targets[0..j]);
        AlwaysConcat(tx, Old, s, m + b, p);
        RunConcat(s, m + b, p);
        var s3 := Run(s2, p);
        PlacedMarks(tx, s3, j);
        if fault.AtPlace? {
          ReachedPlace(tx, j, s3);
        }
        if fault.AtMarker? {
          var k := PublishMarker[..2] + [Drop(CommitTemp)];
          MarkerUndoneIsScratch();
          PlacedHolds(tx, s3, n);
          ScratchActions(tx, Old, s3, k);
          AlwaysConcat(tx, Old, s, m + b + p, k);
          RunConcat(s, m + b + p, k);
          ManifestNotScratch(Run(s3, k), s3);
          ReachedMarker(tx, s3, Run(s3, k));
        }
      }
      AttemptIs(tx, fault, i, if fault.AtPlace? then fault.i else n);
    }
  }

  lemma HitsInside(tx: Tx, fault: Fault)
    requires Hits(fault, tx.Targets())
    ensures fault.AtBackup? || fault.AtPlace? ==> fault.i < |tx.files|
    ensures !fault.NoFault?
    ensures fault.AtManifest? || fault.AtMarker? || fault == AtBackup(fault.i) || fault == AtPlace(fault.i)
  {
  }

  lemma FirstTwo(targets: seq<Target>)
    ensures forall i :: 0 <= i < |Attempt(targets, AtManifest)| ==> OnScratch(Attempt(targets, AtManifest)[i])
  {
  }

  lemma MarkerUndoneIsScratch()
    ensures var k := PublishMarker[..2] + [Drop(CommitTemp)];
      forall i :: 0 <= i < |k| ==> OnScratch(k[i])
  {
  }

  lemma BackedUpMarks(tx: Tx, s: Files, k: nat)
    requires tx.Valid() && k <= |tx.files| && BackedUp(tx, s, k)
    ensures Manifest in s
  {
  }

  lemma PlacedMarks(tx: Tx, s: Files, k: nat)
    requires tx.Valid() && k <= |tx.files| && Placed(tx, s, k)
    ensures Manifest in s
  {
  }

  lemma ManifestNotScratch(t: Files, s: Files)
    requires Manifest in s && forall n :: !Scratch(n) ==> SameAt(t, s, n)
    ensures Manifest in t
  {
    assert !Scratch(Manifest);
  }

  lemma AttemptIs(tx: Tx, fault: Fault, i: nat, j: nat)
    requires Hits(fault, tx.Targets()) && !fault.AtManifest?
    requires i == if fault.AtBackup? then fault.i else |tx.files|
    requires j == if fault.AtPlace? then fault.i else |tx.files|
    requires i <= |tx.files| && j <= |tx.files|
    ensures var targets := tx.Targets();
      var m, b, p := PublishManifest(targets), BackUp(targets[0..i]), Place(targets[0..j]);
      Attempt(targets, fault) ==
        if fault.AtBackup? then m + b
        else if fault.AtPlace? then m + b + p
        else m + b + p + (PublishMarker[..2] + [Drop(CommitTemp)])
  {
    var targets := tx.Targets();
    hide PublishManifest, BackUp, Place, TargetsOf;
    assert targets[0..|targets|] == targets;
    var m, b, p := PublishManifest(targets), BackUp(targets[0..i]), Place(targets[0..j]);
    if fault.AtMarker? {
      assert m + b + p + PublishMarker[..2] + [Drop(CommitTemp)] ==
        m + b + p + (PublishMarker[..2] + [Drop(CommitTemp)]);
    }
  }

  // ---------------------------------------------------------------- stopping anywhere

  /** A commit followed to the end, fault or not, stays on the side the fault decides. */
  lemma SessionSteps(tx: Tx, fault: Fault)
    requires tx.Valid() && Hits(fault, tx.Targets())
    ensures Always(tx, Old, tx.before, SessionActions(tx, fault))
  {
    hide *;
    SameLengths(tx);
    var targets := tx.Targets();
    var stage := Stage(tx.files, tx.contents);
    StageSteps(tx);
    var s := Run(tx.before, stage);
    FaultSteps(tx, s, fault);
    var attempt := Attempt(targets, fault);
    CommitIs(tx, s, fault);
    var commit := CommitActions(s, tx.files, fault);
    if !fault.AtManifest? {
      var t := Run(s, attempt);
      AlwaysAtEnd(tx, Old, s, attempt);
      RollbackSteps(tx, t);
      AbortIs(t, targets);
      AlwaysConcat(tx, Old, s, attempt, Rollback(t, targets));
    }
    AlwaysConcat(tx, Old, tx.before, stage, commit);
    SessionIs(tx, fault);
  }

  lemma AbortIs(s: Files, targets: seq<Target>)
    requires CanUndo(s, targets)
    ensures Abort(s, targets) == Rollback(s, targets)
  {
  }

  lemma CommitIs(tx: Tx, s: Files, fault: Fault)
    requires tx.Valid() && TargetsOf(s, tx.files) == tx.Targets()
    ensures var targets, commit := tx.Targets(), CommitActions(s, tx.files, fault);
      && (!Hits(fault, targets) ==> commit == UntilMarker(targets) + FromMarker(targets))
      && (Hits(fault, targets) && fault.AtManifest? ==> commit == Attempt(targets, fault))
      && (Hits(fault, targets) && !fault.AtManifest? ==>
            commit == Attempt(targets, fault) + Abort(Run(s, Attempt(targets, fault)), targets))
  {
    hide Hits, UntilMarker, FromMarker, Attempt, Abort, TargetsOf;
  }

  lemma SessionIs(tx: Tx, fault: Fault)
    requires tx.Valid()
    ensures var stage := Stage(tx.files, tx.contents);
      SessionActions(tx, fault) == stage + CommitActions(Run(tx.before, stage), tx.files, fault)
  {
  }

  /** Stop the session anywhere: the marker decides the side. */
  lemma SessionAtStop(tx: Tx, fault: Fault, stop: Stop)
    requires tx.Valid()
    ensures Holds(tx, if MarkerOut(tx, fault, stop) then New else Old,
      Interrupted(tx.before, SessionActions(tx, fault), stop))
  {
    hide *;
    SameLengths(tx);
    var targets := tx.Targets();
    SessionIs(tx, fault);
    MarkerOutIs(tx, fault, stop);
    if Hits(fault, targets) {
      SessionSteps(tx, fault);
      AlwaysAtStop(tx, Old, tx.before, SessionActions(tx, fault), stop);
    } else {
      var stage := Stage(tx.files, tx.contents);
      StageSteps(tx);
      var s := Run(tx.before, stage);
      CommitIs(tx, s, fault);
      var first, second := UntilMarker(targets), FromMarker(targets);
      if stop.done < |stage| {
        StopInFirst(tx.before, stage, first + second, stop);
        AlwaysAtStop(tx, Old, tx.before, stage, stop);
      } else {
        var stop1 := Later(stop, |stage|);
        LaterDone(stop, |stage|);
        StopInSecond(tx.before, stage, first + second, stop);
        CommitAtStop(tx, s, stop1);
      }
    }
  }

  lemma SameLengths(tx: Tx)
    requires tx.Valid()
    ensures |tx.files| == |tx.contents|
  {
  }

  lemma MarkerOutIs(tx: Tx, fault: Fault, stop: Stop)
    requires tx.Valid()
    ensures MarkerOut(tx, fault, stop) <==>
      !Hits(fault, tx.Targets()) && stop.done > |Stage(tx.files, tx.contents)| + |UntilMarker(tx.Targets())|
  {
  }

  lemma CommitAtStop(tx: Tx, s: Files, stop: Stop)
    requires tx.Valid() && Staged(tx, s)
    ensures var actions := UntilMarker(tx.Targets()) + FromMarker(tx.Targets());
      Holds(tx, if stop.done > |UntilMarker(tx.Targets())| then New else Old, Interrupted(s, actions, stop))
  {
    hide *;
    var targets := tx.Targets();
    var first, second := UntilMarker(targets), FromMarker(targets);
    UntilMarkerSteps(tx, s);
    if stop.done < |first| {
      StopInFirst(s, first, second, stop);
      AlwaysAtStop(tx, Old, s, first, stop);
    } else {
      var t := Run(s, first);
      StopInSecond(s, first, second, stop);
      LaterDone(stop, |first|);
      AlwaysAtEnd(tx, Old, s, first);
      SecondAtStop(tx, t, Later(stop, |first|));
    }
  }

  lemma SecondAtStop(tx: Tx, t: Files, stop: Stop)
    requires tx.Valid() && Holds(tx, Old, t) && Holds(tx, New, Apply(t, PublishMarker[2]))
    ensures Holds(tx, if stop.done > 0 then New else Old, Interrupted(t, FromMarker(tx.Targets()), stop))
  {
    hide Holds, DropBackups, Finish, TargetsOf, IsManaged, ManifestBytes, Always;
    var rest := DropBackups(tx.Targets()) + Finish(tx.Targets());
    var all := FromMarker(tx.Targets());
    assert all[0] == PublishMarker[2] && all[1..] == rest;
    if stop.done > 0 {
      var u := Apply(t, PublishMarker[2]);
      FromMarkerSteps(tx, u);
      AlwaysAtStop(tx, New, u, rest, Later(stop, 1));
    }
  }

  // ---------------------------------------------------------------- the main results

  /** The process is stopped during one reopen after another; `None` if a reopen refuses. */
  ghost function AfterStops(s: Files, stops: seq<Stop>): Option<Files>
    decreases |stops|
  {
    if stops == [] then Some(s)
    else match Reopen(s)
      case None => None
      case Some(actions) => AfterStops(Interrupted(s, actions, stops[0]), stops[1..])
  }

  lemma {:induction false} StopsKeepSide(tx: Tx, side: Side, s: Files, stops: seq<Stop>)
    requires tx.Valid() && Holds(tx, side, s)
    ensures AfterStops(s, stops).Some? && Holds(tx, side, AfterStops(s, stops).value)
    decreases |stops|
  {
    hide Holds, Always, Reopen;
    if stops != [] {
      ReopenSteps(tx, side, s);
      AlwaysAtStop(tx, side, s, Reopen(s).value, stops[0]);
      StopsKeepSide(tx, side, Interrupted(s, Reopen(s).value, stops[0]), stops[1..]);
    }
  }

  /** Every target has its old content, or is absent if it was absent. */
  ghost predicate AllOld(tx: Tx, s: Files) {
    forall f :: f in tx.files ==> SameAt(s, tx.before, Live(f))
  }

  /** Every target has its new content. */
  ghost predicate AllNew(tx: Tx, s: Files)
    requires |tx.contents| == |tx.files|
  {
    forall i :: 0 <= i < |tx.files| ==> IsNew(tx, s, i)
  }

  /** Atomicity under crashes.  Stop the session anywhere, stop each of any number of recoveries
      anywhere, then let one recovery finish: no recovery refuses, every target is old or every
      target is new, new exactly when the marker was out, every other live file is as before, and
      nothing of the transaction is left. */
  lemma CrashAtomicity(tx: Tx, fault: Fault, stop: Stop, stops: seq<Stop>)
    requires tx.Valid()
    ensures var crashed := AfterStops(Interrupted(tx.before, SessionActions(tx, fault), stop), stops);
      && crashed.Some?
      && Reopen(crashed.value).Some?
      && var final := Run(crashed.value, Reopen(crashed.value).value);
        && (if MarkerOut(tx, fault, stop) then AllNew(tx, final) else AllOld(tx, final))
        && (forall g :: g !in tx.files ==> SameAt(final, tx.before, Live(g)))
        && (forall f :: IsManaged(f) ==> Backup(f) !in final)
        && Swept(final)
  {
    hide *;
    SameLengths(tx);
    var side := if MarkerOut(tx, fault, stop) then New else Old;
    var first := Interrupted(tx.before, SessionActions(tx, fault), stop);
    SessionAtStop(tx, fault, stop);
    StopsKeepSide(tx, side, first, stops);
    var crashed := AfterStops(first, stops).value;
    ReopenSteps(tx, side, crashed);
    FinalState(tx, side, Run(crashed, Reopen(crashed).value));
  }

  lemma FinalState(tx: Tx, side: Side, s: Files)
    requires tx.Valid() && Holds(tx, side, s) && Swept(s)
    ensures if side == New then AllNew(tx, s) else AllOld(tx, s)
    ensures forall g :: g !in tx.files ==> SameAt(s, tx.before, Live(g))
    ensures forall f :: IsManaged(f) ==> Backup(f) !in s
  {
    hide ManifestBytes, IsManaged;
    forall f | IsManaged(f)
      ensures Backup(f) !in s
    {
      NoBackups(tx, side, s, f);
    }
    forall g | g !in tx.files
      ensures SameAt(s, tx.before, Live(g))
    {
      assert !Owned(tx, Live(g));
    }
  }

  /** Old and new differ, so the two outcomes exclude each other whenever the transaction writes something. */
  lemma OutcomesExclude(tx: Tx, s: Files, i: nat)
    requires tx.Valid() && i < |tx.files|
    requires !(Live(tx.files[i]) in tx.before && tx.before[Live(tx.files[i])] == tx.contents[i])
    ensures !(AllOld(tx, s) && AllNew(tx, s))
  {
    assert tx.files[i] in tx.files;
    if AllNew(tx, s) {
      assert IsNew(tx, s, i);
    }
  }

  /** A rename of the commit fails, and a step of the abort fails in its turn, with the process going on:
      every old version is still there, and the recovery that begins the next transaction puts all of
      them back. */
  lemma FailedAbort(tx: Tx, fault: Fault, done: nat)
    requires tx.Valid() && Hits(fault, tx.Targets())
    ensures var s := Interrupted(tx.before, SessionActions(tx, fault), Between(done));
      && Holds(tx, Old, s) && Recover(s).Some?
      && var t := Run(s, Recover(s).value); Settled(t) && Holds(tx, Old, t) && AllOld(tx, t)
  {
    hide *;
    SameLengths(tx);
    var s := Interrupted(tx.before, SessionActions(tx, fault), Between(done));
    MarkerOutIs(tx, fault, Between(done));
    SessionAtStop(tx, fault, Between(done));
    RecoverSteps(tx, Old, s);
    AlwaysAtEnd(tx, Old, s, Recover(s).value);
    OldIsAllOld(tx, Run(s, Recover(s).value));
  }

  lemma OldIsAllOld(tx: Tx, t: Files)
    requires tx.Valid() && Holds(tx, Old, t) && Settled(t)
    ensures AllOld(tx, t)
  {
    hide ManifestBytes, IsManaged;
  }
}
