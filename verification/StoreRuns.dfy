/** Whole runs of the store: saves, failed saves, crashes and interrupted recoveries in any order
    look like a store that applies each save at once or not at all. */
module StoreRuns {
  import opened Options
  import opened StoreNames
  import opened FileActions
  import opened ManifestFile
  import opened Transaction
  import TS = TransactionStates
  import CS = CommitSteps
  import RP = RollbackPath
  import RS = RecoverySteps
  import TT = TransactionTheorems
  import RT = ReplaceTheorems

  /** A save is followed to its end, or the process stops in it and in each of some recoveries
      before one recovery finishes. */
  datatype Ending = Finished | Crashed(stop: Stop, reopens: seq<Stop>)

  datatype Save =
    | Grouped(files: seq<string>, contents: seq<string>, fault: Fault, ending: Ending)
    | Single(file: string, content: string, replaceFault: ReplaceFault, ending: Ending)
  {
    predicate Sized() {
      Grouped? ==> |contents| == |files|
    }
  }

  predicate AllSized(saves: seq<Save>) {
    forall i :: 0 <= i < |saves| ==> saves[i].Sized()
  }

  /** A directory as every completed save and every completed recovery leaves it. */
  ghost predicate Tidy(s: Files) {
    Manifest !in s && Commit !in s && forall f :: IsManaged(f) ==> Backup(f) !in s
  }

  ghost predicate Admissible(save: Save) {
    match save
    case Grouped(files, contents, _, _) => ValidTargets(files) && |contents| == |files|
    case Single(file, _, _, _) => file in SweptFiles
  }

  function Actions(s: Files, save: Save): seq<Action>
    requires save.Sized()
  {
    match save
    case Grouped(files, contents, fault, _) => TT.SessionActions(TS.Tx(s, files, contents), fault)
    case Single(file, content, fault, _) => RT.Session(RT.Rx(s, file, content), fault)
  }

  /** The directory after a save and whatever recovery follows; `None` if a recovery refuses. */
  ghost function After(s: Files, save: Save): Option<Files>
    requires save.Sized()
  {
    match save.ending
    case Finished => Some(Run(s, Actions(s, save)))
    case Crashed(stop, reopens) =>
      match TT.AfterStops(Interrupted(s, Actions(s, save), stop), reopens)
      case None => None
      case Some(t) => match Reopen(t)
        case None => None
        case Some(recovery) => Some(Run(t, recovery))
  }

  ghost function AfterAll(s: Files, saves: seq<Save>): Option<Files>
    requires AllSized(saves)
    decreases |saves|
  {
    if saves == [] then Some(s)
    else match After(s, saves[0])
      case None => None
      case Some(t) => AfterAll(t, saves[1..])
  }

  // ---------------------------------------------------------------- the atomic store

  /** What a reader sees. */
  type View = map<string, string>

  ghost function ViewOf(s: Files): View {
    map f | f in ManagedFiles && Live(f) in s :: s[Live(f)]
  }

  function Put(view: View, files: seq<string>, contents: seq<string>): View
    requires |files| == |contents|
    decreases |files|
  {
    if files == [] then view else Put(view[files[0] := contents[0]], files[1..], contents[1..])
  }

  function ApplySave(view: View, save: Save, taken: bool): View
    requires save.Sized()
  {
    if !taken then view
    else match save
      case Grouped(files, contents, _, _) => Put(view, files, contents)
      case Single(file, content, _, _) => view[file := content]
  }

  function ApplySaves(view: View, saves: seq<Save>, taken: seq<bool>): View
    requires |saves| == |taken| && AllSized(saves)
    decreases |saves|
  {
    if saves == [] then view else ApplySaves(ApplySave(view, saves[0], taken[0]), saves[1..], taken[1..])
  }

  /** When a save takes effect: no rename failed, and a stop came after its commit point. */
  predicate Taken(s: Files, save: Save)
    requires save.Sized()
  {
    match save
    case Grouped(files, contents, fault, ending) =>
      var tx := TS.Tx(s, files, contents);
      if ending.Finished? then !Hits(fault, tx.Targets()) else TT.MarkerOut(tx, fault, ending.stop)
    case Single(file, content, fault, ending) =>
      var rx := RT.Rx(s, file, content);
      if ending.Finished? then RT.Succeeds(rx, fault) else RT.Replaced(rx, fault, ending.stop)
  }

  lemma {:induction false} PutAt(view: View, files: seq<string>, contents: seq<string>)
    requires |files| == |contents| && Distinct(files)
    ensures forall i :: 0 <= i < |files| ==>
      files[i] in Put(view, files, contents) && Put(view, files, contents)[files[i]] == contents[i]
    ensures forall f :: f !in files && f in view ==>
      f in Put(view, files, contents) && Put(view, files, contents)[f] == view[f]
    ensures forall f :: f !in files && f !in view ==> f !in Put(view, files, contents)
    decreases |files|
  {
    if files != [] {
      var next := view[files[0] := contents[0]];
      PutAt(next, files[1..], contents[1..]);
      assert files[0] !in files[1..];
      forall i | 0 <= i < |files|
        ensures files[i] in Put(view, files, contents) && Put(view, files, contents)[files[i]] == contents[i]
      {
        if i > 0 {
          assert files[1..][i - 1] == files[i];
        }
      }
      forall f | f !in files
        ensures f in view ==> f in Put(view, files, contents) && Put(view, files, contents)[f] == view[f]
        ensures f !in view ==> f !in Put(view, files, contents)
      {
        assert f != files[0] && f !in files[1..];
      }
    }
  }

  lemma ViewUnchanged(s: Files, t: Files)
    requires forall f :: SameAt(t, s, Live(f))
    ensures ViewOf(t) == ViewOf(s)
  {
    assert forall f :: f in ManagedFiles ==> (Live(f) in t <==> Live(f) in s);
  }

  lemma ViewAfterGroup(tx: TS.Tx, t: Files)
    requires tx.Valid() && TT.AllNew(tx, t) && forall g :: g !in tx.files ==> SameAt(t, tx.before, Live(g))
    ensures ViewOf(t) == Put(ViewOf(tx.before), tx.files, tx.contents)
  {
    hide ManifestBytes;
    var put := Put(ViewOf(tx.before), tx.files, tx.contents);
    PutAt(ViewOf(tx.before), tx.files, tx.contents);
    forall f
      ensures (f in ViewOf(t) <==> f in put) && (f in put ==> ViewOf(t)[f] == put[f])
    {
      if f in tx.files {
        var i := CS.ByIndex(tx, f);
        assert TS.IsNew(tx, t, i);
        ManagedIsListed(f);
      } else {
        assert SameAt(t, tx.before, Live(f));
      }
    }
  }

  lemma ViewAfterSingle(rx: RT.Rx, t: Files)
    requires rx.Valid() && RT.IsNew(rx, t) && forall g :: g != rx.file ==> SameAt(t, rx.before, Live(g))
    ensures ViewOf(t) == ViewOf(rx.before)[rx.file := rx.content]
  {
    RS.SweptAreManaged();
    ManagedIsListed(rx.file);
    forall f
      ensures f in ViewOf(t) <==> f in ViewOf(rx.before)[rx.file := rx.content]
      ensures f in ViewOf(t) ==> ViewOf(t)[f] == ViewOf(rx.before)[rx.file := rx.content][f]
    {
      if f != rx.file {
        assert SameAt(t, rx.before, Live(f));
      }
    }
  }

  // ---------------------------------------------------------------- one save

  /** A group save followed to its end leaves no transaction behind. */
  lemma GroupEnds(tx: TS.Tx, fault: Fault)
    requires tx.Valid()
    ensures var t := Run(tx.before, TT.SessionActions(tx, fault));
      && TS.Holds(tx, if Hits(fault, tx.Targets()) then TS.Old else TS.New, t)
      && Manifest !in t && Commit !in t
  {
    hide *;
    TT.SameLengths(tx);
    TT.SessionIs(tx, fault);
    var targets := tx.Targets();
    var stage := CS.Stage(tx.files, tx.contents);
    CS.StageSteps(tx);
    var s := Run(tx.before, stage);
    TT.CommitIs(tx, s, fault);
    RunConcat(tx.before, stage, CommitActions(s, tx.files, fault));
    if Hits(fault, targets) {
      TT.SessionSteps(tx, fault);
      TS.AlwaysAtEnd(tx, TS.Old, tx.before, TT.SessionActions(tx, fault));
      TT.FaultSteps(tx, s, fault);
      var t := Run(s, Attempt(targets, fault));
      TS.AlwaysAtEnd(tx, TS.Old, s, Attempt(targets, fault));
      if fault.AtManifest? {
        ManifestNeverOut(tx, s);
      } else {
        RP.RollbackSteps(tx, t);
        TT.AbortIs(t, targets);
        RunConcat(s, Attempt(targets, fault), Rollback(t, targets));
        SettledMeans(Run(t, Rollback(t, targets)));
      }
    } else {
      TT.UntilMarkerSteps(tx, s);
      var t := Run(s, UntilMarker(targets));
      TT.Whole(tx);
      var u := Apply(t, PublishMarker[2]);
      TT.FromMarkerSteps(tx, u);
      var rest := DropBackups(targets) + Finish(targets);
      TS.AlwaysAtEnd(tx, TS.New, u, rest);
      RunConcat(s, UntilMarker(targets), FromMarker(targets));
      FromMarkerRuns(t, targets);
      SettledMeans(Run(u, rest));
    }
  }

  lemma SettledMeans(s: Files)
    requires TS.Settled(s)
    ensures Manifest !in s && Commit !in s
  {
  }

  lemma FromMarkerRuns(t: Files, targets: seq<Target>)
    ensures Run(t, FromMarker(targets)) == Run(Apply(t, PublishMarker[2]), DropBackups(targets) + Finish(targets))
  {
    hide Apply, DropBackups, Finish;
    var all := FromMarker(targets);
    assert all[0] == PublishMarker[2] && all[1..] == DropBackups(targets) + Finish(targets);
  }

  lemma ManifestNeverOut(tx: TS.Tx, s: Files)
    requires tx.Valid() && CS.Staged(tx, s)
    ensures var t := Run(s, Attempt(tx.Targets(), AtManifest)); Manifest !in t && Commit !in t
  {
    hide TS.Holds, ManifestBytes;
    CS.StagedHolds(tx, s);
    TT.FirstTwo(tx.Targets());
    TS.ScratchActions(tx, TS.Old, s, Attempt(tx.Targets(), AtManifest));
    assert !TS.Scratch(Manifest) && !TS.Scratch(Commit);
  }

  lemma HoldsView(tx: TS.Tx, side: TS.Side, t: Files)
    requires tx.Valid() && TS.Holds(tx, side, t) && Manifest !in t && Commit !in t
    ensures Tidy(t)
    ensures ViewOf(t) == if side == TS.New then Put(ViewOf(tx.before), tx.files, tx.contents) else ViewOf(tx.before)
  {
    hide ManifestBytes, IsManaged, ViewOf, Put;
    forall f | IsManaged(f)
      ensures Backup(f) !in t
    {
      RS.NoBackups(tx, side, t, f);
    }
    forall g | g !in tx.files
      ensures SameAt(t, tx.before, Live(g))
    {
      assert !TS.Owned(tx, Live(g));
    }
    if side == TS.New {
      ViewAfterGroup(tx, t);
    } else {
      forall f
        ensures SameAt(t, tx.before, Live(f))
      {
        assert f in tx.files ==> TS.IsOld(tx, t, f);
      }
      ViewUnchanged(tx.before, t);
    }
  }

  lemma GroupIsAtomic(s: Files, save: Save)
    requires Tidy(s) && Admissible(save) && save.Grouped?
    ensures After(s, save).Some? && Tidy(After(s, save).value)
    ensures ViewOf(After(s, save).value) == ApplySave(ViewOf(s), save, Taken(s, save))
  {
    hide TS.Holds, Reopen, ManifestBytes, IsManaged, ViewOf, Put, TT.SessionActions, TT.MarkerOut, RS.Swept, Hits,
      ValidTargets;
    var tx := TS.Tx(s, save.files, save.contents);
    if save.ending.Finished? {
      GroupEnds(tx, save.fault);
      HoldsView(tx, if Hits(save.fault, tx.Targets()) then TS.Old else TS.New, Run(s, Actions(s, save)));
    } else {
      var stop, reopens := save.ending.stop, save.ending.reopens;
      var side := if TT.MarkerOut(tx, save.fault, stop) then TS.New else TS.Old;
      TT.SessionAtStop(tx, save.fault, stop);
      var first := Interrupted(s, TT.SessionActions(tx, save.fault), stop);
      TT.StopsKeepSide(tx, side, first, reopens);
      var crashed := TT.AfterStops(first, reopens).value;
      RS.ReopenSteps(tx, side, crashed);
      var t := Run(crashed, Reopen(crashed).value);
      SweptMeans(t);
      HoldsView(tx, side, t);
    }
  }

  lemma SweptMeans(s: Files)
    requires RS.Swept(s)
    ensures Manifest !in s && Commit !in s
  {
  }

  lemma SingleView(rx: RT.Rx, side: TS.Side, t: Files)
    requires rx.Valid() && RT.Holds(rx, side, t) && Backup(rx.file) !in t
    ensures Tidy(t)
    ensures ViewOf(t) == if side == TS.New then ViewOf(rx.before)[rx.file := rx.content] else ViewOf(rx.before)
  {
    hide IsManaged, ViewOf;
    forall f | IsManaged(f)
      ensures Backup(f) !in t
    {
      RT.OthersHaveNoBackup(rx, side, t, f);
    }
    forall g | g != rx.file
      ensures SameAt(t, rx.before, Live(g))
    {
      assert !RT.Owned(rx, Live(g));
    }
    if side == TS.New {
      ViewAfterSingle(rx, t);
    } else {
      ViewUnchanged(rx.before, t);
    }
  }

  lemma SingleIsAtomic(s: Files, save: Save)
    requires Tidy(s) && Admissible(save) && save.Single?
    ensures After(s, save).Some? && Tidy(After(s, save).value)
    ensures ViewOf(After(s, save).value) == ApplySave(ViewOf(s), save, Taken(s, save))
  {
    hide RT.Holds, Reopen, IsManaged, ViewOf, RT.Session, RT.Replaced, RT.Succeeds, Through, TT.AfterStops;
    var rx := RT.Rx(s, save.file, save.content);
    if save.ending.Finished? {
      RT.SessionSteps(rx, save.replaceFault);
      if !RT.Succeeds(rx, save.replaceFault) {
        ThroughAtEnd(RT.States(rx, TS.Old), s, RT.Session(rx, save.replaceFault));
      }
      SingleView(rx, if RT.Succeeds(rx, save.replaceFault) then TS.New else TS.Old, Run(s, Actions(s, save)));
    } else {
      var stop, reopens := save.ending.stop, save.ending.reopens;
      var side := if RT.Replaced(rx, save.replaceFault, stop) then TS.New else TS.Old;
      RT.SessionAtStop(rx, save.replaceFault, stop);
      var first := Interrupted(s, RT.Session(rx, save.replaceFault), stop);
      RT.StopsKeepSide(rx, side, first, reopens);
      var crashed := TT.AfterStops(first, reopens).value;
      RT.ReopenSteps(rx, side, crashed);
      SingleView(rx, side, Run(crashed, Reopen(crashed).value));
    }
  }

  // ---------------------------------------------------------------- the main result

  /** Which saves of a run take effect. */
  ghost function TakenAll(s: Files, saves: seq<Save>): (taken: seq<bool>)
    requires AllSized(saves)
    ensures |taken| == |saves|
    decreases |saves|
  {
    if saves == [] then [] else
      [Taken(s, saves[0])] + match After(s, saves[0])
        case None => seq(|saves| - 1, _ => false)
        case Some(t) => TakenAll(t, saves[1..])
  }

  /** Every run is a run of the atomic store: recovery never refuses, and what readers see after the
      run is what the taken saves, in order, make of what they saw before it. */
  lemma {:induction false} RunsAreAtomic(s: Files, saves: seq<Save>)
    requires Tidy(s) && AllSized(saves) && forall i :: 0 <= i < |saves| ==> Admissible(saves[i])
    ensures AfterAll(s, saves).Some? && Tidy(AfterAll(s, saves).value)
    ensures ViewOf(AfterAll(s, saves).value) == ApplySaves(ViewOf(s), saves, TakenAll(s, saves))
    decreases |saves|
  {
    hide After, Tidy, ViewOf, ApplySave, Taken;
    if saves != [] {
      assert Admissible(saves[0]);
      if saves[0].Grouped? {
        GroupIsAtomic(s, saves[0]);
      } else {
        SingleIsAtomic(s, saves[0]);
      }
      var t := After(s, saves[0]).value;
      RunsAreAtomic(t, saves[1..]);
      assert TakenAll(s, saves)[1..] == TakenAll(t, saves[1..]);
    }
  }
}
