/** Crash safety of `replaceFileWithTemp`: removing the backup is its commit point. */
module ReplaceTheorems {
  import opened StoreNames
  import opened FileActions
  import opened Transaction
  import TS = TransactionStates
  import RS = RecoverySteps
  import TT = TransactionTheorems

  /** Replacing one file of a directory without leftovers. */
  datatype Rx = Rx(before: Files, file: string, content: string) {
    ghost predicate Valid() {
      && file in SweptFiles
      && Manifest !in before && Commit !in before
      && forall f :: IsManaged(f) ==> Backup(f) !in before
    }
  }

  ghost predicate Owned(rx: Rx, n: Name) {
    TS.Scratch(n) || n == Live(rx.file) || n == Backup(rx.file)
  }

  ghost predicate IsOld(rx: Rx, s: Files) {
    Backup(rx.file) !in s && SameAt(s, rx.before, Live(rx.file))
  }

  ghost predicate IsNew(rx: Rx, s: Files) {
    Backup(rx.file) !in s && Live(rx.file) in s && s[Live(rx.file)] == rx.content
  }

  /** The old version is aside, so recovery will put it back. */
  ghost predicate Aside(rx: Rx, s: Files) {
    Live(rx.file) in rx.before && Backup(rx.file) in s && s[Backup(rx.file)] == rx.before[Live(rx.file)]
  }

  ghost predicate Holds(rx: Rx, side: TS.Side, s: Files) {
    && Manifest !in s && Commit !in s
    && (forall n :: !Owned(rx, n) ==> SameAt(s, rx.before, n))
    && if side.Old? then IsOld(rx, s) || Aside(rx, s) else IsNew(rx, s)
  }

  ghost function States(rx: Rx, side: TS.Side): iset<Files> {
    iset s: Files | Holds(rx, side, s)
  }

  /** An action on names the replacement owns keeps the frame. */
  lemma FrameKept(rx: Rx, side: TS.Side, s: Files, t: Files)
    requires Holds(rx, side, s) && forall n :: !Owned(rx, n) ==> SameAt(t, s, n)
    ensures Manifest !in t && Commit !in t && forall n :: !Owned(rx, n) ==> SameAt(t, rx.before, n)
  {
    assert SameAt(t, s, Manifest) && SameAt(t, s, Commit);
    forall n | !Owned(rx, n)
      ensures SameAt(t, rx.before, n)
    {
      assert SameAt(t, s, n) && SameAt(s, rx.before, n);
    }
  }

  lemma ScratchStep(rx: Rx, side: TS.Side, s: Files, t: Files)
    requires Holds(rx, side, s) && forall n :: !TS.Scratch(n) ==> SameAt(t, s, n)
    ensures Holds(rx, side, t)
  {
    FrameKept(rx, side, s, t);
    assert SameAt(t, s, Live(rx.file)) && SameAt(t, s, Backup(rx.file));
  }

  lemma {:induction false} ScratchSteps(rx: Rx, side: TS.Side, s: Files, actions: seq<Action>)
    requires Holds(rx, side, s) && forall i :: 0 <= i < |actions| ==> TS.OnScratch(actions[i])
    ensures Through(States(rx, side), s, actions)
    decreases |actions|
  {
    hide Holds;
    if actions != [] {
      var a := actions[0];
      assert TS.OnScratch(a);
      if a.Write? {
        forall k | 0 <= k <= |a.content|
          ensures s[a.name := a.content[..k]] in States(rx, side)
        {
          ScratchStep(rx, side, s, s[a.name := a.content[..k]]);
        }
      }
      ScratchStep(rx, side, s, Apply(s, a));
      ScratchSteps(rx, side, Apply(s, a), actions[1..]);
    }
  }

  // ---------------------------------------------------------------- the replacement itself

  /** Writing the temporary file and replacing the live one. */
  function Session(rx: Rx, fault: ReplaceFault): seq<Action> {
    var write := Write(Temp(rx.file), rx.content);
    [write] + Replace(Apply(rx.before, write), rx.file, fault)
  }

  /** The only failure that matters when there was no old file is that of the last rename. */
  predicate Succeeds(rx: Rx, fault: ReplaceFault) {
    fault.NoReplaceFault? || (fault.BackupRenameFails? && Live(rx.file) !in rx.before)
  }

  /** Replaced: every call went through, the last of them included. */
  predicate Replaced(rx: Rx, fault: ReplaceFault, stop: Stop) {
    Succeeds(rx, fault) && stop.done >= |Session(rx, fault)|
  }

  lemma StartsOld(rx: Rx)
    requires rx.Valid()
    ensures Holds(rx, TS.Old, rx.before)
  {
    RS.SweptAreManaged();
  }

  /** Each call but the last, seen from a state of the old side. */
  lemma OldStep(rx: Rx, s: Files, a: Action)
    requires rx.Valid() && Holds(rx, TS.Old, s)
    requires
      || (a == Move(Live(rx.file), Backup(rx.file)) && IsOld(rx, s) && Live(rx.file) in s)
      || (a == Move(Temp(rx.file), Live(rx.file)) && Aside(rx, s))
      || (a == Move(Backup(rx.file), Live(rx.file)) && Aside(rx, s))
      || (a == Drop(Live(rx.file)) && Aside(rx, s))
    ensures Holds(rx, TS.Old, Apply(s, a))
    ensures a == Move(Live(rx.file), Backup(rx.file)) ==> Aside(rx, Apply(s, a)) && Live(rx.file) !in Apply(s, a)
    ensures a == Move(Temp(rx.file), Live(rx.file)) || a == Drop(Live(rx.file)) ==> Aside(rx, Apply(s, a))
    ensures a == Move(Backup(rx.file), Live(rx.file)) ==> IsOld(rx, Apply(s, a))
  {
    var t := Apply(s, a);
    assert forall n :: !Owned(rx, n) ==> SameAt(t, s, n);
    FrameKept(rx, TS.Old, s, t);
  }

  /** The last call: removing the backup, or placing the file when there was none. */
  lemma CommitStep(rx: Rx, s: Files, a: Action)
    requires rx.Valid() && Holds(rx, TS.Old, s)
    requires
      || (a == Drop(Backup(rx.file)) && Live(rx.file) in s && s[Live(rx.file)] == rx.content)
      || (a == Move(Temp(rx.file), Live(rx.file)) && IsOld(rx, s) && Temp(rx.file) in s
        && s[Temp(rx.file)] == rx.content)
    ensures Holds(rx, TS.New, Apply(s, a))
  {
    var t := Apply(s, a);
    assert forall n :: !Owned(rx, n) ==> SameAt(t, s, n);
    FrameKept(rx, TS.Old, s, t);
  }

  /** Every call but the last keeps the old side; the last one, if it succeeds, reaches the new side. */
  lemma SessionSteps(rx: Rx, fault: ReplaceFault)
    requires rx.Valid()
    ensures var all := Session(rx, fault);
      && all != []
      && Through(States(rx, TS.Old), rx.before, if Succeeds(rx, fault) then all[..|all| - 1] else all)
      && (Succeeds(rx, fault) ==> Holds(rx, TS.New, Run(rx.before, all)))
      && Backup(rx.file) !in Run(rx.before, all)
  {
    hide Holds, Through;
    StartsOld(rx);
    var f := rx.file;
    RS.SweptAreManaged();
    var w := Write(Temp(f), rx.content);
    ScratchSteps(rx, TS.Old, rx.before, [w]);
    var s := Apply(rx.before, w);
    RunOne(rx.before, w);
    ThroughAtEnd(States(rx, TS.Old), rx.before, [w]);
    assert IsOld(rx, s) && Backup(f) !in s;
    if Live(f) in rx.before {
      OverOld(rx, fault, s);
    } else {
      OverNothing(rx, fault, s);
    }
  }

  lemma OverNothing(rx: Rx, fault: ReplaceFault, s: Files)
    requires rx.Valid() && s == Apply(rx.before, Write(Temp(rx.file), rx.content)) && Live(rx.file) !in rx.before
    requires Holds(rx, TS.Old, s) && IsOld(rx, s)
    requires Through(States(rx, TS.Old), rx.before, [Write(Temp(rx.file), rx.content)])
    ensures var all := Session(rx, fault);
      && Through(States(rx, TS.Old), rx.before, if Succeeds(rx, fault) then all[..|all| - 1] else all)
      && (Succeeds(rx, fault) ==> Holds(rx, TS.New, Run(rx.before, all)))
      && Backup(rx.file) !in Run(rx.before, all)
  {
    hide Holds, Through;
    var f := rx.file;
    var w := Write(Temp(f), rx.content);
    if fault.PlaceRenameFails? {
      ScratchSteps(rx, TS.Old, s, [Drop(Temp(f))]);
      RunOne(rx.before, w);
      ThroughConcat(States(rx, TS.Old), rx.before, [w], [Drop(Temp(f))]);
      RunTwo(rx.before, w, Drop(Temp(f)));
      assert Session(rx, fault) == [w] + [Drop(Temp(f))] == [w, Drop(Temp(f))];
    } else {
      var m := Move(Temp(f), Live(f));
      CommitStep(rx, s, m);
      RunTwo(rx.before, w, m);
      assert Session(rx, fault) == [w] + [m] == [w, m];
      assert [w, m][..1] == [w];
    }
  }

  lemma OverOld(rx: Rx, fault: ReplaceFault, s: Files)
    requires rx.Valid() && s == Apply(rx.before, Write(Temp(rx.file), rx.content)) && Live(rx.file) in rx.before
    requires Holds(rx, TS.Old, s) && IsOld(rx, s)
    requires Through(States(rx, TS.Old), rx.before, [Write(Temp(rx.file), rx.content)])
    ensures var all := Session(rx, fault);
      && Through(States(rx, TS.Old), rx.before, if Succeeds(rx, fault) then all[..|all| - 1] else all)
      && (Succeeds(rx, fault) ==> Holds(rx, TS.New, Run(rx.before, all)))
      && Backup(rx.file) !in Run(rx.before, all)
  {
    hide Holds, Through;
    var f := rx.file;
    var old_ := States(rx, TS.Old);
    var w, away := Write(Temp(f), rx.content), Move(Live(f), Backup(f));
    var place, clean := Move(Temp(f), Live(f)), Drop(Backup(f));
    RunOne(rx.before, w);
    if fault.BackupRenameFails? {
      ScratchSteps(rx, TS.Old, s, [Drop(Temp(f))]);
      ThroughConcat(old_, rx.before, [w], [Drop(Temp(f))]);
      RunTwo(rx.before, w, Drop(Temp(f)));
      assert Session(rx, fault) == [w] + [Drop(Temp(f))] == [w, Drop(Temp(f))];
    } else {
      OldStep(rx, s, away);
      var t := Apply(s, away);
      ThroughOne(old_, s, away);
      RunOne(s, away);
      ThroughConcat(old_, rx.before, [w], [away]);
      RunConcat(rx.before, [w], [away]);
      var next := if fault.PlaceRenameFails? then Move(Backup(f), Live(f)) else place;
      OldStep(rx, t, next);
      var u := Apply(t, next);
      ThroughOne(old_, t, next);
      RunOne(t, next);
      ThroughConcat(old_, rx.before, [w] + [away], [next]);
      RunConcat(rx.before, [w] + [away], [next]);
      if fault.PlaceRenameFails? {
        ScratchSteps(rx, TS.Old, u, [Drop(Temp(f))]);
        ThroughConcat(old_, rx.before, [w] + [away] + [next], [Drop(Temp(f))]);
        RunConcat(rx.before, [w] + [away] + [next], [Drop(Temp(f))]);
        RunOne(u, Drop(Temp(f)));
        assert Session(rx, fault) == [w] + [away] + [next] + [Drop(Temp(f))];
      } else {
        CommitStep(rx, u, clean);
        RunOne(u, clean);
        RunConcat(rx.before, [w] + [away] + [next], [clean]);
        assert Session(rx, fault) == [w] + [away] + [next] + [clean];
        assert ([w] + [away] + [next] + [clean])[..3] == [w] + [away] + [next];
      }
    }
  }

  lemma SessionAtStop(rx: Rx, fault: ReplaceFault, stop: Stop)
    requires rx.Valid()
    ensures Holds(rx, if Replaced(rx, fault, stop) then TS.New else TS.Old,
      Interrupted(rx.before, Session(rx, fault), stop))
  {
    hide Holds, Through, Session;
    SessionSteps(rx, fault);
    var all := Session(rx, fault);
    if !Succeeds(rx, fault) {
      ThroughAtStop(States(rx, TS.Old), rx.before, all, stop);
    } else {
      var first, last := all[..|all| - 1], all[|all| - 1..];
      assert all == first + last;
      LastIsNotWrite(rx, fault);
      if stop.done < |first| {
        StopInFirst(rx.before, first, last, stop);
        ThroughAtStop(States(rx, TS.Old), rx.before, first, stop);
      } else {
        StopInSecond(rx.before, first, last, stop);
        ThroughAtEnd(States(rx, TS.Old), rx.before, first);
        RunConcat(rx.before, first, last);
        RunOne(Run(rx.before, first), last[0]);
        assert last == [last[0]] && last[1..] == [];
      }
    }
  }

  lemma LastIsNotWrite(rx: Rx, fault: ReplaceFault)
    ensures var all := Session(rx, fault); |all| >= 2 && !all[|all| - 1].Write?
  {
  }

  // ---------------------------------------------------------------- recovery

  lemma {:induction false} SweepSteps(rx: Rx, side: TS.Side, s: Files, files: seq<string>)
    requires rx.Valid() && Holds(rx, side, s) && TS.Settled(s)
    requires forall f :: f in files ==> IsManaged(f)
    ensures Through(States(rx, side), s, AllArtifacts(s, files))
    ensures var t := Run(s, AllArtifacts(s, files));
      && TS.Settled(t) && Holds(rx, side, t)
      && (forall f :: f in files ==> Temp(f) !in t && Backup(f) !in t)
      && (Backup(rx.file) !in s ==> Backup(rx.file) !in t)
      && (forall n: Name :: n.Temp? && n in t ==> n in s)
    decreases |files|
  {
    hide Holds, Through;
    if files == [] {
      NothingToSweep(rx, side, s);
    } else {
      var f := files[0];
      SweepOne(rx, side, s, f);
      var t := Run(s, Artifacts(s, f));
      SweepSteps(rx, side, t, files[1..]);
      var rest := AllArtifacts(t, files[1..]);
      ThroughConcat(States(rx, side), s, Artifacts(s, f), rest);
      RunConcat(s, Artifacts(s, f), rest);
      var u := Run(t, rest);
      forall g | g in files
        ensures Temp(g) !in u && Backup(g) !in u
      {
        if g !in files[1..] {
          assert g == f;
          OthersHaveNoBackup(rx, side, u, f);
        }
      }
    }
  }

  lemma NothingToSweep(rx: Rx, side: TS.Side, s: Files)
    requires Holds(rx, side, s)
    ensures Through(States(rx, side), s, [])
  {
  }

  lemma OthersHaveNoBackup(rx: Rx, side: TS.Side, s: Files, f: string)
    requires rx.Valid() && Holds(rx, side, s) && IsManaged(f)
    ensures f != rx.file ==> Backup(f) !in s
    ensures f == rx.file && Backup(f) in s ==> side == TS.Old && Aside(rx, s)
  {
    if f != rx.file {
      assert !Owned(rx, Backup(f));
      assert SameAt(s, rx.before, Backup(f));
    }
  }

  /** How a backup is put back. */
  function Restoring(s: Files, f: string): seq<Action> {
    if Backup(f) in s then (if Live(f) in s then [Drop(Live(f))] else []) + [Move(Backup(f), Live(f))] else []
  }

  lemma RestoringSteps(rx: Rx, side: TS.Side, s: Files, f: string)
    requires rx.Valid() && Holds(rx, side, s) && IsManaged(f)
    ensures Through(States(rx, side), s, Restoring(s, f))
    ensures Holds(rx, side, Run(s, Restoring(s, f)))
  {
    hide Holds, Through;
    var safe := States(rx, side);
    OthersHaveNoBackup(rx, side, s, f);
    NothingToSweep(rx, side, s);
    if Backup(f) in s {
      var m := Move(Backup(f), Live(f));
      if Live(f) in s {
        var d := Drop(Live(f));
        OldStep(rx, s, d);
        ThroughOne(safe, s, d);
        RunOne(s, d);
        OldStep(rx, Apply(s, d), m);
        ThroughOne(safe, Apply(s, d), m);
        RunTwo(s, d, m);
        ThroughConcat(safe, s, [d], [m]);
      } else {
        OldStep(rx, s, m);
        ThroughOne(safe, s, m);
        RunOne(s, m);
        assert [] + [m] == [m];
      }
    }
  }

  /** Putting a backup back uses it up and touches nothing but the file. */
  lemma RestoringFrame(s: Files, f: string)
    ensures var t := Run(s, Restoring(s, f));
      && Backup(f) !in t
      && forall n :: n != Backup(f) && n != Live(f) ==> SameAt(t, s, n)
  {
    if Backup(f) in s {
      var m := Move(Backup(f), Live(f));
      if Live(f) in s {
        RunTwo(s, Drop(Live(f)), m);
      } else {
        RunOne(s, m);
        assert [] + [m] == [m];
      }
    }
  }

  lemma ArtifactsSplit(s: Files, f: string)
    requires Temp(f) in Run(s, Restoring(s, f)) <==> Temp(f) in s
    ensures Artifacts(s, f) == Restoring(s, f) + if Temp(f) in Run(s, Restoring(s, f)) then [Drop(Temp(f))] else []
  {
  }

  lemma SweepOne(rx: Rx, side: TS.Side, s: Files, f: string)
    requires rx.Valid() && Holds(rx, side, s) && TS.Settled(s) && IsManaged(f)
    ensures Through(States(rx, side), s, Artifacts(s, f))
    ensures var t := Run(s, Artifacts(s, f));
      && Holds(rx, side, t) && TS.Settled(t)
      && Temp(f) !in t && (f == rx.file || Backup(rx.file) !in s ==> Backup(rx.file) !in t)
      && (forall n: Name :: n.Temp? && n in t ==> n in s)
  {
    hide *;
    var restore := Restoring(s, f);
    var t := Run(s, restore);
    RestoringSteps(rx, side, s, f);
    RestoringFrame(s, f);
    DropTemp(rx, side, t, f);
    var last := if Temp(f) in t then [Drop(Temp(f))] else [];
    ThroughConcat(States(rx, side), s, restore, last);
    RunConcat(s, restore, last);
    SweptFrame(rx, s, t, Run(t, last), f);
    ArtifactsSplit(s, f);
  }

  lemma SweptFrame(rx: Rx, s: Files, t: Files, u: Files, f: string)
    requires TS.Settled(s) && Backup(f) !in t && forall n :: n != Backup(f) && n != Live(f) ==> SameAt(t, s, n)
    requires Temp(f) !in u && forall n :: n != Temp(f) ==> SameAt(u, t, n)
    ensures TS.Settled(u) && (f == rx.file || Backup(rx.file) !in s ==> Backup(rx.file) !in u)
    ensures forall n: Name :: n.Temp? && n in u ==> n in s
    ensures Temp(f) in t <==> Temp(f) in s
  {
    forall n | n == Manifest || n == Commit || n == ManifestTemp || n == CommitTemp ensures n !in u {
      assert SameAt(u, t, n) && SameAt(t, s, n);
    }
    assert SameAt(u, t, Backup(rx.file)) && SameAt(t, s, Temp(f));
    assert f != rx.file ==> SameAt(t, s, Backup(rx.file));
    forall n: Name | n.Temp? && n in u ensures n in s {
      assert SameAt(u, t, n) && SameAt(t, s, n);
    }
  }

  lemma DropTemp(rx: Rx, side: TS.Side, s: Files, f: string)
    requires Holds(rx, side, s)
    ensures var last := if Temp(f) in s then [Drop(Temp(f))] else [];
      && Through(States(rx, side), s, last) && Holds(rx, side, Run(s, last))
      && Temp(f) !in Run(s, last) && forall n :: n != Temp(f) ==> SameAt(Run(s, last), s, n)
  {
    hide Holds, Through;
    if Temp(f) in s {
      ScratchSteps(rx, side, s, [Drop(Temp(f))]);
      ThroughAtEnd(States(rx, side), s, [Drop(Temp(f))]);
      RunOne(s, Drop(Temp(f)));
    } else {
      NothingToSweep(rx, side, s);
    }
  }

  lemma ReopenSteps(rx: Rx, side: TS.Side, s: Files)
    requires rx.Valid() && Holds(rx, side, s)
    ensures Reopen(s).Some? && Through(States(rx, side), s, Reopen(s).value)
    ensures var t := Run(s, Reopen(s).value); Holds(rx, side, t) && RS.Swept(t)
  {
    hide Through, AllArtifacts, IsManaged;
    assert Manifest !in s && Commit !in s;
    var quiet := [Drop(ManifestTemp), Drop(CommitTemp)];
    assert quiet + [] == quiet;
    ScratchSteps(rx, side, s, quiet);
    ThroughAtEnd(States(rx, side), s, quiet);
    RunTwo(s, quiet[0], quiet[1]);
    var t := Run(s, quiet);
    RS.SweptAreManaged();
    SweepSteps(rx, side, t, SweptFiles);
    ThroughConcat(States(rx, side), s, quiet, AllArtifacts(t, SweptFiles));
    RunConcat(s, quiet, AllArtifacts(t, SweptFiles));
  }

  lemma {:induction false} StopsKeepSide(rx: Rx, side: TS.Side, s: Files, stops: seq<Stop>)
    requires rx.Valid() && Holds(rx, side, s)
    ensures TT.AfterStops(s, stops).Some? && Holds(rx, side, TT.AfterStops(s, stops).value)
    decreases |stops|
  {
    hide Holds, Through, Reopen;
    if stops != [] {
      ReopenSteps(rx, side, s);
      ThroughAtStop(States(rx, side), s, Reopen(s).value, stops[0]);
      StopsKeepSide(rx, side, Interrupted(s, Reopen(s).value, stops[0]), stops[1..]);
    }
  }

  // ---------------------------------------------------------------- the main result

  /** A replacement stopped anywhere, then recovered through any number of further stops, ends with
      exactly the old or exactly the new file: new only if the whole replacement had gone through.
      Up to the removal of the backup the per-file stage brings the old file back, even though the
      new one was already in place. */
  lemma ReplaceAtomicity(rx: Rx, fault: ReplaceFault, stop: Stop, stops: seq<Stop>)
    requires rx.Valid()
    ensures var crashed := TT.AfterStops(Interrupted(rx.before, Session(rx, fault), stop), stops);
      && crashed.Some?
      && Reopen(crashed.value).Some?
      && var final := Run(crashed.value, Reopen(crashed.value).value);
        && (if Replaced(rx, fault, stop) then IsNew(rx, final) else IsOld(rx, final))
        && (forall g :: g != rx.file ==> SameAt(final, rx.before, Live(g)))
        && (forall f :: IsManaged(f) ==> Backup(f) !in final)
        && RS.Swept(final)
  {
    hide *;
    var side := if Replaced(rx, fault, stop) then TS.New else TS.Old;
    SessionAtStop(rx, fault, stop);
    var first := Interrupted(rx.before, Session(rx, fault), stop);
    StopsKeepSide(rx, side, first, stops);
    var crashed := TT.AfterStops(first, stops).value;
    ReopenSteps(rx, side, crashed);
    FinalState(rx, side, Run(crashed, Reopen(crashed).value));
  }

  /** Stopped just before its last step, with the new file in place: recovery puts the old one back. */
  lemma NewFileUndone(rx: Rx)
    requires rx.Valid() && Live(rx.file) in rx.before
    ensures var s := Interrupted(rx.before, Session(rx, NoReplaceFault), Between(3));
      && |Session(rx, NoReplaceFault)| == 4
      && Live(rx.file) in s && s[Live(rx.file)] == rx.content
      && Reopen(s).Some?
      && var final := Run(s, Reopen(s).value);
        Live(rx.file) in final && final[Live(rx.file)] == rx.before[Live(rx.file)]
  {
    hide Reopen, IsManaged, RS.Swept;
    InPlace(rx);
    ReplaceAtomicity(rx, NoReplaceFault, Between(3), []);
  }

  lemma InPlace(rx: Rx)
    requires rx.Valid() && Live(rx.file) in rx.before
    ensures |Session(rx, NoReplaceFault)| == 4
    ensures var s := Interrupted(rx.before, Session(rx, NoReplaceFault), Between(3));
      Live(rx.file) in s && s[Live(rx.file)] == rx.content
  {
    RS.SweptAreManaged();
    hide IsManaged;
    var f := rx.file;
    var write := Write(Temp(f), rx.content);
    var first := Apply(rx.before, write);
    var second := Apply(first, Move(Live(f), Backup(f)));
    var third := Apply(second, Move(Temp(f), Live(f)));
    var rest := [Move(Live(f), Backup(f)), Move(Temp(f), Live(f)), Drop(Backup(f))];
    assert Backup(f) !in first;
    assert Session(rx, NoReplaceFault) == [write] + rest;
    assert ([write] + rest)[1..] == rest;
    assert Interrupted(rx.before, [write] + rest, Between(3)) == Interrupted(first, rest, Between(2));
    assert Interrupted(first, rest, Between(2)) == Interrupted(second, rest[1..], Between(1));
    assert Interrupted(second, rest[1..], Between(1)) == Interrupted(third, rest[1..][1..], Between(0));
  }

  lemma FinalState(rx: Rx, side: TS.Side, s: Files)
    requires rx.Valid() && Holds(rx, side, s) && RS.Swept(s)
    ensures if side == TS.New then IsNew(rx, s) else IsOld(rx, s)
    ensures forall g :: g != rx.file ==> SameAt(s, rx.before, Live(g))
    ensures forall f :: IsManaged(f) ==> Backup(f) !in s
  {
    assert Backup(rx.file) !in s;
    forall g | g != rx.file
      ensures SameAt(s, rx.before, Live(g))
    {
      assert !Owned(rx, Live(g));
    }
    forall f | IsManaged(f)
      ensures Backup(f) !in s
    {
      OthersHaveNoBackup(rx, side, s, f);
    }
  }
}
