/** A commit whose rename fails and whose abort fails in its turn, with the process going on
    (`native_store_file_ops.cpp`): what is in place until the next recovery. */
module FailedAborts {
  import opened StoreNames
  import opened FileActions
  import opened ManifestFile
  import opened Transaction
  import opened TransactionStates
  import opened CommitSteps
  import opened TransactionTheorems

  /** The directory after the first `done` steps of a save whose commit fails. */
  function AtAbort(tx: Tx, fault: Fault, done: nat): Files
    requires |tx.files| == |tx.contents|
  {
    Interrupted(tx.before, SessionActions(tx, fault), Between(done))
  }

  /** The directory after `recoverReplacementTransaction`, as the next transaction begins with it. */
  ghost function NextRecovery(s: Files): Files {
    if Recover(s).Some? then Run(s, Recover(s).value) else s
  }

  /** The old version of a file is in place: one had it and there is no backup, or none had it and
      nothing is there. */
  predicate OldInPlace(before: Files, s: Files, f: string) {
    if Live(f) in before then Backup(f) !in s else Live(f) !in s
  }

  /** What stands in for a file, and what the next recovery makes of it. */
  lemma InPlace(tx: Tx, fault: Fault, done: nat, f: string)
    requires tx.Valid() && Hits(fault, tx.Targets()) && IsManaged(f)
    ensures var s := AtAbort(tx, fault, done);
      && SameAt(NextRecovery(s), tx.before, Live(f))
      && (OldInPlace(tx.before, s, f) ==> SameAt(s, tx.before, Live(f)))
      && (!OldInPlace(tx.before, s, f) ==> f in tx.files && OnlyNew(tx, s, f))
  {
    hide *;
    SameLengths(tx);
    var s := AtAbort(tx, fault, done);
    AtAbortIs(tx, fault, done);
    FailedAbort(tx, fault, done);
    OldOrNew(tx, s, f);
    RestoredEntry(tx, Run(s, Recover(s).value), f);
    NextRecoveryIs(s);
  }

  lemma AtAbortIs(tx: Tx, fault: Fault, done: nat)
    requires |tx.files| == |tx.contents|
    ensures AtAbort(tx, fault, done) == Interrupted(tx.before, SessionActions(tx, fault), Between(done))
  {
  }

  lemma NextRecoveryIs(s: Files)
    requires Recover(s).Some?
    ensures NextRecovery(s) == Run(s, Recover(s).value)
  {
  }

  lemma OldOrNew(tx: Tx, s: Files, f: string)
    requires tx.Valid() && Holds(tx, Old, s) && IsManaged(f)
    ensures OldInPlace(tx.before, s, f) ==> SameAt(s, tx.before, Live(f))
    ensures !OldInPlace(tx.before, s, f) ==> f in tx.files && OnlyNew(tx, s, f)
  {
    hide ManifestBytes, IsManaged;
    if f !in tx.files {
      assert !Owned(tx, Live(f)) && !Owned(tx, Backup(f));
      assert SameAt(s, tx.before, Live(f)) && SameAt(s, tx.before, Backup(f));
    }
  }

  lemma RestoredEntry(tx: Tx, t: Files, f: string)
    requires tx.Valid() && Holds(tx, Old, t) && AllOld(tx, t)
    ensures SameAt(t, tx.before, Live(f))
  {
    if f !in tx.files {
      assert !Owned(tx, Live(f));
    }
  }

  /** How many steps the save takes until its abort begins. */
  function UntilAbort(tx: Tx, fault: Fault): nat
    requires |tx.files| == |tx.contents| && Hits(fault, tx.Targets())
  {
    |Stage(tx.files, tx.contents)| + |Attempt(tx.Targets(), fault)|
  }

  /** The directory where the abort begins, and fails at once. */
  function Begun(tx: Tx, fault: Fault): Files
    requires |tx.files| == |tx.contents| && Hits(fault, tx.Targets())
  {
    AtAbort(tx, fault, UntilAbort(tx, fault))
  }

  lemma BegunIs(tx: Tx, fault: Fault)
    requires |tx.files| == |tx.contents| && Hits(fault, tx.Targets())
    ensures Begun(tx, fault) == AtAbort(tx, fault, UntilAbort(tx, fault))
    ensures UntilAbort(tx, fault) == |Stage(tx.files, tx.contents)| + |Attempt(tx.Targets(), fault)|
  {
    hide Stage, Attempt, Hits, AtAbort;
  }

  /** Where the abort begins, the directory is as the commit left it at its failed rename. */
  lemma AbortBegins(tx: Tx, fault: Fault)
    requires tx.Valid() && Hits(fault, tx.Targets())
    ensures |tx.files| == |tx.contents|
    ensures Reached(tx, fault, Begun(tx, fault))
  {
    hide *;
    SameLengths(tx);
    BegunIs(tx, fault);
    var stage, attempt := Stage(tx.files, tx.contents), Attempt(tx.Targets(), fault);
    StageSteps(tx);
    var s := Run(tx.before, stage);
    CommitIs(tx, s, fault);
    FaultSteps(tx, s, fault);
    SessionIs(tx, fault);
    AtAbortIs(tx, fault, |stage| + |attempt|);
    AttemptFirst(tx, s, fault);
    var rest := CommitActions(s, tx.files, fault)[|attempt|..];
    StopAfter(tx.before, stage, attempt, rest);
  }

  lemma AttemptFirst(tx: Tx, s: Files, fault: Fault)
    requires tx.Valid() && TargetsOf(s, tx.files) == tx.Targets() && Hits(fault, tx.Targets())
    ensures var attempt, commit := Attempt(tx.Targets(), fault), CommitActions(s, tx.files, fault);
      |attempt| <= |commit| && commit == attempt + commit[|attempt|..]
  {
    hide Attempt, Abort, TargetsOf, Hits, ValidTargets;
  }

  lemma StopAfter(s: Files, a: seq<Action>, b: seq<Action>, rest: seq<Action>)
    ensures Interrupted(s, a + (b + rest), Between(|a| + |b|)) == Run(Run(s, a), b)
  {
    hide Apply;
    StopInSecond(s, a, b + rest, Between(|a| + |b|));
    StopInSecond(Run(s, a), b, rest, Between(|b|));
    assert Interrupted(Run(Run(s, a), b), rest, Between(0)) == Run(Run(s, a), b);
  }

  // ---------------------------------------------------------------- the same save with other contents

  /** The same files, the same of them there before, whatever they hold. */
  predicate SameShape(a: Tx, b: Tx) {
    a.files == b.files && |a.contents| == |b.contents| == |a.files| && a.before.Keys == b.before.Keys
  }

  /** The same steps, but for the bytes written. */
  ghost predicate SameSteps(a: seq<Action>, b: seq<Action>) {
    |a| == |b| && forall i :: 0 <= i < |a| ==> a[i] == b[i] || (a[i].Write? && b[i].Write? && a[i].name == b[i].name)
  }

  lemma {:induction false} SameNames(s: Files, t: Files, a: seq<Action>, b: seq<Action>, done: nat)
    requires s.Keys == t.Keys && SameSteps(a, b)
    ensures Interrupted(s, a, Between(done)).Keys == Interrupted(t, b, Between(done)).Keys
    ensures Run(s, a).Keys == Run(t, b).Keys
    decreases |a|
  {
    if a != [] {
      assert Apply(s, a[0]).Keys == Apply(t, b[0]).Keys;
      SameNames(Apply(s, a[0]), Apply(t, b[0]), a[1..], b[1..], if done > 0 then done - 1 else 0);
    }
  }

  lemma SameStepsJoin(a: seq<Action>, b: seq<Action>, rest: seq<Action>)
    requires SameSteps(a, b)
    ensures SameSteps(a + rest, b + rest)
  {
  }

  lemma SameStepsSelf(a: seq<Action>)
    ensures SameSteps(a, a)
  {
  }

  lemma {:induction false} SameStage(files: seq<string>, a: seq<string>, b: seq<string>)
    requires |a| == |b| == |files|
    ensures SameSteps(Stage(files, a), Stage(files, b))
  {
    if files != [] {
      SameStage(files[1..], a[1..], b[1..]);
    }
  }

  lemma {:induction false} SameUndo(s: Files, t: Files, targets: seq<Target>)
    requires s.Keys == t.Keys
    ensures UndoAll(s, targets) == UndoAll(t, targets)
    decreases |targets|
  {
    if targets != [] {
      var undo := UndoOne(s, targets[|targets| - 1]);
      assert undo == UndoOne(t, targets[|targets| - 1]);
      SameStepsSelf(undo);
      SameNames(s, t, undo, undo, 0);
      SameUndo(Run(s, undo), Run(t, undo), targets[..|targets| - 1]);
    }
  }

  lemma SameAbort(s: Files, t: Files, targets: seq<Target>)
    requires s.Keys == t.Keys
    ensures Abort(s, targets) == Abort(t, targets)
  {
    hide UndoOne, Run;
    SameUndo(s, t, targets);
  }

  lemma SameCommit(s: Files, t: Files, files: seq<string>, fault: Fault)
    requires s.Keys == t.Keys
    ensures CommitActions(s, files, fault) == CommitActions(t, files, fault)
  {
    hide Attempt, Abort, UntilMarker, FromMarker, Run, Hits;
    assert TargetsOf(s, files) == TargetsOf(t, files);
    var targets := TargetsOf(s, files);
    if Hits(fault, targets) {
      var attempt := Attempt(targets, fault);
      SameStepsSelf(attempt);
      SameNames(s, t, attempt, attempt, 0);
      SameAbort(Run(s, attempt), Run(t, attempt), targets);
    }
  }

  /** Saves of one shape go through the same names. */
  lemma SameAtAbort(a: Tx, b: Tx, fault: Fault, done: nat)
    requires SameShape(a, b)
    ensures AtAbort(a, fault, done).Keys == AtAbort(b, fault, done).Keys
    ensures a.Targets() == b.Targets() && (a.Valid() ==> b.Valid())
    ensures forall f ::
      OldInPlace(a.before, AtAbort(a, fault, done), f) <==> OldInPlace(b.before, AtAbort(b, fault, done), f)
  {
    hide Run, Interrupted, Stage, CommitActions, SameSteps, ValidTargets, IsManaged;
    var x, y := Stage(a.files, a.contents), Stage(b.files, b.contents);
    SameStage(a.files, a.contents, b.contents);
    SameNames(a.before, b.before, x, y, 0);
    SameCommit(Run(a.before, x), Run(b.before, y), a.files, fault);
    var rest := CommitActions(Run(a.before, x), a.files, fault);
    SameStepsJoin(x, y, rest);
    SameNames(a.before, b.before, x + rest, y + rest, done);
    assert forall n :: n in a.before <==> n in b.before by { SameKeysSame(a.before, b.before); }
    SameKeysSame(AtAbort(a, fault, done), AtAbort(b, fault, done));
  }

  lemma SameKeysSame(s: Files, t: Files)
    requires s.Keys == t.Keys
    ensures forall n :: n in s <==> n in t
  {
    assert forall n :: n in s <==> n in s.Keys;
  }
}
