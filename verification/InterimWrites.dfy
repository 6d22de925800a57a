/** Writes between a failed abort and the next recovery: `appendRecords` and a single-file rewrite do not
    recover first (`native_session_store.cpp`). */
module InterimWrites {
  import opened StoreNames
  import opened FileActions
  import opened ManifestFile
  import opened Transaction
  import opened TransactionStates
  import opened CommitSteps
  import opened RecoverySteps
  import opened TransactionTheorems
  import opened FailedAborts

  /** `u` is `s` after a write that leaves `bytes` in the file `f`, and perhaps took its backup away. */
  ghost predicate Wrote(s: Files, u: Files, f: string, bytes: string) {
    && Live(f) in u && u[Live(f)] == bytes
    && (Backup(f) in u ==> SameAt(u, s, Backup(f)))
    && forall n :: n !in {Live(f), Backup(f), Temp(f)} ==> SameAt(u, s, n)
  }

  /** Recovery has no reason to touch the file: there is nothing to roll back, the file is not part of it,
      or its old version was there and has no backup. */
  predicate LeftAlone(tx: Tx, u: Files, f: string) {
    Manifest !in u || f !in tx.files || (Live(f) in tx.before && Backup(f) !in u)
  }

  /** The save that would have led to `u`: the written bytes are the old version of the file, or the new. */
  function AsIf(tx: Tx, u: Files, f: string, bytes: string, i: nat): Tx
    requires f in tx.files ==> i < |tx.contents|
  {
    if LeftAlone(tx, u, f) then Tx(tx.before[Live(f) := bytes], tx.files, tx.contents)
    else Tx(tx.before, tx.files, tx.contents[i := bytes])
  }

  lemma AsIfIsValid(tx: Tx, u: Files, f: string, bytes: string, i: nat)
    requires tx.Valid() && (f in tx.files ==> i < |tx.files| && tx.files[i] == f)
    ensures AsIf(tx, u, f, bytes, i).Valid()
    ensures Manifest in u ==> AsIf(tx, u, f, bytes, i).Targets() == tx.Targets()
  {
    hide ValidTargets, IsManaged;
    var other := AsIf(tx, u, f, bytes, i);
    if Manifest in u {
      forall k | 0 <= k < |tx.files|
        ensures other.Targets()[k] == tx.Targets()[k]
      {
        assert Live(tx.files[k]) in other.before <==> Live(tx.files[k]) in tx.before;
      }
    }
  }

  lemma AsIfFramed(tx: Tx, s: Files, u: Files, f: string, bytes: string, i: nat)
    requires tx.Valid() && Holds(tx, Old, s) && IsManaged(f) && Wrote(s, u, f, bytes)
    requires f in tx.files ==> i < |tx.files| && tx.files[i] == f
    ensures Framed(AsIf(tx, u, f, bytes, i), u) && Commit !in u
    ensures Manifest in u ==> Manifest in s && HasManifest(AsIf(tx, u, f, bytes, i), u)
    ensures Manifest in s ==> Manifest in u
  {
    AsIfIsValid(tx, u, f, bytes, i);
    hide ValidTargets, IsManaged, ManifestBytes;
    var other := AsIf(tx, u, f, bytes, i);
    assert SameAt(u, s, Manifest) && SameAt(u, s, Commit);
    forall n | !Owned(other, n)
      ensures SameAt(u, other.before, n)
    {
      assert SameAt(s, tx.before, n);
      if n == Backup(f) {
        assert n !in s && n !in other.before;
      } else if n != Live(f) {
        assert SameAt(u, s, n);
      }
    }
  }

  lemma AsIfKept(tx: Tx, s: Files, u: Files, f: string, bytes: string, i: nat, g: string)
    requires tx.Valid() && Holds(tx, Old, s) && IsManaged(f) && Wrote(s, u, f, bytes) && g in tx.files
    requires f in tx.files ==> i < |tx.files| && tx.files[i] == f
    ensures var other := AsIf(tx, u, f, bytes, i);
      |other.contents| == |other.files| && if Manifest in u then KeepsOld(other, u, g) else IsOld(other, u, g)
  {
    hide ValidTargets, IsManaged, ManifestBytes, Framed;
    assert SameAt(u, s, Manifest);
    assert if Manifest in s then KeepsOld(tx, s, g) else IsOld(tx, s, g);
    if g != f {
      assert SameAt(u, s, Live(g)) && SameAt(u, s, Backup(g));
    } else {
      assert Distinct(tx.files) by { DistinctFiles(tx); }
    }
  }

  lemma DistinctFiles(tx: Tx)
    requires tx.Valid()
    ensures Distinct(tx.files)
  {
  }

  lemma AsIfHolds(tx: Tx, s: Files, u: Files, f: string, bytes: string, i: nat)
    requires tx.Valid() && Holds(tx, Old, s) && IsManaged(f) && Wrote(s, u, f, bytes)
    requires f in tx.files ==> i < |tx.files| && tx.files[i] == f
    ensures AsIf(tx, u, f, bytes, i).Valid() && Holds(AsIf(tx, u, f, bytes, i), Old, u)
  {
    AsIfIsValid(tx, u, f, bytes, i);
    AsIfFramed(tx, s, u, f, bytes, i);
    forall g | g in tx.files
      ensures var other := AsIf(tx, u, f, bytes, i);
        |other.contents| == |other.files| && if Manifest in u then KeepsOld(other, u, g) else IsOld(other, u, g)
    {
      AsIfKept(tx, s, u, f, bytes, i, g);
    }
    hide ValidTargets, IsManaged, ManifestBytes, Framed, KeepsOld, IsOld, HasManifest;
  }

  /** Recovery after such a write: the write stays, or the old version comes back over it; every other
      file is as before the save. */
  lemma WriteRecovered(tx: Tx, s: Files, u: Files, f: string, bytes: string)
    requires tx.Valid() && Holds(tx, Old, s) && IsManaged(f) && Wrote(s, u, f, bytes)
    ensures Recover(u).Some?
    ensures var t := NextRecovery(u);
      && (if LeftAlone(tx, u, f) then Live(f) in t && t[Live(f)] == bytes else SameAt(t, tx.before, Live(f)))
      && forall g :: IsManaged(g) && g != f ==> SameAt(t, tx.before, Live(g))
  {
    hide *;
    var i := Index(tx, f);
    SameLengths(tx);
    var other := AsIf(tx, u, f, bytes, i);
    AsIfHolds(tx, s, u, f, bytes, i);
    RecoverSteps(other, Old, u);
    AlwaysAtEnd(other, Old, u, Recover(u).value);
    var t := Run(u, Recover(u).value);
    OldIsAllOld(other, t);
    NextRecoveryIs(u);
    forall g | IsManaged(g)
      ensures SameAt(t, other.before, Live(g))
    {
      RestoredEntry(other, t, g);
    }
    AsIfBefore(tx, u, t, f, bytes, i);
  }

  lemma Index(tx: Tx, f: string) returns (i: nat)
    ensures f in tx.files ==> i < |tx.files| && tx.files[i] == f
  {
    i := 0;
    if f in tx.files {
      i := ByIndex(tx, f);
    }
  }

  lemma AsIfBefore(tx: Tx, u: Files, t: Files, f: string, bytes: string, i: nat)
    requires f in tx.files ==> i < |tx.contents|
    requires IsManaged(f) && forall g :: IsManaged(g) ==> SameAt(t, AsIf(tx, u, f, bytes, i).before, Live(g))
    ensures if LeftAlone(tx, u, f) then Live(f) in t && t[Live(f)] == bytes else SameAt(t, tx.before, Live(f))
    ensures forall g :: IsManaged(g) && g != f ==> SameAt(t, tx.before, Live(g))
  {
    hide IsManaged;
    assert SameAt(t, AsIf(tx, u, f, bytes, i).before, Live(f));
  }

  // ---------------------------------------------------------------- the two kinds of writes

  /** A single-file rewrite: a temporary file that replaces the live one. */
  function Rewrite(s: Files, f: string, bytes: string): seq<Action> {
    var write := Write(Temp(f), bytes);
    [write] + Replace(Apply(s, write), f, NoReplaceFault)
  }

  lemma RewriteWrites(s: Files, f: string, bytes: string)
    ensures var u := Run(s, Rewrite(s, f, bytes));
      Wrote(s, u, f, bytes) && (Backup(f) in u <==> Live(f) !in s && Backup(f) in s)
  {
    hide Wrote, Run, Apply;
    var write := Write(Temp(f), bytes);
    var v := Apply(s, write);
    WrittenAside(s, f, bytes);
    FirstStep(s, write, Replace(v, f, NoReplaceFault));
    if Live(f) in s {
      OverLive(s, v, f, bytes);
    } else {
      OverNothing(s, v, f, bytes);
    }
  }

  lemma FirstStep(s: Files, a: Action, rest: seq<Action>)
    ensures Run(s, [a] + rest) == Run(Apply(s, a), rest)
  {
    assert ([a] + rest)[1..] == rest;
  }

  lemma WrittenAside(s: Files, f: string, bytes: string)
    ensures var v := Apply(s, Write(Temp(f), bytes));
      v == s[Temp(f) := bytes] && SameAt(v, s, Live(f)) && SameAt(v, s, Backup(f))
  {
  }

  lemma OverNothing(s: Files, v: Files, f: string, bytes: string)
    requires v == s[Temp(f) := bytes] && Live(f) !in s
    ensures var u := Run(v, Replace(v, f, NoReplaceFault));
      Wrote(s, u, f, bytes) && (Backup(f) in u <==> Backup(f) in s)
  {
    hide Run;
    RunOne(v, Move(Temp(f), Live(f)));
  }

  lemma OverLive(s: Files, v: Files, f: string, bytes: string)
    requires v == s[Temp(f) := bytes] && Live(f) in s
    ensures var u := Run(v, Replace(v, f, NoReplaceFault)); Wrote(s, u, f, bytes) && Backup(f) !in u
  {
    hide Run, Apply, Wrote;
    var rest := [Move(Live(f), Backup(f)), Move(Temp(f), Live(f)), Drop(Backup(f))];
    var w := v - {Backup(f)};
    ThreeSteps(s, w, f, bytes);
    if Backup(f) in s {
      assert Replace(v, f, NoReplaceFault) == [Drop(Backup(f))] + rest;
      FirstStep(v, Drop(Backup(f)), rest);
      assert Apply(v, Drop(Backup(f))) == w by { Dropped(v, Backup(f)); }
    } else {
      assert Replace(v, f, NoReplaceFault) == [] + rest == rest;
      assert w == v;
    }
  }

  lemma Dropped(v: Files, n: Name)
    ensures Apply(v, Drop(n)) == v - {n}
  {
  }

  lemma ThreeSteps(s: Files, w: Files, f: string, bytes: string)
    requires w == s[Temp(f) := bytes] - {Backup(f)} && Live(f) in s
    ensures var u := Run(w, [Move(Live(f), Backup(f)), Move(Temp(f), Live(f)), Drop(Backup(f))]);
      Wrote(s, u, f, bytes) && Backup(f) !in u
  {
    hide Run;
    var a, b, c := Move(Live(f), Backup(f)), Move(Temp(f), Live(f)), Drop(Backup(f));
    assert [a, b, c] == [a] + [b, c];
    FirstStep(w, a, [b, c]);
    RunTwo(Apply(w, a), b, c);
  }

  /** What becomes of `bytes` that were acknowledged in between. */
  ghost predicate Outcome(tx: Tx, t: Files, f: string, bytes: string, kept: bool) {
    && (if kept then Live(f) in t && t[Live(f)] == bytes else SameAt(t, tx.before, Live(f)))
    && forall g :: IsManaged(g) && g != f ==> SameAt(t, tx.before, Live(g))
  }

  /** An append after the failed abort leaves the file with `bytes`. They survive the next recovery
      exactly when no rollback is pending, or the file is not part of it, or its old version is still in
      place; otherwise the file is as before the save, and the append is lost. */
  lemma AppendBetween(tx: Tx, fault: Fault, done: nat, f: string, bytes: string)
    requires tx.Valid() && Hits(fault, tx.Targets()) && IsManaged(f)
    ensures |tx.contents| == |tx.files|
    ensures var s := AtAbort(tx, fault, done);
      Outcome(tx, NextRecovery(s[Live(f) := bytes]), f, bytes,
        Manifest !in s || f !in tx.files || (Live(f) in tx.before && Backup(f) !in s))
  {
    hide *;
    SameLengths(tx);
    AtAbortIs(tx, fault, done);
    FailedAbort(tx, fault, done);
    var s := AtAbort(tx, fault, done);
    AppendWrites(tx, s, f, bytes);
    WriteRecovered(tx, s, s[Live(f) := bytes], f, bytes);
    OutcomeIs(tx, NextRecovery(s[Live(f) := bytes]), f, bytes, LeftAlone(tx, s[Live(f) := bytes], f));
  }

  lemma AppendWrites(tx: Tx, s: Files, f: string, bytes: string)
    ensures Wrote(s, s[Live(f) := bytes], f, bytes)
    ensures LeftAlone(tx, s[Live(f) := bytes], f) <==>
      Manifest !in s || f !in tx.files || (Live(f) in tx.before && Backup(f) !in s)
  {
  }

  lemma OutcomeIs(tx: Tx, t: Files, f: string, bytes: string, kept: bool)
    requires if kept then Live(f) in t && t[Live(f)] == bytes else SameAt(t, tx.before, Live(f))
    requires forall g :: IsManaged(g) && g != f ==> SameAt(t, tx.before, Live(g))
    ensures Outcome(tx, t, f, bytes, kept)
  {
  }

  /** A single-file rewrite in between survives exactly when no rollback is pending, or the file is not
      part of it, or it had an old version and some version is in place: then the rewrite takes the backup
      away. */
  lemma RewriteBetween(tx: Tx, fault: Fault, done: nat, f: string, bytes: string)
    requires tx.Valid() && Hits(fault, tx.Targets()) && IsManaged(f)
    ensures |tx.contents| == |tx.files|
    ensures var s := AtAbort(tx, fault, done);
      Outcome(tx, NextRecovery(Run(s, Rewrite(s, f, bytes))), f, bytes,
        Manifest !in s || f !in tx.files || (Live(f) in tx.before && Live(f) in s))
  {
    hide *;
    SameLengths(tx);
    AtAbortIs(tx, fault, done);
    FailedAbort(tx, fault, done);
    var s := AtAbort(tx, fault, done);
    var u := Run(s, Rewrite(s, f, bytes));
    RewriteWrites(s, f, bytes);
    RewriteLeaves(tx, s, u, f, bytes);
    WriteRecovered(tx, s, u, f, bytes);
    OutcomeIs(tx, NextRecovery(u), f, bytes, LeftAlone(tx, u, f));
  }

  lemma RewriteLeaves(tx: Tx, s: Files, u: Files, f: string, bytes: string)
    requires tx.Valid() && Holds(tx, Old, s) && Wrote(s, u, f, bytes)
    requires Backup(f) in u <==> Live(f) !in s && Backup(f) in s
    ensures LeftAlone(tx, u, f) <==> Manifest !in s || f !in tx.files || (Live(f) in tx.before && Live(f) in s)
  {
    hide ManifestBytes, IsManaged, Framed;
    assert SameAt(u, s, Manifest);
  }

  // ---------------------------------------------------------------- counters that are lost

  /** A save whose transaction replaces the counters file, from `was` to `comes`. */
  function CountersSave(was: string, comes: string): Tx {
    Tx(map[Live(CountersFile) := was], [CountersFile], [comes])
  }

  lemma CountersSaveIs(was: string, comes: string)
    ensures var tx := CountersSave(was, comes);
      && tx.Valid() && Hits(AtPlace(0), tx.Targets()) && |tx.contents| == |tx.files|
      && tx.files[0] == CountersFile && Live(CountersFile) in tx.before && tx.before[Live(CountersFile)] == was
      && IsManaged(CountersFile) && CountersFile in tx.files
  {
    hide ManifestBytes;
    assert ManagedFiles[13] == CountersFile;
    var tx := CountersSave(was, comes);
    assert tx.files == [CountersFile];
  }

  /** The rename of the new counters fails and so does the abort: counters persisted after that are gone
      with the next recovery, which brings back those from before the save. */
  lemma CountersLost(was: string, comes: string, persisted: string)
    ensures var tx := CountersSave(was, comes);
      && |tx.contents| == |tx.files| && Hits(AtPlace(0), tx.Targets())
      && var s := Begun(tx, AtPlace(0));
        var t := NextRecovery(Run(s, Rewrite(s, CountersFile, persisted)));
        Live(CountersFile) in t && t[Live(CountersFile)] == was
  {
    hide *;
    var tx := CountersSave(was, comes);
    CountersSaveIs(was, comes);
    AbortBegins(tx, AtPlace(0));
    BegunIs(tx, AtPlace(0));
    var s := Begun(tx, AtPlace(0));
    OutOfPlace(tx, s);
    RewriteBetween(tx, AtPlace(0), UntilAbort(tx, AtPlace(0)), CountersFile, persisted);
    CountersBack(tx, NextRecovery(Run(s, Rewrite(s, CountersFile, persisted))), persisted);
  }

  lemma OutOfPlace(tx: Tx, s: Files)
    requires tx.Valid() && Hits(AtPlace(0), tx.Targets()) && Reached(tx, AtPlace(0), s) && tx.files[0] == CountersFile
    ensures Live(CountersFile) !in s && Manifest in s
  {
    hide ManifestBytes;
  }

  lemma CountersBack(tx: Tx, t: Files, bytes: string)
    requires Outcome(tx, t, CountersFile, bytes, false) && Live(CountersFile) in tx.before
    ensures Live(CountersFile) in t && t[Live(CountersFile)] == tx.before[Live(CountersFile)]
  {
  }
}
