/** Every step of a commit stays on its side of the marker (`commitReplacementTargets`,
    `finishCommittedTransaction`). */
module CommitSteps {
  import opened StoreNames
  import opened FileActions
  import opened ManifestFile
  import opened Transaction
  import opened TransactionStates

  // ---------------------------------------------------------------- the way to the marker

  /** Each new content waits in its temporary file, or has been placed. */
  ghost predicate Waiting(tx: Tx, s: Files, i: nat)
    requires i < |tx.files| && |tx.contents| == |tx.files|
  {
    Temp(tx.files[i]) in s && s[Temp(tx.files[i])] == tx.contents[i]
  }

  /** The old file, if any, has been moved aside. */
  ghost predicate Aside(tx: Tx, s: Files, f: string) {
    if Live(f) in tx.before then Backup(f) in s && s[Backup(f)] == tx.before[Live(f)] else Backup(f) !in s
  }

  /** Before the manifest: nothing but temporary files has changed. */
  ghost predicate Staged(tx: Tx, s: Files)
    requires tx.Valid()
  {
    && Framed(tx, s) && Manifest !in s && Commit !in s
    && (forall f :: f in tx.files ==> IsOld(tx, s, f))
    && (forall i :: 0 <= i < |tx.files| ==> Waiting(tx, s, i))
  }

  /** The first `k` old files are aside, the others untouched. */
  ghost predicate BackedUp(tx: Tx, s: Files, k: nat)
    requires tx.Valid() && k <= |tx.files|
  {
    && Framed(tx, s) && HasManifest(tx, s) && Commit !in s
    && (forall i :: 0 <= i < |tx.files| ==> Waiting(tx, s, i))
    && (forall i :: 0 <= i < k ==> Aside(tx, s, tx.files[i]) && Live(tx.files[i]) !in s)
    && (forall i :: k <= i < |tx.files| ==> IsOld(tx, s, tx.files[i]))
  }

  /** All old files are aside and the first `k` new ones are in place. */
  ghost predicate Placed(tx: Tx, s: Files, k: nat)
    requires tx.Valid() && k <= |tx.files|
  {
    && Framed(tx, s) && HasManifest(tx, s) && Commit !in s
    && (forall i :: 0 <= i < |tx.files| ==> Aside(tx, s, tx.files[i]))
    && (forall i :: 0 <= i < k ==> IsNew(tx, s, i))
    && (forall i :: k <= i < |tx.files| ==> Waiting(tx, s, i) && Live(tx.files[i]) !in s)
  }

  lemma ByIndex(tx: Tx, f: string) returns (i: nat)
    requires f in tx.files
    ensures i < |tx.files| && tx.files[i] == f
  {
    i :| 0 <= i < |tx.files| && tx.files[i] == f;
  }

  lemma BackedUpHolds(tx: Tx, s: Files, k: nat)
    requires tx.Valid() && k <= |tx.files| && BackedUp(tx, s, k)
    ensures Holds(tx, Old, s)
  {
    hide ValidTargets, IsManaged, ManifestBytes, Framed;
    forall f | f in tx.files
      ensures KeepsOld(tx, s, f)
    {
      var i := ByIndex(tx, f);
      assert i < k ==> Aside(tx, s, tx.files[i]);
    }
  }

  lemma PlacedHolds(tx: Tx, s: Files, k: nat)
    requires tx.Valid() && k <= |tx.files| && Placed(tx, s, k)
    ensures Holds(tx, Old, s)
  {
    hide ValidTargets, IsManaged, ManifestBytes, Framed;
    forall f | f in tx.files
      ensures KeepsOld(tx, s, f)
    {
      var i := ByIndex(tx, f);
      assert Aside(tx, s, tx.files[i]);
      forall j | 0 <= j < |tx.files| && tx.files[j] == f && Live(f) in s
        ensures s[Live(f)] == tx.contents[j]
      {
        assert IsNew(tx, s, j);
      }
    }
  }

  lemma BackUpOne(tx: Tx, s: Files, k: nat)
    requires tx.Valid() && k < |tx.files| && BackedUp(tx, s, k) && Live(tx.files[k]) in tx.before
    ensures BackedUp(tx, Apply(s, Move(Live(tx.files[k]), Backup(tx.files[k]))), k + 1)
  {
    hide IsManaged, ManifestBytes;
    var f := tx.files[k];
    var t := Apply(s, Move(Live(f), Backup(f)));
    assert IsOld(tx, s, f);
    forall n | !Owned(tx, n)
      ensures SameAt(t, tx.before, n)
    {
      assert SameAt(s, tx.before, n);
    }
    forall i | 0 <= i < |tx.files|
      ensures Waiting(tx, t, i)
      ensures i <= k ==> Aside(tx, t, tx.files[i]) && Live(tx.files[i]) !in t
      ensures i > k ==> IsOld(tx, t, tx.files[i])
    {
      assert Waiting(tx, s, i);
      if i < k {
        assert tx.files[i] != tx.files[k];
        assert Aside(tx, s, tx.files[i]) && Live(tx.files[i]) !in s;
      } else if i > k {
        assert tx.files[k] != tx.files[i];
        assert IsOld(tx, s, tx.files[i]);
      }
    }
  }

  lemma {:induction false} BackUpSteps(tx: Tx, s: Files, k: nat, m: nat)
    requires tx.Valid() && k <= m <= |tx.files| && BackedUp(tx, s, k)
    ensures Always(tx, Old, s, BackUp(tx.Targets()[k..m]))
    ensures BackedUp(tx, Run(s, BackUp(tx.Targets()[k..m])), m)
    decreases m - k
  {
    hide Holds, BackedUp;
    BackedUpHolds(tx, s, k);
    var rest := tx.Targets()[k..m];
    if k < m {
      assert rest[0] == tx.Targets()[k] && rest[1..] == tx.Targets()[k + 1..m];
      if Live(tx.files[k]) in tx.before {
        var a := Move(Live(tx.files[k]), Backup(tx.files[k]));
        BackUpOne(tx, s, k);
        BackUpSteps(tx, Apply(s, a), k + 1, m);
        assert BackUp(rest) == [a] + BackUp(rest[1..]);
      } else {
        AbsentIsAside(tx, s, k);
        BackUpSteps(tx, s, k + 1, m);
        assert BackUp(rest) == [] + BackUp(rest[1..]) == BackUp(rest[1..]);
      }
    }
  }

  lemma AbsentIsAside(tx: Tx, s: Files, k: nat)
    requires tx.Valid() && k < |tx.files| && BackedUp(tx, s, k) && Live(tx.files[k]) !in tx.before
    ensures BackedUp(tx, s, k + 1)
  {
    hide ManifestBytes, IsManaged, ValidTargets, Framed, Waiting, HasManifest;
    assert IsOld(tx, s, tx.files[k]);
  }

  lemma PlaceOne(tx: Tx, s: Files, k: nat)
    requires tx.Valid() && k < |tx.files| && Placed(tx, s, k)
    ensures Placed(tx, Apply(s, Move(Temp(tx.files[k]), Live(tx.files[k]))), k + 1)
  {
    hide IsManaged, ManifestBytes;
    var f := tx.files[k];
    var t := Apply(s, Move(Temp(f), Live(f)));
    assert Waiting(tx, s, k);
    forall n | !Owned(tx, n)
      ensures SameAt(t, tx.before, n)
    {
      assert SameAt(s, tx.before, n);
    }
    forall i | 0 <= i < |tx.files|
      ensures Aside(tx, t, tx.files[i])
      ensures i <= k ==> IsNew(tx, t, i)
      ensures i > k ==> Waiting(tx, t, i) && Live(tx.files[i]) !in t
    {
      assert Aside(tx, s, tx.files[i]);
      if i < k {
        assert tx.files[i] != tx.files[k];
        assert IsNew(tx, s, i);
      } else if i > k {
        assert tx.files[k] != tx.files[i];
        assert Waiting(tx, s, i) && Live(tx.files[i]) !in s;
      }
    }
  }

  lemma {:induction false} PlaceSteps(tx: Tx, s: Files, k: nat, m: nat)
    requires tx.Valid() && k <= m <= |tx.files| && Placed(tx, s, k)
    ensures Always(tx, Old, s, Place(tx.Targets()[k..m]))
    ensures Placed(tx, Run(s, Place(tx.Targets()[k..m])), m)
    decreases m - k
  {
    hide Holds, Placed;
    PlacedHolds(tx, s, k);
    var rest := tx.Targets()[k..m];
    if k < m {
      assert rest[0] == tx.Targets()[k] && rest[1..] == tx.Targets()[k + 1..m];
      var a := Move(Temp(tx.files[k]), Live(tx.files[k]));
      PlaceOne(tx, s, k);
      PlaceSteps(tx, Apply(s, a), k + 1, m);
      assert Place(rest) == [a] + Place(rest[1..]);
    }
  }

  /** Writing the new contents into temporary files. */
  function Stage(files: seq<string>, contents: seq<string>): seq<Action>
    requires |files| == |contents|
  {
    if files == [] then [] else [Write(Temp(files[0]), contents[0])] + Stage(files[1..], contents[1..])
  }

  lemma {:induction false} StageIsScratch(files: seq<string>, contents: seq<string>)
    requires |files| == |contents|
    ensures forall i :: 0 <= i < |Stage(files, contents)| ==> OnScratch(Stage(files, contents)[i])
  {
    if files != [] {
      StageIsScratch(files[1..], contents[1..]);
    }
  }

  lemma {:induction false} StageWrites(s: Files, files: seq<string>, contents: seq<string>)
    requires |files| == |contents| && Distinct(files)
    ensures var t := Run(s, Stage(files, contents));
      && (forall i :: 0 <= i < |files| ==> Temp(files[i]) in t && t[Temp(files[i])] == contents[i])
      && (forall n: Name :: !(n.Temp? && n.file in files) ==> SameAt(t, s, n))
    decreases |files|
  {
    if files != [] {
      var a := Write(Temp(files[0]), contents[0]);
      var rest := Stage(files[1..], contents[1..]);
      assert Stage(files, contents)[0] == a && Stage(files, contents)[1..] == rest;
      var next := Apply(s, a);
      StageWrites(next, files[1..], contents[1..]);
      var t := Run(next, rest);
      assert files[0] !in files[1..];
      assert SameAt(t, next, Temp(files[0]));
      forall i | 0 <= i < |files|
        ensures Temp(files[i]) in t && t[Temp(files[i])] == contents[i]
      {
        if i > 0 {
          assert files[1..][i - 1] == files[i];
        }
      }
      forall n: Name | !(n.Temp? && n.file in files)
        ensures SameAt(t, s, n)
      {
        if n.Temp? {
          assert n.file !in files[1..];
        }
        assert SameAt(t, next, n);
      }
    }
  }

  lemma StartsOld(tx: Tx)
    requires tx.Valid()
    ensures Holds(tx, Old, tx.before)
  {
    hide ManifestBytes;
    forall f | f in tx.files
      ensures IsOld(tx, tx.before, f)
    {
      assert IsManaged(f);
    }
  }

  lemma StageSteps(tx: Tx)
    requires tx.Valid()
    ensures Always(tx, Old, tx.before, Stage(tx.files, tx.contents))
    ensures Staged(tx, Run(tx.before, Stage(tx.files, tx.contents)))
    ensures Ready(Run(tx.before, Stage(tx.files, tx.contents)), tx.files)
    ensures TargetsOf(Run(tx.before, Stage(tx.files, tx.contents)), tx.files) == tx.Targets()
  {
    hide Holds, ManifestBytes, IsManaged;
    StartsOld(tx);
    StageIsScratch(tx.files, tx.contents);
    ScratchActions(tx, Old, tx.before, Stage(tx.files, tx.contents));
    StageWrites(tx.before, tx.files, tx.contents);
    var s := Run(tx.before, Stage(tx.files, tx.contents));
    forall n | !Owned(tx, n)
      ensures SameAt(s, tx.before, n)
    {
      assert !Scratch(n);
    }
    assert SameAt(s, tx.before, Manifest) && SameAt(s, tx.before, Commit);
    forall f | f in tx.files
      ensures IsOld(tx, s, f) && Temp(f) in s && Backup(f) !in s
    {
      assert IsManaged(f);
      assert SameAt(s, tx.before, Live(f)) && SameAt(s, tx.before, Backup(f));
      var i := ByIndex(tx, f);
    }
    forall i | 0 <= i < |tx.files|
      ensures Waiting(tx, s, i)
      ensures SameAt(s, tx.before, Live(tx.files[i]))
    {
    }
  }

  /** Publishing the manifest. */
  lemma ManifestSteps(tx: Tx, s: Files)
    requires tx.Valid() && Staged(tx, s)
    ensures Always(tx, Old, s, PublishManifest(tx.Targets()))
    ensures BackedUp(tx, Run(s, PublishManifest(tx.Targets())), 0)
  {
    hide Holds, ManifestBytes, IsManaged;
    StagedHolds(tx, s);
    var bytes := ManifestBytes(tx.Targets());
    var quiet, a := [Drop(ManifestTemp), Write(ManifestTemp, bytes)], Move(ManifestTemp, Manifest);
    ScratchActions(tx, Old, s, quiet);
    RunTwo(s, quiet[0], quiet[1]);
    var t := Run(s, quiet);
    var u := Apply(t, a);
    forall n | n != ManifestTemp && n != Manifest
      ensures SameAt(u, s, n)
    {
    }
    ManifestPublished(tx, s, u);
    BackedUpHolds(tx, u, 0);
    AlwaysAtEnd(tx, Old, s, quiet);
    AlwaysOne(tx, Old, t, a);
    AlwaysConcat(tx, Old, s, quiet, [a]);
    RunConcat(s, quiet, [a]);
    RunOne(t, a);
    assert PublishManifest(tx.Targets()) == quiet + [a];
  }

  lemma ManifestPublished(tx: Tx, s: Files, u: Files)
    requires tx.Valid() && Staged(tx, s) && HasManifest(tx, u)
    requires forall n :: n != ManifestTemp && n != Manifest ==> SameAt(u, s, n)
    ensures BackedUp(tx, u, 0)
  {
    hide ManifestBytes, IsManaged;
    forall n | !Owned(tx, n)
      ensures SameAt(u, tx.before, n)
    {
      assert SameAt(u, s, n) && SameAt(s, tx.before, n);
    }
    forall i | 0 <= i < |tx.files|
      ensures Waiting(tx, u, i) && IsOld(tx, u, tx.files[i])
    {
      var f := tx.files[i];
      assert Waiting(tx, s, i) && IsOld(tx, s, f);
      assert SameAt(u, s, Live(f)) && SameAt(u, s, Backup(f)) && SameAt(u, s, Temp(f));
    }
    assert SameAt(u, s, Commit);
  }

  lemma AlwaysOne(tx: Tx, side: Side, s: Files, a: Action)
    requires tx.Valid() && !a.Write? && Holds(tx, side, s) && Holds(tx, side, Apply(s, a))
    ensures Always(tx, side, s, [a])
  {
    hide Holds;
    ThroughOne(States(tx, side), s, a);
  }

  lemma StagedHolds(tx: Tx, s: Files)
    requires tx.Valid() && Staged(tx, s)
    ensures Holds(tx, Old, s)
  {
  }

  // ---------------------------------------------------------------- from the marker on

  /** Writing the marker's temporary file keeps everything in place. */
  lemma MarkerWritten(tx: Tx, s: Files)
    requires tx.Valid() && Placed(tx, s, |tx.files|)
    ensures Always(tx, Old, s, PublishMarker[..2])
    ensures var t := Run(s, PublishMarker[..2]);
      Placed(tx, t, |tx.files|) && Holds(tx, New, Apply(t, PublishMarker[2]))
  {
    hide Holds, ManifestBytes, IsManaged;
    PlacedHolds(tx, s, |tx.files|);
    var quiet := [Drop(CommitTemp), Write(CommitTemp, MarkerText)];
    assert PublishMarker[..2] == quiet;
    ScratchActions(tx, Old, s, quiet);
    RunTwo(s, quiet[0], quiet[1]);
    var t := Run(s, quiet);
    assert forall n :: n != CommitTemp ==> SameAt(t, s, n);
    PlacedElsewhere(tx, s, t);
    MarkerPublished(tx, t);
  }

  lemma PlacedElsewhere(tx: Tx, s: Files, t: Files)
    requires tx.Valid() && Placed(tx, s, |tx.files|) && forall n :: n != CommitTemp ==> SameAt(t, s, n)
    ensures Placed(tx, t, |tx.files|)
  {
    hide ManifestBytes, IsManaged;
    forall n | !Owned(tx, n)
      ensures SameAt(t, tx.before, n)
    {
      assert SameAt(t, s, n) && SameAt(s, tx.before, n);
    }
    forall i | 0 <= i < |tx.files|
      ensures Aside(tx, t, tx.files[i]) && IsNew(tx, t, i)
    {
      var f := tx.files[i];
      assert Aside(tx, s, f) && IsNew(tx, s, i);
      assert SameAt(t, s, Live(f)) && SameAt(t, s, Backup(f));
    }
    assert SameAt(t, s, Commit) && SameAt(t, s, Manifest);
  }

  lemma MarkerPublished(tx: Tx, s: Files)
    requires tx.Valid() && Placed(tx, s, |tx.files|) && CommitTemp in s
    ensures Holds(tx, New, Apply(s, Move(CommitTemp, Commit)))
  {
    hide ManifestBytes, IsManaged;
    var t := Apply(s, Move(CommitTemp, Commit));
    forall n | !Owned(tx, n)
      ensures SameAt(t, tx.before, n)
    {
      assert SameAt(s, tx.before, n);
    }
    forall i | 0 <= i < |tx.files|
      ensures IsNew(tx, t, i)
    {
      assert IsNew(tx, s, i);
    }
  }

  /** On the new side, backups and temporary files may go. */
  ghost predicate Harmless(tx: Tx, a: Action) {
    a.Drop? && (Scratch(a.name) || (a.name.Backup? && a.name.file in tx.files))
  }

  lemma HarmlessStep(tx: Tx, s: Files, a: Action)
    requires tx.Valid() && Holds(tx, New, s) && Harmless(tx, a)
    ensures Holds(tx, New, Apply(s, a))
  {
    hide ManifestBytes, IsManaged;
    var t := Apply(s, a);
    forall n | !Owned(tx, n)
      ensures SameAt(t, tx.before, n)
    {
      assert SameAt(s, tx.before, n);
    }
    forall i | 0 <= i < |tx.files|
      ensures IsNew(tx, t, i)
    {
      assert IsNew(tx, s, i);
    }
  }

  lemma {:induction false} HarmlessSteps(tx: Tx, s: Files, actions: seq<Action>)
    requires tx.Valid() && Holds(tx, New, s)
    requires forall i :: 0 <= i < |actions| ==> Harmless(tx, actions[i])
    ensures Always(tx, New, s, actions)
    ensures Manifest in s ==> Manifest in Run(s, actions)
    decreases |actions|
  {
    hide Holds;
    if actions != [] {
      assert Harmless(tx, actions[0]);
      HarmlessStep(tx, s, actions[0]);
      HarmlessSteps(tx, Apply(s, actions[0]), actions[1..]);
    }
  }

  lemma {:induction false} CleanUpIsHarmless(tx: Tx, targets: seq<Target>)
    requires forall i :: 0 <= i < |targets| ==> targets[i].file in tx.files
    ensures forall i :: 0 <= i < |DropBackups(targets)| ==> Harmless(tx, DropBackups(targets)[i])
    ensures forall i :: 0 <= i < |DropArtifacts(targets)| ==> Harmless(tx, DropArtifacts(targets)[i])
  {
    if targets != [] {
      CleanUpIsHarmless(tx, targets[1..]);
    }
  }

  /** The clean-up leaves no backup and no temporary file of a target. */
  lemma {:induction false} ArtifactsDropped(s: Files, targets: seq<Target>)
    ensures var t := Run(s, DropArtifacts(targets));
      && (forall i :: 0 <= i < |targets| ==> Backup(targets[i].file) !in t && Temp(targets[i].file) !in t)
      && (forall n :: n in t ==> n in s)
    decreases |targets|
  {
    if targets != [] {
      var a, b := Drop(Backup(targets[0].file)), Drop(Temp(targets[0].file));
      assert DropArtifacts(targets) == [a, b] + DropArtifacts(targets[1..]);
      RunConcat(s, [a, b], DropArtifacts(targets[1..]));
      RunTwo(s, a, b);
      ArtifactsDropped(Run(s, [a, b]), targets[1..]);
    }
  }

  /** Removing the manifest and then the marker, once no backup is left. */
  lemma TransactionDropped(tx: Tx, s: Files)
    requires tx.Valid() && Holds(tx, New, s) && forall f :: f in tx.files ==> Backup(f) !in s
    ensures Always(tx, New, s, DropTransaction)
    ensures var t := Run(s, DropTransaction); Settled(t) && forall n :: n in t ==> n in s
  {
    hide Holds;
    var a, b := [Drop(Manifest), Drop(Commit)], [Drop(ManifestTemp), Drop(CommitTemp)];
    RunTwo(s, a[0], a[1]);
    ManifestDropped(tx, New, s);
    MarkerDropped(tx, Apply(s, a[0]));
    AlwaysOne(tx, New, s, a[0]);
    AlwaysOne(tx, New, Apply(s, a[0]), a[1]);
    RunOne(s, a[0]);
    AlwaysConcat(tx, New, s, [a[0]], [a[1]]);
    assert [a[0]] + [a[1]] == a;
    AlwaysAtEnd(tx, New, s, a);
    var t := Run(s, a);
    HarmlessSteps(tx, t, b);
    RunTwo(t, b[0], b[1]);
    AlwaysConcat(tx, New, s, a, b);
    RunConcat(s, a, b);
    assert DropTransaction == a + b;
  }

  /** The manifest may go when every file is settled. */
  lemma ManifestDropped(tx: Tx, side: Side, s: Files)
    requires tx.Valid() && Holds(tx, side, s)
    requires forall f :: f in tx.files ==> if side.Old? then IsOld(tx, s, f) else Backup(f) !in s
    ensures Holds(tx, side, Apply(s, Drop(Manifest)))
  {
    hide ManifestBytes, IsManaged;
    var t := Apply(s, Drop(Manifest));
    forall n | !Owned(tx, n)
      ensures SameAt(t, tx.before, n)
    {
      assert SameAt(s, tx.before, n);
    }
    if side.New? {
      forall i | 0 <= i < |tx.files|
        ensures IsNew(tx, t, i)
      {
        assert IsNew(tx, s, i);
      }
    }
  }

  lemma MarkerDropped(tx: Tx, s: Files)
    requires tx.Valid() && Holds(tx, New, s) && Manifest !in s
    ensures Holds(tx, New, Apply(s, Drop(Commit)))
  {
    hide ManifestBytes, IsManaged;
    var t := Apply(s, Drop(Commit));
    forall n | !Owned(tx, n)
      ensures SameAt(t, tx.before, n)
    {
      assert SameAt(s, tx.before, n);
    }
    forall i | 0 <= i < |tx.files|
      ensures IsNew(tx, t, i)
    {
      assert IsNew(tx, s, i);
    }
  }

  /** `finishCommittedTransaction` from any state of the new side that still has its manifest. */
  lemma FinishSteps(tx: Tx, s: Files)
    requires tx.Valid() && Holds(tx, New, s)
    ensures Always(tx, New, s, Finish(tx.Targets()))
    ensures var t := Run(s, Finish(tx.Targets()));
      Settled(t) && forall f :: f in tx.files ==> Backup(f) !in t && Temp(f) !in t
  {
    hide Holds, IsManaged, ManifestBytes;
    var targets := tx.Targets();
    forall i | 0 <= i < |targets|
      ensures targets[i].file in tx.files
    {
      assert targets[i].file == tx.files[i];
    }
    CleanUpIsHarmless(tx, targets);
    HarmlessSteps(tx, s, DropArtifacts(targets));
    AlwaysAtEnd(tx, New, s, DropArtifacts(targets));
    ArtifactsDropped(s, targets);
    var t := Run(s, DropArtifacts(targets));
    forall f | f in tx.files
      ensures Backup(f) !in t && Temp(f) !in t
    {
      var i := ByIndex(tx, f);
      assert Backup(targets[i].file) !in t;
    }
    TransactionDropped(tx, t);
    AlwaysConcat(tx, New, s, DropArtifacts(targets), DropTransaction);
    RunConcat(s, DropArtifacts(targets), DropTransaction);
  }
}
