/** The states a replacement transaction may be stopped in, on either side of its commit marker. */
module TransactionStates {
  import opened StoreNames
  import opened FileActions
  import opened ManifestFile
  import opened Transaction

  /** One transaction: the directory it starts from, its files and their new contents. */
  datatype Tx = Tx(before: Files, files: seq<string>, contents: seq<string>) {
    ghost predicate Valid() {
      && ValidTargets(files)
      && |contents| == |files|
      && Manifest !in before && Commit !in before
      && forall f :: IsManaged(f) ==> Backup(f) !in before
    }

    function Targets(): (targets: seq<Target>)
      ensures |targets| == |files| && FilesOf(targets) == files
    {
      TargetsOf(before, files)
    }

    function Bytes(): string {
      ManifestBytes(Targets())
    }
  }

  // ---------------------------------------------------------------- what a stopped process leaves behind

  /** Names recovery throws away without looking at their bytes. */
  ghost predicate Scratch(n: Name) {
    n.ManifestTemp? || n.CommitTemp? || n.Temp?
  }

  /** Names the transaction may change. */
  ghost predicate Owned(tx: Tx, n: Name) {
    Scratch(n) || n.Manifest? || n.Commit? || ((n.Live? || n.Backup?) && n.file in tx.files)
  }

  ghost predicate Framed(tx: Tx, s: Files) {
    forall n :: !Owned(tx, n) ==> SameAt(s, tx.before, n)
  }

  /** The old version of file `f` is in place, or it never existed and nothing is there. */
  ghost predicate IsOld(tx: Tx, s: Files, f: string) {
    Backup(f) !in s && SameAt(s, tx.before, Live(f))
  }

  /** What is in place, if anything, is what the transaction brings. */
  ghost predicate OnlyNew(tx: Tx, s: Files, f: string)
    requires |tx.contents| == |tx.files|
  {
    Live(f) in s ==> forall i :: 0 <= i < |tx.files| && tx.files[i] == f ==> s[Live(f)] == tx.contents[i]
  }

  /** The old version is in place, or it can still be put back and nothing else but the new one is there. */
  ghost predicate KeepsOld(tx: Tx, s: Files, f: string)
    requires |tx.contents| == |tx.files|
  {
    IsOld(tx, s, f)
    || (OnlyNew(tx, s, f)
        && if Live(f) in tx.before then Backup(f) in s && s[Backup(f)] == tx.before[Live(f)] else Backup(f) !in s)
  }

  ghost predicate IsNew(tx: Tx, s: Files, i: nat)
    requires i < |tx.files| && |tx.contents| == |tx.files|
  {
    Live(tx.files[i]) in s && s[Live(tx.files[i])] == tx.contents[i]
  }

  ghost predicate HasManifest(tx: Tx, s: Files) {
    Manifest in s && s[Manifest] == tx.Bytes()
  }

  datatype Side = Old | New

  /** Old side: no marker; without a manifest every file is old, with one each can be put back.
      New side: every file is new; without a manifest no backup is left, with one there is a marker. */
  ghost predicate Holds(tx: Tx, side: Side, s: Files)
    requires tx.Valid()
  {
    Framed(tx, s) &&
    match side
    case Old =>
      && Commit !in s
      && (Manifest in s ==> HasManifest(tx, s) && forall f :: f in tx.files ==> KeepsOld(tx, s, f))
      && (Manifest !in s ==> forall f :: f in tx.files ==> IsOld(tx, s, f))
    case New =>
      && (forall i :: 0 <= i < |tx.files| ==> IsNew(tx, s, i))
      && (Manifest in s ==> HasManifest(tx, s) && Commit in s)
      && (Manifest !in s ==> forall f :: f in tx.files ==> Backup(f) !in s)
  }

  // ---------------------------------------------------------------- every stop on the way

  ghost function States(tx: Tx, side: Side): iset<Files>
    requires tx.Valid()
  {
    iset s: Files | Holds(tx, side, s)
  }

  /** `side` holds wherever the process may stop while performing `actions`, and at the end. */
  ghost predicate Always(tx: Tx, side: Side, s: Files, actions: seq<Action>)
    requires tx.Valid()
  {
    Through(States(tx, side), s, actions)
  }

  lemma AlwaysConcat(tx: Tx, side: Side, s: Files, a: seq<Action>, b: seq<Action>)
    requires tx.Valid() && Always(tx, side, s, a) && Always(tx, side, Run(s, a), b)
    ensures Always(tx, side, s, a + b)
  {
    ThroughConcat(States(tx, side), s, a, b);
  }

  lemma AlwaysAtStop(tx: Tx, side: Side, s: Files, actions: seq<Action>, stop: Stop)
    requires tx.Valid() && Always(tx, side, s, actions)
    ensures Holds(tx, side, Interrupted(s, actions, stop))
  {
    hide Holds;
    ThroughAtStop(States(tx, side), s, actions, stop);
  }

  lemma AlwaysAtEnd(tx: Tx, side: Side, s: Files, actions: seq<Action>)
    requires tx.Valid() && Always(tx, side, s, actions)
    ensures Holds(tx, side, Run(s, actions))
  {
    hide Holds;
    ThroughAtEnd(States(tx, side), s, actions);
  }

  /** Changing scratch files changes nothing recovery relies on. */
  lemma ScratchIsFree(tx: Tx, side: Side, s: Files, t: Files)
    requires tx.Valid() && Holds(tx, side, s)
    requires forall n :: !Scratch(n) ==> SameAt(t, s, n)
    ensures Holds(tx, side, t)
  {
    hide ValidTargets, IsManaged, ManifestBytes;
    assert !Scratch(Manifest) && !Scratch(Commit);
    forall f
      ensures SameAt(t, s, Live(f)) && SameAt(t, s, Backup(f))
    {
      assert !Scratch(Live(f)) && !Scratch(Backup(f));
    }
    forall n | !Owned(tx, n)
      ensures SameAt(t, tx.before, n)
    {
      assert !Scratch(n) && SameAt(s, tx.before, n);
    }
    if side.Old? {
      forall f | f in tx.files
        ensures if Manifest in t then KeepsOld(tx, t, f) else IsOld(tx, t, f)
      {
        assert SameAt(t, s, Live(f)) && SameAt(t, s, Backup(f));
      }
    } else {
      forall i | 0 <= i < |tx.files|
        ensures IsNew(tx, t, i) && (Manifest !in t ==> Backup(tx.files[i]) !in t)
      {
        assert tx.files[i] in tx.files && IsNew(tx, s, i);
        assert SameAt(t, s, Live(tx.files[i])) && SameAt(t, s, Backup(tx.files[i]));
      }
    }
  }

  /** An action that only touches scratch files. */
  ghost predicate OnScratch(a: Action) {
    !a.Move? && Scratch(a.name)
  }

  lemma {:induction false} ScratchActions(tx: Tx, side: Side, s: Files, actions: seq<Action>)
    requires tx.Valid() && Holds(tx, side, s)
    requires forall i :: 0 <= i < |actions| ==> OnScratch(actions[i])
    ensures Always(tx, side, s, actions)
    ensures forall n :: !Scratch(n) ==> SameAt(Run(s, actions), s, n)
    decreases |actions|
  {
    hide Holds;
    if actions != [] {
      var a := actions[0];
      assert OnScratch(a);
      if a.Write? {
        forall k | 0 <= k <= |a.content|
          ensures Holds(tx, side, s[a.name := a.content[..k]])
        {
          ScratchIsFree(tx, side, s, s[a.name := a.content[..k]]);
        }
      }
      ScratchIsFree(tx, side, s, Apply(s, a));
      ScratchActions(tx, side, Apply(s, a), actions[1..]);
    }
  }

  /** No trace of a transaction. */
  ghost predicate Settled(s: Files) {
    Manifest !in s && Commit !in s && ManifestTemp !in s && CommitTemp !in s
  }
}
