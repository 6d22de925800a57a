/** The file-system calls of `native_store_file_ops.cpp`, in order, as functions of the directory.
    `StoreDirectory` below performs them one by one and is proved to perform exactly these. */
module Transaction {
  import opened Options
  import opened StoreNames
  import opened FileActions
  import opened ManifestFile

  const MarkerText: string := "SVM_NATIVE_STORE_TRANSACTION_COMMITTED_V1\n"

  // ---------------------------------------------------------------- commit

  /** Which files had an old version, as `commitReplacementTargets` records it in `hadPath`. */
  function TargetsOf(fs: Files, files: seq<string>): (targets: seq<Target>)
    ensures |targets| == |files| && FilesOf(targets) == files
  {
    seq(|files|, i requires 0 <= i < |files| => Target(files[i], Live(files[i]) in fs))
  }

  /** The checks before anything is touched. */
  ghost predicate Ready(fs: Files, files: seq<string>) {
    && ValidTargets(files)
    && Manifest !in fs && Commit !in fs
    && forall f :: f in files ==> Temp(f) in fs && Backup(f) !in fs
  }

  function PublishManifest(targets: seq<Target>): seq<Action> {
    [Drop(ManifestTemp), Write(ManifestTemp, ManifestBytes(targets)), Move(ManifestTemp, Manifest)]
  }

  function BackUp(targets: seq<Target>): seq<Action> {
    if targets == [] then [] else
      (if targets[0].hadPath then [Move(Live(targets[0].file), Backup(targets[0].file))] else []) + BackUp(targets[1..])
  }

  function Place(targets: seq<Target>): seq<Action> {
    if targets == [] then [] else [Move(Temp(targets[0].file), Live(targets[0].file))] + Place(targets[1..])
  }

  const PublishMarker: seq<Action> := [Drop(CommitTemp), Write(CommitTemp, MarkerText), Move(CommitTemp, Commit)]

  function DropBackups(targets: seq<Target>): seq<Action> {
    if targets == [] then [] else [Drop(Backup(targets[0].file))] + DropBackups(targets[1..])
  }

  function DropArtifacts(targets: seq<Target>): seq<Action> {
    if targets == [] then [] else
      [Drop(Backup(targets[0].file)), Drop(Temp(targets[0].file))] + DropArtifacts(targets[1..])
  }

  const DropTransaction: seq<Action> := [Drop(Manifest), Drop(Commit), Drop(ManifestTemp), Drop(CommitTemp)]

  /** `finishCommittedTransaction`, once its check that every file is there has passed. */
  function Finish(targets: seq<Target>): seq<Action> {
    DropArtifacts(targets) + DropTransaction
  }

  predicate AllPlaced(fs: Files, targets: seq<Target>) {
    forall i :: 0 <= i < |targets| ==> Live(targets[i].file) in fs
  }

  // ---------------------------------------------------------------- rollback

  /** The two inconsistencies `rollbackUncommittedTransaction` looks for before it changes anything. */
  predicate CanUndo(fs: Files, targets: seq<Target>) {
    forall i :: 0 <= i < |targets| ==>
      var t := targets[i];
      if t.hadPath then Live(t.file) in fs || Backup(t.file) in fs else Backup(t.file) !in fs
  }

  function UndoOne(fs: Files, t: Target): seq<Action> {
    (if Backup(t.file) in fs then
       (if Live(t.file) in fs then [Drop(Live(t.file))] else []) + [Move(Backup(t.file), Live(t.file))]
     else if !t.hadPath then [Drop(Live(t.file))]
     else [])
    + [Drop(Temp(t.file))]
  }

  /** Last target first. */
  function UndoAll(fs: Files, targets: seq<Target>): seq<Action>
    decreases |targets|
  {
    if targets == [] then [] else
      var undo := UndoOne(fs, targets[|targets| - 1]);
      undo + UndoAll(Run(fs, undo), targets[..|targets| - 1])
  }

  function Rollback(fs: Files, targets: seq<Target>): seq<Action> {
    UndoAll(fs, targets) + [Drop(Manifest), Drop(ManifestTemp), Drop(CommitTemp)]
  }

  // ---------------------------------------------------------------- a whole commit, with one failing rename

  /** Which rename fails, if any.  A failed rename changes nothing. */
  datatype Fault = NoFault | AtManifest | AtBackup(i: nat) | AtPlace(i: nat) | AtMarker

  predicate Hits(fault: Fault, targets: seq<Target>) {
    match fault
    case NoFault => false
    case AtBackup(i) => i < |targets| && targets[i].hadPath
    case AtPlace(i) => i < |targets|
    case _ => true
  }

  /** What is done up to and including the clean-up of the temporary file of the failed rename. */
  function Attempt(targets: seq<Target>, fault: Fault): seq<Action>
    requires Hits(fault, targets)
  {
    match fault
    case AtManifest => PublishManifest(targets)[..2] + [Drop(ManifestTemp)]
    case AtBackup(i) => PublishManifest(targets) + BackUp(targets[..i])
    case AtPlace(i) => PublishManifest(targets) + BackUp(targets) + Place(targets[..i])
    case _ => PublishManifest(targets) + BackUp(targets) + Place(targets) + PublishMarker[..2] + [Drop(CommitTemp)]
  }

  /** Up to the marker, and after it. */
  function UntilMarker(targets: seq<Target>): seq<Action> {
    PublishManifest(targets) + BackUp(targets) + Place(targets) + PublishMarker[..2]
  }

  function FromMarker(targets: seq<Target>): seq<Action> {
    [PublishMarker[2]] + (DropBackups(targets) + Finish(targets))
  }

  /** `abortTransaction`: a rollback that finds the directory inconsistent does nothing. */
  function Abort(fs: Files, targets: seq<Target>): seq<Action> {
    if CanUndo(fs, targets) then Rollback(fs, targets) else []
  }

  /** What follows the checks of `commitReplacementTargets`. */
  function CommitTargets(fs: Files, targets: seq<Target>, fault: Fault): seq<Action> {
    if !Hits(fault, targets) then UntilMarker(targets) + FromMarker(targets)
    else if fault.AtManifest? then Attempt(targets, fault)
    else Attempt(targets, fault) + Abort(Run(fs, Attempt(targets, fault)), targets)
  }

  /** `commitReplacementTargets` on a directory that passed the checks. */
  function CommitActions(fs: Files, files: seq<string>, fault: Fault): seq<Action> {
    CommitTargets(fs, TargetsOf(fs, files), fault)
  }

  // ---------------------------------------------------------------- recovery

  /** How a call ends, if it does. */
  datatype Return = Succeeded | Failed | NeverReturns

  /** `recoverReplacementTransaction` does not come back from reading the manifest. */
  predicate ReadsForever(fs: Files) {
    Manifest in fs && LoadManifest(fs[Manifest]).NeverLoads?
  }

  /** `recoverReplacementTransaction`; `None` is one of its error exits, or no exit: `ReadsForever`. */
  ghost function Recover(fs: Files): Option<seq<Action>> {
    if Manifest !in fs then
      Some([Drop(ManifestTemp), Drop(CommitTemp)] + if Commit in fs then [Drop(Commit)] else [])
    else
      match LoadManifest(fs[Manifest])
      case BadManifest => None
      case NeverLoads => None
      case Loaded(targets) =>
        if !ValidTargets(FilesOf(targets)) then None
        else if Commit in fs then
          if AllPlaced(fs, targets) then Some(Finish(targets)) else None
        else if CanUndo(fs, targets) then Some(Rollback(fs, targets)) else None
  }

  /** `recoverReplacementArtifacts`. */
  function Artifacts(fs: Files, file: string): seq<Action> {
    (if Backup(file) in fs then
       (if Live(file) in fs then [Drop(Live(file))] else []) + [Move(Backup(file), Live(file))]
     else [])
    + if Temp(file) in fs then [Drop(Temp(file))] else []
  }

  function AllArtifacts(fs: Files, files: seq<string>): seq<Action>
    decreases |files|
  {
    if files == [] then [] else
      Artifacts(fs, files[0]) + AllArtifacts(Run(fs, Artifacts(fs, files[0])), files[1..])
  }

  /** The files `initializeSchema` sweeps, in its order. */
  const SweptFiles: seq<string> := DataFiles + [CountersFile]

  /** Both recovery stages of `initializeSchema`. */
  ghost function Reopen(fs: Files): Option<seq<Action>> {
    match Recover(fs)
    case None => None
    case Some(actions) => Some(actions + AllArtifacts(Run(fs, actions), SweptFiles))
  }

  // ---------------------------------------------------------------- replacing one file

  datatype ReplaceFault = NoReplaceFault | BackupRenameFails | PlaceRenameFails

  /** `replaceFileWithTemp`. */
  function Replace(fs: Files, file: string, fault: ReplaceFault): seq<Action> {
    if Live(file) in fs then
      (if Backup(file) in fs then [Drop(Backup(file))] else [])
      + match fault
        case BackupRenameFails => [Drop(Temp(file))]
        case PlaceRenameFails =>
          [Move(Live(file), Backup(file)), Move(Backup(file), Live(file)), Drop(Temp(file))]
        case NoReplaceFault =>
          [Move(Live(file), Backup(file)), Move(Temp(file), Live(file)), Drop(Backup(file))]
    else if fault.PlaceRenameFails? then [Drop(Temp(file))]
    else [Move(Temp(file), Live(file))]
  }
}
