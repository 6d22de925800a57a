/** All of `initializeSchema` up to the counters (`native_session_store.cpp`), as steps of the directory. */
module StoreOpening {
  import opened Options
  import opened RecordLog
  import opened TailRecovery
  import opened StoreNames
  import opened FileActions
  import opened Transaction

  const SchemaText: string := "format=SVM_NATIVE_STORE_V1\nengine=length-prefixed-files\n"
    + "storage_choice=file-store-first-stage\nid_counters=id_counters.svmr\n"

  /** The orphan and the kept prefix are copied, then the prefix replaces the file. */
  function Copies(data: string, at: nat, file: string): seq<Action>
    requires at <= |data|
  {
    [Drop(Temp(file)), Drop(Orphan(file)), Write(Orphan(file), data[at..]), Write(Temp(file), data[..at])]
  }

  /** `recoverRecordFileTail`. */
  function TailActions(fs: Files, file: string): seq<Action>
    requires Live(file) in fs
  {
    var data := fs[Live(file)];
    match ScanTail(data, BodyStart(data))
    case Clean(_) => []
    case Cut(at) =>
      var copies := Copies(data, at, file);
      copies + Replace(Run(fs, copies), file, NoReplaceFault)
  }

  /** What follows the artefacts of a data file: its tail is recovered, or it is created. */
  function TailOrCreate(fs: Files, file: string): seq<Action> {
    if Live(file) in fs then TailActions(fs, file) else [Write(Live(file), Header)]
  }

  function OpenFile(fs: Files, file: string): seq<Action> {
    var sweep := Artifacts(fs, file);
    sweep + TailOrCreate(Run(fs, sweep), file)
  }

  function OpenFiles(fs: Files, files: seq<string>): seq<Action>
    decreases |files|
  {
    if files == [] then [] else
      OpenFile(fs, files[0]) + OpenFiles(Run(fs, OpenFile(fs, files[0])), files[1..])
  }

  /** The part that follows `recoverReplacementTransaction`. */
  function OpenRest(fs: Files): seq<Action> {
    var schema := [Write(Live(SchemaFile), SchemaText)];
    var open := OpenFiles(Run(fs, schema), DataFiles);
    schema + open + Artifacts(Run(fs, schema + open), CountersFile)
  }

  /** `None` when the transaction stage does not succeed. */
  ghost function Opening(fs: Files): Option<seq<Action>> {
    match Recover(fs)
    case None => None
    case Some(actions) => Some(actions + OpenRest(Run(fs, actions)))
  }

  lemma OpenRestIs(s: Files)
    ensures var schema := [Write(Live(SchemaFile), SchemaText)];
      var open := OpenFiles(Run(s, schema), DataFiles);
      OpenRest(s) == schema + open + Artifacts(Run(s, schema + open), CountersFile)
  {
    hide OpenFiles, Run, Artifacts, SchemaText;
  }

  lemma OpeningIs(s: Files)
    ensures Opening(s).Some? <==> Recover(s).Some?
    ensures Recover(s).Some? ==> Opening(s).value == Recover(s).value + OpenRest(Run(s, Recover(s).value))
  {
    hide Recover, OpenRest, Run;
  }
}
