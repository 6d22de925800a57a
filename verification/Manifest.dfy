/** The transaction manifest: `writeTransactionManifest`, `loadTransactionManifest` and
    `validateTargets` (`native_store_file_ops.cpp`). */
module ManifestFile {
  import opened Options
  import opened RecordLog
  import opened RecordLogTheorems
  import opened StoreNames

  datatype Target = Target(file: string, hadPath: bool)

  function FilesOf(targets: seq<Target>): (files: seq<string>)
    ensures |files| == |targets|
    ensures forall i :: 0 <= i < |targets| ==> files[i] == targets[i].file
  {
    seq(|targets|, i requires 0 <= i < |targets| => targets[i].file)
  }

  /** `validateTargets`: at least one target, all managed, no file twice. */
  ghost predicate ValidTargets(files: seq<string>) {
    files != [] && Distinct(files) && forall f :: f in files ==> IsManaged(f)
  }

  method ValidateTargets(files: seq<string>) returns (ok: bool)
    ensures ok <==> ValidTargets(files)
  {
    if |files| == 0 {
      return false;
    }
    for i := 0 to |files|
      invariant Distinct(files[..i]) && forall f :: f in files[..i] ==> IsManaged(f)
    {
      if !IsManaged(files[i]) || files[i] in files[..i] {
        assert files[i] in files;
        if IsManaged(files[i]) {
          var j :| 0 <= j < i && files[j] == files[i];
        }
        return false;
      }
      assert files[..i + 1] == files[..i] + [files[i]];
    }
    assert files[..|files|] == files;
    ok := true;
  }

  // ---------------------------------------------------------------- bytes

  function TargetRecord(t: Target): Record {
    ["target", t.file, if t.hadPath then "1" else "0"]
  }

  function TargetRecords(targets: seq<Target>): seq<Record> {
    if targets == [] then [] else [TargetRecord(targets[0])] + TargetRecords(targets[1..])
  }

  const VersionRecord: Record := ["transaction", "1"]

  function ManifestBytes(targets: seq<Target>): string {
    EncodeLog([VersionRecord] + TargetRecords(targets))
  }

  /** The checks on one target line, given the files already listed. */
  predicate GoodTarget(r: Record, seen: seq<string>) {
    |r| == 3 && r[0] == "target" && IsManaged(r[1]) && (r[2] == "0" || r[2] == "1") && r[1] !in seen
  }

  function TargetsFrom(records: seq<Record>, seen: seq<string>): Option<seq<Target>> {
    if records == [] then Some([])
    else if !GoodTarget(records[0], seen) then None
    else
      var rest := TargetsFrom(records[1..], seen + [records[0][1]]);
      if rest.None? then None else Some([Target(records[0][1], records[0][2] == "1")] + rest.value)
  }

  /** What loading a manifest gives; `NeverLoads` when `parseRecords` does not return. */
  datatype Loading = Loaded(targets: seq<Target>) | BadManifest | NeverLoads

  function LoadManifest(data: string): Loading {
    if !HasHeader(data) then BadManifest
    else
      match ParseBuffer(data)
      case Endless => NeverLoads
      case Rejected => BadManifest
      case Parsed(records) =>
        if records == [] || records[0] != VersionRecord then BadManifest
        else
          var targets := TargetsFrom(records[1..], []);
          if targets.None? || targets == Some([]) then BadManifest else Loaded(targets.value)
  }

  method LoadTransactionManifest(data: string) returns (result: Loading)
    ensures result == LoadManifest(data)
  {
    hide ParseBuffer, HasHeader, GoodTarget;
    if !HasHeader(data) {
      return BadManifest;
    }
    var parse := ParseRecords(data);
    if parse.Endless? {
      return NeverLoads;
    }
    if !parse.Parsed? || parse.items == [] || parse.items[0] != VersionRecord {
      return BadManifest;
    }
    var records := parse.items;
    var targets: seq<Target> := [];
    var files: seq<string> := [];
    var index := 1;
    assert Ahead([], TargetsFrom(records[1..], [])) == TargetsFrom(records[1..], []) by {
      AheadOfNothing(TargetsFrom(records[1..], []));
    }
    while index < |records|
      invariant 1 <= index <= |records|
      invariant Ahead(targets, TargetsFrom(records[index..], files)) == TargetsFrom(records[1..], [])
    {
      var record := records[index];
      assert records[index..][0] == record && records[index..][1..] == records[index + 1..];
      if !GoodTarget(record, files) {
        return BadManifest;
      }
      GoodTargetShape(record, files);
      var target := Target(record[1], record[2] == "1");
      OneAhead(targets, target, TargetsFrom(records[index + 1..], files + [record[1]]));
      targets, files := targets + [target], files + [record[1]];
      index := index + 1;
    }
    assert targets + [] == targets;
    if |targets| == 0 {
      return BadManifest;
    }
    result := Loaded(targets);
  }

  lemma GoodTargetShape(r: Record, seen: seq<string>)
    requires GoodTarget(r, seen)
    ensures |r| == 3
  {
  }

  ghost function Ahead(targets: seq<Target>, rest: Option<seq<Target>>): Option<seq<Target>> {
    if rest.None? then None else Some(targets + rest.value)
  }

  lemma AheadOfNothing(rest: Option<seq<Target>>)
    ensures Ahead([], rest) == rest
  {
    if rest.Some? {
      assert [] + rest.value == rest.value;
    }
  }

  lemma OneAhead(targets: seq<Target>, target: Target, rest: Option<seq<Target>>)
    ensures Ahead(targets, Ahead([target], rest)) == Ahead(targets + [target], rest)
  {
    if rest.Some? {
      assert targets + ([target] + rest.value) == targets + [target] + rest.value;
    }
  }

  // ---------------------------------------------------------------- round trip

  lemma {:induction false} TargetsReadBack(targets: seq<Target>, i: nat)
    requires i <= |targets| && Distinct(FilesOf(targets)) && forall f :: f in FilesOf(targets) ==> IsManaged(f)
    ensures TargetsFrom(TargetRecords(targets[i..]), FilesOf(targets)[..i]) == Some(targets[i..])
    decreases |targets| - i
  {
    hide IsManaged;
    if i < |targets| {
      var t, seen := targets[i], FilesOf(targets)[..i];
      assert targets[i..][0] == t && targets[i..][1..] == targets[i + 1..];
      assert FilesOf(targets)[i] in FilesOf(targets);
      assert FilesOf(targets)[..i + 1] == seen + [t.file];
      TargetsReadBack(targets, i + 1);
      assert targets[i..] == [t] + targets[i + 1..];
    }
  }

  /** What was published is what recovery reads. */
  lemma ManifestRoundTrip(targets: seq<Target>)
    requires ValidTargets(FilesOf(targets))
    ensures LoadManifest(ManifestBytes(targets)) == Loaded(targets)
  {
    hide IsManaged, ParseBuffer, EncodeRecords, TargetRecords;
    var records := [VersionRecord] + TargetRecords(targets);
    ManifestFits(targets);
    RoundTrip(records);
    assert records[1..] == TargetRecords(targets);
    assert targets[0..] == targets && FilesOf(targets)[..0] == [];
    TargetsReadBack(targets, 0);
  }

  // ---------------------------------------------------------------- size

  lemma {:induction false} TargetRecordsFit(targets: seq<Target>)
    requires forall f :: f in FilesOf(targets) ==> IsManaged(f)
    ensures |EncodeRecords(TargetRecords(targets))| <= 200 * |targets|
  {
    hide IsManaged, EncodeRecord;
    if targets != [] {
      assert targets[0].file == FilesOf(targets)[0];
      forall f | f in FilesOf(targets[1..])
        ensures IsManaged(f)
      {
        var i :| 0 <= i < |targets| - 1 && FilesOf(targets[1..])[i] == f;
        assert FilesOf(targets)[i + 1] == f;
      }
      TargetRecordFits(targets[0]);
      TargetRecordsFit(targets[1..]);
    }
  }

  lemma TargetRecordFits(t: Target)
    requires IsManaged(t.file)
    ensures |EncodeRecord(TargetRecord(t))| <= 200
  {
    hide Decimal;
    var r := TargetRecord(t);
    ManagedShape(t.file);
    SizeFitsStreamDigits(|r|);
    SizeFitsStreamDigits(|r[0]|);
    SizeFitsStreamDigits(|r[1]|);
    SizeFitsStreamDigits(|r[2]|);
    var last := [r[2]];
    assert last[1..] == [] && |EncodeFields(last)| <= 21 + |r[2]|;
    var tail := [r[1], r[2]];
    assert tail[1..] == last && |EncodeFields(tail)| <= 42 + |r[1]| + |r[2]|;
    assert r[1..] == tail && |EncodeFields(r)| <= 63 + |r[0]| + |r[1]| + |r[2]|;
  }

  lemma ManifestFits(targets: seq<Target>)
    requires ValidTargets(FilesOf(targets))
    ensures Representable(ManifestBytes(targets))
  {
    hide IsManaged;
    DistinctWithin(FilesOf(targets), ManagedFiles) by {
      forall f | f in FilesOf(targets)
        ensures f in ManagedFiles
      {
        ManagedIsListed(f);
      }
    }
    TargetRecordsFit(targets);
    var records := [VersionRecord] + TargetRecords(targets);
    assert records[1..] == TargetRecords(targets);
    assert EncodeRecords(records) == EncodeRecord(VersionRecord) + EncodeRecords(TargetRecords(targets));
    VersionRecordFits();
  }

  lemma ManagedIsListed(f: string)
    requires IsManaged(f)
    ensures f in ManagedFiles
  {
  }

  lemma VersionRecordFits()
    ensures |EncodeRecord(VersionRecord)| <= 200
  {
    hide Decimal;
    SizeFitsStreamDigits(2);
    SizeFitsStreamDigits(11);
    SizeFitsStreamDigits(1);
    var r := VersionRecord;
    assert r[1..] == ["1"] && r[1..][1..] == [];
  }
}
