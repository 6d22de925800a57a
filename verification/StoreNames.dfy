/** The files of a store directory: `native_store_files.h` and the path helpers of
    `native_store_file_ops.cpp`. */
module StoreNames {

  const SchemaFile: string := "schema.txt"
  const CountersFile: string := "id_counters.svmr"

  const DataFiles: seq<string> := [
    "raw_io_events.svmr", "send_history.svmr", "serial_profiles.svmr", "ui_preferences.svmr",
    "scan_sessions.svmr", "scan_attempts.svmr", "scan_observations.svmr",
    "match_runs.svmr", "match_candidates.svmr", "protocol_field_rules.svmr",
    "rule_verification_runs.svmr", "rule_verification_results.svmr"
  ]

  const ManagedFiles: seq<string> := DataFiles + [SchemaFile, CountersFile]

  /** `isStoreManagedFile`; none of these names holds a directory separator. */
  predicate IsManaged(file: string) {
    file in ManagedFiles
  }

  /** The role a directory entry plays. */
  datatype Name =
    | Live(file: string)
    | Temp(file: string)
    | Backup(file: string)
    | Orphan(file: string)
    | Manifest
    | ManifestTemp
    | Commit
    | CommitTemp

  /** The name on disk. */
  function OnDisk(name: Name): string {
    match name
    case Live(file) => file
    case Temp(file) => file + ".tmp"
    case Backup(file) => file + ".bak"
    case Orphan(file) => file + ".orphan"
    case Manifest => ".svm-store-transaction.svmr"
    case ManifestTemp => ".svm-store-transaction.svmr.tmp"
    case Commit => ".svm-store-transaction.commit"
    case CommitTemp => ".svm-store-transaction.commit.tmp"
  }

  predicate ManagedName(name: Name) {
    match name
    case Live(file) => IsManaged(file)
    case Temp(file) => IsManaged(file)
    case Backup(file) => IsManaged(file)
    case Orphan(file) => IsManaged(file)
    case _ => true
  }

  lemma ManagedShape(file: string)
    requires IsManaged(file)
    ensures 0 < |file| <= 30 && file[0] != '.' && file[|file| - 1] in {'t', 'r'}
  {
    var i :| 0 <= i < |ManagedFiles| && ManagedFiles[i] == file;
    assert i < 14;
  }

  /** Two roles never share a directory entry, so files may be addressed by role. */
  lemma RolesDistinctOnDisk(a: Name, b: Name)
    requires ManagedName(a) && ManagedName(b) && OnDisk(a) == OnDisk(b)
    ensures a == b
  {
    var s, t := OnDisk(a), OnDisk(b);
    EndOf(a);
    EndOf(b);
    if a.Live? || a.Temp? || a.Backup? || a.Orphan? {
      ManagedShape(a.file);
      if b.Live? || b.Temp? || b.Backup? || b.Orphan? {
        ManagedShape(b.file);
        assert a.file == s[..|a.file|] && b.file == t[..|b.file|];
      }
    }
  }

  /** The last letter of the name tells the role. */
  lemma EndOf(name: Name)
    requires ManagedName(name)
    ensures var s := OnDisk(name);
      && s != ""
      && (s[0] == '.' <==> name.Manifest? || name.ManifestTemp? || name.Commit? || name.CommitTemp?)
      && (name.Live? ==> s[|s| - 1] in {'t', 'r'})
      && (name.Temp? ==> s[|s| - 1] == 'p')
      && (name.Backup? ==> s[|s| - 1] == 'k')
      && (name.Orphan? ==> s[|s| - 1] == 'n')
  {
    if name.Live? || name.Temp? || name.Backup? || name.Orphan? {
      ManagedShape(name.file);
    }
  }

  ghost predicate Distinct(files: seq<string>) {
    forall i, j :: 0 <= i < j < |files| ==> files[i] != files[j]
  }

  /** Distinct names drawn from a list are no more than the list. */
  lemma {:induction false} DistinctWithin(files: seq<string>, all: seq<string>)
    requires Distinct(files) && forall f :: f in files ==> f in all
    ensures |files| <= |all|
    decreases |files|
  {
    if files != [] {
      assert files[0] in files;
      var k :| 0 <= k < |all| && all[k] == files[0];
      var rest := all[..k] + all[k + 1..];
      forall f | f in files[1..]
        ensures f in rest
      {
        assert f in files;
        var i :| 0 <= i < |all| && all[i] == f;
        assert i < k ==> rest[i] == f;
        assert i > k ==> rest[i - 1] == f;
      }
      DistinctWithin(files[1..], rest);
    }
  }
}
