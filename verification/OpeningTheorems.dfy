/** Opening a store, stopped anywhere and any number of times, loses no record that can be read
    (`native_session_store.cpp`, `native_store_file_ops.cpp`). */
module OpeningTheorems {
  import opened Options
  import opened RecordLog
  import opened TailRecovery
  import opened StoreNames
  import opened FileActions
  import opened ManifestFile
  import opened Transaction
  import opened TransactionStates
  import opened RecoverySteps
  import opened TransactionTheorems
  import opened LogBytes
  import opened StoreOpening

  /** The records of each file. */
  type Books = string -> seq<Record>

  ghost predicate Holding(bytes: string, records: seq<Record>) {
    Representable(bytes) && Contents(bytes) == records
  }

  /** Recovery of file `f` will find these records: in its backup, or in place, or there are none. */
  ghost predicate Promises(s: Files, f: string, records: seq<Record>) {
    if Backup(f) in s then Holding(s[Backup(f)], records)
    else if Live(f) in s then Holding(s[Live(f)], records)
    else records == []
  }

  /** No transaction is pending, and every file still holds its records. */
  ghost predicate Safe(s: Files, books: Books) {
    Manifest !in s && Commit !in s && forall f :: f in SweptFiles ==> Promises(s, f, books(f))
  }

  ghost function SafeStates(books: Books): iset<Files> {
    iset s: Files | Safe(s, books)
  }

  /** Only the entries of `f` change, and it keeps its promise. */
  lemma StaysSafe(s: Files, t: Files, books: Books, f: string)
    requires Safe(s, books) && (f in SweptFiles ==> Promises(t, f, books(f)))
    requires forall n: Name :: (n.Manifest? || n.Commit? || ((n.Live? || n.Backup?) && n.file != f)) ==> SameAt(t, s, n)
    ensures Safe(t, books)
  {
    hide SweptFiles, Holding;
    assert SameAt(t, s, Manifest) && SameAt(t, s, Commit);
    forall g | g in SweptFiles
      ensures Promises(t, g, books(g))
    {
      if g != f {
        assert SameAt(t, s, Live(g)) && SameAt(t, s, Backup(g));
        assert Promises(s, g, books(g));
      }
    }
  }

  /** Names whose bytes recovery never looks at. */
  ghost predicate Aside(n: Name) {
    Scratch(n) || n.Orphan? || n == Live(SchemaFile)
  }

  lemma AsideIsSafe(s: Files, t: Files, books: Books)
    requires Safe(s, books) && forall n :: !Aside(n) ==> SameAt(t, s, n)
    ensures Safe(t, books)
  {
    SchemaIsNotSwept();
    hide SweptFiles, Holding;
    assert !Aside(Manifest) && !Aside(Commit);
    forall g | g in SweptFiles
      ensures Promises(t, g, books(g))
    {
      assert !Aside(Live(g)) && !Aside(Backup(g));
      assert SameAt(t, s, Live(g)) && SameAt(t, s, Backup(g));
      assert Promises(s, g, books(g));
    }
  }

  lemma SchemaIsNotSwept()
    ensures SchemaFile !in SweptFiles
  {
    forall i | 0 <= i < |SweptFiles| ensures SweptFiles[i] != SchemaFile {
      assert i < 13;
    }
  }

  lemma {:induction false} AsideActions(s: Files, books: Books, actions: seq<Action>)
    requires Safe(s, books) && forall i :: 0 <= i < |actions| ==> !actions[i].Move? && Aside(actions[i].name)
    ensures Through(SafeStates(books), s, actions) && Safe(Run(s, actions), books)
    ensures forall n :: !Aside(n) ==> SameAt(Run(s, actions), s, n)
    decreases |actions|
  {
    hide Safe, Aside;
    if actions != [] {
      var a := actions[0];
      if a.Write? {
        forall k | 0 <= k <= |a.content|
          ensures s[a.name := a.content[..k]] in SafeStates(books)
        {
          AsideIsSafe(s, s[a.name := a.content[..k]], books);
        }
      }
      AsideIsSafe(s, Apply(s, a), books);
      AsideActions(Apply(s, a), books, actions[1..]);
    }
  }

  // ---------------------------------------------------------------- one file

  lemma StepThrough(safe: iset<Files>, s: Files, a: Action, rest: seq<Action>)
    requires !a.Write? && s in safe && Through(safe, Apply(s, a), rest)
    ensures Through(safe, s, [a] + rest) && Run(s, [a] + rest) == Run(Apply(s, a), rest)
  {
    hide Apply;
    assert ([a] + rest)[1..] == rest;
  }

  lemma NoSteps(safe: iset<Files>, s: Files)
    requires s in safe
    ensures Through(safe, s, []) && Run(s, []) == s
  {
  }

  /** The moves and removals that recovery makes with the entries of one file. */
  lemma FileStep(s: Files, books: Books, f: string, a: Action)
    requires Safe(s, books) && f in SweptFiles
    requires
      || (a == Drop(Live(f)) && Backup(f) in s)
      || (a == Move(Backup(f), Live(f)) && Backup(f) in s)
      || (a == Move(Live(f), Backup(f)) && Backup(f) !in s && Live(f) in s)
      || (a == Move(Temp(f), Live(f)) && Backup(f) in s)
      || (a == Drop(Backup(f)) && Live(f) in s && Holding(s[Live(f)], books(f)))
      || a == Drop(Temp(f))
    ensures Safe(Apply(s, a), books)
  {
    hide SweptFiles, Holding;
    assert Promises(s, f, books(f));
    StaysSafe(s, Apply(s, a), books, f);
  }

  /** Nothing but the entries of `f` differs. */
  ghost predicate Elsewhere(s: Files, t: Files, f: string) {
    forall n :: n !in {Live(f), Backup(f), Temp(f), Orphan(f)} ==> SameAt(t, s, n)
  }

  lemma ArtifactSteps(s: Files, books: Books, f: string)
    requires Safe(s, books) && f in SweptFiles
    ensures Through(SafeStates(books), s, Artifacts(s, f))
    ensures var t := Run(s, Artifacts(s, f));
      Safe(t, books) && Backup(f) !in t && Temp(f) !in t && Elsewhere(s, t, f)
  {
    hide Safe, SweptFiles;
    var safe := SafeStates(books);
    var bring := [Move(Backup(f), Live(f))];
    if Backup(f) in s {
      if Live(f) in s {
        var d := Drop(Live(f));
        FileStep(s, books, f, d);
        BringBack(Apply(s, d), books, f);
        assert Artifacts(s, f) == [d] + (bring + if Temp(f) in s then [Drop(Temp(f))] else []);
        var rest := bring + if Temp(f) in s then [Drop(Temp(f))] else [];
        StepThrough(safe, s, d, rest);
        assert Elsewhere(s, Apply(s, d), f);
        ElsewhereTwice(s, Apply(s, d), Run(Apply(s, d), rest), f);
      } else {
        BringBack(s, books, f);
      }
    } else {
      SweepTemp(s, books, f);
      assert Artifacts(s, f) == [] + if Temp(f) in s then [Drop(Temp(f))] else [];
    }
  }

  lemma BringBack(s: Files, books: Books, f: string)
    requires Safe(s, books) && f in SweptFiles && Backup(f) in s
    ensures var rest := [Move(Backup(f), Live(f))] + if Temp(f) in s then [Drop(Temp(f))] else [];
      && Through(SafeStates(books), s, rest)
      && var t := Run(s, rest); Safe(t, books) && Backup(f) !in t && Temp(f) !in t && Elsewhere(s, t, f)
  {
    hide Safe, SweptFiles;
    var a := Move(Backup(f), Live(f));
    FileStep(s, books, f, a);
    SweepTemp(Apply(s, a), books, f);
    StepThrough(SafeStates(books), s, a, if Temp(f) in s then [Drop(Temp(f))] else []);
  }

  lemma SweepTemp(s: Files, books: Books, f: string)
    requires Safe(s, books) && f in SweptFiles && Backup(f) !in s
    ensures var rest := if Temp(f) in s then [Drop(Temp(f))] else [];
      && Through(SafeStates(books), s, rest)
      && var t := Run(s, rest); Safe(t, books) && Backup(f) !in t && Temp(f) !in t && Elsewhere(s, t, f)
  {
    hide Safe, SweptFiles;
    var safe := SafeStates(books);
    NoSteps(safe, s);
    if Temp(f) in s {
      FileStep(s, books, f, Drop(Temp(f)));
      NoSteps(safe, Apply(s, Drop(Temp(f))));
      assert [Drop(Temp(f))] + [] == [Drop(Temp(f))];
      StepThrough(safe, s, Drop(Temp(f)), []);
    }
  }

  /** Open: in place, with its records, nothing to recover and nothing left over. */
  ghost predicate Open(s: Files, f: string, records: seq<Record>) {
    && Live(f) in s && Holding(s[Live(f)], records) && Recovered(s[Live(f)]) == s[Live(f)]
    && Backup(f) !in s && Temp(f) !in s
  }

  /** The copies that tail recovery makes. */
  lemma Copied(s: Files, books: Books, f: string, at: nat)
    requires Safe(s, books) && Live(f) in s && at <= |s[Live(f)]|
    ensures var copies := Copies(s[Live(f)], at, f);
      && Through(SafeStates(books), s, copies)
      && var v := Run(s, copies);
        && Safe(v, books) && Temp(f) in v && v[Temp(f)] == s[Live(f)][..at]
        && SameAt(v, s, Live(f)) && SameAt(v, s, Backup(f)) && Elsewhere(s, v, f)
  {
    hide Safe;
    var data := s[Live(f)];
    var copies := Copies(data, at, f);
    AsideActions(s, books, copies);
    var a, b := [Drop(Temp(f)), Drop(Orphan(f))], [Write(Orphan(f), data[at..]), Write(Temp(f), data[..at])];
    assert copies == a + b;
    RunConcat(s, a, b);
    RunTwo(s, a[0], a[1]);
    RunTwo(Run(s, a), b[0], b[1]);
  }

  lemma TailSteps(s: Files, books: Books, f: string)
    requires Safe(s, books) && f in SweptFiles && Live(f) in s && Backup(f) !in s && Temp(f) !in s
    ensures Through(SafeStates(books), s, TailActions(s, f))
    ensures var t := Run(s, TailActions(s, f)); Safe(t, books) && Open(t, f, books(f)) && Elsewhere(s, t, f)
  {
    hide *;
    var data := s[Live(f)];
    HeldInPlace(s, books, f);
    RecoveredReads(data);
    InSafe(s, books);
    NoSteps(SafeStates(books), s);
    TailActionsAre(s, f);
    var scan := ScanTail(data, BodyStart(data));
    if scan.Clean? {
      OpenAlready(s, books, f);
      NothingElse(s, f);
    } else {
      ScanCutInside(data, BodyStart(data), scan.at);
      Copied(s, books, f, scan.at);
      var copies := Copies(data, scan.at, f);
      var v := Run(s, copies);
      ReplaceSteps(s, v, books, f);
      ThroughConcat(SafeStates(books), s, copies, Replace(v, f, NoReplaceFault));
      RunConcat(s, copies, Replace(v, f, NoReplaceFault));
      ElsewhereTwice(s, v, Run(v, Replace(v, f, NoReplaceFault)), f);
    }
  }

  /** After tail recovery, the file and its orphan together are the bytes that were there, whatever else
      was in the directory. */
  lemma TailKeepsBytes(s: Files, f: string)
    requires Live(f) in s
    ensures var t := Run(s, TailActions(s, f));
      if TailActions(s, f) == [] then t == s
      else Live(f) in t && Orphan(f) in t && t[Live(f)] + t[Orphan(f)] == s[Live(f)] && t[Orphan(f)] != ""
  {
    hide *;
    var data := s[Live(f)];
    TailActionsAre(s, f);
    var scan := ScanTail(data, BodyStart(data));
    if scan.Clean? {
      NoRun(s);
    } else {
      ScanCutInside(data, BodyStart(data), scan.at);
      var copies := Copies(data, scan.at, f);
      var v := Run(s, copies);
      BothCopied(s, f, scan.at);
      RunConcat(s, copies, Replace(v, f, NoReplaceFault));
      KeptReplaces(v, f);
      CopiesMade(data, scan.at, f);
      assert data[..scan.at] + data[scan.at..] == data;
    }
  }

  lemma NoRun(s: Files)
    ensures Run(s, []) == s
  {
  }

  lemma CopiesMade(data: string, at: nat, f: string)
    requires at <= |data|
    ensures Copies(data, at, f) != []
  {
  }

  lemma BothCopied(s: Files, f: string, at: nat)
    requires Live(f) in s && at <= |s[Live(f)]|
    ensures var v := Run(s, Copies(s[Live(f)], at, f));
      && Live(f) in v && Temp(f) in v && v[Temp(f)] == s[Live(f)][..at]
      && Orphan(f) in v && v[Orphan(f)] == s[Live(f)][at..]
  {
    var data := s[Live(f)];
    var a, b := [Drop(Temp(f)), Drop(Orphan(f))], [Write(Orphan(f), data[at..]), Write(Temp(f), data[..at])];
    assert Copies(data, at, f) == a + b;
    hide Run;
    RunConcat(s, a, b);
    RunTwo(s, a[0], a[1]);
    RunTwo(Run(s, a), b[0], b[1]);
  }

  lemma KeptReplaces(v: Files, f: string)
    requires Live(f) in v && Temp(f) in v && Orphan(f) in v
    ensures var t := Run(v, Replace(v, f, NoReplaceFault));
      Live(f) in t && t[Live(f)] == v[Temp(f)] && Orphan(f) in t && t[Orphan(f)] == v[Orphan(f)]
  {
    var sweep := if Backup(f) in v then [Drop(Backup(f))] else [];
    var a, b, c := Move(Live(f), Backup(f)), Move(Temp(f), Live(f)), Drop(Backup(f));
    assert Replace(v, f, NoReplaceFault) == sweep + ([a, b] + [c]);
    Swept(v, f);
    hide Run;
    RunConcat(v, sweep, [a, b] + [c]);
    RunConcat(Run(v, sweep), [a, b], [c]);
    RunTwo(Run(v, sweep), a, b);
    RunOne(Run(Run(v, sweep), [a, b]), c);
  }

  lemma Swept(v: Files, f: string)
    ensures Run(v, if Backup(f) in v then [Drop(Backup(f))] else []) == v - {Backup(f)}
  {
    RunOne(v, Drop(Backup(f)));
  }

  lemma InSafe(s: Files, books: Books)
    ensures s in SafeStates(books) <==> Safe(s, books)
  {
  }

  lemma HeldInPlace(s: Files, books: Books, f: string)
    requires Safe(s, books) && f in SweptFiles && Live(f) in s && Backup(f) !in s
    ensures Holding(s[Live(f)], books(f)) && Representable(s[Live(f)])
  {
    hide SweptFiles, Contents;
    assert Promises(s, f, books(f));
  }

  /** `Recovered` in terms of the scan. */
  lemma TailActionsAre(s: Files, f: string)
    requires Live(f) in s
    ensures var data := s[Live(f)];
      var scan := ScanTail(data, BodyStart(data));
      && (scan.Clean? ==> TailActions(s, f) == [] && Recovered(data) == data)
      && (scan.Cut? && scan.at <= |data| ==>
            && TailActions(s, f) ==
                Copies(data, scan.at, f) + Replace(Run(s, Copies(data, scan.at, f)), f, NoReplaceFault)
            && Recovered(data) == data[..scan.at])
  {
    hide ScanTail, BodyStart, Copies, Replace, Run;
  }

  lemma OpenAlready(s: Files, books: Books, f: string)
    requires Live(f) in s && Backup(f) !in s && Temp(f) !in s
    requires Holding(s[Live(f)], books(f)) && Recovered(s[Live(f)]) == s[Live(f)]
    ensures Open(s, f, books(f))
  {
  }

  lemma NothingElse(s: Files, f: string)
    ensures Elsewhere(s, s, f)
  {
  }

  lemma ElsewhereTwice(s: Files, v: Files, t: Files, f: string)
    requires Elsewhere(s, v, f) && Elsewhere(v, t, f)
    ensures Elsewhere(s, t, f)
  {
    forall n | n !in {Live(f), Backup(f), Temp(f), Orphan(f)} ensures SameAt(t, s, n) {
      assert SameAt(v, s, n) && SameAt(t, v, n);
    }
  }

  /** The kept prefix replaces the file. */
  lemma ReplaceSteps(s: Files, v: Files, books: Books, f: string)
    requires Safe(v, books) && f in SweptFiles && Live(f) in s && Backup(f) !in s
    requires Holding(s[Live(f)], books(f)) && SameAt(v, s, Live(f)) && SameAt(v, s, Backup(f))
    requires Temp(f) in v && v[Temp(f)] == Recovered(s[Live(f)])
    requires Contents(Recovered(s[Live(f)])) == Contents(s[Live(f)]) && Representable(Recovered(s[Live(f)]))
    requires Recovered(Recovered(s[Live(f)])) == Recovered(s[Live(f)])
    ensures Through(SafeStates(books), v, Replace(v, f, NoReplaceFault))
    ensures var t := Run(v, Replace(v, f, NoReplaceFault)); Safe(t, books) && Open(t, f, books(f)) && Elsewhere(v, t, f)
  {
    hide Safe, SweptFiles, Contents, Recovered;
    var safe := SafeStates(books);
    var a, b, c := Move(Live(f), Backup(f)), Move(Temp(f), Live(f)), Drop(Backup(f));
    assert Replace(v, f, NoReplaceFault) == [] + [a, b, c] == [a] + ([b] + ([c] + []));
    var v1 := Apply(v, a);
    FileStep(v, books, f, a);
    var v2 := Apply(v1, b);
    FileStep(v1, books, f, b);
    var v3 := Apply(v2, c);
    FileStep(v2, books, f, c);
    NoSteps(safe, v3);
    StepThrough(safe, v2, c, []);
    StepThrough(safe, v1, b, [c] + []);
    StepThrough(safe, v, a, [b] + ([c] + []));
  }

  /** A missing file is created; its header may be cut short. */
  lemma CreateSteps(s: Files, books: Books, f: string)
    requires Safe(s, books) && f in SweptFiles && Live(f) !in s && Backup(f) !in s && Temp(f) !in s
    ensures Through(SafeStates(books), s, [Write(Live(f), Header)])
    ensures var t := Run(s, [Write(Live(f), Header)]); Safe(t, books) && Open(t, f, books(f)) && Elsewhere(s, t, f)
  {
    hide Safe, SweptFiles, Contents, Recovered, HasHeader;
    assert Header[..|Header|] == Header;
    NothingKept(s, books, f);
    forall k | 0 <= k <= |Header|
      ensures Safe(s[Live(f) := Header[..k]], books)
    {
      HeaderPart(k);
      StaysSafe(s, s[Live(f) := Header[..k]], books, f);
    }
    HeaderPart(|Header|);
    RunOne(s, Write(Live(f), Header));
    assert [Write(Live(f), Header)][1..] == [];
    assert Through(SafeStates(books), Apply(s, Write(Live(f), Header)), []);
  }

  lemma NothingKept(s: Files, books: Books, f: string)
    requires Safe(s, books) && f in SweptFiles && Live(f) !in s && Backup(f) !in s
    ensures books(f) == []
  {
    hide SweptFiles;
    assert Promises(s, f, books(f));
  }

  /** A header, whole or cut short, holds no records; a whole one needs no recovery. */
  lemma HeaderPart(k: nat)
    requires k <= |Header|
    ensures Holding(Header[..k], []) && Recovered(Header) == Header
  {
    if k < |Header| {
      CutHeader(k);
    } else {
      HeaderAlone();
      assert Header[..k] == Header;
    }
    HeaderScan();
    hide Contents;
  }

  lemma HeaderScan()
    ensures Recovered(Header) == Header
  {
    HeaderAlone();
    NothingAfterEnd(Header);
  }

  lemma OpenFileSteps(s: Files, books: Books, f: string)
    requires Safe(s, books) && f in SweptFiles
    ensures Through(SafeStates(books), s, OpenFile(s, f))
    ensures var t := Run(s, OpenFile(s, f)); Safe(t, books) && Open(t, f, books(f)) && Elsewhere(s, t, f)
  {
    hide *;
    ArtifactSteps(s, books, f);
    var t := Run(s, Artifacts(s, f));
    OpenFileIs(s, f);
    if Live(f) in t {
      TailSteps(t, books, f);
    } else {
      CreateSteps(t, books, f);
    }
    var rest := TailOrCreate(t, f);
    ThroughConcat(SafeStates(books), s, Artifacts(s, f), rest);
    RunConcat(s, Artifacts(s, f), rest);
    ElsewhereTwice(s, t, Run(t, rest), f);
  }

  lemma OpenFileIs(s: Files, f: string)
    ensures var t := Run(s, Artifacts(s, f));
      && OpenFile(s, f) == Artifacts(s, f) + TailOrCreate(t, f)
      && TailOrCreate(t, f) == if Live(f) in t then TailActions(t, f) else [Write(Live(f), Header)]
  {
    hide Artifacts, TailActions, Run;
  }

  // ---------------------------------------------------------------- all files

  /** Opening one file leaves another as it is. */
  lemma StaysOpen(s: Files, t: Files, f: string, g: string, records: seq<Record>)
    requires Open(s, g, records) && Elsewhere(s, t, f) && f != g
    ensures Open(t, g, records)
  {
    hide Holding, Recovered;
    assert SameAt(t, s, Live(g)) && SameAt(t, s, Backup(g)) && SameAt(t, s, Temp(g));
  }

  /** Names that opening the data files does not touch. */
  ghost predicate Apart(n: Name) {
    n.ManifestTemp? || n.CommitTemp? || n == Live(SchemaFile)
    || ((n.Live? || n.Backup? || n.Temp?) && n.file == CountersFile)
  }

  lemma ApartStays(s: Files, t: Files, f: string)
    requires Elsewhere(s, t, f) && f in DataFiles
    ensures forall n :: Apart(n) ==> SameAt(t, s, n)
  {
    forall i | 0 <= i < |DataFiles| ensures DataFiles[i] != SchemaFile && DataFiles[i] != CountersFile {
      assert i < 12;
    }
  }

  lemma DataIsSwept(f: string)
    requires f in DataFiles
    ensures f in SweptFiles
  {
  }

  lemma {:induction false} OpenFilesSteps(s: Files, books: Books, files: seq<string>, done: set<string>)
    requires Safe(s, books) && (forall f :: f in files ==> f in DataFiles)
    requires forall f :: f in done ==> Open(s, f, books(f))
    ensures Through(SafeStates(books), s, OpenFiles(s, files))
    ensures var t := Run(s, OpenFiles(s, files));
      && Safe(t, books) && (forall f :: f in done || f in files ==> Open(t, f, books(f)))
      && forall n :: Apart(n) ==> SameAt(t, s, n)
    decreases |files|
  {
    hide Safe, Open, DataFiles, SweptFiles, Apart, OpenFile, Elsewhere;
    if files != [] {
      var f := files[0];
      assert f in files;
      DataIsSwept(f);
      OpenFileSteps(s, books, f);
      var t := Run(s, OpenFile(s, f));
      ApartStays(s, t, f);
      forall g | g in done + {f} ensures Open(t, g, books(g)) {
        if g != f {
          StaysOpen(s, t, f, g, books(g));
        }
      }
      OpenFilesSteps(t, books, files[1..], done + {f});
      var rest := OpenFiles(t, files[1..]);
      ThroughConcat(SafeStates(books), s, OpenFile(s, f), rest);
      RunConcat(s, OpenFile(s, f), rest);
      var u := Run(t, rest);
      forall n | Apart(n) ensures SameAt(u, s, n) {
        assert SameAt(t, s, n) && SameAt(u, t, n);
      }
      forall g | g in done || g in files ensures Open(u, g, books(g)) {
        assert g in done + {f} || g in files[1..];
      }
    }
  }

  /** Everything `initializeSchema` looks at is as it leaves it. */
  ghost predicate Opened(s: Files, books: Books) {
    && (forall f :: f in DataFiles ==> Open(s, f, books(f)))
    && Live(SchemaFile) in s && s[Live(SchemaFile)] == SchemaText
    && Backup(CountersFile) !in s && Temp(CountersFile) !in s
  }

  lemma SchemaSteps(s: Files, books: Books)
    requires Safe(s, books)
    ensures var schema := [Write(Live(SchemaFile), SchemaText)];
      && Through(SafeStates(books), s, schema)
      && var t := Run(s, schema); Safe(t, books) && t == s[Live(SchemaFile) := SchemaText]
  {
    hide Safe, SchemaText;
    var schema := [Write(Live(SchemaFile), SchemaText)];
    AsideActions(s, books, schema);
    RunOne(s, schema[0]);
  }

  /** The part after the transaction stage: safe wherever it stops, and everything open at the end. */
  lemma OpenRestSteps(s: Files, books: Books)
    requires Safe(s, books)
    ensures Through(SafeStates(books), s, OpenRest(s))
    ensures var t := Run(s, OpenRest(s));
      Safe(t, books) && Opened(t, books) && SameAt(t, s, ManifestTemp) && SameAt(t, s, CommitTemp)
  {
    hide *;
    var safe := SafeStates(books);
    OpenRestIs(s);
    SchemaSteps(s, books);
    var schema := [Write(Live(SchemaFile), SchemaText)];
    var s1 := Run(s, schema);
    OpenFilesSteps(s1, books, DataFiles, {});
    var open := OpenFiles(s1, DataFiles);
    ThroughConcat(safe, s, schema, open);
    RunConcat(s, schema, open);
    var s2 := Run(s1, open);
    CountersSwept();
    ArtifactSteps(s2, books, CountersFile);
    var last := Artifacts(s2, CountersFile);
    ThroughConcat(safe, s, schema + open, last);
    RunConcat(s, schema + open, last);
    AllOpened(s, s1, s2, Run(s2, last), books);
  }

  lemma CountersSwept()
    ensures CountersFile in SweptFiles
  {
    assert SweptFiles[12] == CountersFile;
  }

  lemma AllOpened(s: Files, s1: Files, s2: Files, t: Files, books: Books)
    requires s1 == s[Live(SchemaFile) := SchemaText] && Elsewhere(s2, t, CountersFile)
    requires forall n :: Apart(n) ==> SameAt(s2, s1, n)
    requires forall f :: f in {} || f in DataFiles ==> Open(s2, f, books(f))
    requires Backup(CountersFile) !in t && Temp(CountersFile) !in t
    ensures Opened(t, books) && SameAt(t, s, ManifestTemp) && SameAt(t, s, CommitTemp)
  {
    forall f | f in DataFiles ensures Open(t, f, books(f)) {
      NotCounters(f);
      StaysOpen(s2, t, CountersFile, f, books(f));
    }
    hide Open, SchemaText, DataFiles;
    assert SameAt(s2, s1, Live(SchemaFile)) && SameAt(t, s2, Live(SchemaFile));
    assert SameAt(s2, s1, ManifestTemp) && SameAt(t, s2, ManifestTemp);
    assert SameAt(s2, s1, CommitTemp) && SameAt(t, s2, CommitTemp);
  }

  lemma NotCounters(f: string)
    requires f in DataFiles
    ensures f != CountersFile
  {
    forall i | 0 <= i < |DataFiles| ensures DataFiles[i] != CountersFile {
      assert i < 12;
    }
  }

  // ---------------------------------------------------------------- a second opening

  lemma OpenNeedsNothing(s: Files, f: string, records: seq<Record>)
    requires Open(s, f, records)
    ensures OpenFile(s, f) == []
  {
    hide Holding, ScanTail, BodyStart;
    OpenFileIs(s, f);
    assert Artifacts(s, f) == [] && Run(s, []) == s;
    assert TailActions(s, f) == [];
  }

  lemma {:induction false} OpenFilesNeedNothing(s: Files, files: seq<string>, books: Books)
    requires forall f :: f in files ==> Open(s, f, books(f))
    ensures OpenFiles(s, files) == []
    decreases |files|
  {
    hide Open, OpenFile;
    if files != [] {
      assert files[0] in files;
      OpenNeedsNothing(s, files[0], books(files[0]));
      assert Run(s, []) == s;
      OpenFilesNeedNothing(s, files[1..], books);
    }
  }

  /** Opening an open directory changes nothing. */
  lemma OpenedStays(s: Files, books: Books)
    requires Opened(s, books) && Settled(s)
    ensures Opening(s).Some? && Run(s, Opening(s).value) == s
  {
    hide OpenFiles, Artifacts, SchemaText, DataFiles;
    var schema := [Write(Live(SchemaFile), SchemaText)];
    OpenRestIs(s);
    RunOne(s, schema[0]);
    assert s[Live(SchemaFile) := SchemaText] == s;
    OpenFilesNeedNothing(s, DataFiles, books);
    assert schema + [] == schema;
    assert Artifacts(s, CountersFile) == [] by { NoArtifacts(s, CountersFile); }
    QuietRecovery(s);
    RunConcat(s, [Drop(ManifestTemp), Drop(CommitTemp)], OpenRest(s));
  }

  lemma NoArtifacts(s: Files, f: string)
    requires Backup(f) !in s && Temp(f) !in s
    ensures Artifacts(s, f) == []
  {
  }

  /** Without a transaction, recovery drops two temporary files. */
  lemma QuietRecovery(s: Files)
    requires Manifest !in s && Commit !in s
    ensures var quiet := [Drop(ManifestTemp), Drop(CommitTemp)];
      && Recover(s) == Some(quiet)
      && Run(s, quiet) == s - {ManifestTemp} - {CommitTemp}
      && (Settled(s) ==> Run(s, quiet) == s)
      && Opening(s) == Some(quiet + OpenRest(Run(s, quiet)))
  {
    hide OpenRest;
    var quiet := [Drop(ManifestTemp), Drop(CommitTemp)];
    assert quiet + [] == quiet;
    RunTwo(s, quiet[0], quiet[1]);
    if Settled(s) {
      assert s - {ManifestTemp} - {CommitTemp} == s;
    }
  }

  // ---------------------------------------------------------------- opening from any stop

  /** The records that file `f` has on a side of the transaction. */
  ghost function Book(tx: Tx, side: Side, f: string): seq<Record>
    requires |tx.contents| == |tx.files|
  {
    if i :| side.New? && 0 <= i < |tx.files| && tx.files[i] == f then Contents(tx.contents[i])
    else if Live(f) in tx.before then Contents(tx.before[Live(f)])
    else []
  }

  ghost function BooksOf(tx: Tx, side: Side): Books
    requires |tx.contents| == |tx.files|
  {
    f => Book(tx, side, f)
  }

  /** No file reaches the largest stream offset. */
  ghost predicate Fits(tx: Tx) {
    && (forall f :: f in SweptFiles && Live(f) in tx.before ==> Representable(tx.before[Live(f)]))
    && forall i :: 0 <= i < |tx.contents| ==> Representable(tx.contents[i])
  }

  /** Where the process may have stopped. */
  ghost function Stopped(tx: Tx, side: Side): iset<Files>
    requires tx.Valid()
  {
    iset s: Files | Holds(tx, side, s) || Safe(s, BooksOf(tx, side))
  }

  lemma SettledIsSafe(tx: Tx, side: Side, t: Files)
    requires tx.Valid() && Fits(tx) && Holds(tx, side, t) && Settled(t)
    ensures Safe(t, BooksOf(tx, side))
  {
    hide ManifestBytes, IsManaged, Contents, SweptFiles;
    SweptAreManaged();
    forall f | f in SweptFiles
      ensures Promises(t, f, Book(tx, side, f))
    {
      NoBackups(tx, side, t, f);
      if f !in tx.files {
        assert !Owned(tx, Live(f));
        assert SameAt(t, tx.before, Live(f));
      } else if side.New? {
        var i :| 0 <= i < |tx.files| && tx.files[i] == f && Book(tx, side, f) == Contents(tx.contents[i]);
        assert IsNew(tx, t, i);
      } else {
        assert IsOld(tx, t, f);
      }
    }
  }

  lemma {:induction false} ThroughMore(a: iset<Files>, b: iset<Files>, s: Files, actions: seq<Action>)
    requires Through(a, s, actions) && forall t :: t in a ==> t in b
    ensures Through(b, s, actions)
    decreases |actions|
  {
    hide Apply;
    if actions != [] {
      ThroughMore(a, b, Apply(s, actions[0]), actions[1..]);
    }
  }

  lemma OpeningSteps(tx: Tx, side: Side, s: Files)
    requires tx.Valid() && Fits(tx) && s in Stopped(tx, side)
    ensures Opening(s).Some? && Through(Stopped(tx, side), s, Opening(s).value)
    ensures var t := Run(s, Opening(s).value); Opened(t, BooksOf(tx, side)) && Settled(t)
  {
    hide *;
    SameLengths(tx);
    var books := BooksOf(tx, side);
    var recover := FirstStage(tx, side, s);
    var t := Run(s, recover);
    OpenRestSteps(t, books);
    StoppedCovers(tx, side);
    ThroughMore(SafeStates(books), Stopped(tx, side), t, OpenRest(t));
    ThroughConcat(Stopped(tx, side), s, recover, OpenRest(t));
    RunConcat(s, recover, OpenRest(t));
    OpeningIs(s);
    StaysSettled(t, Run(t, OpenRest(t)), books);
  }

  lemma StaysSettled(s: Files, t: Files, books: Books)
    requires Settled(s) && Safe(t, books) && SameAt(t, s, ManifestTemp) && SameAt(t, s, CommitTemp)
    ensures Settled(t)
  {
    hide SweptFiles;
  }

  lemma StoppedCovers(tx: Tx, side: Side)
    requires tx.Valid()
    ensures forall t :: t in SafeStates(BooksOf(tx, side)) ==> t in Stopped(tx, side)
    ensures forall t :: t in States(tx, side) ==> t in Stopped(tx, side)
  {
    hide Safe, Holds;
  }

  /** The transaction stage ends in a safe, settled directory. */
  lemma FirstStage(tx: Tx, side: Side, s: Files) returns (recover: seq<Action>)
    requires tx.Valid() && Fits(tx) && s in Stopped(tx, side)
    ensures Recover(s) == Some(recover) && Through(Stopped(tx, side), s, recover)
    ensures Safe(Run(s, recover), BooksOf(tx, side)) && Settled(Run(s, recover))
  {
    hide *;
    SameLengths(tx);
    StoppedCovers(tx, side);
    StoppedIs(tx, side, s);
    if Holds(tx, side, s) {
      RecoverSteps(tx, side, s);
      recover := Recover(s).value;
      AlwaysAtEnd(tx, side, s, recover);
      SettledIsSafe(tx, side, Run(s, recover));
      AlwaysIs(tx, side, s, recover);
      ThroughMore(States(tx, side), Stopped(tx, side), s, recover);
    } else {
      var books := BooksOf(tx, side);
      NoneInProgress(s, books);
      QuietRecovery(s);
      recover := [Drop(ManifestTemp), Drop(CommitTemp)];
      QuietSteps(s, books);
      ThroughMore(SafeStates(books), Stopped(tx, side), s, recover);
    }
  }

  lemma StoppedIs(tx: Tx, side: Side, s: Files)
    requires tx.Valid()
    ensures s in Stopped(tx, side) <==> Holds(tx, side, s) || Safe(s, BooksOf(tx, side))
  {
    hide Safe, Holds;
  }

  lemma AlwaysIs(tx: Tx, side: Side, s: Files, actions: seq<Action>)
    requires tx.Valid() && Always(tx, side, s, actions)
    ensures Through(States(tx, side), s, actions)
  {
    hide Holds, Through;
  }

  lemma NoneInProgress(s: Files, books: Books)
    requires Safe(s, books)
    ensures Manifest !in s && Commit !in s
  {
    hide SweptFiles;
  }

  lemma QuietSteps(s: Files, books: Books)
    requires Safe(s, books)
    ensures var quiet := [Drop(ManifestTemp), Drop(CommitTemp)];
      && Through(SafeStates(books), s, quiet)
      && Safe(Run(s, quiet), books) && Settled(Run(s, quiet))
  {
    hide SweptFiles, Promises;
    var quiet := [Drop(ManifestTemp), Drop(CommitTemp)];
    AsideActions(s, books, quiet);
    RunTwo(s, quiet[0], quiet[1]);
  }

  // ---------------------------------------------------------------- the main result

  /** One opening after the other, each stopped somewhere. */
  ghost function AfterOpenings(s: Files, stops: seq<Stop>): Option<Files>
    decreases |stops|
  {
    if stops == [] then Some(s)
    else match Opening(s)
      case None => None
      case Some(actions) => AfterOpenings(Interrupted(s, actions, stops[0]), stops[1..])
  }

  lemma {:induction false} OpeningsStay(tx: Tx, side: Side, s: Files, stops: seq<Stop>)
    requires tx.Valid() && Fits(tx) && s in Stopped(tx, side)
    ensures AfterOpenings(s, stops).Some? && AfterOpenings(s, stops).value in Stopped(tx, side)
    decreases |stops|
  {
    hide Opening, Stopped, Through, Interrupted, Fits;
    if stops != [] {
      OpeningSteps(tx, side, s);
      ThroughAtStop(Stopped(tx, side), s, Opening(s).value, stops[0]);
      OpeningsStay(tx, side, Interrupted(s, Opening(s).value, stops[0]), stops[1..]);
    }
  }

  /** A commit stopped anywhere, then any number of openings stopped anywhere, tail recovery and the
      creation of files included, then one that goes through: no opening refuses, every data file is in
      place with exactly the records of the new version if the marker was published and of the old one
      otherwise, nothing is left over, and opening once more changes nothing. */
  lemma OpeningLosesNothing(tx: Tx, fault: Fault, stop: Stop, stops: seq<Stop>)
    requires tx.Valid() && Fits(tx)
    ensures |tx.contents| == |tx.files|
    ensures var side := if MarkerOut(tx, fault, stop) then New else Old;
      var crashed := AfterOpenings(Interrupted(tx.before, SessionActions(tx, fault), stop), stops);
      && crashed.Some? && Opening(crashed.value).Some?
      && var final := Run(crashed.value, Opening(crashed.value).value);
        && (forall f :: f in DataFiles ==> Open(final, f, Book(tx, side, f)))
        && Opened(final, BooksOf(tx, side)) && Settled(final)
        && Opening(final).Some? && Run(final, Opening(final).value) == final
  {
    hide *;
    SameLengths(tx);
    var side := if MarkerOut(tx, fault, stop) then New else Old;
    var first := Interrupted(tx.before, SessionActions(tx, fault), stop);
    SessionAtStop(tx, fault, stop);
    StoppedIs(tx, side, first);
    OpeningsStay(tx, side, first, stops);
    var crashed := AfterOpenings(first, stops).value;
    OpeningSteps(tx, side, crashed);
    var final := Run(crashed, Opening(crashed).value);
    OpenedStays(final, BooksOf(tx, side));
    AllOpen(tx, side, final);
  }

  lemma AllOpen(tx: Tx, side: Side, s: Files)
    requires |tx.contents| == |tx.files| && Opened(s, BooksOf(tx, side))
    ensures forall f :: f in DataFiles ==> Open(s, f, Book(tx, side, f))
  {
    hide Open, DataFiles, Book;
  }
}
