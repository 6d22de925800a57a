/** Two ways to a reused ID (`native_session_store.cpp`): an append to a file that a read rejects, with a
    run that hands out the ID of a record that is there, and the last ID. */
module IdReuse {
  import opened Options
  import opened RecordLog
  import opened NumberText
  import opened TailRecovery
  import opened StoreNames
  import opened LogBytes
  import opened IdCounters

  const File: string := "raw_io_events.svmr"

  // ---------------------------------------------------------------- two events

  /** `RawIoEvent`; payloads are their bytes. */
  datatype RawEvent = RawEvent(
    id: int, sessionId: string, direction: string, timestampUtc: string, endpoint: string, payload: string,
    operation: string, requestId: nat, generation: nat, status: string, deadlineStatus: string, byteCount: nat,
    errorCategory: string, nativeCode: nat, commErrorMask: nat, inputQueueBytes: Option<nat>,
    outputQueueBytes: Option<nat>)

  function SizeText(size: Option<nat>): string {
    if size.Some? then Decimal(size.value) else ""
  }

  /** `recordFromRawEvent`. */
  function RecordFromRawEvent(e: RawEvent): (r: Record)
    ensures |r| == 17
  {
    [Printed(e.id), e.sessionId, e.direction, e.timestampUtc, e.endpoint, e.payload, e.operation, Decimal(e.requestId),
     Decimal(e.generation), e.status, e.deadlineStatus, Decimal(e.byteCount), e.errorCategory, Decimal(e.nativeCode),
     Decimal(e.commErrorMask), SizeText(e.inputQueueBytes), SizeText(e.outputQueueBytes)]
  }

  /** A session ID that looks like records. */
  const Trap: string := "X\n1|3:999\n15|"

  /** What is read as the last field of the first event. */
  const Bait: string := "17|1:213:X"

  /** Two events: the last field of the first takes as many bytes as the second has before its trap. */
  datatype Pair = Pair(first: RawEvent, second: RawEvent) {
    ghost predicate Fatal() {
      && first.id == 1 && first.outputQueueBytes.Some? && |Decimal(first.outputQueueBytes.value)| == 10
      && second.id == 2 && second.sessionId == Trap
      && Representable(Header + EncodeRecord(First()) + EncodeRecord(Second()))
    }

    function First(): (r: Record)
      ensures |r| == 17
    {
      RecordFromRawEvent(first)
    }

    function Second(): (r: Record)
      ensures |r| == 17
    {
      RecordFromRawEvent(second)
    }

    /** What the file holds in the end. */
    function Seen(): (records: seq<Record>)
      ensures |records| == 3
    {
      [First()[..16] + [Bait], ["999"], Second()[2..]]
    }

    /** The first append stops where its last content begins. */
    function Cut(): (k: nat)
      ensures k < |EncodeRecord(First())|
    {
      LastContentStart(First())
    }

    function Torn(): string {
      TornLog([], First(), Cut())
    }

    function Tearing(): Event {
      Appended(File, [First()], true, Cut(), false)
    }

    function Appending(): Event {
      Appended(File, [Second()], true, |EncodeRecord(Second())|, true)
    }
  }

  const Reopening: Event := Reopened(true)

  /** Such a pair. */
  const Events: Pair := Pair(
    RawEvent(1, "s", "TX", "", "", "", "write", 7, 1, "sent", "", 0, "", 0, 0, None, Some(1000000000)),
    RawEvent(2, Trap, "TX", "", "", "", "write", 8, 1, "sent", "", 0, "", 0, 0, None, None))

  lemma {:induction false} ShortFields(fields: Record)
    requires forall i :: 0 <= i < |fields| ==> |fields[i]| < 20
    ensures |EncodeFields(fields)| <= 23 * |fields|
  {
    hide Decimal;
    if fields != [] {
      SmallDecimal(|fields[0]|);
      ShortFields(fields[1..]);
    }
  }

  lemma SmallDecimal(n: nat)
    requires n < 100
    ensures |Decimal(n)| <= 2
  {
  }

  lemma {:induction false} SizeDecimal(n: nat, k: nat)
    requires k > 0 && Pow10(k - 1) <= n < Pow10(k) && n > 0
    ensures |Decimal(n)| == k
  {
    if n >= 10 {
      SizeDecimal(n / 10, k - 1);
    }
  }

  lemma TenDigits()
    ensures |Decimal(1000000000)| == 10
  {
    assert Pow10(5) == 100000;
    assert Pow10(9) == 10000 * Pow10(5);
    assert Pow10(10) == 10 * Pow10(9);
    SizeDecimal(1000000000, 10);
  }

  lemma ShortRecord(r: Record)
    requires |r| == 17 && forall i :: 0 <= i < |r| ==> |r[i]| < 20
    ensures |EncodeRecord(r)| <= 400
  {
    hide EncodeFields, Decimal;
    SmallDecimal(17);
    ShortFields(r);
  }

  /** An event with small numbers and short texts. */
  ghost predicate Small(e: RawEvent) {
    && 0 <= e.id < 100 && e.requestId < 100 && e.generation < 100 && e.byteCount < 100
    && e.nativeCode < 100 && e.commErrorMask < 100
    && |SizeText(e.inputQueueBytes)| < 20 && |SizeText(e.outputQueueBytes)| < 20
    && |e.sessionId| < 20 && |e.direction| < 20 && |e.timestampUtc| < 20 && |e.endpoint| < 20 && |e.payload| < 20
    && |e.operation| < 20 && |e.status| < 20 && |e.deadlineStatus| < 20 && |e.errorCategory| < 20
  }

  lemma SmallFits(e: RawEvent)
    requires Small(e)
    ensures |EncodeRecord(RecordFromRawEvent(e))| <= 400
  {
    SmallDecimal(e.id);
    SmallDecimal(e.requestId);
    SmallDecimal(e.generation);
    SmallDecimal(e.byteCount);
    SmallDecimal(e.nativeCode);
    SmallDecimal(e.commErrorMask);
    hide Decimal, EncodeRecord, SizeText;
    ShortRecord(RecordFromRawEvent(e));
  }

  lemma EventsAreFatal()
    ensures Events.Fatal()
  {
    TenDigits();
    hide Decimal, EncodeRecord, RecordFromRawEvent;
    SmallFits(Events.first);
    SmallFits(Events.second);
  }

  // ---------------------------------------------------------------- their bytes

  lemma Digits()
    ensures Decimal(1) == "1" && Decimal(2) == "2" && Decimal(3) == "3"
    ensures Decimal(10) == "10" && Decimal(13) == "13" && Decimal(15) == "15" && Decimal(17) == "17"
  {
    OneMore(1, 0);
    OneMore(1, 3);
    OneMore(1, 5);
    OneMore(1, 7);
  }

  lemma {:induction false} FieldsJoin(a: Record, b: Record)
    ensures EncodeFields(a + b) == EncodeFields(a) + EncodeFields(b)
  {
    hide Decimal;
    if a == [] {
      assert a + b == b;
    } else {
      assert (a + b)[1..] == a[1..] + b;
      FieldsJoin(a[1..], b);
    }
  }

  lemma OneField(a: string)
    ensures EncodeFields([a]) == Decimal(|a|) + ":" + a
  {
    hide Decimal;
    assert EncodeFields([a]) == Decimal(|a|) + ":" + a + EncodeFields([]);
  }

  /** Seventeen fields, of which the last has ten bytes. */
  lemma LastOfSeventeen(most: Record, last: string)
    requires |most| == 16 && |last| == 10
    ensures EncodeRecord(most + [last]) == "17|" + EncodeFields(most) + "10:" + (last + "\n")
    ensures LastContentStart(most + [last]) == |"17|" + EncodeFields(most) + "10:"|
  {
    Digits();
    hide Decimal, EncodeFields;
    FieldsJoin(most, [last]);
    OneField(last);
  }

  /** The second event as bytes: bait, a record of its own, and its other fields as a third. */
  lemma TrapBytes(rest: Record)
    requires |rest| == 15
    ensures EncodeRecord(["2", Trap] + rest) == Bait + "\n" + ("1|3:999\n" + EncodeRecord(rest))
  {
    Digits();
    FirstTwo(rest);
    RecordText(["2", Trap] + rest, "17");
    RecordText(rest, "15");
    hide Decimal, EncodeFields, EncodeRecord, Trap, Bait;
    TrapText(EncodeFields(rest) + "\n");
    Grouped("17|", "1:2" + ("13:" + Trap), EncodeFields(rest), "\n");
  }

  lemma RecordText(r: Record, count: string)
    requires Decimal(|r|) == count
    ensures EncodeRecord(r) == count + "|" + (EncodeFields(r) + "\n")
  {
    hide Decimal, EncodeFields;
  }

  lemma Grouped(a: string, b: string, c: string, d: string)
    ensures a + (b + c + d) == a + b + (c + d)
  {
  }

  lemma FirstTwo(rest: Record)
    ensures EncodeFields(["2", Trap] + rest) == "1:2" + ("13:" + Trap) + EncodeFields(rest)
  {
    Digits();
    FieldsJoin(["2", Trap], rest);
    FieldsJoin(["2"], [Trap]);
    OneField("2");
    OneField(Trap);
    hide Decimal, EncodeFields;
    assert ["2"] + [Trap] == ["2", Trap] && |Trap| == 13;
  }

  lemma TrapText(rest: string)
    ensures "17" + "|" == "17|" && "15" + "|" == "15|"
    ensures "17|" + ("1:2" + ("13:" + Trap)) + rest == Bait + "\n" + ("1|3:999\n" + ("15|" + rest))
  {
    assert "17|" + ("1:2" + ("13:" + Trap)) == Bait + "\n" + "1|3:999\n" + "15|";
  }

  lemma LiveBytes()
    ensures EncodeRecord(["999"]) == "1|3:999\n"
  {
    Digits();
    OneField("999");
    hide Decimal, EncodeFields;
  }

  lemma Shapes(p: Pair)
    requires p.Fatal()
    ensures var last := SizeText(p.first.outputQueueBytes);
      |last| == 10 && p.First() == p.First()[..16] + [last]
    ensures p.First()[0] == "1" && p.Second()[0] == "2" && p.Second() == ["2", Trap] + p.Second()[2..]
  {
    Digits();
    hide Decimal, EncodeRecord;
  }

  /** The torn bytes of the first event and those of the second are three other records. */
  lemma Swallowed(p: Pair)
    requires p.Fatal()
    ensures 0 < p.Cut() < |EncodeRecord(p.First())| - 1
    ensures EncodeRecord(p.First())[..p.Cut()] + EncodeRecord(p.Second()) == EncodeRecords(p.Seen())
  {
    hide *;
    Shapes(p);
    SeenIs(p);
    var most, last := p.First()[..16], SizeText(p.first.outputQueueBytes);
    LastOfSeventeen(most, last);
    LastOfSeventeen(most, Bait);
    TrapBytes(p.Second()[2..]);
    LiveBytes();
    ThreeRecords(most + [Bait], ["999"], p.Second()[2..]);
    var head := "17|" + EncodeFields(most) + "10:";
    CutAfter(head, last + "\n");
    Regroup(head, Bait + "\n", "1|3:999\n", EncodeRecord(p.Second()[2..]));
  }

  lemma SeenIs(p: Pair)
    ensures p.Seen() == [p.First()[..16] + [Bait], ["999"], p.Second()[2..]]
    ensures p.Cut() == LastContentStart(p.First()) && |Bait| == 10
  {
  }

  lemma CutAfter(head: string, rest: string)
    ensures (head + rest)[..|head|] == head
  {
  }

  lemma Regroup(head: string, a: string, b: string, c: string)
    ensures head + (a + (b + c)) == head + a + b + c
  {
  }

  lemma ThreeRecords(a: Record, b: Record, c: Record)
    ensures EncodeRecords([a, b, c]) == EncodeRecord(a) + EncodeRecord(b) + EncodeRecord(c)
  {
    hide EncodeRecord;
    assert [a, b, c][1..] == [b, c] && [b, c][1..] == [c] && [c][1..] == [];
    assert EncodeRecords([c]) == EncodeRecord(c) + "";
    assert EncodeRecords([b, c]) == EncodeRecord(b) + EncodeRecord(c);
  }

  // ---------------------------------------------------------------- the file

  /** Recovery leaves the torn file as it is, and no read accepts it. */
  lemma TornStays(p: Pair)
    requires p.Fatal()
    ensures p.Torn() == AppendTo(Header, [p.First()], p.Cut()) && p.Torn() != ""
    ensures p.Torn() == Header + EncodeRecord(p.First())[..p.Cut()] && Representable(p.Torn())
    ensures Recovered(p.Torn()) == p.Torn() && !Readable(p.Torn())
  {
    hide *;
    Swallowed(p);
    TornIs(p);
    TornAppend([], p.First(), p.Cut());
    LeftAlone(p.Torn());
  }

  lemma TornIs(p: Pair)
    requires p.Fatal()
    ensures p.Torn() == AppendTo(Header, [p.First()], p.Cut()) == TornLog([], p.First(), p.Cut())
    ensures p.Torn() == Header + EncodeRecord(p.First())[..p.Cut()] && p.Torn() != "" && Representable(p.Torn())
    ensures Representable(EncodeLog([]) + EncodeRecord(p.First())) && p.Cut() == LastContentStart(p.First())
  {
    hide EncodeRecord, LastContentStart, RecordFromRawEvent;
    OneRecord(p.First());
    EmptyLogIsHeader();
  }

  lemma LeftAlone(data: string)
    requires !ScanTail(data, BodyStart(data)).Cut? && ReadStream(data) == Rejected
    ensures Recovered(data) == data && !Readable(data)
  {
    hide ScanTail, ReadStream;
  }

  lemma OneRecord(r: Record)
    ensures EncodeRecords([r]) == EncodeRecord(r)
  {
    hide EncodeRecord;
    assert EncodeRecords([r]) == EncodeRecord(r) + "";
  }

  lemma EmptyLogIsHeader()
    ensures EncodeLog([]) == Header
  {
  }

  /** Once the second event is appended, the file is the log of the three records. */
  lemma ThenReadable(p: Pair)
    requires p.Fatal()
    ensures AppendTo(p.Torn(), [p.Second()], |EncodeRecord(p.Second())|) == EncodeLog(p.Seen())
    ensures Contents(AppendTo(p.Torn(), [p.Second()], |EncodeRecord(p.Second())|)) == p.Seen()
  {
    hide *;
    TornStays(p);
    Swallowed(p);
    AppendedAfter(p.Torn(), p.Second());
    LogOf(Header, EncodeRecord(p.First())[..p.Cut()], EncodeRecord(p.Second()), p.Seen());
    SeenFits(p);
    WrittenContents(p.Seen());
  }

  lemma AppendedAfter(data: string, r: Record)
    requires data != ""
    ensures AppendTo(data, [r], |EncodeRecord(r)|) == data + EncodeRecord(r)
  {
    hide EncodeRecord;
    OneRecord(r);
  }

  lemma LogOf(h: string, a: string, b: string, rs: seq<Record>)
    requires h == Header && a + b == EncodeRecords(rs)
    ensures h + a + b == EncodeLog(rs)
  {
  }

  lemma SeenFits(p: Pair)
    requires p.Fatal()
    requires Header + EncodeRecord(p.First())[..p.Cut()] + EncodeRecord(p.Second()) == EncodeLog(p.Seen())
    ensures Representable(EncodeLog(p.Seen()))
  {
    hide EncodeRecord, EncodeLog, LastContentStart, RecordFromRawEvent;
  }

  // ---------------------------------------------------------------- the run

  /** An open store whose event file holds nothing but the header; every counter stands at 1. */
  function Start(): Store {
    Running(Disk(map[File := Header], None), Memory(map f | f in DataFiles :: 1, true))
  }

  lemma FileIsData()
    ensures File in DataFiles
  {
    assert File == DataFiles[0];
  }

  lemma StartIsSafe()
    ensures Inv(Start())
  {
    hide RecordId, Contents;
    HeaderAlone();
    EmptyContents();
  }

  lemma Ids(p: Pair)
    requires p.Fatal()
    ensures RecordId(p.First()) == 1 && RecordId(p.Second()) == 2
  {
    PrintedReads(1, 0, MaxInt64 + 1);
    PrintedReads(2, 0, MaxInt64 + 1);
    hide ToSigned, Printed, Decimal, EncodeRecord;
  }

  lemma NinesId()
    ensures RecordId(["999"]) == 999
  {
    OneMore(9, 9);
    OneMore(99, 9);
    assert Decimal(9) == "9" && Printed(999) == "999";
    PrintedReads(999, 0, MaxInt64 + 1);
    hide ToSigned, Decimal;
  }

  lemma FirstAbsorbed(p: Pair, m: Memory)
    requires p.Fatal() && m.nextIds == (map f | f in DataFiles :: 1)
    ensures var n := Absorb(m, File, [p.First()]);
      n.dirty && n.nextIds == m.nextIds[File := 2] && Tracked(n)
  {
    hide RecordId, DataFiles, RecordFromRawEvent, EncodeRecord;
    Ids(p);
    FileIsData();
    AbsorbOneRecord(m, p.First());
  }

  lemma AbsorbOneRecord(m: Memory, r: Record)
    requires r != [] && RecordId(r) == NextId(m, File) && RecordId(r) < MaxInt64
    ensures Absorb(m, File, [r]) == Memory(m.nextIds[File := RecordId(r) + 1], true)
  {
    hide RecordId;
    assert [r][1..] == [];
    assert AbsorbFrom(NextId(m, File), m.dirty, [r]) == AbsorbFrom(RecordId(r) + 1, true, []);
  }

  /** Opening other files leaves this one alone, if recovery would. */
  lemma {:induction false} PrepareLeaves(d: Disk, files: seq<string>)
    requires File in d.files && Recovered(d.files[File]) == d.files[File]
    ensures var t := PrepareAll(d, files);
      File in t.files && t.files[File] == d.files[File] && t.counters == d.counters
    decreases |files|
  {
    hide Recovered;
    if files != [] {
      PrepareLeaves(Prepare(d, files[0], |Header|), files[1..]);
    }
  }

  lemma AfterTearing(p: Pair)
    requires p.Fatal()
    ensures var t := Next(Start(), p.Tearing());
      && t.Down? && File in t.disk.files && t.disk.files[File] == p.Torn()
      && t.disk.counters.Some? && LoadCounters(t.disk.counters.value).Some?
      && LoadCounters(t.disk.counters.value).value[File] == 2
  {
    hide DataFiles, AppendTo, RecordFromRawEvent, TornLog, LastContentStart, EncodeRecord, LoadCounters,
      CounterRecords, Absorb;
    FileIsData();
    TornStays(p);
    var m := Start().memory;
    FirstAbsorbed(p, m);
    CountersLoadBack(Absorb(m, File, [p.First()]));
  }

  lemma AfterReopening(p: Pair, d: Disk)
    requires p.Fatal() && File in d.files && d.files[File] == p.Torn() && d.counters.Some?
    requires LoadCounters(d.counters.value).Some?
    ensures var t := Next(Down(d), Reopening);
      && t.Running? && BytesOf(t.disk, File) == p.Torn()
      && t.memory.nextIds == LoadCounters(d.counters.value).value
  {
    hide Recovered, LoadCounters, PrepareAll, RecordFromRawEvent, TornLog, LastContentStart, EncodeRecord;
    TornStays(p);
    PrepareLeaves(d, DataFiles);
  }

  lemma AfterAppending(p: Pair, s: Store)
    requires p.Fatal() && s.Running? && BytesOf(s.disk, File) == p.Torn() && File in s.memory.nextIds
    requires s.memory.nextIds[File] == 2
    ensures var t := Next(s, p.Appending());
      t.Running? && RecordsOf(t.disk, File) == p.Seen() && NextId(t.memory, File) == 3
  {
    hide Absorb, Contents, AppendTo, RecordId, CounterRecords, RecordFromRawEvent, TornLog, LastContentStart,
      EncodeRecord;
    Ids(p);
    ThenReadable(p);
    SecondAbsorbed(p, s.memory);
  }

  lemma SecondAbsorbed(p: Pair, m: Memory)
    requires p.Fatal() && File in m.nextIds && m.nextIds[File] == 2
    ensures Absorb(m, File, [p.Second()]) == Memory(m.nextIds[File := 3], true)
  {
    hide RecordId, RecordFromRawEvent, EncodeRecord, Absorb;
    Ids(p);
    AbsorbOneRecord(m, p.Second());
  }

  function Allocations(n: nat): seq<Event> {
    seq(n, _ => Allocated(File))
  }

  lemma {:induction false} AfterAllocations(s: Store, n: nat)
    requires s.Running? && 0 < NextId(s.memory, File) && NextId(s.memory, File) + n < MaxInt64
    ensures var t := After(s, Allocations(n));
      t.Running? && t.disk == s.disk && NextId(t.memory, File) == NextId(s.memory, File) + n
    decreases n
  {
    if n > 0 {
      assert Allocations(n)[1..] == Allocations(n - 1);
      AfterAllocations(Next(s, Allocated(File)), n - 1);
    }
  }

  lemma {:induction false} AfterBoth(s: Store, a: seq<Event>, b: seq<Event>)
    ensures After(s, a + b) == After(After(s, a), b)
    decreases |a|
  {
    hide Next;
    if a == [] {
      assert a + b == b;
    } else {
      assert (a + b)[1..] == a[1..] + b;
      AfterBoth(Next(s, a[0]), a[1..], b);
    }
  }

  lemma AfterTwo(s: Store, a: Event, b: Event)
    ensures After(s, [a, b]) == Next(Next(s, a), b)
    ensures AllAdmissible(s, [a, b]) <==> Admissible(s, a) && Admissible(Next(s, a), b)
  {
    hide Next, Admissible;
    assert [a, b][1..] == [b] && [b][1..] == [];
    assert After(Next(s, a), [b]) == Next(Next(s, a), b);
    assert AllAdmissible(Next(Next(s, a), b), []);
    assert AllAdmissible(Next(s, a), [b]) <==> Admissible(Next(s, a), b);
  }

  lemma TearingAdmissible(p: Pair)
    requires p.Fatal()
    ensures Admissible(Start(), p.Tearing())
  {
    hide RecordId, DataFiles, Contents, Readable, AppendTo, RecordFromRawEvent, TornLog, LastContentStart, EncodeRecord;
    FileIsData();
    Ids(p);
    HeaderAlone();
    HeaderReads(p);
  }

  lemma HeaderReads(p: Pair)
    requires p.Fatal()
    ensures Readable(Header) && Representable(Header + Addition(Header, [p.First()]))
  {
    HeaderAlone();
    OneRecord(p.First());
    hide EncodeRecord, EncodeRecords, StreamFrom, RecordFromRawEvent;
  }

  lemma Broken(p: Pair, s: Store)
    requires p.Fatal() && s == Next(Next(Start(), p.Tearing()), Reopening)
    ensures s.Running? && BytesOf(s.disk, File) == p.Torn() && File in s.memory.nextIds && s.memory.nextIds[File] == 2
  {
    hide *;
    FileIsData();
    AfterTearing(p);
    var t := Next(Start(), p.Tearing());
    AfterReopening(p, t.disk);
  }

  /** Every step but the third is admissible, and that one is but for the unreadable file: in the end the
      store hands out the ID of a record that is there. */
  lemma LiveIdReused(p: Pair)
    requires p.Fatal()
    ensures Inv(Start()) && AllAdmissible(Start(), [p.Tearing(), Reopening]) && Countable([p.Second()])
    ensures var before := After(Start(), [p.Tearing(), Reopening]);
      before.Running? && !Readable(BytesOf(before.disk, File))
    ensures var t := After(Start(), [p.Tearing(), Reopening, p.Appending()] + Allocations(996));
      && t.Running? && ["999"] in RecordsOf(t.disk, File)
      && RecordId(["999"]) == Allocate(t.memory, File).1
  {
    hide *;
    StartIsSafe();
    TearingAdmissible(p);
    AfterTwo(Start(), p.Tearing(), Reopening);
    ReopeningAdmissible(Next(Start(), p.Tearing()));
    SecondCountable(p);
    var before := After(Start(), [p.Tearing(), Reopening]);
    Broken(p, before);
    TornStays(p);
    AfterAppending(p, before);
    var s := Next(before, p.Appending());
    AfterBoth(Start(), [p.Tearing(), Reopening], [p.Appending()] + Allocations(996));
    AfterOne(before, p.Appending(), Allocations(996));
    assert [p.Tearing(), Reopening] + ([p.Appending()] + Allocations(996)) ==
      [p.Tearing(), Reopening, p.Appending()] + Allocations(996);
    To999(s);
    SeenHolds(p, s.disk, After(s, Allocations(996)).memory);
  }

  lemma To999(s: Store)
    requires s.Running? && NextId(s.memory, File) == 3
    ensures var t := After(s, Allocations(996));
      t.Running? && t.disk == s.disk && NextId(t.memory, File) == 999
  {
    hide After, NextId, Allocations;
    AfterAllocations(s, 996);
  }

  lemma AfterOne(s: Store, e: Event, events: seq<Event>)
    ensures After(s, [e] + events) == After(Next(s, e), events)
  {
    hide Next;
    assert ([e] + events)[1..] == events;
  }

  lemma ReopeningAdmissible(s: Store)
    ensures Admissible(s, Reopening)
  {
  }

  lemma SecondCountable(p: Pair)
    requires p.Fatal()
    ensures Countable([p.Second()])
  {
    hide RecordId;
    Ids(p);
  }

  lemma SeenHolds(p: Pair, d: Disk, m: Memory)
    requires RecordsOf(d, File) == p.Seen() && NextId(m, File) == 999
    ensures ["999"] in RecordsOf(d, File) && RecordId(["999"]) == Allocate(m, File).1
  {
    hide RecordId, RecordsOf, RecordFromRawEvent;
    NinesId();
    assert p.Seen()[1] == ["999"];
  }


  // ---------------------------------------------------------------- the last ID

  const LastId: Record := ["9223372036854775807"]

  lemma NineDigits()
    ensures Decimal(922337203) == "922337203"
  {
    assert Decimal(9) == "9";
    hide Decimal;
    OneMore(9, 2);
    OneMore(92, 2);
    OneMore(922, 3);
    OneMore(9223, 3);
    OneMore(92233, 7);
    OneMore(922337, 2);
    OneMore(9223372, 0);
    OneMore(92233720, 3);
  }

  lemma AllDigitsOfLast()
    ensures Decimal(MaxInt64) == LastId[0]
  {
    NineDigits();
    hide Decimal;
    OneMore(922337203, 6);
    OneMore(9223372036, 8);
    OneMore(92233720368, 5);
    OneMore(922337203685, 4);
    OneMore(9223372036854, 7);
    OneMore(92233720368547, 7);
    OneMore(922337203685477, 5);
    OneMore(9223372036854775, 8);
    OneMore(92233720368547758, 0);
    OneMore(922337203685477580, 7);
  }

  lemma LastIdRead()
    ensures RecordId(LastId) == MaxInt64
  {
    AllDigitsOfLast();
    PrintedReads(MaxInt64, 0, MaxInt64 + 1);
    hide Decimal, ToSigned;
  }

  /** A record with the largest ID: its counter wraps, and the next ID is 1, whatever the file holds. */
  lemma LastIdWraps(m: Memory, file: string)
    requires NextId(m, file) <= MaxInt64
    ensures var n := Absorb(m, file, [LastId]);
      n.nextIds[file] == MinInt64 && Allocate(n, file).1 == 1
  {
    LastIdRead();
    hide RecordId, LastId;
    assert [LastId][1..] == [];
    LastIdHasField();
    assert AbsorbFrom(NextId(m, file), m.dirty, [LastId]) == AbsorbFrom(MinInt64, true, []);
  }

  lemma LastIdHasField()
    ensures LastId != []
  {
  }
}
