/** A record file as its bytes: what the stream reader sees in it, and what appending, tail recovery and
    compaction do to that (`native_session_store.cpp`). */
module LogBytes {
  import opened RecordLog
  import opened RecordLogTheorems
  import opened TailRecovery
  import opened Compaction

  /** The records that `visitRecords` visits before it ends or gives up. */
  function Contents(data: string): seq<Record> {
    ReadablePrefix(data, BodyStart(data))
  }

  /** `visitRecords` reaches the end of the file. */
  predicate Readable(data: string) {
    ReadStream(data).Parsed?
  }

  lemma {:induction false} ParsedIsPrefix(data: string, pos: nat)
    requires pos <= |data| && StreamFrom(data, pos).Parsed?
    ensures StreamFrom(data, pos).items == ReadablePrefix(data, pos)
    decreases |data| - pos
  {
    hide StreamRecord;
    if StreamRecord(data, pos).Got? {
      ParsedIsPrefix(data, StreamRecord(data, pos).next);
    }
  }

  /** A readable file holds exactly its contents. */
  lemma ReadableContents(data: string)
    requires Readable(data)
    ensures ReadStream(data) == Parsed(Contents(data))
  {
    hide StreamFrom, ReadablePrefix, BodyStart;
    ParsedIsPrefix(data, BodyStart(data));
  }

  lemma WrittenContents(rs: seq<Record>)
    requires Representable(EncodeLog(rs))
    ensures Readable(EncodeLog(rs)) && Contents(EncodeLog(rs)) == rs
  {
    hide ReadStream, Contents, EncodeLog;
    RoundTrip(rs);
    ReadableContents(EncodeLog(rs));
  }

  // ---------------------------------------------------------------- appending

  /** What `appendRecords` puts after the bytes of the file: the header first when there are none. */
  function Addition(data: string, rs: seq<Record>): string {
    (if data == "" then Header else "") + EncodeRecords(rs)
  }

  /** The file when only the first `k` of those bytes reach it. */
  function AppendTo(data: string, rs: seq<Record>, k: nat): string {
    var more := Addition(data, rs);
    data + if k < |more| then more[..k] else more
  }

  /** `more` goes on after `data`, and not with a blank. */
  ghost predicate GoesOn(data: string, more: string) {
    && |data| <= |more| && more[..|data|] == data
    && (|data| < |more| ==> !IsBlank(more[|data|]))
  }

  lemma NumberExtends(data: string, more: string, pos: nat, delimiter: char)
    requires |data| <= |more| && more[..|data|] == data && NumberAt(data, pos, delimiter).Number?
    ensures NumberAt(more, pos, delimiter) == NumberAt(data, pos, delimiter)
  {
    hide DigitRun, Value;
    DigitRunStops(data, pos, delimiter);
    var k := DigitRun(data, pos);
    SamePart(data, more, pos, pos + k);
    SameByte(data, more, pos + k);
    DigitRunOf(more, pos, data[pos..pos + k]);
  }

  lemma SamePart(data: string, more: string, lo: nat, hi: nat)
    requires |data| <= |more| && more[..|data|] == data && lo <= hi <= |data|
    ensures more[lo..hi] == data[lo..hi]
  {
    assert more[..|data|][lo..hi] == more[lo..hi];
  }

  lemma SameByte(data: string, more: string, i: nat)
    requires |data| <= |more| && more[..|data|] == data && i < |data|
    ensures more[i] == data[i]
  {
    assert more[..|data|][i] == more[i];
  }

  lemma DigitRunStops(data: string, pos: nat, delimiter: char)
    requires NumberAt(data, pos, delimiter).Number?
    ensures pos + DigitRun(data, pos) < |data| && !IsDigit(data[pos + DigitRun(data, pos)])
  {
  }

  lemma {:induction false} FieldsExtend(data: string, more: string, pos: nat, count: nat)
    requires pos <= |data| <= |more| && more[..|data|] == data && StreamFields(data, pos, count).Got?
    ensures StreamFields(more, pos, count) == StreamFields(data, pos, count)
    decreases count
  {
    hide NumberAt;
    if count > 0 {
      var n := StreamNumberAt(data, pos, ':');
      NumberExtends(data, more, pos, ':');
      FieldsExtend(data, more, n.next + n.value, count - 1);
      SamePart(data, more, n.next, n.next + n.value);
    }
  }

  lemma {:induction false} SkipBlankExtends(data: string, more: string, pos: nat)
    requires pos <= |data| && GoesOn(data, more)
    ensures SkipBlank(more, pos) == SkipBlank(data, pos)
    decreases |data| - pos
  {
    if pos < |data| {
      assert more[pos] == data[pos];
      if IsBlank(data[pos]) {
        SkipBlankExtends(data, more, pos + 1);
      }
    }
  }

  lemma AfterRecordExtends(data: string, more: string, pos: nat)
    requires pos <= |data| && GoesOn(data, more)
    ensures AfterRecord(more, pos) == AfterRecord(data, pos)
  {
    if pos < |data| {
      assert more[pos] == data[pos];
    }
  }

  /** A record read in a file is read there again when the file goes on. */
  lemma RecordExtends(data: string, more: string, pos: nat)
    requires pos <= |data| && GoesOn(data, more)
    ensures StreamRecord(data, pos).Got? ==> StreamRecord(more, pos) == StreamRecord(data, pos)
    ensures StreamRecord(data, pos).End? ==> StreamRecord(more, pos) == StreamRecord(more, |data|)
  {
    hide NumberAt, StreamFields, SkipBlank, AfterRecord;
    var start := SkipBlank(data, pos);
    SkipBlankExtends(data, more, pos);
    if start == |data| {
      SkipBlankExtends(data, more, |data|);
    } else if StreamRecord(data, pos).Got? {
      var n := StreamNumberAt(data, start, '|');
      NumberExtends(data, more, start, '|');
      FieldsExtend(data, more, n.next, n.value);
      AfterRecordExtends(data, more, StreamFields(data, n.next, n.value).next);
    }
  }

  /** The records of a readable file stay, and those of the new bytes follow. */
  lemma {:induction false} ReadOn(data: string, more: string, pos: nat)
    requires pos <= |data| && GoesOn(data, more) && StreamFrom(data, pos).Parsed?
    ensures ReadablePrefix(more, pos) == ReadablePrefix(data, pos) + ReadablePrefix(more, |data|)
    ensures StreamFrom(more, |data|).Parsed? ==> StreamFrom(more, pos).Parsed?
    decreases |data| - pos
  {
    hide StreamRecord, GoesOn;
    assert |data| <= |more| by { GoesOnFurther(data, more); }
    RecordExtends(data, more, pos);
    if StreamRecord(data, pos).Got? {
      ReadOn(data, more, StreamRecord(data, pos).next);
    }
  }

  lemma GoesOnFurther(data: string, more: string)
    requires GoesOn(data, more)
    ensures |data| <= |more|
  {
  }

  /** How many records the first `k` of their bytes amount to; the last newline is not missed. */
  function Whole(rs: seq<Record>, k: nat): (n: nat)
    ensures n <= |rs|
  {
    if rs == [] then 0 else
      var size := |EncodeRecord(rs[0])|;
      if k < size - 1 then 0 else if k < size then 1 else 1 + Whole(rs[1..], k - size)
  }

  lemma {:induction false} AllWhole(rs: seq<Record>)
    ensures Whole(rs, |EncodeRecords(rs)|) == |rs|
  {
    hide EncodeRecord;
    if rs != [] {
      AllWhole(rs[1..]);
    }
  }

  /** One record cut short is no record for the stream reader, unless it lacks nothing but its newline. */
  lemma CutRecord(data: string, pos: nat, r: Record, k: nat)
    requires Torn(data, pos, EncodeRecord(r), k) && k < |EncodeRecord(r)| && pos + |EncodeRecord(r)| < StreamModulus
    ensures pos <= |data|
    ensures ReadablePrefix(data, pos) == if k == |EncodeRecord(r)| - 1 then [r] else []
  {
    hide EncodeRecord, SpanRecord, StreamRecord, LastContentStart;
    NothingAfterEnd(data);
    if k > 0 {
      TornRecord(data, pos, r, k);
      SpanAgainstStream(data, pos);
    }
  }

  lemma {:induction false} CutRecords(data: string, pos: nat, rs: seq<Record>, k: nat)
    requires Torn(data, pos, EncodeRecords(rs), k) && pos + |EncodeRecords(rs)| < StreamModulus
    ensures pos <= |data| && ReadablePrefix(data, pos) == rs[..Whole(rs, k)]
    decreases |rs|
  {
    hide *;
    TornLength(data, pos, EncodeRecords(rs), k);
    if rs == [] {
      NothingCut(data, pos, k);
    } else {
      var size := |EncodeRecord(rs[0])|;
      FirstRecord(rs, k);
      TornHead(data, pos, EncodeRecord(rs[0]), EncodeRecords(rs[1..]), k);
      if k < size {
        CutRecord(data, pos, rs[0], k);
      } else {
        RecordWritten(data, pos, rs[0]);
        CutRecords(data, pos + size, rs[1..], k - size);
        RecordRead(data, pos, rs[0], pos + size);
      }
    }
  }

  lemma NothingCut(data: string, pos: nat, k: nat)
    requires Torn(data, pos, EncodeRecords([]), k)
    ensures pos == |data| && ReadablePrefix(data, pos) == []
  {
    NothingAfterEnd(data);
  }

  lemma RecordRead(data: string, pos: nat, r: Record, next: nat)
    requires pos < next <= |data| && StreamRecord(data, pos) == Got(r, next)
    ensures ReadablePrefix(data, pos) == [r] + ReadablePrefix(data, next)
  {
    hide StreamRecord;
  }

  lemma FirstRecord(rs: seq<Record>, k: nat)
    requires rs != []
    ensures EncodeRecords(rs) == EncodeRecord(rs[0]) + EncodeRecords(rs[1..])
    ensures var size := |EncodeRecord(rs[0])|;
      rs[..Whole(rs, k)] ==
        if k < size - 1 then [] else if k < size then [rs[0]] else [rs[0]] + rs[1..][..Whole(rs[1..], k - size)]
  {
    hide EncodeRecord;
  }

  lemma TornLength(data: string, pos: nat, s: string, k: nat)
    requires Torn(data, pos, s, k)
    ensures |data| == pos + k && k <= |s|
    ensures pos + |s| < StreamModulus ==> Representable(data)
  {
  }

  /** How many of the appended records the file then holds. */
  function Arrived(data: string, rs: seq<Record>, k: nat): (n: nat)
    ensures n <= |rs|
  {
    var head := if data == "" then |Header| else 0;
    if k >= |Addition(data, rs)| then |rs| else if k < head then 0 else Whole(rs, k - head)
  }

  lemma ReadableStart(data: string)
    requires data != "" && Readable(data) && !HasHeader(data)
    ensures data[0] != Header[0]
  {
    hide StreamFields;
  }

  lemma BodyStartStays(data: string, more: string)
    requires data != "" && Readable(data) && |data| <= |more| && more[..|data|] == data
    ensures BodyStart(more) == BodyStart(data)
  {
    hide Readable;
    assert more[0] == data[0];
    if HasHeader(data) {
      assert more[..|Header|] == data[..|Header|];
    } else {
      ReadableStart(data);
    }
  }

  lemma StartsWithRecord(rs: seq<Record>)
    ensures EncodeRecords(rs) != "" ==> !IsBlank(EncodeRecords(rs)[0])
  {
    if rs != [] {
      assert EncodeRecords(rs)[0] == Decimal(|rs[0]|)[0];
    }
  }

  lemma TornAddition(data: string, rs: seq<Record>, k: nat)
    requires k <= |EncodeRecords(rs)|
    ensures var more := data + EncodeRecords(rs)[..k];
      |data| <= |more| && more[..|data|] == data && GoesOn(data, more) && Torn(more, |data|, EncodeRecords(rs), k)
  {
    StartsWithRecord(rs);
    hide EncodeRecords;
  }

  /** What follows the bytes from `pos` on, after `k` bytes of the records. */
  lemma AddedRecords(data: string, rs: seq<Record>, k: nat, pos: nat)
    requires pos <= |data| && StreamFrom(data, pos).Parsed? && k <= |EncodeRecords(rs)|
    requires Representable(data + EncodeRecords(rs))
    ensures var more := data + EncodeRecords(rs)[..k];
      && ReadablePrefix(more, pos) == ReadablePrefix(data, pos) + rs[..Whole(rs, k)]
      && (k == |EncodeRecords(rs)| ==> StreamFrom(more, pos).Parsed?)
  {
    hide *;
    var more := data + EncodeRecords(rs)[..k];
    SumFits(data, EncodeRecords(rs));
    TornAddition(data, rs, k);
    CutRecords(more, |data|, rs, k);
    ReadOn(data, more, pos);
    if k == |EncodeRecords(rs)| {
      AllThere(data, rs);
    }
  }

  lemma SumFits(data: string, s: string)
    requires Representable(data + s)
    ensures |data| + |s| < StreamModulus
  {
  }

  lemma AllThere(data: string, rs: seq<Record>)
    requires Representable(data + EncodeRecords(rs))
    ensures StreamFrom(data + EncodeRecords(rs)[..|EncodeRecords(rs)|], |data|).Parsed?
  {
    hide StreamFrom, EncodeRecords;
    var more := data + EncodeRecords(rs);
    assert EncodeRecords(rs)[..|EncodeRecords(rs)|] == EncodeRecords(rs);
    assert more[|data|..] == EncodeRecords(rs);
    RecordsWritten(more, |data|, rs, |more|);
    AtEnd(more);
  }

  /** A file that ends inside its header has no records. */
  lemma CutHeader(k: nat)
    requires k < |Header|
    ensures Contents(Header[..k]) == []
  {
    hide StreamFields;
    if k > 0 {
      assert Header[..k][0] == 'S';
    }
  }

  lemma HeaderAlone()
    ensures BodyStart(Header) == |Header| && Contents(Header) == [] && StreamFrom(Header, |Header|).Parsed?
  {
    hide StreamFields;
    assert Header[..|Header|] == Header;
  }

  lemma AppendShape(data: string, rs: seq<Record>, k: nat)
    ensures k < |Addition(data, rs)| && data == "" && k < |Header| ==> AppendTo(data, rs, k) == Header[..k]
    ensures var head := if data == "" then |Header| else 0;
      var all := |EncodeRecords(rs)|;
      k >= head ==>
        AppendTo(data, rs, k) ==
          (if data == "" then Header else data) + EncodeRecords(rs)[..if k - head < all then k - head else all]
    ensures |AppendTo(data, rs, k)| <= |data + Addition(data, rs)|
  {
    hide EncodeRecords;
    var e := EncodeRecords(rs);
    assert e[..|e|] == e;
    if data == "" {
      assert Addition(data, rs) == Header + e;
      if k < |Header| {
        assert (Header + e)[..k] == Header[..k];
      } else if k < |Header + e| {
        assert (Header + e)[..k] == Header + e[..k - |Header|];
      }
    } else {
      assert Addition(data, rs) == e;
    }
  }

  /** To a file that has bytes. */
  lemma AppendToBytes(data: string, rs: seq<Record>, k: nat)
    requires data != "" && Readable(data) && Representable(data + EncodeRecords(rs)) && k <= |EncodeRecords(rs)|
    ensures var more := data + EncodeRecords(rs)[..k];
      && Contents(more) == Contents(data) + rs[..Whole(rs, k)]
      && (k == |EncodeRecords(rs)| ==> Readable(more))
  {
    hide EncodeRecords, Whole, ReadablePrefix, StreamFrom, BodyStart;
    BodyStartStays(data, data + EncodeRecords(rs)[..k]);
    AddedRecords(data, rs, k, BodyStart(data));
  }

  /** To a file that has none, beyond the header. */
  lemma AppendToNothing(rs: seq<Record>, k: nat)
    requires Representable(EncodeLog(rs)) && k <= |EncodeRecords(rs)|
    ensures var more := Header + EncodeRecords(rs)[..k];
      && Contents(more) == rs[..Whole(rs, k)]
      && (k == |EncodeRecords(rs)| ==> Readable(more))
  {
    hide EncodeRecords, Whole, ReadablePrefix, StreamFrom, Contents;
    HeaderAlone();
    AppendToBytes(Header, rs, k);
  }

  lemma EmptyContents()
    ensures Contents("") == [] && Readable("")
  {
  }

  /** An append to a readable file, stopped after any byte, leaves the old records and the first of the
      new ones; a complete one leaves all of them, in a readable file. */
  lemma AppendReads(data: string, rs: seq<Record>, k: nat)
    requires Readable(data) && Representable(data + Addition(data, rs))
    ensures Contents(AppendTo(data, rs, k)) == Contents(data) + rs[..Arrived(data, rs, k)]
    ensures k >= |Addition(data, rs)| ==> Readable(AppendTo(data, rs, k))
    ensures Representable(AppendTo(data, rs, k))
  {
    hide EncodeRecords, Whole, AppendTo, Contents, Readable;
    AppendShape(data, rs, k);
    AllWhole(rs);
    EmptyContents();
    var head := if data == "" then |Header| else 0;
    var all := |EncodeRecords(rs)|;
    var part := if k < head then 0 else if k - head < all then k - head else all;
    if data != "" {
      AppendToBytes(data, rs, part);
    } else if k < head {
      CutHeader(k);
      assert rs[..0] == [];
    } else {
      AppendToNothing(rs, part);
    }
  }

  // ---------------------------------------------------------------- tail recovery

  /** The live file after `recoverRecordFileTail`. */
  function Recovered(data: string): string {
    var scan := ScanTail(data, BodyStart(data));
    if scan.Cut? then data[..scan.at] else data
  }

  /** Recovery keeps every record that can be read, and a second one changes nothing. */
  lemma RecoveredReads(data: string)
    requires Representable(data)
    ensures Contents(Recovered(data)) == Contents(data)
    ensures Recovered(Recovered(data)) == Recovered(data) && Representable(Recovered(data))
  {
    hide ReadablePrefix, StreamFrom, BufferFrom, ScanTail, BodyStart;
    var scan := ScanTail(data, BodyStart(data));
    if scan.Cut? {
      CutAtRecordBoundary(data, scan.at);
      ReadableContents(data[..scan.at]);
    }
  }

  /** After a torn append and recovery the file is readable, so that the next append is safe, exactly when
      the cut missed the content of the last field. */
  lemma TornThenRecovered(rs: seq<Record>, r: Record, k: nat)
    requires 0 < k < |EncodeRecord(r)| && Representable(EncodeLog(rs) + EncodeRecord(r))
    ensures Readable(Recovered(TornLog(rs, r, k))) <==> k < LastContentStart(r) || k == |EncodeRecord(r)| - 1
  {
    hide EncodeRecord, TornLog, LastContentStart, ScanTail, ReadStream, EncodeLog, BodyStart;
    TornAppend(rs, r, k);
    LogReads(rs, EncodeRecord(r));
  }

  lemma LogReads(rs: seq<Record>, more: string)
    requires Representable(EncodeLog(rs) + more)
    ensures Readable(EncodeLog(rs))
  {
    hide ReadStream, EncodeLog;
    RoundTrip(rs);
  }

  // ---------------------------------------------------------------- compaction

  /** The bytes of `data` from `from` on stand in `moved` from `to` on, up to both ends. */
  ghost predicate Moved(data: string, from: nat, moved: string, to: nat) {
    from <= |data| && to <= |moved| && moved[to..] == data[from..]
  }

  lemma MovedOn(data: string, from: nat, moved: string, to: nat, n: nat)
    requires Moved(data, from, moved, to) && from + n <= |data|
    ensures Moved(data, from + n, moved, to + n) && moved[to..to + n] == data[from..from + n]
  {
    assert moved[to..][..n] == data[from..][..n];
    assert moved[to..][n..] == data[from..][n..];
    assert moved[to + n..] == moved[to..][n..];
    assert data[from + n..] == data[from..][n..];
  }

  lemma MovedByte(data: string, from: nat, moved: string, to: nat)
    requires Moved(data, from, moved, to)
    ensures |moved| - to == |data| - from
    ensures from < |data| ==> to < |moved| && moved[to] == data[from]
  {
    if from < |data| {
      assert moved[to..][0] == data[from..][0];
    }
  }

  lemma {:induction false} DigitRunMoved(data: string, from: nat, moved: string, to: nat)
    requires Moved(data, from, moved, to)
    ensures DigitRun(moved, to) == DigitRun(data, from)
    decreases |data| - from
  {
    hide Moved;
    MovedInside(data, from, moved, to);
    MovedByte(data, from, moved, to);
    if from < |data| && IsDigit(data[from]) {
      MovedOn(data, from, moved, to, 1);
      DigitRunMoved(data, from + 1, moved, to + 1);
    }
  }

  lemma MovedInside(data: string, from: nat, moved: string, to: nat)
    requires Moved(data, from, moved, to)
    ensures from <= |data| && to <= |moved|
  {
  }

  /** The same number, `to - from` further on. */
  ghost function NumberAway(n: Number, from: nat, to: nat): Number
    requires n.Number? ==> n.next >= from
  {
    if n.NoNumber? then NoNumber else Number(n.value, n.digits, n.next - from + to)
  }

  lemma NumberMoved(data: string, from: nat, moved: string, to: nat, delimiter: char)
    requires Moved(data, from, moved, to)
    ensures StreamNumberAt(moved, to, delimiter) == NumberAway(StreamNumberAt(data, from, delimiter), from, to)
  {
    hide DigitRun, Moved;
    MovedInside(data, from, moved, to);
    MovedByte(data, from, moved, to);
    DigitRunMoved(data, from, moved, to);
    var k := DigitRun(data, from);
    MovedOn(data, from, moved, to, k);
    MovedByte(data, from + k, moved, to + k);
  }

  ghost function StepAway<T>(s: Step<T>, from: nat, to: nat): Step<T>
    requires s.Got? ==> s.next >= from
  {
    if s.Got? then Got(s.value, s.next - from + to) else s
  }

  /** One turn of the field loop of the stream reader. */
  lemma FieldTurn(data: string, pos: nat, count: nat)
    requires pos <= |data| && count > 0
    ensures var n := StreamNumberAt(data, pos, ':');
      StreamFields(data, pos, count) ==
        if n.NoNumber? || n.value >= StreamModulus || n.next + n.value > |data| then Corrupt
        else PrependFields([data[n.next..n.next + n.value]], StreamFields(data, n.next + n.value, count - 1))
  {
    hide NumberAt;
  }

  lemma FieldBytesMoved(data: string, from: nat, moved: string, to: nat, n: Number)
    requires Moved(data, from, moved, to) && n.Number? && from <= n.next && n.next + n.value <= |data|
    ensures var away := NumberAway(n, from, to);
      && away.next + n.value <= |moved|
      && moved[away.next..away.next + n.value] == data[n.next..n.next + n.value]
      && Moved(data, n.next + n.value, moved, away.next + n.value)
  {
    hide Moved;
    MovedOn(data, from, moved, to, n.next - from);
    MovedOn(data, n.next, moved, n.next - from + to, n.value);
    MovedInside(data, n.next + n.value, moved, n.next - from + to + n.value);
  }

  lemma NoFieldsMoved(data: string, from: nat, moved: string, to: nat)
    requires from <= |data| && to <= |moved|
    ensures StreamFields(moved, to, 0) == StepAway(StreamFields(data, from, 0), from, to)
  {
  }

  lemma {:induction false} FieldsMoved(data: string, from: nat, moved: string, to: nat, count: nat)
    requires Moved(data, from, moved, to) && from <= |data| && to <= |moved|
    ensures StreamFields(moved, to, count) == StepAway(StreamFields(data, from, count), from, to)
    decreases count
  {
    hide StreamNumberAt, Moved, StreamFields;
    if count == 0 {
      NoFieldsMoved(data, from, moved, to);
    } else {
      MovedByte(data, from, moved, to);
      NumberMoved(data, from, moved, to, ':');
      FieldTurn(data, from, count);
      FieldTurn(moved, to, count);
      var n := StreamNumberAt(data, from, ':');
      if n.Number? && n.next + n.value <= |data| {
        FieldBytesMoved(data, from, moved, to, n);
        FieldsMoved(data, n.next + n.value, moved, n.next + n.value - from + to, count - 1);
      }
    }
  }

  lemma {:induction false} SkipBlankMoved(data: string, from: nat, moved: string, to: nat)
    requires Moved(data, from, moved, to) && from <= |data| && to <= |moved|
    ensures SkipBlank(moved, to) == SkipBlank(data, from) - from + to
    decreases |data| - from
  {
    hide Moved;
    MovedByte(data, from, moved, to);
    if from < |data| && IsBlank(data[from]) {
      MovedOn(data, from, moved, to, 1);
      SkipBlankMoved(data, from + 1, moved, to + 1);
    }
  }

  /** One record of the stream reader, seen from where its blanks end. */
  lemma RecordTurn(data: string, pos: nat)
    requires pos <= |data|
    ensures var start := SkipBlank(data, pos);
      StreamRecord(data, pos) == if start == |data| then End else RecordFrom(data, StreamNumberAt(data, start, '|'))
  {
    hide StreamNumberAt, StreamFields, SkipBlank;
  }

  /** The record that follows its field count. */
  function RecordFrom(data: string, n: Number): Step<Record>
    requires n.Number? ==> n.next <= |data|
  {
    if n.NoNumber? then Corrupt else
      var fields := StreamFields(data, n.next, n.value);
      if fields.Got? then Got(fields.value, AfterRecord(data, fields.next)) else fields
  }

  lemma RecordFromMoved(data: string, from: nat, moved: string, to: nat, n: Number)
    requires Moved(data, from, moved, to) && (n.Number? ==> from <= n.next <= |data|)
    requires n.Number? ==> n.next - from + to <= |moved|
    ensures RecordFrom(data, n).Got? ==> RecordFrom(data, n).next >= from
    ensures RecordFrom(moved, NumberAway(n, from, to)) == StepAway(RecordFrom(data, n), from, to)
  {
    hide Moved, StreamFields, AfterRecord;
    if n.Number? {
      MovedOn(data, from, moved, to, n.next - from);
      FieldsMoved(data, n.next, moved, n.next - from + to, n.value);
      var fields := StreamFields(data, n.next, n.value);
      if fields.Got? {
        MovedOn(data, n.next, moved, n.next - from + to, fields.next - n.next);
        AfterRecordMoved(data, fields.next, moved, fields.next - from + to);
      }
    }
  }

  lemma AfterRecordMoved(data: string, from: nat, moved: string, to: nat)
    requires Moved(data, from, moved, to) && from <= |data| && to <= |moved|
    ensures AfterRecord(moved, to) == AfterRecord(data, from) - from + to
  {
    hide Moved;
    MovedByte(data, from, moved, to);
  }

  lemma RecordMoved(data: string, from: nat, moved: string, to: nat)
    requires Moved(data, from, moved, to) && from <= |data| && to <= |moved|
    ensures StreamRecord(moved, to) == StepAway(StreamRecord(data, from), from, to)
  {
    hide StreamNumberAt, Moved, StreamRecord, RecordFrom, SkipBlank;
    MovedByte(data, from, moved, to);
    SkipBlankMoved(data, from, moved, to);
    RecordTurn(data, from);
    RecordTurn(moved, to);
    var start := SkipBlank(data, from);
    if start < |data| {
      MovedOn(data, from, moved, to, start - from);
      NumberMoved(data, start, moved, start - from + to, '|');
      var n := StreamNumberAt(data, start, '|');
      RecordFromMoved(data, start, moved, start - from + to, n);
    }
  }

  lemma {:induction false} RecordsMoved(data: string, from: nat, moved: string, to: nat)
    requires Moved(data, from, moved, to) && from <= |data| && to <= |moved|
    ensures ReadablePrefix(moved, to) == ReadablePrefix(data, from)
    decreases |data| - from
  {
    hide StreamRecord, Moved;
    RecordMoved(data, from, moved, to);
    var step := StreamRecord(data, from);
    if step.Got? {
      MovedOn(data, from, moved, to, step.next - from);
      RecordsMoved(data, step.next, moved, step.next - from + to);
    }
  }

  /** A span begins where its record does, after the blanks. */
  lemma SpanOffset(data: string, pos: nat)
    requires pos <= |data| && SpanRecord(data, pos).Got?
    ensures var offset := SpanRecord(data, pos).value.offset;
      offset <= |data| && StreamRecord(data, offset) == StreamRecord(data, pos)
  {
    hide StreamNumberAt, StreamFields, SpanFields;
  }

  lemma SameStepSamePrefix(data: string, a: nat, b: nat)
    requires a <= |data| && b <= |data| && StreamRecord(data, a) == StreamRecord(data, b)
    ensures ReadablePrefix(data, a) == ReadablePrefix(data, b)
  {
    hide StreamRecord;
  }

  /** From any span on, the stream reader finds a suffix of what it finds from the beginning. */
  lemma {:induction false} SuffixFromSpan(data: string, pos: nat, j: nat) returns (n: nat)
    requires Representable(data) && pos <= |data|
    requires SpansFrom(data, pos).Parsed? && j < |SpansFrom(data, pos).items|
    ensures var offset := SpansFrom(data, pos).items[j].offset;
      && offset <= |data| && n <= |ReadablePrefix(data, pos)|
      && ReadablePrefix(data, offset) == ReadablePrefix(data, pos)[n..]
    decreases j
  {
    hide SpanRecord, StreamRecord;
    SpanAgainstStream(data, pos);
    var next := SpanRecord(data, pos).next;
    if j == 0 {
      SpanOffset(data, pos);
      SameStepSamePrefix(data, SpanRecord(data, pos).value.offset, pos);
      n := 0;
    } else if next > |data| {
      EndBeyond(data, next);
      assert false;
    } else {
      n := SuffixFromSpan(data, next, j - 1);
      n := n + 1;
    }
  }

  /** The span reader finds no records and no damage. */
  predicate NoSpans(data: string) {
    SpansFrom(data, BodyStart(data)) == Parsed([])
  }

  /** The file after a compaction that keeps the spans from the `j`-th on. */
  function CutBefore(data: string, j: nat): string {
    var scan := SpansFrom(data, BodyStart(data));
    if !scan.Parsed? then data
    else if NoSpans(data) then EncodeLog([])
    else if j < |scan.items| && BodyStart(data) < scan.items[j].offset <= |data| then
      Header + data[scan.items[j].offset..]
    else data
  }

  /** Compaction leaves a suffix of the records that can be read, in whatever state the file is. */
  lemma CutBeforeReads(data: string, j: nat) returns (n: nat)
    requires Representable(data)
    ensures n <= |Contents(data)| && Contents(CutBefore(data, j)) == Contents(data)[n..]
  {
    hide SpansFrom, ReadablePrefix, BodyStart, EncodeLog;
    var first := BodyStart(data);
    var scan := SpansFrom(data, first);
    n := 0;
    if scan.Parsed? {
      if scan.items == [] {
        EmptyLog();
        WrittenContents([]);
        n := |Contents(data)|;
      } else if j < |scan.items| && first < scan.items[j].offset <= |data| {
        n := SuffixFromSpan(data, first, j);
        HeaderBefore(data, scan.items[j].offset);
      }
    }
  }

  lemma EmptyLog()
    ensures Representable(EncodeLog([]))
  {
  }

  lemma HeaderBefore(data: string, offset: nat)
    requires offset <= |data|
    ensures Contents(Header + data[offset..]) == ReadablePrefix(data, offset)
  {
    hide ReadablePrefix;
    var moved := Header + data[offset..];
    assert moved[..|Header|] == Header && moved[|Header|..] == data[offset..];
    RecordsMoved(data, offset, moved, |Header|);
  }

  /** The file after `compactRawEventsIfNeeded` has come to `outcome`. */
  function DataAfter(data: string, outcome: Compaction.Outcome): string {
    if outcome.Rewritten? then outcome.data else data
  }

  /** Whatever compaction comes to is a cut before some span. */
  lemma CompactionIsCut(data: string, target: nat, outcome: Compaction.Outcome)
    requires var scan := SpansFrom(data, BodyStart(data));
      if scan.Parsed? then Compacted(data, scan.items, target, outcome) else outcome == Compaction.Failed
    ensures exists j :: DataAfter(data, outcome) == CutBefore(data, j)
  {
    hide SpansFrom, EncodeLog, Bytes, BodyStart;
    var scan := SpansFrom(data, BodyStart(data));
    if scan.Parsed? && scan.items != [] {
      var j: nat :| LongestFit(scan.items, j, target) && CutAtSpan(data, scan.items[j], outcome);
      assert DataAfter(data, outcome) == CutBefore(data, j);
    } else {
      assert DataAfter(data, outcome) == CutBefore(data, 0);
    }
  }
}
