/** Recovery of a record file whose last append was cut short: `recoverRecordFileTail`
    (`native_session_store.cpp`). */
module TailRecovery {
  import opened RecordLog
  import opened RecordLogTheorems

  // ---------------------------------------------------------------- the scan

  /** `Clean(end)`: no span error, and the reader stopped at `end`, which a seek may have pushed past
      the last byte.  `Cut(at)`: the span that starts after `at` is broken. */
  datatype TailScan = Clean(end: nat) | Cut(at: nat)

  function ScanTail(data: string, pos: nat): (scan: TailScan)
    ensures scan.Cut? ==> pos <= scan.at < |data|
    decreases if pos < |data| then |data| - pos else 0
  {
    match SpanRecord(data, pos)
    case Got(_, next) => ScanTail(data, next)
    case End => Clean(pos)
    case _ => Cut(pos)
  }

  datatype Outcome = Unchanged | Failed | Split(kept: string, orphan: string)

  /** The bytes that end up in the live file and in the orphan file. */
  method RecoverRecordFileTail(data: string) returns (outcome: Outcome)
    ensures var scan := ScanTail(data, BodyStart(data));
      outcome == if scan.Clean? then Unchanged else Split(data[..scan.at], data[scan.at..])
  {
    hide SpanRecord, HasHeader;
    var lastGoodOffset := if HasHeader(data) then |Header| else 0;
    while true
      invariant ScanTail(data, BodyStart(data)) == ScanTail(data, lastGoodOffset)
      decreases if lastGoodOffset < |data| then |data| - lastGoodOffset else 0
    {
      var span := ReadNextRecordSpan(data, lastGoodOffset);
      if span.Corrupt? {
        break;
      }
      if !span.Got? {
        return Unchanged;
      }
      lastGoodOffset := span.value.offset + span.value.size;
    }
    // A broken span leaves bytes after the last good one, so the source's failure exit is never taken.
    if lastGoodOffset >= |data| {
      return Failed;
    }
    outcome := Split(data[..lastGoodOffset], data[lastGoodOffset..]);
  }

  // ---------------------------------------------------------------- spans against the stream reader

  /** The records the stream reader returns before it stops for whatever reason. */
  function ReadablePrefix(data: string, pos: nat): seq<Record>
    requires pos <= |data|
    decreases |data| - pos
  {
    var step := StreamRecord(data, pos);
    if step.Got? then [step.value] + ReadablePrefix(data, step.next) else []
  }

  lemma {:induction false} SpanFieldsAgainstStream(data: string, pos: nat, count: nat)
    requires Representable(data) && pos <= |data|
    ensures SpanFields(data, pos, count).Corrupt? ==> StreamFields(data, pos, count).Corrupt?
    ensures SpanFields(data, pos, count).Got? && SpanFields(data, pos, count).next <= |data| ==>
      StreamFields(data, pos, count).Got? && StreamFields(data, pos, count).next == SpanFields(data, pos, count).next
    ensures SpanFields(data, pos, count).Got? && SpanFields(data, pos, count).next > |data| ==>
      StreamFields(data, pos, count).Corrupt?
    decreases count
  {
    hide NumberAt;
    if count > 0 {
      var n := StreamNumberAt(data, pos, ':');
      if n.Number? && n.next + n.value <= |data| {
        SpanFieldsAgainstStream(data, n.next + n.value, count - 1);
      }
    }
  }

  /** A span that stays inside the file is a record of the stream reader; one that overruns it, or
      that is broken, is a record the stream reader rejects. */
  lemma SpanAgainstStream(data: string, pos: nat)
    requires Representable(data) && pos <= |data|
    ensures var span, record := SpanRecord(data, pos), StreamRecord(data, pos);
      && (span.End? <==> record.End?)
      && (span.Corrupt? ==> record.Corrupt?)
      && (span.Got? && span.next <= |data| ==> record.Got? && record.next == span.next)
      && (span.Got? && span.next > |data| ==> record.Corrupt?)
  {
    hide NumberAt, SpanFields, StreamFields;
    if pos < |data| {
      var start := SkipBlank(data, pos);
      if start < |data| {
        var n := StreamNumberAt(data, start, '|');
        if n.Number? {
          SpanFieldsAgainstStream(data, n.next, n.value);
        }
      }
    }
  }

  // ---------------------------------------------------------------- reading inside a prefix

  lemma NumberInPrefix(data: string, at: nat, pos: nat, delimiter: char)
    requires at <= |data|
    requires NumberAt(data, pos, delimiter).Number? && NumberAt(data, pos, delimiter).next <= at
    ensures NumberAt(data[..at], pos, delimiter) == NumberAt(data, pos, delimiter)
  {
    var k := DigitRun(data, pos);
    var kept := data[..at];
    assert kept[pos..pos + k] == data[pos..pos + k];
    DigitRunOf(kept, pos, data[pos..pos + k]);
  }

  lemma {:induction false} FieldsInPrefix(data: string, at: nat, pos: nat, count: nat)
    requires Representable(data) && pos <= at <= |data|
    requires StreamFields(data, pos, count).Got? && StreamFields(data, pos, count).next <= at
    ensures StreamFields(data[..at], pos, count) == StreamFields(data, pos, count)
    ensures SpanFields(data[..at], pos, count) == Got(count, StreamFields(data, pos, count).next)
    decreases count
  {
    hide NumberAt, Decimal;
    if count > 0 {
      var n := StreamNumberAt(data, pos, ':');
      NumberInPrefix(data, at, pos, ':');
      FieldsInPrefix(data, at, n.next + n.value, count - 1);
      assert data[..at][n.next..n.next + n.value] == data[n.next..n.next + n.value];
    }
  }

  lemma {:induction false} SkipBlankInPrefix(data: string, at: nat, pos: nat)
    requires pos <= |data| && SkipBlank(data, pos) < at <= |data|
    ensures SkipBlank(data[..at], pos) == SkipBlank(data, pos)
    decreases |data| - pos
  {
    if IsBlank(data[pos]) {
      SkipBlankInPrefix(data, at, pos + 1);
    }
  }

  lemma RecordInPrefix(data: string, at: nat, pos: nat)
    requires Representable(data) && pos <= at <= |data|
    requires StreamRecord(data, pos).Got? && StreamRecord(data, pos).next <= at
    ensures StreamRecord(data[..at], pos) == StreamRecord(data, pos)
    ensures SpanRecord(data[..at], pos).Got? && SpanRecord(data[..at], pos).next == StreamRecord(data, pos).next
  {
    hide NumberAt, SpanFields, StreamFields, SkipBlank;
    var start := SkipBlank(data, pos);
    var n := StreamNumberAt(data, start, '|');
    var fields := StreamFields(data, n.next, n.value);
    assert fields.next <= StreamRecord(data, pos).next;
    SkipBlankInPrefix(data, at, pos);
    NumberInPrefix(data, at, start, '|');
    FieldsInPrefix(data, at, n.next, n.value);
  }

  /** What the scan left of `at` reads the same on its own, and nothing follows it. */
  lemma {:induction false} PrefixReads(data: string, pos: nat, at: nat)
    requires Representable(data) && pos <= |data| && ScanTail(data, pos) == Cut(at)
    ensures StreamFrom(data[..at], pos) == Parsed(ReadablePrefix(data, pos))
    ensures ScanTail(data[..at], pos) == Clean(at)
    decreases |data| - pos
  {
    hide SpanRecord, StreamRecord;
    SpanAgainstStream(data, pos);
    if SpanRecord(data, pos).Got? {
      var next := SpanRecord(data, pos).next;
      assert next <= at;
      RecordInPrefix(data, at, pos);
      PrefixReads(data, next, at);
    } else {
      assert at == pos;
      NothingAfterEnd(data[..at]);
    }
  }

  lemma NothingAfterEnd(data: string)
    ensures StreamRecord(data, |data|) == End && SpanRecord(data, |data|) == End
  {
  }

  // ---------------------------------------------------------------- the main results

  /** A broken tail is cut exactly at a record boundary: the two files hold the original bytes, the
      kept one reads as the records before the break under both readers, and scanning it again
      finds nothing to cut. */
  lemma CutAtRecordBoundary(data: string, at: nat)
    requires Representable(data) && ScanTail(data, BodyStart(data)) == Cut(at)
    ensures BodyStart(data) <= at < |data| && data[..at] + data[at..] == data
    ensures ReadStream(data[..at]) == Parsed(ReadablePrefix(data, BodyStart(data)))
    ensures ParseBuffer(data[..at]) == ReadStream(data[..at])
    ensures ScanTail(data[..at], BodyStart(data[..at])) == Clean(at)
  {
    hide ReadablePrefix, StreamFrom, BufferFrom, ScanTail, SpanRecord, StreamRecord;
    ScanCutInside(data, BodyStart(data), at);
    var kept := data[..at];
    assert BodyStart(kept) == BodyStart(data) by {
      if HasHeader(data) {
        assert kept[..|Header|] == data[..|Header|];
      }
    }
    PrefixReads(data, BodyStart(data), at);
    StreamAcceptanceCarriesOver(kept);
  }

  lemma ScanCutInside(data: string, pos: nat, at: nat)
    requires ScanTail(data, pos) == Cut(at)
    ensures pos <= at < |data|
  {
  }

  lemma {:induction false} CleanScanReads(data: string, pos: nat, end: nat)
    requires Representable(data) && pos <= |data| && ScanTail(data, pos) == Clean(end)
    ensures StreamFrom(data, pos).Parsed? <==> end <= |data|
    decreases |data| - pos
  {
    hide SpanRecord, StreamRecord;
    SpanAgainstStream(data, pos);
    if SpanRecord(data, pos).Got? && SpanRecord(data, pos).next <= |data| {
      CleanScanReads(data, SpanRecord(data, pos).next, end);
    } else if SpanRecord(data, pos).Got? {
      assert SpanRecord(data, SpanRecord(data, pos).next) == End by { EndBeyond(data, SpanRecord(data, pos).next); }
    }
  }

  lemma EndBeyond(data: string, pos: nat)
    requires pos >= |data|
    ensures SpanRecord(data, pos) == End
  {
  }

  /** A file left unchanged is readable exactly when the scan stopped inside it. */
  lemma UncutReadability(data: string, end: nat)
    requires Representable(data) && ScanTail(data, BodyStart(data)) == Clean(end)
    ensures ReadStream(data).Parsed? <==> end <= |data|
  {
    CleanScanReads(data, BodyStart(data), end);
  }


  // ---------------------------------------------------------------- a torn append

  /** Where the content of the last field of a written record begins. */
  function LastContentStart(r: Record): (k: nat)
    ensures k < |EncodeRecord(r)|
  {
    if r == [] then |Decimal(0)| + 1 else
      LastFieldFits(r);
      |Decimal(|r|)| + 1 + |EncodeFields(r)| - |r[|r| - 1]|
  }

  lemma {:induction false} LastFieldFits(fields: Record)
    requires fields != []
    ensures |fields[|fields| - 1]| < |EncodeFields(fields)|
  {
    if |fields| > 1 {
      LastFieldFits(fields[1..]);
    }
  }

  /** `data` ends inside `s`, after its first `k` bytes. */
  ghost predicate Torn(data: string, pos: nat, s: string, k: nat) {
    k <= |s| && |data| == pos + k && data[pos..] == s[..k]
  }

  lemma TornHead(data: string, pos: nat, a: string, b: string, k: nat)
    requires Torn(data, pos, a + b, k)
    ensures k <= |a| ==> Torn(data, pos, a, k)
    ensures k >= |a| ==> At(data, pos, a) && Torn(data, pos + |a|, b, k - |a|)
  {
    if k <= |a| {
      assert (a + b)[..k] == a[..k];
    }
    if k >= |a| {
      assert (a + b)[..k] == a + b[..k - |a|];
      assert data[pos..pos + |a|] == data[pos..][..|a|];
      assert data[pos + |a|..] == data[pos..][|a|..];
    }
  }

  /** A number whose delimiter is cut off is not a number for any reader. */
  lemma TornNumber(data: string, pos: nat, n: nat, delimiter: char, k: nat)
    requires !IsDigit(delimiter) && Torn(data, pos, Decimal(n) + [delimiter], k) && k <= |Decimal(n)|
    ensures StreamNumberAt(data, pos, delimiter) == NoNumber
  {
    hide Decimal;
    TornHead(data, pos, Decimal(n), [delimiter], k);
    forall i | pos <= i < |data|
      ensures IsDigit(data[i])
    {
      assert data[i] == data[pos..][i - pos];
    }
  }

  /** One turn of the two field loops, seen from outside. */
  lemma FieldsTurn(data: string, pos: nat, count: nat)
    requires Representable(data) && pos <= |data| && count > 0
    ensures var n := StreamNumberAt(data, pos, ':');
      if n.NoNumber? || n.next + n.value >= StreamModulus then
        SpanFields(data, pos, count).Corrupt? && StreamFields(data, pos, count).Corrupt?
      else
        && SpanFields(data, pos, count) == CountMore(1, SpanFields(data, n.next + n.value, count - 1))
        && (n.next + n.value > |data| ==> StreamFields(data, pos, count).Corrupt?)
        && (n.next + n.value <= |data| && StreamFields(data, n.next + n.value, count - 1).Corrupt? ==>
              StreamFields(data, pos, count).Corrupt?)
  {
    hide NumberAt, StreamNumberAt;
  }

  /** Past the end there are no fields left to find, unless none are wanted. */
  lemma NoFieldsBeyondEnd(data: string, pos: nat, count: nat)
    requires pos >= |data|
    ensures SpanFields(data, pos, count) == if count == 0 then Got(0, pos) else Corrupt
  {
  }

  lemma LastFieldAfterNumber(fields: Record)
    requires fields != []
    ensures var rest := |EncodeFields(fields)| - |fields[|fields| - 1]|;
      && (|fields| == 1 ==> rest == |Decimal(|fields[0]|)| + 1)
      && (|fields| > 1 ==>
            |EncodeFields(fields[1..])| > |fields[|fields| - 1]|
            && rest == |Decimal(|fields[0]|)| + 1 + |fields[0]| + |EncodeFields(fields[1..])| - |fields[|fields| - 1]|)
  {
    hide Decimal;
    if |fields| > 1 {
      LastFieldFits(fields[1..]);
    } else {
      assert fields[1..] == [];
    }
  }

  /** Fields cut after `k` bytes: the stream reader always notices; the span reader only when the
      cut lies before the content of the last field, which it merely seeks over. */
  lemma {:induction false} TornFields(data: string, pos: nat, fields: Record, k: nat)
    requires fields != [] && Torn(data, pos, EncodeFields(fields), k) && k < |EncodeFields(fields)|
    requires pos + |EncodeFields(fields)| < StreamModulus
    ensures StreamFields(data, pos, |fields|).Corrupt?
    ensures SpanFields(data, pos, |fields|) ==
      if k < |EncodeFields(fields)| - |fields[|fields| - 1]| then Corrupt
      else Got(|fields|, pos + |EncodeFields(fields)|)
    decreases |fields|
  {
    hide NumberAt, StreamNumberAt, Decimal, At, SpanFields, StreamFields;
    var head, tail := fields[0], fields[1..];
    var number := Decimal(|head|) + ":";
    assert EncodeFields(fields) == number + (head + EncodeFields(tail));
    LastFieldAfterNumber(fields);
    hide EncodeFields;
    TornHead(data, pos, number, head + EncodeFields(tail), k);
    FieldsTurn(data, pos, |fields|);
    if k < |number| {
      TornNumber(data, pos, |head|, ':', k);
    } else {
      NumberWritten(data, pos, |head|, ':');
      var content := pos + |number|;
      if k < |number| + |head| {
        NoFieldsBeyondEnd(data, content + |head|, |tail|);
      } else {
        TornHead(data, content, head, EncodeFields(tail), k - |number|);
        TornFields(data, content + |head|, tail, k - |number| - |head|);
      }
    }
  }

  /** One record cut after `k` of its bytes, as the last thing in the file. */
  lemma TornRecord(data: string, pos: nat, r: Record, k: nat)
    requires Torn(data, pos, EncodeRecord(r), k) && 0 < k < |EncodeRecord(r)| && pos + |EncodeRecord(r)| < StreamModulus
    ensures k < LastContentStart(r) ==> SpanRecord(data, pos) == Corrupt
    ensures LastContentStart(r) <= k < |EncodeRecord(r)| - 1 ==>
      SpanRecord(data, pos).Got? && SpanRecord(data, pos).next > |data| && StreamRecord(data, pos) == Corrupt
    ensures k == |EncodeRecord(r)| - 1 ==>
      SpanRecord(data, pos).Got? && SpanRecord(data, pos).next == |data| && StreamRecord(data, pos) == Got(r, |data|)
  {
    hide NumberAt, StreamNumberAt, At, SpanFields, StreamFields, Decimal, SkipBlank;
    var number := Decimal(|r|) + "|";
    assert EncodeRecord(r) == number + (EncodeFields(r) + "\n");
    FieldCountBelowLength(r);
    RecordHead(data, pos, r, k);
    if r != [] {
      LastFieldAfterNumber(r);
    }
    hide EncodeFields, EncodeRecord, Torn;
    TornHead(data, pos, number, EncodeFields(r) + "\n", k);
    if k < |number| {
      TornNumber(data, pos, |r|, '|', k);
    } else {
      NumberWritten(data, pos, |r|, '|');
      var body := pos + |number|;
      TornHead(data, body, EncodeFields(r), "\n", k - |number|);
      if k - |number| < |EncodeFields(r)| {
        TornFields(data, body, r, k - |number|);
      } else {
        FieldsWritten(data, body, r, |data|);
      }
    }
  }

  lemma RecordHead(data: string, pos: nat, r: Record, k: nat)
    requires Torn(data, pos, EncodeRecord(r), k) && 0 < k
    ensures pos < |data| && SkipBlank(data, pos) == pos
  {
    assert data[pos] == data[pos..][0] == Decimal(|r|)[0];
  }

  lemma {:induction false} ScanWritten(data: string, pos: nat, rs: seq<Record>, end: nat)
    requires Representable(data) && At(data, pos, EncodeRecords(rs)) && end == pos + |EncodeRecords(rs)|
    ensures ScanTail(data, pos) == ScanTail(data, end)
    decreases |rs|
  {
    hide SpanRecord, EncodeRecord, At;
    if rs != [] {
      hide EncodeRecords;
      var next := RecordsSplit(data, pos, rs);
      RecordWritten(data, pos, rs[0]);
      ScanWritten(data, next, rs[1..], end);
    }
  }

  /** A log cut inside the record appended last, just before recovery opens it. */
  function TornLog(rs: seq<Record>, r: Record, k: nat): string
    requires k <= |EncodeRecord(r)|
  {
    EncodeLog(rs) + EncodeRecord(r)[..k]
  }

  lemma TornLogLayout(rs: seq<Record>, r: Record, k: nat)
    requires 0 < k < |EncodeRecord(r)| && Representable(EncodeLog(rs) + EncodeRecord(r))
    ensures var data, pos := TornLog(rs, r, k), |EncodeLog(rs)|;
      && Representable(data) && BodyStart(data) == |Header| && data[..pos] == EncodeLog(rs)
      && At(data, |Header|, EncodeRecords(rs)) && pos == |Header| + |EncodeRecords(rs)|
      && Torn(data, pos, EncodeRecord(r), k)
  {
    hide EncodeRecords, EncodeRecord;
    var data := TornLog(rs, r, k);
    assert data[..|Header|] == Header;
    assert data[|Header|..|EncodeLog(rs)|] == EncodeRecords(rs);
  }

  /** Recovery after an append that stopped at byte `k` of its record.  It restores the log as it was
      exactly when the cut lies before the content of the last field.  If only the newline is
      missing the record counts as written.  In between, the seek hides the cut: the file stays
      as it is and the stream reader rejects it from then on. */
  lemma TornAppend(rs: seq<Record>, r: Record, k: nat)
    requires 0 < k < |EncodeRecord(r)| && Representable(EncodeLog(rs) + EncodeRecord(r))
    ensures var data := TornLog(rs, r, k);
      var scan := ScanTail(data, BodyStart(data));
      && (k < LastContentStart(r) <==> scan.Cut?)
      && (scan.Cut? ==> data[..scan.at] == EncodeLog(rs))
      && (k >= LastContentStart(r) ==>
            ReadStream(data) == if k == |EncodeRecord(r)| - 1 then Parsed(rs + [r]) else Rejected)
  {
    hide TornLog, EncodeRecord, Torn, At, LastContentStart, SpanRecord, StreamRecord, EncodeRecords, BodyStart;
    var data, pos := TornLog(rs, r, k), |EncodeLog(rs)|;
    TornLogLayout(rs, r, k);
    ScanWritten(data, |Header|, rs, pos);
    RecordsWritten(data, |Header|, rs, pos);
    TornRecord(data, pos, r, k);
    if k >= LastContentStart(r) {
      EndBeyond(data, SpanRecord(data, pos).next);
      AtEnd(data);
      assert [r] + [] == [r];
    }
  }
}
