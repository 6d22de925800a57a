/** Compaction of the raw event log: `compactRawEventsIfNeeded` (`native_session_store.cpp`) and
    `copyFileTailWithHeader` (`native_store_record_io.cpp`). */
module Compaction {
  import opened RecordLog
  import opened RecordLogTheorems

  // ---------------------------------------------------------------- the spans of a file

  function SpansFrom(data: string, pos: nat): (p: Parse<Span>)
    ensures !p.Endless?
    decreases if pos < |data| then |data| - pos else 0
  {
    match SpanRecord(data, pos)
    case End => Parsed([])
    case Got(span, next) =>
      var rest := SpansFrom(data, next);
      if rest.Parsed? then Parsed([span] + rest.items) else rest
    case _ => Rejected
  }

  /** The spans of records written one after another from `pos` on. */
  function SpansOf(rs: seq<Record>, pos: nat): (spans: seq<Span>)
    ensures |spans| == |rs|
  {
    if rs == [] then [] else
      [Span(pos, |EncodeRecord(rs[0])|)] + SpansOf(rs[1..], pos + |EncodeRecord(rs[0])|)
  }

  lemma {:induction false} SpansWritten(data: string, pos: nat, rs: seq<Record>)
    requires Representable(data) && At(data, pos, EncodeRecords(rs)) && |data| == pos + |EncodeRecords(rs)|
    ensures SpansFrom(data, pos) == Parsed(SpansOf(rs, pos))
    decreases |rs|
  {
    hide SpanRecord, EncodeRecord, At;
    if rs == [] {
      EmptyRest(data, pos);
    } else {
      hide EncodeRecords;
      var next := RecordsSplit(data, pos, rs);
      RecordWritten(data, pos, rs[0]);
      SpansWritten(data, next, rs[1..]);
    }
  }

  lemma EmptyRest(data: string, pos: nat)
    requires pos == |data|
    ensures SpanRecord(data, pos) == End
  {
  }

  /** Span `i` covers record `i`. */
  lemma {:induction false} SpansAt(rs: seq<Record>, pos: nat, i: nat)
    requires i < |rs|
    ensures SpansOf(rs, pos)[i] == Span(pos + |EncodeRecords(rs[..i])|, |EncodeRecord(rs[i])|)
    ensures EncodeRecords(rs) == EncodeRecords(rs[..i]) + EncodeRecord(rs[i]) + EncodeRecords(rs[i + 1..])
    ensures EncodeRecords(rs[i..]) == EncodeRecord(rs[i]) + EncodeRecords(rs[i + 1..])
  {
    hide EncodeRecord;
    assert rs[i..][1..] == rs[i + 1..];
    if i > 0 {
      SpansAt(rs[1..], pos + |EncodeRecord(rs[0])|, i - 1);
      assert rs[1..][..i - 1] == rs[..i][1..];
      assert rs[1..][i..] == rs[i + 1..];
      assert EncodeRecords(rs[..i]) == EncodeRecord(rs[0]) + EncodeRecords(rs[1..][..i - 1]);
    }
  }

  /** The spans that the reader returns on a written log partition its body: span `i` holds exactly the
      bytes of record `i`, and the spans before and after it the others. */
  lemma SpansPartition(rs: seq<Record>, i: nat)
    requires Representable(EncodeLog(rs)) && i < |rs|
    ensures var data := EncodeLog(rs);
      var spans := SpansFrom(data, BodyStart(data));
      && spans.Parsed? && |spans.items| == |rs|
      && var span := spans.items[i];
        && span.offset == |EncodeLog(rs[..i])| && span.offset + span.size <= |data|
        && data[..span.offset] == EncodeLog(rs[..i])
        && data[span.offset..span.offset + span.size] == EncodeRecord(rs[i])
        && data[span.offset + span.size..] == EncodeRecords(rs[i + 1..])
  {
    hide EncodeRecord, EncodeRecords, SpansFrom, SpansOf;
    LogSpans(rs);
    SpansAt(rs, |Header|, i);
    SplitLog(EncodeLog(rs), EncodeLog(rs[..i]), EncodeRecord(rs[i]), EncodeRecords(rs[i + 1..]));
  }

  lemma SplitLog(data: string, a: string, b: string, c: string)
    requires data == a + b + c
    ensures data[..|a|] == a && data[|a|..|a| + |b|] == b && data[|a| + |b|..] == c
  {
  }

  lemma LogSpans(rs: seq<Record>)
    requires Representable(EncodeLog(rs))
    ensures BodyStart(EncodeLog(rs)) == |Header|
    ensures SpansFrom(EncodeLog(rs), |Header|) == Parsed(SpansOf(rs, |Header|))
  {
    hide EncodeRecords, SpansFrom, SpansOf;
    var data := EncodeLog(rs);
    assert HasHeader(data);
    assert data[|Header|..] == EncodeRecords(rs);
    SpansWritten(data, |Header|, rs);
  }

  // ---------------------------------------------------------------- the sliding window

  function Bytes(spans: seq<Span>): nat {
    if spans == [] then 0 else spans[0].size + Bytes(spans[1..])
  }

  lemma {:induction false} BytesAppend(spans: seq<Span>, span: Span)
    ensures Bytes(spans + [span]) == Bytes(spans) + span.size
  {
    if spans != [] {
      assert (spans + [span])[1..] == spans[1..] + [span];
      BytesAppend(spans[1..], span);
    }
  }

  /** `spans[j..]` is the longest suffix that fits `target` together with the header, or the newest
      span alone when not even that fits. */
  ghost predicate LongestFit(spans: seq<Span>, j: nat, target: nat) {
    && j <= |spans|
    && (spans != [] ==> j < |spans|)
    && (j + 1 < |spans| ==> |Header| + Bytes(spans[j..]) <= target)
    && (forall i :: 0 <= i < j ==> |Header| + Bytes(spans[i..]) > target)
  }

  datatype Outcome = Untouched | Failed | Rewritten(data: string)

  /** What compaction makes of a file whose spans were all read. */
  ghost predicate Compacted(data: string, spans: seq<Span>, target: nat, outcome: Outcome) {
    if spans == [] then outcome == Rewritten(EncodeLog([])) else
      exists j: nat :: LongestFit(spans, j, target) && CutAtSpan(data, spans[j], outcome)
  }

  /** The file is cut before `oldest`, unless that is where its records begin anyway. */
  ghost predicate CutAtSpan(data: string, oldest: Span, outcome: Outcome) {
    && oldest.offset <= |data|
    && outcome == if oldest.offset <= BodyStart(data) then Untouched else Rewritten(Header + data[oldest.offset..])
  }

  /** With `size` more bytes, every suffix longer than `retained[dropped..]` exceeds the target, and
      that one does not unless it is empty. */
  ghost predicate RoomMade(retained: seq<Span>, dropped: nat, size: nat, target: nat) {
    && dropped <= |retained|
    && (dropped < |retained| ==> |Header| + Bytes(retained[dropped..]) + size <= target)
    && (forall i :: 0 <= i < dropped ==> |Header| + Bytes(retained[i..]) + size > target)
  }

  /** The inner loop: room for `size` more bytes is made by dropping spans from the front. */
  method DropOldest(retained: seq<Span>, retainedBytes: nat, size: nat, target: nat) returns (dropped: nat, bytes: nat)
    requires retainedBytes == |Header| + Bytes(retained)
    ensures dropped <= |retained| && RoomMade(retained, dropped, size, target)
    ensures bytes == |Header| + Bytes(retained[dropped..])
  {
    dropped, bytes := 0, retainedBytes;
    assert retained[0..] == retained;
    while dropped < |retained| && bytes + size > target
      invariant 0 <= dropped <= |retained| && bytes == |Header| + Bytes(retained[dropped..])
      invariant forall i :: 0 <= i < dropped ==> |Header| + Bytes(retained[i..]) + size > target
    {
      assert retained[dropped..][1..] == retained[dropped + 1..];
      // The running count covers the span it gives up, so it never goes below the header.
      assert bytes >= |Header| + retained[dropped].size;
      bytes := bytes - retained[dropped].size;
      dropped := dropped + 1;
    }
  }

  /** The state of the reading loop: the deque holds the longest fit of the spans seen, and the
      running count is its size. */
  ghost predicate Window(spans: seq<Span>, j: nat, retained: seq<Span>, retainedBytes: nat, target: nat) {
    && LongestFit(spans, j, target)
    && retained == spans[j..]
    && retainedBytes == |Header| + Bytes(retained)
  }

  /** One more span seen: the window slides, and stays the longest fit. */
  lemma SlideWindow(spans: seq<Span>, j: nat, retained: seq<Span>, retainedBytes: nat, dropped: nat, span: Span,
      target: nat)
    requires Window(spans, j, retained, retainedBytes, target)
    requires dropped <= |retained| && RoomMade(retained, dropped, span.size, target)
    ensures Window(spans + [span], j + dropped, retained[dropped..] + [span],
      |Header| + Bytes(retained[dropped..]) + span.size, target)
  {
    var more := spans + [span];
    assert more[j + dropped..] == spans[j + dropped..] + [span];
    assert retained[dropped..] == spans[j + dropped..];
    BytesAppend(spans[j + dropped..], span);
    forall i | 0 <= i < j + dropped
      ensures |Header| + Bytes(more[i..]) > target
    {
      assert more[i..] == spans[i..] + [span];
      BytesAppend(spans[i..], span);
      if i >= j {
        assert retained[i - j..] == spans[i..];
      }
    }
  }

  /** The reading loop: every span passes through the deque. */
  method RetainSpans(data: string, first: nat, target: nat)
    returns (ok: bool, recordCount: nat, retained: seq<Span>, ghost spans: seq<Span>, ghost j: nat)
    ensures ok <==> SpansFrom(data, first).Parsed?
    ensures ok ==> SpansFrom(data, first) == Parsed(spans) && recordCount == |spans|
    ensures ok ==> j <= |spans| && LongestFit(spans, j, target) && retained == spans[j..]
  {
    hide *;
    NothingRetained(target);
    NothingAhead(SpansFrom(data, first));
    spans, retained, recordCount, j := [], [], 0, 0;
    var position := first;
    var retainedBytes: nat := |Header|;
    ok := true;
    while true
      invariant Prepend(spans, SpansFrom(data, position)) == SpansFrom(data, first)
      invariant recordCount == |spans| && Window(spans, j, retained, retainedBytes, target)
      decreases if position < |data| then |data| - position else 0
    {
      var step := ReadNextRecordSpan(data, position);
      SpansTurn(data, position, spans);
      if !step.Got? {
        ok := step.End?;
        WindowContents(spans, j, retained, retainedBytes, target);
        break;
      }
      var span := step.value;
      recordCount := recordCount + 1;
      WindowContents(spans, j, retained, retainedBytes, target);
      var dropped, bytes := DropOldest(retained, retainedBytes, span.size, target);
      SlideWindow(spans, j, retained, retainedBytes, dropped, span, target);
      retained, retainedBytes := retained[dropped..] + [span], bytes + span.size;
      spans, j := spans + [span], j + dropped;
      position := step.next;
    }
  }

  lemma WindowContents(spans: seq<Span>, j: nat, retained: seq<Span>, retainedBytes: nat, target: nat)
    requires Window(spans, j, retained, retainedBytes, target)
    ensures j <= |spans| && LongestFit(spans, j, target) && retained == spans[j..]
    ensures retainedBytes == |Header| + Bytes(retained)
  {
  }

  lemma NothingRetained(target: nat)
    ensures Window([], 0, [], |Header|, target)
  {
  }

  lemma NothingAhead(p: Parse<Span>)
    ensures Prepend([], p) == p
  {
    PrependNothing(p);
  }

  /** What one read does to the scan as a whole. */
  lemma SpansTurn(data: string, pos: nat, seen: seq<Span>)
    ensures var all := Prepend(seen, SpansFrom(data, pos));
      match SpanRecord(data, pos)
      case End => all == Parsed(seen)
      case Got(span, next) => all == Prepend(seen + [span], SpansFrom(data, next))
      case _ => !all.Parsed?
  {
    hide SpanRecord;
    assert seen + [] == seen;
    if SpanRecord(data, pos).Got? {
      PrependOne(seen, SpanRecord(data, pos).value, SpansFrom(data, SpanRecord(data, pos).next));
    }
  }

  /** A span always starts at a byte of the file. */
  lemma {:induction false} OffsetsInside(data: string, pos: nat)
    requires SpansFrom(data, pos).Parsed?
    ensures forall i :: 0 <= i < |SpansFrom(data, pos).items| ==> SpansFrom(data, pos).items[i].offset < |data|
    decreases if pos < |data| then |data| - pos else 0
  {
    hide SpanRecord;
    if SpanRecord(data, pos).Got? {
      OffsetsInside(data, SpanRecord(data, pos).next);
    }
  }

  // ---------------------------------------------------------------- the main result

  /** `rs[j..]` is the longest suffix whose log fits the target, or the newest record alone. */
  ghost predicate LongestLog(rs: seq<Record>, j: nat, target: nat) {
    && j < |rs|
    && (j + 1 < |rs| ==> |EncodeLog(rs[j..])| <= target)
    && (forall i :: 0 <= i < j ==> |EncodeLog(rs[i..])| > target)
  }

  /** What compaction promises of a written log. */
  ghost predicate KeepsLongestSuffix(rs: seq<Record>, target: nat, outcome: Outcome) {
    if rs == [] then outcome == Rewritten(EncodeLog([]))
    else exists j: nat :: LongestLog(rs, j, target) && KeepsFrom(rs, j, outcome)
  }

  ghost predicate KeepsFrom(rs: seq<Record>, j: nat, outcome: Outcome)
    requires j < |rs|
  {
    && outcome == (if j == 0 then Untouched else Rewritten(EncodeLog(rs[j..])))
    && ReadStream(EncodeLog(rs[j..])) == Parsed(rs[j..])
  }

  /** On a written log, compaction yields the log of the longest suffix of its records whose bytes
      fit the target, or of the newest record alone, byte for byte; and that log reads back. */
  lemma CompactionKeepsLongestSuffix(rs: seq<Record>, target: nat, outcome: Outcome)
    requires Representable(EncodeLog(rs))
    requires var scan := SpansFrom(EncodeLog(rs), BodyStart(EncodeLog(rs)));
      scan.Parsed? ==> Compacted(EncodeLog(rs), scan.items, target, outcome)
    ensures KeepsLongestSuffix(rs, target, outcome)
  {
    hide EncodeRecord, EncodeRecords, EncodeLog, SpansOf, SpansFrom, Bytes, ReadStream, CutAtSpan;
    LogSpans(rs);
    var data, spans := EncodeLog(rs), SpansOf(rs, |Header|);
    if rs != [] {
      var j: nat :| LongestFit(spans, j, target) && CutAtSpan(data, spans[j], outcome);
      LongestFitIsLongestLog(rs, j, target);
      CutOfWritten(rs, j, outcome);
      RoundTrip(rs[j..]);
    }
  }

  lemma LongestFitIsLongestLog(rs: seq<Record>, j: nat, target: nat)
    requires rs != [] && LongestFit(SpansOf(rs, |Header|), j, target)
    ensures LongestLog(rs, j, target)
  {
    hide EncodeRecord, EncodeRecords, SpansOf, Bytes;
    forall i | 0 <= i < j
      ensures |EncodeLog(rs[i..])| > target
    {
      SuffixBytes(rs, |Header|, i);
    }
    SuffixBytes(rs, |Header|, j);
  }

  lemma UnscannedIsNotWritten(data: string)
    requires !SpansFrom(data, BodyStart(data)).Parsed?
    ensures Representable(data) ==> forall rs :: data != EncodeLog(rs)
  {
    hide *;
    if Representable(data) {
      forall rs ensures data != EncodeLog(rs) {
        if data == EncodeLog(rs) {
          LogSpans(rs);
        }
      }
    }
  }

  lemma WrittenLogs(data: string, spans: seq<Span>, target: nat, outcome: Outcome)
    requires SpansFrom(data, BodyStart(data)) == Parsed(spans) && Compacted(data, spans, target, outcome)
    ensures Representable(data) ==> forall rs :: data == EncodeLog(rs) ==> KeepsLongestSuffix(rs, target, outcome)
  {
    hide *;
    if Representable(data) {
      forall rs | data == EncodeLog(rs) ensures KeepsLongestSuffix(rs, target, outcome) {
        CompactionKeepsLongestSuffix(rs, target, outcome);
      }
    }
  }

  lemma CutOfWritten(rs: seq<Record>, j: nat, outcome: Outcome)
    requires j < |rs| && CutAtSpan(EncodeLog(rs), SpansOf(rs, |Header|)[j], outcome)
    ensures outcome == if j == 0 then Untouched else Rewritten(EncodeLog(rs[j..]))
    ensures |EncodeLog(rs[j..])| <= |EncodeLog(rs)|
  {
    hide EncodeRecord, EncodeRecords, SpansOf, Bytes;
    var data := EncodeLog(rs);
    assert HasHeader(data);
    SuffixBytes(rs, |Header|, j);
    var offset := |Header| + |EncodeRecords(rs[..j])|;
    assert data == Header + EncodeRecords(rs[..j]) + EncodeRecords(rs[j..]);
    assert data[offset..] == EncodeRecords(rs[j..]);
    if j == 0 {
      NoBytes(rs);
    }
  }

  lemma NoBytes(rs: seq<Record>)
    ensures EncodeRecords(rs[..0]) == ""
  {
  }

  /** The bytes of a suffix of the spans are the bytes of those records, and the file from there on. */
  lemma SuffixBytes(rs: seq<Record>, pos: nat, i: nat)
    requires i < |rs|
    ensures Bytes(SpansOf(rs, pos)[i..]) == |EncodeRecords(rs[i..])|
    ensures SpansOf(rs, pos)[i].offset == pos + |EncodeRecords(rs[..i])|
    ensures EncodeRecords(rs) == EncodeRecords(rs[..i]) + EncodeRecords(rs[i..])
    ensures i > 0 ==> |EncodeRecords(rs[..i])| > 0
  {
    hide EncodeRecord, SpansOf, Bytes;
    SpansSuffix(rs, pos, i);
    SpansAt(rs, pos, i);
    BytesOfSpans(rs[i..], pos + |EncodeRecords(rs[..i])|);
  }

  lemma {:induction false} BytesOfSpans(rs: seq<Record>, pos: nat)
    ensures Bytes(SpansOf(rs, pos)) == |EncodeRecords(rs)|
  {
    hide EncodeRecord;
    if rs != [] {
      BytesOfSpans(rs[1..], pos + |EncodeRecord(rs[0])|);
    }
  }

  lemma {:induction false} SpansSuffix(rs: seq<Record>, pos: nat, i: nat)
    requires i < |rs|
    ensures SpansOf(rs, pos)[i..] == SpansOf(rs[i..], pos + |EncodeRecords(rs[..i])|)
  {
    hide EncodeRecord;
    if i == 0 {
      assert rs[0..] == rs && rs[..0] == [];
    } else {
      SpansSuffix(rs[1..], pos + |EncodeRecord(rs[0])|, i - 1);
      assert rs[1..][i - 1..] == rs[i..];
      assert rs[..i][1..] == rs[1..][..i - 1];
      assert SpansOf(rs, pos)[i..] == SpansOf(rs[1..], pos + |EncodeRecord(rs[0])|)[i - 1..];
    }
  }

  // ---------------------------------------------------------------- the function of the source

  /** `compactRawEventsIfNeeded`. */
  method CompactIfNeeded(data: string, softLimit: nat, target: nat) returns (outcome: Outcome)
    ensures softLimit == 0 || target == 0 || |data| <= softLimit ==> outcome == Untouched
    ensures softLimit > 0 && target > 0 && |data| > softLimit ==>
      var scan := SpansFrom(data, BodyStart(data));
      if scan.Parsed? then Compacted(data, scan.items, target, outcome) else outcome == Failed
    ensures softLimit > 0 && target > 0 && |data| > softLimit && Representable(data) ==>
      forall rs :: data == EncodeLog(rs) ==> KeepsLongestSuffix(rs, target, outcome)
  {
    hide SpansFrom, EncodeLog, BodyStart;
    if softLimit == 0 || target == 0 || |data| <= softLimit {
      return Untouched;
    }
    var first := BodyStart(data);
    var ok, recordCount, retained, spans, j := RetainSpans(data, first, target);
    if !ok {
      UnscannedIsNotWritten(data);
      return Failed;
    }
    if recordCount == 0 {
      outcome := Rewritten(EncodeLog([]));
      WrittenLogs(data, spans, target, outcome);
      return;
    }
    OffsetsInside(data, first);
    assert retained[0] == spans[j];
    if |retained| == 0 || retained[0].offset <= first {
      outcome := Untouched;
    } else {
      outcome := Rewritten(Header + data[retained[0].offset..]);
    }
    WrittenLogs(data, spans, target, outcome);
  }
}
