/** Bytes on which `parseRecords` never returns, and what they do to the callers
    (`native_store_record_io.cpp`, `native_store_file_ops.cpp`). */
module EndlessParse {
  import opened Options
  import opened RecordLog
  import opened ParserLoop
  import opened RecordLogTheorems
  import opened StoreNames
  import opened FileActions
  import opened ManifestFile
  import opened Transaction

  /** One field, whose length brings the reader back over the 23 bytes it has read of the record. */
  const LoopingRecord: string := "1|18446744073709551593:x"

  const LoopingLength: nat := 18446744073709551593

  lemma FirstDigits()
    ensures Decimal(1) == "1" && Decimal(1844674407) == "1844674407"
  {
    OneDigit();
    hide Decimal;
    OneMore(1, 8);
    OneMore(18, 4);
    OneMore(184, 4);
    OneMore(1844, 6);
    OneMore(18446, 7);
    OneMore(184467, 4);
    OneMore(1844674, 4);
    OneMore(18446744, 0);
    OneMore(184467440, 7);
  }

  lemma OneDigit()
    ensures Decimal(1) == "1"
  {
  }

  lemma LastDigits()
    ensures Decimal(LoopingLength) == "18446744073709551593"
  {
    FirstDigits();
    hide Decimal;
    OneMore(1844674407, 3);
    OneMore(18446744073, 7);
    OneMore(184467440737, 0);
    OneMore(1844674407370, 9);
    OneMore(18446744073709, 5);
    OneMore(184467440737095, 5);
    OneMore(1844674407370955, 1);
    OneMore(18446744073709551, 5);
    OneMore(184467440737095515, 9);
    OneMore(1844674407370955159, 3);
  }

  lemma LoopingRecordParts()
    ensures LoopingRecord == Decimal(1) + "|" + (Decimal(LoopingLength) + ":" + "x")
    ensures |Decimal(1)| == 1 && |Decimal(LoopingLength)| == 20 && LoopingLength == SizeModulus - 23
  {
    OneDigit();
    LastDigits();
    hide Decimal;
    assert "1|18446744073709551593:x" == "1" + "|" + ("18446744073709551593" + ":" + "x");
  }

  /** The turn that reads the record at the end of the data ends where it began. */
  lemma BackToStart(data: string, pos: nat)
    requires Representable(data) && At(data, pos, LoopingRecord) && |data| == pos + 24
    ensures BufferRecord(data, pos) == Got(["x"], pos)
  {
    hide NumberAt, Decimal, At, BufferFields, SkipBlank, LoopingRecord, LoopingLength;
    LoopingRecordParts();
    AtSplit(data, pos, Decimal(1) + "|", Decimal(LoopingLength) + ":" + "x");
    AtSplit(data, pos + 2, Decimal(LoopingLength) + ":", "x");
    AtSplit(data, pos, Decimal(1), "|");
    NumberWritten(data, pos, 1, '|');
    NumberWritten(data, pos + 2, LoopingLength, ':');
    StartsWithDigit(data, pos, Decimal(1));
    AtContent(data, pos + 23, "x");
    FieldBack(data, pos);
  }

  /** Its one field: the sum of position and length wraps to `pos`. */
  lemma FieldBack(data: string, pos: nat)
    requires |data| == pos + 24 && Representable(data) && data[pos + 23..pos + 24] == "x"
    requires NumberAt(data, pos + 2, ':') == Number(LoopingLength, 20, pos + 23)
    ensures BufferFields(data, pos + 2, 1) == Got(["x"], pos)
  {
    hide NumberAt;
    assert FieldBytes(data, NumberAt(data, pos + 2, ':')) == "x";
    assert ["x"] + [] == ["x"];
    assert BufferFields(data, pos, 0) == Got([], pos);
  }

  lemma StuckForEver(data: string, pos: nat)
    requires pos <= |data| && BufferRecord(data, pos) == Got(["x"], pos)
    ensures BufferFrom(data, pos) == Endless
  {
    hide BufferRecord, BufferWithin;
    assert ParserLoop.After(data, pos, 1) == Some(pos) by {
      assert ParserLoop.After(data, pos, 0) == Some(pos);
    }
    CycleNeverEnds(data, pos, 1, |data| + 1);
    WithinIsAfter(data, pos, |data| + 1);
  }

  // ---------------------------------------------------------------- the main results

  /** With or without a header and whatever records come first: `parseRecords` never returns. */
  lemma NeverReturnsOn(rs: seq<Record>)
    requires Representable(EncodeLog(rs) + LoopingRecord)
    ensures ParseBuffer(EncodeLog(rs) + LoopingRecord) == Endless
    ensures ParseBuffer(EncodeRecords(rs) + LoopingRecord) == Endless
  {
    hide EncodeRecords, EncodeRecord, BufferFrom, BodyStart, LoopingRecord, At;
    LogBeforeRecord(rs);
    EndlessFrom(EncodeLog(rs) + LoopingRecord, |Header|, rs);
    NoHeaderBeforeRecord(rs);
    EndlessFrom(EncodeRecords(rs) + LoopingRecord, 0, rs);
  }

  lemma LogBeforeRecord(rs: seq<Record>)
    ensures var data := EncodeLog(rs) + LoopingRecord;
      && BodyStart(data) == |Header| && |data| == |Header| + |EncodeRecords(rs)| + 24
      && At(data, |Header|, EncodeRecords(rs)) && At(data, |Header| + |EncodeRecords(rs)|, LoopingRecord)
  {
    hide EncodeRecords;
    var data := EncodeLog(rs) + LoopingRecord;
    assert data[..|Header|] == Header;
  }

  lemma NoHeaderBeforeRecord(rs: seq<Record>)
    ensures var data := EncodeRecords(rs) + LoopingRecord;
      && BodyStart(data) == 0 && |data| == |EncodeRecords(rs)| + 24
      && At(data, 0, EncodeRecords(rs)) && At(data, |EncodeRecords(rs)|, LoopingRecord)
  {
    var data := EncodeRecords(rs) + LoopingRecord;
    if rs != [] {
      assert data[0] == Decimal(|rs[0]|)[0];
    }
    assert IsDigit(data[0]) && Header[0] == 'S';
  }

  lemma EndlessFrom(data: string, pos: nat, rs: seq<Record>)
    requires Representable(data) && At(data, pos, EncodeRecords(rs))
    requires At(data, pos + |EncodeRecords(rs)|, LoopingRecord) && |data| == pos + |EncodeRecords(rs)| + 24
    ensures BufferFrom(data, pos) == Endless
  {
    hide *;
    var end := pos + |EncodeRecords(rs)|;
    RecordsWritten(data, pos, rs, end);
    BackToStart(data, end);
    StuckForEver(data, end);
    PrependEndless(rs, BufferFrom(data, end));
  }

  lemma PrependEndless(rs: seq<Record>, p: Parse<Record>)
    requires p == Endless
    ensures Prepend(rs, p) == Endless
  {
  }

  /** A manifest file that begins as it should and then holds that record is never loaded, so recovery
      of a directory with it does not return. */
  lemma RecoveryNeverReturns(fs: Files, rs: seq<Record>)
    requires Representable(EncodeLog(rs) + LoopingRecord)
    requires Manifest in fs && fs[Manifest] == EncodeLog(rs) + LoopingRecord
    ensures LoadManifest(fs[Manifest]).NeverLoads? && ReadsForever(fs)
  {
    hide EncodeRecords, ParseBuffer, LoopingRecord;
    NeverReturnsOn(rs);
    var data := EncodeLog(rs) + LoopingRecord;
    assert data[..|Header|] == Header;
  }

  /** The stream readers take the same bytes for a damaged record and stop. */
  lemma StreamReaderStops(rs: seq<Record>)
    requires Representable(EncodeLog(rs) + LoopingRecord)
    ensures ReadStream(EncodeLog(rs) + LoopingRecord) == Rejected
  {
    hide ReadStream, ParseBuffer, LoopingRecord, EncodeLog;
    NeverReturnsOn(rs);
    if ReadStream(EncodeLog(rs) + LoopingRecord).Parsed? {
      StreamAcceptanceCarriesOver(EncodeLog(rs) + LoopingRecord);
    }
    assert ReadStream(EncodeLog(rs) + LoopingRecord).Rejected? by { StreamEnds(EncodeLog(rs) + LoopingRecord); }
  }

  lemma StreamEnds(data: string)
    ensures !ReadStream(data).Endless?
  {
  }
}
