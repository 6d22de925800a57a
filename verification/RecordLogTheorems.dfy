/** What the three readers of `RecordLog` promise one another and the writer. */
module RecordLogTheorems {
  import opened RecordLog
  import opened ParserLoop

  /** `s` stands in `data` at `pos`. */
  ghost predicate At(data: string, pos: nat, s: string) {
    pos + |s| <= |data| && data[pos..pos + |s|] == s
  }

  lemma AtSplit(data: string, pos: nat, a: string, b: string)
    requires At(data, pos, a + b)
    ensures At(data, pos, a) && At(data, pos + |a|, b)
  {
    assert data[pos..pos + |a|] == data[pos..pos + |a + b|][..|a|];
    assert data[pos + |a|..pos + |a| + |b|] == data[pos..pos + |a + b|][|a|..];
  }

  lemma AtContent(data: string, pos: nat, s: string)
    requires At(data, pos, s)
    ensures pos + |s| <= |data| && data[pos..pos + |s|] == s
  {
  }

  // ---------------------------------------------------------------- a written record is read back

  lemma {:induction false} DigitRunOf(data: string, pos: nat, s: string)
    requires At(data, pos, s) && AllDigits(s)
    requires pos + |s| < |data| && !IsDigit(data[pos + |s|])
    ensures DigitRun(data, pos) == |s|
    decreases |s|
  {
    if s != "" {
      AtSplit(data, pos, [s[0]], s[1..]);
      assert s == [s[0]] + s[1..];
      assert data[pos] == data[pos..pos + |s|][0];
      DigitRunOf(data, pos + 1, s[1..]);
    }
  }

  lemma NumberWritten(data: string, pos: nat, n: nat, delimiter: char)
    requires n < SizeModulus && !IsDigit(delimiter)
    requires At(data, pos, Decimal(n) + [delimiter])
    ensures NumberAt(data, pos, delimiter) == Number(n, |Decimal(n)|, pos + |Decimal(n)| + 1)
    ensures StreamNumberAt(data, pos, delimiter) == NumberAt(data, pos, delimiter)
  {
    hide Decimal, DigitRun;
    var s := Decimal(n);
    AtSplit(data, pos, s, [delimiter]);
    assert data[pos + |s|] == data[pos + |s|..pos + |s| + 1][0] == delimiter;
    DigitRunOf(data, pos, s);
    ValueOfDecimal(n);
    SizeFitsStreamDigits(n);
  }

  /** A decimal number with its delimiter, then its bytes, then the rest. */
  lemma FieldSplit(data: string, pos: nat, head: string, rest: string) returns (content: nat)
    requires |head| < SizeModulus && At(data, pos, Decimal(|head|) + ":" + head + rest)
    ensures content == pos + |Decimal(|head|)| + 1
    ensures NumberAt(data, pos, ':') == Number(|head|, |Decimal(|head|)|, content)
    ensures StreamNumberAt(data, pos, ':') == NumberAt(data, pos, ':')
    ensures At(data, content, head) && At(data, content + |head|, rest)
  {
    hide NumberAt, StreamNumberAt;
    var number := Decimal(|head|) + ":";
    content := pos + |number|;
    assert number + head + rest == number + (head + rest);
    AtSplit(data, pos, number, head + rest);
    AtSplit(data, content, head, rest);
    NumberWritten(data, pos, |head|, ':');
  }

  /** One turn of each field loop, when the number and the content are there. */
  lemma FieldStep(data: string, pos: nat, content: nat, head: string, digits: nat, count: nat)
    requires pos <= |data| && Representable(data) && count > 0
    requires NumberAt(data, pos, ':') == Number(|head|, digits, content)
    requires StreamNumberAt(data, pos, ':') == NumberAt(data, pos, ':')
    requires At(data, content, head)
    ensures BufferFields(data, pos, count) == PrependFields([head], BufferFields(data, content + |head|, count - 1))
    ensures StreamFields(data, pos, count) == PrependFields([head], StreamFields(data, content + |head|, count - 1))
    ensures SpanFields(data, pos, count) == CountMore(1, SpanFields(data, content + |head|, count - 1))
  {
    hide NumberAt, StreamNumberAt, FieldEnd, FieldBytes;
    FieldInside(data, NumberAt(data, pos, ':'));
  }

  /** The three field loops agree on fields that were written. */
  lemma {:induction false} FieldsWritten(data: string, pos: nat, fields: Record, next: nat)
    requires Representable(data) && At(data, pos, EncodeFields(fields)) && next == pos + |EncodeFields(fields)|
    ensures
      && BufferFields(data, pos, |fields|) == Got(fields, next)
      && StreamFields(data, pos, |fields|) == Got(fields, next)
      && SpanFields(data, pos, |fields|) == Got(|fields|, next)
    decreases |fields|
  {
    hide NumberAt, StreamNumberAt, Decimal, At, BufferFields, StreamFields, SpanFields;
    AtContent(data, pos, EncodeFields(fields));
    if fields == [] {
      NoFields(data, pos);
    } else {
      var head, tail := fields[0], fields[1..];
      var content := FieldSplit(data, pos, head, EncodeFields(tail));
      FieldStep(data, pos, content, head, |Decimal(|head|)|, |fields|);
      FieldsWritten(data, content + |head|, tail, next);
      assert [head] + tail == fields;
    }
  }

  lemma NoFields(data: string, pos: nat)
    requires pos <= |data|
    ensures BufferFields(data, pos, 0) == StreamFields(data, pos, 0) == Got([], pos)
    ensures SpanFields(data, pos, 0) == Got(0, pos)
  {
  }

  lemma RecordWritten(data: string, pos: nat, r: Record)
    requires Representable(data) && At(data, pos, EncodeRecord(r))
    ensures var next := pos + |EncodeRecord(r)|;
      && BufferRecord(data, pos) == Got(r, next)
      && StreamRecord(data, pos) == Got(r, next)
      && SpanRecord(data, pos) == Got(Span(pos, |EncodeRecord(r)|), next)
  {
    hide NumberAt, StreamNumberAt, BufferFields, StreamFields, SpanFields, EncodeFields;
    hide At, Decimal, SkipBlank, AfterRecord;
    var number := Decimal(|r|) + "|";
    assert EncodeRecord(r) == number + (EncodeFields(r) + "\n");
    AtContent(data, pos, EncodeRecord(r));
    AtSplit(data, pos, number, EncodeFields(r) + "\n");
    AtSplit(data, pos + |number|, EncodeFields(r), "\n");
    FieldCountBelowLength(r);
    NumberWritten(data, pos, |r|, '|');
    FieldsWritten(data, pos + |number|, r, pos + |number| + |EncodeFields(r)|);
    StartsWithDigit(data, pos, number);
    EndsWithNewline(data, pos + |number| + |EncodeFields(r)|);
  }

  lemma StartsWithDigit(data: string, pos: nat, s: string)
    requires At(data, pos, s) && |s| > 0 && IsDigit(s[0])
    ensures pos < |data| && !IsBlank(data[pos]) && SkipBlank(data, pos) == pos
  {
    assert data[pos] == data[pos..pos + |s|][0];
  }

  lemma EndsWithNewline(data: string, pos: nat)
    requires At(data, pos, "\n")
    ensures AfterRecord(data, pos) == pos + 1
  {
    assert data[pos] == data[pos..pos + 1][0];
  }

  /** Each field costs at least two bytes, so a field count fits whenever the file does. */
  lemma {:induction false} FieldCountBelowLength(r: Record)
    ensures 2 * |r| <= |EncodeFields(r)|
  {
    if r != [] {
      FieldCountBelowLength(r[1..]);
    }
  }

  lemma RecordStep(data: string, pos: nat, next: nat, r: Record)
    requires pos < next <= |data|
    requires BufferRecord(data, pos) == Got(r, next) && StreamRecord(data, pos) == Got(r, next)
    ensures BufferFrom(data, pos) == Prepend([r], BufferFrom(data, next))
    ensures StreamFrom(data, pos) == Prepend([r], StreamFrom(data, next))
  {
    hide BufferRecord, StreamRecord, BufferFrom;
    Turn(data, pos);
  }

  lemma RecordsSplit(data: string, pos: nat, rs: seq<Record>) returns (next: nat)
    requires rs != [] && At(data, pos, EncodeRecords(rs))
    ensures next == pos + |EncodeRecord(rs[0])| && pos + |EncodeRecords(rs)| == next + |EncodeRecords(rs[1..])|
    ensures At(data, pos, EncodeRecord(rs[0])) && At(data, next, EncodeRecords(rs[1..]))
    ensures pos < next <= |data|
  {
    AtSplit(data, pos, EncodeRecord(rs[0]), EncodeRecords(rs[1..]));
    next := pos + |EncodeRecord(rs[0])|;
  }

  /** A run of written records is read in front of whatever follows it. */
  lemma {:induction false} RecordsWritten(data: string, pos: nat, rs: seq<Record>, end: nat)
    requires Representable(data) && At(data, pos, EncodeRecords(rs)) && end == pos + |EncodeRecords(rs)|
    ensures pos <= end <= |data|
    ensures BufferFrom(data, pos) == Prepend(rs, BufferFrom(data, end))
    ensures StreamFrom(data, pos) == Prepend(rs, StreamFrom(data, end))
    decreases |rs|
  {
    hide BufferRecord, StreamRecord, EncodeRecord, BufferFrom, StreamFrom, At, Prepend;
    if rs == [] {
      AtContent(data, pos, "");
      PrependNothing(BufferFrom(data, pos));
      PrependNothing(StreamFrom(data, pos));
    } else {
      hide EncodeRecords;
      var next := RecordsSplit(data, pos, rs);
      RecordWritten(data, pos, rs[0]);
      RecordStep(data, pos, next, rs[0]);
      RecordsWritten(data, next, rs[1..], end);
      assert rs == [rs[0]] + rs[1..];
      PrependJoin([rs[0]], rs[1..], BufferFrom(data, end));
      PrependJoin([rs[0]], rs[1..], StreamFrom(data, end));
    }
  }

  lemma PrependJoin<T>(a: seq<T>, b: seq<T>, p: Parse<T>)
    ensures Prepend(a, Prepend(b, p)) == Prepend(a + b, p)
  {
    if p.Parsed? {
      assert a + (b + p.items) == a + b + p.items;
    }
  }

  /** Round trip: whatever the fields hold, including newlines, `|`, `:` and no fields at all, a
      written log reads back as the records written, by both readers. */
  lemma RoundTrip(rs: seq<Record>)
    requires Representable(EncodeLog(rs))
    ensures ParseBuffer(EncodeLog(rs)) == Parsed(rs)
    ensures ReadStream(EncodeLog(rs)) == Parsed(rs)
  {
    hide BufferRecord, StreamRecord, EncodeRecords;
    var data := EncodeLog(rs);
    assert HasHeader(data);
    assert data[|Header|..] == EncodeRecords(rs);
    RecordsWritten(data, |Header|, rs, |data|);
    AtEnd(data);
    assert rs + [] == rs;
  }

  lemma AtEnd(data: string)
    ensures BufferFrom(data, |data|) == Parsed([]) && StreamFrom(data, |data|) == Parsed([])
  {
    hide BufferFrom;
    Turn(data, |data|);
  }

  /** `parseRecords` also reads records that carry no header. */
  lemma RoundTripWithoutHeader(rs: seq<Record>)
    requires Representable(EncodeRecords(rs))
    ensures ParseBuffer(EncodeRecords(rs)) == Parsed(rs)
  {
    hide BufferRecord, StreamRecord, BufferFrom, StreamFrom;
    var data := EncodeRecords(rs);
    if rs != [] {
      assert data[0] == Decimal(|rs[0]|)[0];
      assert Header[0] == 'S';
    }
    assert !HasHeader(data);
    assert data[0..] == data;
    RecordsWritten(data, 0, rs, |data|);
    AtEnd(data);
    assert rs + [] == rs;
  }

  /** Two different lists of records never share a file. */
  lemma EncodeInjective(a: seq<Record>, b: seq<Record>)
    requires Representable(EncodeLog(a)) && EncodeLog(a) == EncodeLog(b)
    ensures a == b
  {
    RoundTrip(a);
    RoundTrip(b);
  }

  // ---------------------------------------------------------------- the stream reader is the stricter one

  lemma {:induction false} StreamFieldsAreBufferFields(data: string, pos: nat, count: nat)
    requires Representable(data) && pos <= |data|
    requires StreamFields(data, pos, count).Got?
    ensures BufferFields(data, pos, count) == StreamFields(data, pos, count)
    decreases count
  {
    hide NumberAt, FieldEnd, FieldBytes;
    if count > 0 {
      var n := StreamNumberAt(data, pos, ':');
      FieldInside(data, n);
      StreamFieldsAreBufferFields(data, n.next + n.value, count - 1);
    }
  }

  lemma StreamRecordIsBufferRecord(data: string, pos: nat)
    requires Representable(data) && pos <= |data|
    requires !StreamRecord(data, pos).Corrupt?
    ensures BufferRecord(data, pos) == StreamRecord(data, pos)
  {
    hide NumberAt, BufferFields, StreamFields;
    var start := SkipBlank(data, pos);
    if start < |data| {
      var n := StreamNumberAt(data, start, '|');
      StreamFieldsAreBufferFields(data, n.next, n.value);
    }
  }

  lemma {:induction false} StreamFromIsBufferFrom(data: string, pos: nat)
    requires Representable(data) && pos <= |data|
    requires StreamFrom(data, pos).Parsed?
    ensures BufferFrom(data, pos) == StreamFrom(data, pos)
    decreases |data| - pos
  {
    hide StreamRecord, BufferRecord, BufferFrom;
    Turn(data, pos);
    StreamRecordIsBufferRecord(data, pos);
    if StreamRecord(data, pos).Got? {
      StreamFromIsBufferFrom(data, StreamRecord(data, pos).next);
    }
  }

  /** Whenever the stream reader accepts a whole file, `parseRecords` accepts it with the same
      records.  In particular no length wraps on the way. */
  lemma StreamAcceptanceCarriesOver(data: string)
    requires Representable(data) && ReadStream(data).Parsed?
    ensures ParseBuffer(data) == ReadStream(data)
  {
    StreamFromIsBufferFrom(data, BodyStart(data));
  }
}
