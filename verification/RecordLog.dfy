/** The length-prefixed record log: `native_store_record_io.cpp`.

    A log is the header line followed by records.  A record is its field count, `|`, then for
    each field its length, `:` and its bytes, then one newline.  One `char` stands for one byte.

    Three readers walk the same bytes.  The buffer reader (`parseRecords`) and the stream
    reader (`readNextRecordFromStream`) return field contents; the span reader
    (`readNextRecordSpan`) seeks over them.  All three share `NumberAt`. */
module RecordLog {

  type Record = seq<string>

  const Header: string := "SVM_NATIVE_STORE_V1\n"

  /** One past the largest `std::size_t`. */
  const SizeModulus: nat := 0x1_0000_0000_0000_0000
  /** One past the largest `std::streamoff` and `std::streamsize`. */
  const StreamModulus: nat := 0x8000_0000_0000_0000
  /** The stream readers give up after this many digits. */
  const MaxStreamDigits: nat := 20

  /** No `std::string` and no file reaches this size; it is a bound of the types, not of the code. */
  predicate Representable(data: string) {
    |data| < StreamModulus
  }

  // ---------------------------------------------------------------- decimal numbers

  predicate IsDigit(c: char) {
    '0' <= c <= '9'
  }

  ghost predicate AllDigits(s: string) {
    forall i :: 0 <= i < |s| ==> IsDigit(s[i])
  }

  function DigitChar(d: nat): (c: char)
    requires d < 10
    ensures IsDigit(c) && c as int - '0' as int == d
  {
    ('0' as int + d) as char
  }

  /** What `operator<<` prints for a `std::size_t`. */
  function Decimal(n: nat): (s: string)
    ensures |s| > 0 && AllDigits(s)
  {
    if n < 10 then [DigitChar(n)] else Decimal(n / 10) + [DigitChar(n % 10)]
  }

  /** What `std::from_chars` reads from a run of digits. */
  function Value(s: string): nat
    requires AllDigits(s)
  {
    if s == "" then 0 else Value(s[..|s| - 1]) * 10 + (s[|s| - 1] as int - '0' as int)
  }

  lemma {:induction false} ValueOfDecimal(n: nat)
    ensures Value(Decimal(n)) == n
  {
    var s := Decimal(n);
    if n < 10 {
      assert s[..0] == "";
    } else {
      assert s[..|s| - 1] == Decimal(n / 10);
      ValueOfDecimal(n / 10);
    }
  }

  /** One more digit on the right. */
  lemma OneMore(n: nat, d: nat)
    requires n > 0 && d < 10
    ensures Decimal(10 * n + d) == Decimal(n) + [DigitChar(d)]
  {
    assert (10 * n + d) / 10 == n && (10 * n + d) % 10 == d;
  }

  ghost function Pow10(k: nat): (p: nat)
    ensures p > 0
  {
    if k == 0 then 1 else 10 * Pow10(k - 1)
  }

  lemma {:induction false} DecimalLength(n: nat, k: nat)
    requires k > 0 && n < Pow10(k)
    ensures |Decimal(n)| <= k
  {
    if n >= 10 {
      DecimalLength(n / 10, k - 1);
    }
  }

  /** Any `std::size_t` prints with at most twenty digits, so the stream readers never reject one. */
  lemma {:induction false} SizeFitsStreamDigits(n: nat)
    requires n < SizeModulus
    ensures |Decimal(n)| <= MaxStreamDigits
  {
    assert Pow10(5) == 100000;
    assert Pow10(10) == 100000 * Pow10(5);
    assert Pow10(15) == 100000 * Pow10(10);
    assert Pow10(20) == 100000 * Pow10(15);
    DecimalLength(n, 20);
  }

  // ---------------------------------------------------------------- reading one number

  datatype Number = NoNumber | Number(value: nat, digits: nat, next: nat)

  /** How many digits follow `pos`. */
  function DigitRun(data: string, pos: nat): (k: nat)
    requires pos <= |data|
    ensures pos + k <= |data|
    ensures AllDigits(data[pos..pos + k])
    ensures pos + k < |data| ==> !IsDigit(data[pos + k])
    decreases |data| - pos
  {
    if pos == |data| || !IsDigit(data[pos]) then 0 else
      var k := DigitRun(data, pos + 1);
      assert data[pos..pos + 1 + k] == [data[pos]] + data[pos + 1..pos + 1 + k];
      k + 1
  }

  /** A non-empty run of digits that fits `std::size_t` and is closed by `delimiter`. */
  function NumberAt(data: string, pos: nat, delimiter: char): (n: Number)
    ensures n.Number? ==>
      pos < n.next <= |data| && n.digits > 0 && n.next == pos + n.digits + 1 && n.value < SizeModulus
  {
    if pos >= |data| then NoNumber else
      var k := DigitRun(data, pos);
      if k == 0 || pos + k == |data| || data[pos + k] != delimiter then NoNumber
      else if Value(data[pos..pos + k]) >= SizeModulus then NoNumber
      else Number(Value(data[pos..pos + k]), k, pos + k + 1)
  }

  /** `readStreamUnsigned`: as `NumberAt`, but a run longer than twenty digits is rejected. */
  function StreamNumberAt(data: string, pos: nat, delimiter: char): (n: Number)
    ensures n.Number? ==>
      pos < n.next <= |data| && 0 < n.digits <= MaxStreamDigits && n.next == pos + n.digits + 1 && n.value < SizeModulus
  {
    var n := NumberAt(data, pos, delimiter);
    if n.Number? && n.digits <= MaxStreamDigits then n else NoNumber
  }

  // ---------------------------------------------------------------- reading one record

  predicate IsBlank(c: char) {
    c == '\n' || c == '\r'
  }

  /** Both readers skip newline and carriage return before a record. */
  function SkipBlank(data: string, pos: nat): (p: nat)
    requires pos <= |data|
    ensures pos <= p <= |data|
    ensures p < |data| ==> !IsBlank(data[p])
    ensures forall i :: pos <= i < p ==> IsBlank(data[i])
    decreases |data| - pos
  {
    if pos < |data| && IsBlank(data[pos]) then SkipBlank(data, pos + 1) else pos
  }

  /** The newline that closes a record is consumed when it is there. */
  function AfterRecord(data: string, pos: nat): (p: nat)
    ensures pos <= p <= pos + 1 && (pos <= |data| ==> p <= |data|)
  {
    if pos < |data| && data[pos] == '\n' then pos + 1 else pos
  }

  /** Where a reader stands after trying one record. */
  datatype Step<T> = End | Corrupt | Got(value: T, next: nat)

  /** Where the buffer reader goes after a field: its sum is a `std::size_t`, which wraps. */
  function FieldEnd(n: Number): nat
    requires n.Number?
  {
    (n.next + n.value) % SizeModulus
  }

  /** `substr`: the bytes of a field, as far as there are any. */
  function FieldBytes(data: string, n: Number): string
    requires n.Number? && n.next <= |data|
  {
    if n.next + n.value <= |data| then data[n.next..n.next + n.value] else data[n.next..]
  }

  /** A field that is all there does not wrap. */
  lemma FieldInside(data: string, n: Number)
    requires Representable(data) && n.Number? && n.next + n.value <= |data|
    ensures FieldEnd(n) == n.next + n.value && FieldBytes(data, n) == data[n.next..n.next + n.value]
  {
  }

  /** The field loop of `parseRecords`. A length that wraps passes the bounds check and takes the
      reader back. */
  function BufferFields(data: string, pos: nat, count: nat): (r: Step<Record>)
    requires pos <= |data|
    ensures r.Got? ==> r.next <= |data| && |r.value| == count
    ensures !r.End?
    decreases count
  {
    if count == 0 then Got([], pos) else
      var n := NumberAt(data, pos, ':');
      if n.NoNumber? || FieldEnd(n) > |data| then Corrupt
      else
        var rest := BufferFields(data, FieldEnd(n), count - 1);
        if rest.Got? then Got([FieldBytes(data, n)] + rest.value, rest.next) else rest
  }

  /** One turn of the loop of `parseRecords`. */
  function BufferRecord(data: string, pos: nat): (r: Step<Record>)
    requires pos <= |data|
    ensures r.Got? ==> pos < |data| && r.next <= |data|
  {
    var start := SkipBlank(data, pos);
    if start == |data| then End else
      var n := NumberAt(data, start, '|');
      if n.NoNumber? then Corrupt else
        var fields := BufferFields(data, n.next, n.value);
        if fields.Got? then Got(fields.value, AfterRecord(data, fields.next)) else fields
  }

  function StreamFields(data: string, pos: nat, count: nat): (r: Step<Record>)
    requires pos <= |data|
    ensures r.Got? ==> pos <= r.next <= |data| && |r.value| == count
    ensures r.Got? || r.Corrupt?
    decreases count
  {
    if count == 0 then Got([], pos) else
      var n := StreamNumberAt(data, pos, ':');
      if n.NoNumber? || n.value >= StreamModulus || n.next + n.value > |data| then Corrupt
      else
        var rest := StreamFields(data, n.next + n.value, count - 1);
        if rest.Got? then Got([data[n.next..n.next + n.value]] + rest.value, rest.next) else rest
  }

  /** `readNextRecordFromStream`. */
  function StreamRecord(data: string, pos: nat): (r: Step<Record>)
    requires pos <= |data|
    ensures r.Got? ==> pos < r.next <= |data|
  {
    var start := SkipBlank(data, pos);
    if start == |data| then End else
      var n := StreamNumberAt(data, start, '|');
      if n.NoNumber? then Corrupt else
        var fields := StreamFields(data, n.next, n.value);
        if fields.Got? then Got(fields.value, AfterRecord(data, fields.next)) else fields
  }

  /** The fields as the span reader sees them: `seekg` past the end of a file stream does not
      fail, so the position may run beyond the last byte and only the next number notices. A seek
      beyond the largest stream offset does fail. */
  function SpanFields(data: string, pos: nat, count: nat): (r: Step<nat>)
    ensures r.Got? ==> pos <= r.next && r.value == count
    ensures r.Got? || r.Corrupt?
    decreases count
  {
    if count == 0 then Got(0, pos) else
      var n := StreamNumberAt(data, pos, ':');
      if n.NoNumber? || n.next + n.value >= StreamModulus then Corrupt
      else
        var rest := SpanFields(data, n.next + n.value, count - 1);
        if rest.Got? then Got(rest.value + 1, rest.next) else rest
  }

  datatype Span = Span(offset: nat, size: nat)

  /** `readNextRecordSpan`; `pos` may lie past the end after an earlier seek, where `peek` sees EOF. */
  function SpanRecord(data: string, pos: nat): (r: Step<Span>)
    ensures r.Got? ==>
      pos < |data| && pos <= r.value.offset < r.next && r.value.offset < |data|
      && r.next == r.value.offset + r.value.size
  {
    if pos >= |data| then End else
      var start := SkipBlank(data, pos);
      if start == |data| then End else
        var n := StreamNumberAt(data, start, '|');
        if n.NoNumber? then Corrupt else
          var fields := SpanFields(data, n.next, n.value);
          if fields.Corrupt? then Corrupt else
            var end := AfterRecord(data, fields.next);
            Got(Span(start, end - start), end)
  }

  // ---------------------------------------------------------------- reading a whole file

  /** `Endless`: the loop goes on for ever. */
  datatype Parse<T> = Parsed(items: seq<T>) | Rejected | Endless

  /** The loop of `parseRecords`, followed for some turns; `Endless` if it is still going then. */
  function BufferWithin(data: string, pos: nat, turns: nat): Parse<Record>
    requires pos <= |data|
    decreases turns
  {
    if turns == 0 then Endless
    else
      match BufferRecord(data, pos)
      case End => Parsed([])
      case Corrupt => Rejected
      case Got(r, next) =>
        var rest := BufferWithin(data, next, turns - 1);
        if rest.Parsed? then Parsed([r] + rest.items) else rest
  }

  /** After more turns than there are bytes, the loop has been somewhere twice and never ends:
      `ParserLoop.NeverReturnsExactly`. */
  function BufferFrom(data: string, pos: nat): Parse<Record>
    requires pos <= |data|
  {
    BufferWithin(data, pos, |data| + 1)
  }

  function StreamFrom(data: string, pos: nat): (p: Parse<Record>)
    requires pos <= |data|
    ensures !p.Endless?
    decreases |data| - pos
  {
    match StreamRecord(data, pos)
    case End => Parsed([])
    case Got(r, next) =>
      var rest := StreamFrom(data, next);
      if rest.Parsed? then Parsed([r] + rest.items) else rest
    case _ => Rejected
  }

  predicate HasHeader(data: string) {
    Header <= data
  }

  /** Both `parseRecords` and `skipStoreHeader` start after the header, or at 0 when there is none. */
  function BodyStart(data: string): (p: nat)
    ensures p <= |data|
  {
    if HasHeader(data) then |Header| else 0
  }

  function ParseBuffer(data: string): Parse<Record> {
    BufferFrom(data, BodyStart(data))
  }

  function ReadStream(data: string): Parse<Record> {
    StreamFrom(data, BodyStart(data))
  }

  // ---------------------------------------------------------------- writing

  function EncodeFields(fields: Record): string {
    if fields == [] then "" else Decimal(|fields[0]|) + ":" + fields[0] + EncodeFields(fields[1..])
  }

  /** What `writeRecord` puts on the stream. */
  function EncodeRecord(r: Record): (s: string)
    ensures |s| >= 3
  {
    Decimal(|r|) + "|" + EncodeFields(r) + "\n"
  }

  function EncodeRecords(rs: seq<Record>): string {
    if rs == [] then "" else EncodeRecord(rs[0]) + EncodeRecords(rs[1..])
  }

  function EncodeLog(rs: seq<Record>): string {
    Header + EncodeRecords(rs)
  }

  method WriteRecord(output: string, record: Record) returns (grown: string)
    ensures grown == output + EncodeRecord(record)
  {
    grown := output + Decimal(|record|) + "|";
    for i := 0 to |record|
      invariant grown + EncodeFields(record[i..]) == output + Decimal(|record|) + "|" + EncodeFields(record)
    {
      ghost var before := grown;
      grown := grown + Decimal(|record[i]|) + ":" + record[i];
      assert record[i..][0] == record[i] && record[i..][1..] == record[i + 1..];
      assert grown + EncodeFields(record[i + 1..]) == before + EncodeFields(record[i..]);
    }
    assert record[|record|..] == [];
    assert grown == output + Decimal(|record|) + "|" + EncodeFields(record);
    grown := grown + "\n";
    assert grown == output + (Decimal(|record|) + "|" + EncodeFields(record) + "\n");
  }

  // ---------------------------------------------------------------- the loops of the source

  /** `parseUnsigned`: find the delimiter, then demand that `from_chars` consumes all before it. */
  method ParseUnsigned(data: string, position: nat, delimiter: char) returns (n: Number)
    requires position <= |data| && !IsDigit(delimiter)
    ensures n == NumberAt(data, position, delimiter)
  {
    var found := position;
    while found < |data| && data[found] != delimiter
      invariant position <= found <= |data|
      invariant forall i :: position <= i < found ==> data[i] != delimiter
    {
      found := found + 1;
    }
    if found == |data| || found == position {
      return NoNumber;
    }
    var run := DigitRun(data, position);
    if position + run != found {
      return NoNumber;
    }
    var parsed := Value(data[position..found]);
    if parsed >= SizeModulus {
      return NoNumber;
    }
    n := Number(parsed, run, found + 1);
  }

  /** `readStreamUnsigned`: digit by digit, giving up at a stray character or the 21st digit. */
  method ReadStreamUnsigned(data: string, position: nat, delimiter: char) returns (n: Number)
    requires !IsDigit(delimiter)
    ensures n == StreamNumberAt(data, position, delimiter)
  {
    if position >= |data| {
      return NoNumber;
    }
    var cursor := position;
    ghost var run := DigitRun(data, position);
    while cursor < |data|
      invariant position <= cursor <= |data| && cursor - position <= MaxStreamDigits
      invariant AllDigits(data[position..cursor])
      invariant cursor <= position + run
    {
      var ch := data[cursor];
      if ch == delimiter {
        assert cursor == position + run;
        if cursor == position || Value(data[position..cursor]) >= SizeModulus {
          return NoNumber;
        }
        return Number(Value(data[position..cursor]), cursor - position, cursor + 1);
      }
      if !IsDigit(ch) || cursor - position >= MaxStreamDigits {
        return NoNumber;
      }
      assert cursor < position + run;
      cursor := cursor + 1;
      assert data[position..cursor] == data[position..cursor - 1] + [ch];
    }
    n := NoNumber;
  }

  /** The records read so far in front of what the rest of the file gives. */
  ghost function Prepend<T>(items: seq<T>, p: Parse<T>): Parse<T> {
    if p.Parsed? then Parsed(items + p.items) else p
  }

  ghost function PrependFields(fields: Record, r: Step<Record>): Step<Record> {
    if r.Got? then Got(fields + r.value, r.next) else r
  }

  lemma PrependNoFields(r: Step<Record>)
    ensures PrependFields([], r) == r
  {
    if r.Got? {
      assert [] + r.value == r.value;
    }
  }

  lemma PrependOneField(fields: Record, field: string, rest: Step<Record>)
    ensures PrependFields(fields, PrependFields([field], rest)) == PrependFields(fields + [field], rest)
  {
    if rest.Got? {
      assert fields + ([field] + rest.value) == fields + [field] + rest.value;
    }
  }

  lemma PrependNothing<T>(p: Parse<T>)
    ensures Prepend([], p) == p
  {
    if p.Parsed? {
      assert [] + p.items == p.items;
    }
  }

  lemma PrependOne<T>(items: seq<T>, item: T, rest: Parse<T>)
    ensures Prepend(items, Prepend([item], rest)) == Prepend(items + [item], rest)
  {
    if rest.Parsed? {
      assert items + ([item] + rest.items) == items + [item] + rest.items;
    }
  }

  ghost function CountMore(k: nat, r: Step<nat>): Step<nat> {
    if r.Got? then Got(k + r.value, r.next) else r
  }

  /** The blank-skipping loop that opens all three readers. */
  method SkipBlanks(data: string, entry: nat) returns (position: nat)
    requires entry <= |data|
    ensures position == SkipBlank(data, entry)
  {
    position := entry;
    while position < |data| && IsBlank(data[position])
      invariant entry <= position <= |data|
      invariant SkipBlank(data, entry) == SkipBlank(data, position)
    {
      position := position + 1;
    }
  }

  /** The field loop of `parseRecords`. */
  method ParseFields(data: string, entry: nat, count: nat) returns (result: Step<Record>)
    requires entry <= |data|
    ensures result == BufferFields(data, entry, count)
  {
    hide NumberAt, StreamNumberAt, FieldBytes;
    var record: Record := [];
    var position, fieldIndex := entry, 0;
    PrependNoFields(BufferFields(data, entry, count));
    while fieldIndex < count
      invariant 0 <= fieldIndex <= count && 0 <= position <= |data|
      invariant PrependFields(record, BufferFields(data, position, count - fieldIndex))
        == BufferFields(data, entry, count)
    {
      var length := ParseUnsigned(data, position, ':');
      if length.NoNumber? || FieldEnd(length) > |data| {
        return Corrupt;
      }
      var field := FieldBytes(data, length);
      PrependOneField(record, field, BufferFields(data, FieldEnd(length), count - fieldIndex - 1));
      record := record + [field];
      position := FieldEnd(length);
      fieldIndex := fieldIndex + 1;
    }
    assert record + [] == record;
    result := Got(record, position);
  }

  /** One turn of the outer loop of `parseRecords`. */
  method ParseRecord(data: string, entry: nat) returns (result: Step<Record>)
    requires entry <= |data|
    ensures result == BufferRecord(data, entry)
  {
    var position := SkipBlanks(data, entry);
    if position >= |data| {
      return End;
    }
    var count := ParseUnsigned(data, position, '|');
    if count.NoNumber? {
      return Corrupt;
    }
    result := ParseFields(data, count.next, count.value);
    if result.Got? && result.next < |data| && data[result.next] == '\n' {
      result := Got(result.value, result.next + 1);
    }
  }

  /** `parseRecords`. Where the loop of the source never ends, this one stops once it has made more
      turns than there are bytes, and says so. */
  method ParseRecords(data: string) returns (result: Parse<Record>)
    ensures result == ParseBuffer(data)
  {
    hide BufferRecord;
    var records: seq<Record> := [];
    var position := if HasHeader(data) then |Header| else 0;
    var turns := |data| + 1;
    PrependNothing(BufferFrom(data, position));
    while turns > 0
      invariant 0 <= turns && 0 <= position <= |data|
      invariant Prepend(records, BufferWithin(data, position, turns)) == ParseBuffer(data)
    {
      var step := ParseRecord(data, position);
      match step {
        case End => return Parsed(records);
        case Corrupt => return Rejected;
        case Got(record, next) =>
          PrependOne(records, record, BufferWithin(data, next, turns - 1));
          records := records + [record];
          position := next;
      }
      turns := turns - 1;
    }
    result := Endless;
  }

  /** The field loop of `readNextRecordFromStream`. */
  method ReadFields(data: string, entry: nat, count: nat) returns (result: Step<Record>)
    requires entry <= |data|
    ensures result == StreamFields(data, entry, count)
  {
    hide NumberAt, StreamNumberAt;
    var record: Record := [];
    var position, fieldIndex := entry, 0;
    PrependNoFields(StreamFields(data, entry, count));
    while fieldIndex < count
      invariant 0 <= fieldIndex <= count && entry <= position <= |data|
      invariant PrependFields(record, StreamFields(data, position, count - fieldIndex))
        == StreamFields(data, entry, count)
    {
      var length := ReadStreamUnsigned(data, position, ':');
      if length.NoNumber? || length.value >= StreamModulus || length.next + length.value > |data| {
        return Corrupt;
      }
      var field := data[length.next..length.next + length.value];
      PrependOneField(record, field, StreamFields(data, length.next + length.value, count - fieldIndex - 1));
      record := record + [field];
      position := length.next + length.value;
      fieldIndex := fieldIndex + 1;
    }
    assert record + [] == record;
    result := Got(record, position);
  }

  /** `readNextRecordFromStream`. */
  method ReadNextRecordFromStream(data: string, entry: nat) returns (result: Step<Record>)
    requires entry <= |data|
    ensures result == StreamRecord(data, entry)
  {
    var position := SkipBlanks(data, entry);
    if position == |data| {
      return End;
    }
    var count := ReadStreamUnsigned(data, position, '|');
    if count.NoNumber? {
      return Corrupt;
    }
    result := ReadFields(data, count.next, count.value);
    if result.Got? && result.next < |data| && data[result.next] == '\n' {
      result := Got(result.value, result.next + 1);
    }
  }

  /** The seeking loop of `readNextRecordSpan`; `fields` counts the lengths read. */
  method SeekFields(data: string, entry: nat, count: nat) returns (result: Step<nat>)
    ensures result == SpanFields(data, entry, count)
  {
    hide NumberAt, StreamNumberAt;
    var position, fieldIndex := entry, 0;
    while fieldIndex < count
      invariant 0 <= fieldIndex <= count && entry <= position
      invariant CountMore(fieldIndex, SpanFields(data, position, count - fieldIndex)) == SpanFields(data, entry, count)
    {
      var length := ReadStreamUnsigned(data, position, ':');
      if length.NoNumber? || length.value >= StreamModulus {
        return Corrupt;
      }
      if length.next + length.value >= StreamModulus {
        return Corrupt;
      }
      position := length.next + length.value;
      fieldIndex := fieldIndex + 1;
    }
    result := Got(fieldIndex, position);
  }

  /** `readNextRecordSpan`; the position may leave the file, see `SpanFields`. */
  method ReadNextRecordSpan(data: string, entry: nat) returns (result: Step<Span>)
    ensures result == SpanRecord(data, entry)
  {
    hide NumberAt, StreamNumberAt;
    if entry >= |data| {
      return End;
    }
    var start := SkipBlanks(data, entry);
    if start == |data| {
      return End;
    }
    var count := ReadStreamUnsigned(data, start, '|');
    if count.NoNumber? {
      return Corrupt;
    }
    var fields := SeekFields(data, count.next, count.value);
    if fields.Corrupt? {
      return Corrupt;
    }
    var end := fields.next;
    if end < |data| && data[end] == '\n' {
      end := end + 1;
    }
    result := Got(Span(start, end - start), end);
  }
}
