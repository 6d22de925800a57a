/** The record codec for the three tables of a scan execution (`native_store_record_codec.cpp`): what it
    encodes, it decodes. */
module RowCodec {
  import opened RecordLog
  import opened NumberText
  import opened TableRows
  import opened StoreCaches
  import opened SavedReads

  const Limit32: int := 0x8000_0000

  /** `toInt` with its usual fallback. */
  function ToInt(text: string): int {
    ToSigned(text, 0, Limit32)
  }

  /** A column that is neither owner, rank nor ID is kept as the text its decoded value prints to. */
  datatype Kind = Text | Integer | Flag

  function Column(kind: Kind, text: string): string {
    match kind
    case Text => text
    case Integer => Printed(ToInt(text))
    case Flag => if text == "1" || text == "true" || text == "True" then "1" else "0"
  }

  function Columns(kinds: seq<Kind>, texts: Record): (columns: Record)
    requires |texts| == |kinds|
    ensures |columns| == |kinds|
  {
    seq(|kinds|, i requires 0 <= i < |kinds| => Column(kinds[i], texts[i]))
  }

  /** What a value of the C++ type prints to. */
  ghost predicate Prints(kind: Kind, text: string) {
    match kind
    case Text => true
    case Integer => exists n :: Fits32(n) && text == Printed(n)
    case Flag => text == "0" || text == "1"
  }

  ghost predicate AllPrint(kinds: seq<Kind>, texts: Record) {
    |texts| == |kinds| && forall i :: 0 <= i < |kinds| ==> Prints(kinds[i], texts[i])
  }

  ghost predicate Fits32(n: int) {
    -Limit32 <= n < Limit32
  }

  ghost predicate Fits64(n: int) {
    MinInt64 <= n <= MaxInt64
  }

  // ---------------------------------------------------------------- the three tables

  /** After `sessionId`: slave, function, start, end, block size, request count, status, two times, two
      counts, error message. */
  const SessionKinds: seq<Kind> :=
    [Integer, Integer, Integer, Integer, Integer, Integer, Text, Text, Text, Integer, Integer, Text]

  /** After the two indices: start address, quantity, status, two frames, error message, exception flag,
      code and text, two times, endpoint. */
  const AttemptKinds: seq<Kind> :=
    [Integer, Integer, Text, Text, Text, Text, Flag, Integer, Text, Text, Text, Text]

  /** Block, attempt, slave, function; value, time. */
  const ObservationKinds: seq<Kind> := [Integer, Integer, Integer, Integer, Integer, Text]

  /** A record with too few columns gives a default row. */
  function DecodeSession(r: Record): Row {
    if |r| < 13 then Row("", [], 0, ["0", "0", "0", "0", "0", "0", "", "", "", "0", "0", ""])
    else Row(r[0], [], 0, Columns(SessionKinds, r[1..13]))
  }

  function DecodeAttempt(r: Record): Row {
    if |r| < 16 then Row("", [-1, 0], 0, ["0", "0", "", "", "", "", "0", "0", "", "", "", ""])
    else Row(r[1], [ToInt(r[2]), ToInt(r[3])], ToInt64(r[0], 0), Columns(AttemptKinds, r[4..16]))
  }

  function DecodeObservation(r: Record): Row {
    if |r| < 9 then Row("", [0], 0, ["-1", "0", "0", "0", "0", ""])
    else Row(r[1], [ToInt(r[6])], ToInt64(r[0], 0), Columns(ObservationKinds, r[2..6] + r[7..9]))
  }

  /** Only rows of the table's shape are ever encoded. */
  function EncodeSession(row: Row): Record {
    [row.owner] + row.rest
  }

  function EncodeAttempt(row: Row): Record {
    if |row.rank| != 2 then [] else
      [Printed(row.id), row.owner, Printed(row.rank[0]), Printed(row.rank[1])] + row.rest
  }

  function EncodeObservation(row: Row): Record {
    if |row.rank| != 1 || |row.rest| != 6 then [] else
      [Printed(row.id), row.owner] + row.rest[..4] + [Printed(row.rank[0])] + row.rest[4..]
  }

  function Decode(others: Codec, t: Table, r: Record): Row {
    match t
    case ScanSessions => DecodeSession(r)
    case ScanAttempts => DecodeAttempt(r)
    case ScanObservations => DecodeObservation(r)
    case _ => others.decode(t)(r)
  }

  function Encode(others: Codec, t: Table, row: Row): Record {
    match t
    case ScanSessions => EncodeSession(row)
    case ScanAttempts => EncodeAttempt(row)
    case ScanObservations => EncodeObservation(row)
    case _ => others.encode(t)(row)
  }

  /** The codec of the program; tables other than these three are as `others` says. */
  function SourceCodec(others: Codec): Codec {
    Codec((t: Table) => (r: Record) => Decode(others, t, r), (t: Table) => (row: Row) => Encode(others, t, row))
  }

  // ---------------------------------------------------------------- what the C++ types allow

  ghost predicate SessionTyped(row: Row) {
    row.rank == [] && row.id == 0 && AllPrint(SessionKinds, row.rest)
  }

  ghost predicate AttemptTyped(row: Row) {
    && |row.rank| == 2 && Fits32(row.rank[0]) && Fits32(row.rank[1])
    && Fits64(row.id) && AllPrint(AttemptKinds, row.rest)
  }

  ghost predicate ObservationTyped(row: Row) {
    |row.rank| == 1 && Fits32(row.rank[0]) && Fits64(row.id) && AllPrint(ObservationKinds, row.rest)
  }

  // ---------------------------------------------------------------- round trips

  lemma ColumnReads(kind: Kind, text: string)
    requires Prints(kind, text)
    ensures Column(kind, text) == text
  {
    hide ToSigned, Printed;
    if kind.Integer? {
      var n :| Fits32(n) && text == Printed(n);
      PrintedReads(n, 0, Limit32);
    }
  }

  lemma ColumnsRead(kinds: seq<Kind>, texts: Record)
    requires AllPrint(kinds, texts)
    ensures Columns(kinds, texts) == texts
  {
    hide Column, Prints;
    forall i | 0 <= i < |kinds| ensures Columns(kinds, texts)[i] == texts[i] {
      ColumnReads(kinds[i], texts[i]);
    }
  }

  lemma SessionReads(row: Row)
    requires SessionTyped(row)
    ensures DecodeSession(EncodeSession(row)) == row
  {
    hide Columns, Prints;
    ColumnsRead(SessionKinds, row.rest);
    assert EncodeSession(row)[1..13] == row.rest;
  }

  lemma AttemptReads(row: Row)
    requires AttemptTyped(row)
    ensures DecodeAttempt(EncodeAttempt(row)) == row
  {
    hide Columns, Prints, ToSigned, Printed;
    ColumnsRead(AttemptKinds, row.rest);
    assert EncodeAttempt(row)[4..16] == row.rest;
    PrintedReads(row.id, 0, MaxInt64 + 1);
    PrintedReads(row.rank[0], 0, Limit32);
    PrintedReads(row.rank[1], 0, Limit32);
    assert row.rank == [row.rank[0], row.rank[1]];
  }

  lemma ObservationReads(row: Row)
    requires ObservationTyped(row)
    ensures DecodeObservation(EncodeObservation(row)) == row
  {
    hide Columns, Prints, ToSigned, Printed;
    ColumnsRead(ObservationKinds, row.rest);
    var r := EncodeObservation(row);
    assert r[2..6] == row.rest[..4] && r[7..9] == row.rest[4..];
    assert row.rest[..4] + row.rest[4..] == row.rest;
    PrintedReads(row.id, 0, MaxInt64 + 1);
    PrintedReads(row.rank[0], 0, Limit32);
    assert row.rank == [row.rank[0]];
  }

  // ---------------------------------------------------------------- a save through this codec

  ghost predicate Typed(session: Row, attempts: seq<Row>, observations: seq<Row>) {
    && SessionTyped(session)
    && (forall i :: 0 <= i < |attempts| ==> AttemptTyped(attempts[i]))
    && (forall i :: 0 <= i < |observations| ==> ObservationTyped(observations[i]))
  }

  /** Whatever values the C++ types hold, the codec gives back each row of a save. */
  lemma SourceCodecIsFaithful(others: Codec, session: Row, attempts: seq<Row>, observations: seq<Row>)
    requires Typed(session, attempts, observations)
    ensures SaveIsFaithful(SourceCodec(others), session, attempts, observations)
  {
    hide DecodeSession, DecodeAttempt, DecodeObservation, EncodeSession, EncodeAttempt, EncodeObservation;
    hide SessionTyped, AttemptTyped, ObservationTyped;
    SessionReads(session);
    forall i | 0 <= i < |attempts| ensures DecodeAttempt(EncodeAttempt(attempts[i])) == attempts[i] {
      AttemptReads(attempts[i]);
    }
    forall i | 0 <= i < |observations|
      ensures DecodeObservation(EncodeObservation(observations[i])) == observations[i]
    {
      ObservationReads(observations[i]);
    }
  }

  /** So after a successful `saveScanExecution` whose rows all name the session, reads give exactly the
      saved rows, and all others are as before; nothing is assumed of the codec. */
  lemma SaveIsReadBack(others: Codec, base: Disk, disk: Disk, session: Row, attempts: seq<Row>, observations: seq<Row>)
    requires Saves(base, disk, SourceCodec(others), session.owner, [session], attempts, observations)
    requires Typed(session, attempts, observations) && ScanTablesReadable(base) && ScanTablesFit(disk)
    requires AllOwnedBy(attempts, session.owner) && AllOwnedBy(observations, session.owner)
    ensures var codec := SourceCodec(others);
      && Listed(codec, disk, ScanSessions, session.owner)
      && ReadsAsSaved(codec, base, disk, ScanAttempts, session.owner, attempts)
      && ReadsAsSaved(codec, base, disk, ScanObservations, session.owner, observations)
      && forall other :: other != session.owner ==>
           (Listed(codec, disk, ScanSessions, other) <==> Listed(codec, base, ScanSessions, other))
  {
    hide *;
    SourceCodecIsFaithful(others, session, attempts, observations);
    SaveIsRead(SourceCodec(others), base, disk, session, attempts, observations);
  }
}
