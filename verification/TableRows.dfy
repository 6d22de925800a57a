/** The rows that a table of the store holds for an owner, and what rewriting the table does to them
    (`native_session_store.cpp`, `native_session_store_cache.cpp`). How a record is decoded into a row
    is left abstract. */
module TableRows {
  import opened Options
  import opened RecordLog
  import opened Sorting

  /** A decoded row: the session or run it belongs to, the fields it is sorted by, its ID and the rest. */
  datatype Row = Row(owner: string, rank: seq<int>, id: int, rest: Record)

  type Decoder = Record -> Row

  // ---------------------------------------------------------------- rows of a file

  /** `visitRecords`: the records of a file, none if it is missing, nothing at all if it cannot be read. */
  function Visit(file: Option<string>): Option<seq<Record>> {
    if file.None? then Some([])
    else match ReadStream(file.value)
      case Parsed(records) => Some(records)
      case Rejected => None
      case Endless => None
  }

  function Rows(decode: Decoder, records: seq<Record>): seq<Row> {
    if records == [] then [] else Rows(decode, records[..|records| - 1]) + [decode(records[|records| - 1])]
  }

  function Owned(rows: seq<Row>, owner: string): seq<Row> {
    if rows == [] then []
    else Owned(rows[..|rows| - 1], owner) + if rows[|rows| - 1].owner == owner then [rows[|rows| - 1]] else []
  }

  /** The records whose rows belong to others. */
  function Others(decode: Decoder, records: seq<Record>, owner: string): seq<Record> {
    if records == [] then []
    else
      Others(decode, records[..|records| - 1], owner)
        + if decode(records[|records| - 1]).owner != owner then [records[|records| - 1]] else []
  }

  lemma {:induction false} RowsJoin(decode: Decoder, a: seq<Record>, b: seq<Record>)
    ensures Rows(decode, a + b) == Rows(decode, a) + Rows(decode, b)
  {
    if b == [] {
      assert a + b == a;
    } else {
      RowsJoin(decode, a, b[..|b| - 1]);
      assert (a + b)[..|a + b| - 1] == a + b[..|b| - 1];
    }
  }

  lemma {:induction false} OwnedJoin(a: seq<Row>, b: seq<Row>, owner: string)
    ensures Owned(a + b, owner) == Owned(a, owner) + Owned(b, owner)
  {
    if b == [] {
      assert a + b == a;
    } else {
      OwnedJoin(a, b[..|b| - 1], owner);
      assert (a + b)[..|a + b| - 1] == a + b[..|b| - 1];
    }
  }

  lemma OwnedOne(row: Row, owner: string)
    ensures Owned([row], owner) == if row.owner == owner then [row] else []
  {
    assert [row][..0] == [];
  }

  /** Dropping an owner's records drops exactly its rows. */
  lemma {:induction false} OthersRows(decode: Decoder, records: seq<Record>, owner: string, other: string)
    ensures Owned(Rows(decode, Others(decode, records, owner)), other)
      == if other == owner then [] else Owned(Rows(decode, records), other)
  {
    if records != [] {
      var shorter, last := records[..|records| - 1], records[|records| - 1];
      OthersRows(decode, shorter, owner, other);
      OwnedJoin(Rows(decode, shorter), [decode(last)], other);
      OwnedOne(decode(last), other);
      if decode(last).owner != owner {
        RowsJoin(decode, Others(decode, shorter, owner), [last]);
        RowsOfOne(decode, last);
        OwnedJoin(Rows(decode, Others(decode, shorter, owner)), [decode(last)], other);
      } else {
        assert Others(decode, shorter, owner) + [] == Others(decode, shorter, owner);
      }
    }
  }

  lemma RowsOfOne(decode: Decoder, r: Record)
    ensures Rows(decode, [r]) == [decode(r)]
  {
    assert [r][..0] == [];
  }

  // ---------------------------------------------------------------- rewriting a table

  /** What a save leaves in a table: the records of other owners, then the new ones. */
  function Rewritten(decode: Decoder, records: seq<Record>, owner: string, added: seq<Record>): seq<Record> {
    Others(decode, records, owner) + added
  }

  /** After a save, an owner has the rows it had, none if it is the one saved, and the new rows that
      name it. */
  lemma RowsAfterSave(decode: Decoder, records: seq<Record>, owner: string, added: seq<Record>, other: string)
    ensures Owned(Rows(decode, Rewritten(decode, records, owner, added)), other)
      == (if other == owner then [] else Owned(Rows(decode, records), other)) + Owned(Rows(decode, added), other)
  {
    RowsJoin(decode, Others(decode, records, owner), added);
    OwnedJoin(Rows(decode, Others(decode, records, owner)), Rows(decode, added), other);
    OthersRows(decode, records, owner, other);
  }

  ghost predicate AllOwnedBy(rows: seq<Row>, owner: string) {
    forall i :: 0 <= i < |rows| ==> rows[i].owner == owner
  }

  lemma {:induction false} OwnedAll(rows: seq<Row>, owner: string)
    ensures |Owned(rows, owner)| <= |rows|
    ensures Owned(rows, owner) == rows <==> AllOwnedBy(rows, owner)
  {
    hide AllOwnedBy;
    if rows == [] {
      NoneOwned(owner);
    } else {
      hide Owned;
      var shorter, last := rows[..|rows| - 1], [rows[|rows| - 1]];
      OwnedAll(shorter, owner);
      OwnedLast(rows, owner);
      AllOwnedLast(rows, owner);
      assert rows == shorter + last;
      SameBeforeLast(Owned(shorter, owner), shorter, last);
    }
  }

  lemma NoneOwned(owner: string)
    ensures Owned([], owner) == [] && AllOwnedBy([], owner)
  {
  }

  lemma OwnedLast(rows: seq<Row>, owner: string)
    requires rows != []
    ensures var shorter, last := rows[..|rows| - 1], rows[|rows| - 1];
      Owned(rows, owner) == if last.owner == owner then Owned(shorter, owner) + [last] else Owned(shorter, owner)
  {
    assert Owned(rows[..|rows| - 1], owner) + [] == Owned(rows[..|rows| - 1], owner);
  }

  lemma AllOwnedLast(rows: seq<Row>, owner: string)
    requires rows != []
    ensures AllOwnedBy(rows, owner) <==> AllOwnedBy(rows[..|rows| - 1], owner) && rows[|rows| - 1].owner == owner
  {
    if AllOwnedBy(rows[..|rows| - 1], owner) && rows[|rows| - 1].owner == owner {
      forall i | 0 <= i < |rows| ensures rows[i].owner == owner {
        assert i < |rows| - 1 ==> rows[i] == rows[..|rows| - 1][i];
      }
    }
  }

  lemma SameBeforeLast(a: seq<Row>, b: seq<Row>, last: seq<Row>)
    ensures a + last == b + last <==> a == b
  {
    if a + last == b + last {
      assert |a| == |b| && a == (a + last)[..|a|] && b == (b + last)[..|b|];
    }
  }

  lemma {:induction false} OwnedNone(rows: seq<Row>, owner: string, other: string)
    requires AllOwnedBy(rows, owner) && other != owner
    ensures Owned(rows, other) == []
  {
    if rows != [] {
      OwnedNone(rows[..|rows| - 1], owner, other);
    }
  }

  ghost predicate OthersKeep(decode: Decoder, before: seq<Record>, after: seq<Record>, owner: string) {
    forall other :: other != owner ==> Owned(Rows(decode, after), other) == Owned(Rows(decode, before), other)
  }

  /** A save replaces exactly one owner's rows, and leaves all others' alone, if and only if every new row
      names that owner. */
  lemma SaveIsExact(decode: Decoder, records: seq<Record>, owner: string, added: seq<Record>)
    ensures AllOwnedBy(Rows(decode, added), owner) <==>
      && Owned(Rows(decode, Rewritten(decode, records, owner, added)), owner) == Rows(decode, added)
      && OthersKeep(decode, records, Rewritten(decode, records, owner, added), owner)
  {
    hide Rewritten, Owned, Rows;
    var after := Rewritten(decode, records, owner, added);
    RowsAfterSave(decode, records, owner, added, owner);
    OwnedAll(Rows(decode, added), owner);
    assert [] + Owned(Rows(decode, added), owner) == Owned(Rows(decode, added), owner);
    if AllOwnedBy(Rows(decode, added), owner) {
      forall other | other != owner ensures Owned(Rows(decode, after), other) == Owned(Rows(decode, records), other) {
        RowsAfterSave(decode, records, owner, added, other);
        OwnedNone(Rows(decode, added), owner, other);
        assert Owned(Rows(decode, records), other) + [] == Owned(Rows(decode, records), other);
      }
    }
  }

  /** A row saved for session "A" that names session "B": "A" has no rows, "B" has one more. */
  lemma StrayRow(decode: Decoder, r: Record)
    requires decode(r).owner == "B"
    ensures Owned(Rows(decode, Rewritten(decode, [], "A", [r])), "A") == []
    ensures Owned(Rows(decode, Rewritten(decode, [], "A", [r])), "B") == [decode(r)]
  {
    RowsOfOne(decode, r);
    OwnedOne(decode(r), "A");
    OwnedOne(decode(r), "B");
    RowsAfterSave(decode, [], "A", [r], "A");
    RowsAfterSave(decode, [], "A", [r], "B");
    hide Rewritten;
  }

  // ---------------------------------------------------------------- order of rows

  predicate Less(a: seq<int>, b: seq<int>) {
    if b == [] then false
    else if a == [] then true
    else if a[0] != b[0] then a[0] < b[0]
    else Less(a[1..], b[1..])
  }

  function SortKey(row: Row): seq<int> {
    row.rank + [row.id]
  }

  /** The comparisons of the cached readers: by the ranking fields, then by ID. */
  predicate RowBefore(a: Row, b: Row) {
    Less(SortKey(a), SortKey(b))
  }

  ghost predicate InOrder(rows: seq<Row>) {
    Sorted(RowBefore, rows)
  }

  /** The first difference of two lists is at `k`, and there the first list is smaller or at its end. */
  predicate SmallerAt(a: seq<int>, b: seq<int>, k: nat) {
    k <= |a| && k < |b| && a[..k] == b[..k] && (k == |a| || a[k] < b[k])
  }

  /** The comparison is by the first difference; a list that the other continues is smaller. */
  lemma {:induction false} LessExactly(a: seq<int>, b: seq<int>)
    ensures Less(a, b) <==> exists k: nat :: SmallerAt(a, b, k)
  {
    if a == [] || b == [] || a[0] != b[0] {
      assert Less(a, b) ==> SmallerAt(a, b, 0);
    } else {
      LessExactly(a[1..], b[1..]);
      if k: nat :| SmallerAt(a[1..], b[1..], k) {
        assert a[..k + 1] == [a[0]] + a[1..][..k] && b[..k + 1] == [b[0]] + b[1..][..k];
        assert SmallerAt(a, b, k + 1);
      }
      if k: nat :| SmallerAt(a, b, k) {
        assert k > 0;
        assert a[1..][..k - 1] == a[..k][1..] && b[1..][..k - 1] == b[..k][1..];
        assert SmallerAt(a[1..], b[1..], k - 1);
      }
    }
  }

  lemma {:induction false} LessIsTotal(a: seq<int>, b: seq<int>)
    ensures !(Less(a, b) && Less(b, a))
    ensures !Less(a, b) && !Less(b, a) <==> a == b
  {
    if a != [] && b != [] {
      LessIsTotal(a[1..], b[1..]);
      assert a == [a[0]] + a[1..] && b == [b[0]] + b[1..];
    }
  }

  lemma {:induction false} LessIsTransitive(a: seq<int>, b: seq<int>, c: seq<int>)
    requires Less(a, b) && Less(b, c)
    ensures Less(a, c)
  {
    if a != [] && b != [] && c != [] && a[0] == b[0] == c[0] {
      LessIsTransitive(a[1..], b[1..], c[1..]);
    }
  }

  lemma NotLessChain(a: seq<int>, b: seq<int>, c: seq<int>)
    requires !Less(b, a) && !Less(c, b)
    ensures !Less(c, a)
  {
    hide Less;
    LessIsTotal(a, b);
    LessIsTotal(b, c);
    LessIsTotal(a, c);
    if Less(c, a) && Less(a, b) {
      LessIsTransitive(c, a, b);
    }
  }

  /** The comparison is one that a sort may be given. */
  lemma RowsAreOrdered()
    ensures WeakOrder(RowBefore)
  {
    hide Less, SortKey;
    forall a, b | RowBefore(a, b) ensures !RowBefore(b, a) {
      LessIsTotal(SortKey(a), SortKey(b));
    }
    forall a, b, c | !RowBefore(b, a) && !RowBefore(c, b) ensures !RowBefore(c, a) {
      NotLessChain(SortKey(a), SortKey(b), SortKey(c));
    }
  }

  /** `std::sort`: the same rows, none before an earlier one. */
  method SortRows(rows: seq<Row>) returns (sorted: seq<Row>)
    ensures multiset(sorted) == multiset(rows) && InOrder(sorted)
  {
    RowsAreOrdered();
    sorted := Sort(RowBefore, rows);
  }

  ghost predicate DistinctKeys(rows: multiset<Row>) {
    forall a, b :: a in rows && b in rows && SortKey(a) == SortKey(b) ==> a == b
  }

  /** Rows with different sort keys have one order only, however they were sorted. */
  lemma OrderIsUnique(a: seq<Row>, b: seq<Row>)
    requires InOrder(a) && InOrder(b) && multiset(a) == multiset(b) && DistinctKeys(multiset(a))
    ensures a == b
  {
    hide Less, SortKey, WeakOrder;
    RowsAreOrdered();
    forall x, y | x in multiset(a) && y in multiset(a) && !RowBefore(x, y) && !RowBefore(y, x) ensures x == y {
      LessIsTotal(SortKey(x), SortKey(y));
    }
    SortedIsUnique(RowBefore, a, b);
  }
}
