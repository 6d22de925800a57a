/** When the loop of `parseRecords` ends (`native_store_record_io.cpp`). Its positions are sums of
    `std::size_t`; a length that wraps takes the loop back to bytes it has already read. */
module ParserLoop {
  import opened Options
  import opened RecordLog

  /** Where the loop stands after `k` turns, if it is still going. */
  function After(data: string, pos: nat, k: nat): (p: Option<nat>)
    requires pos <= |data|
    ensures p.Some? ==> p.value <= |data|
    decreases k
  {
    if k == 0 then Some(pos)
    else
      match BufferRecord(data, pos)
      case Got(_, next) => After(data, next, k - 1)
      case _ => None
  }

  lemma {:induction false} WithinIsAfter(data: string, pos: nat, k: nat)
    requires pos <= |data|
    ensures BufferWithin(data, pos, k).Endless? <==> After(data, pos, k).Some?
    decreases k
  {
    hide BufferRecord;
    if k > 0 && BufferRecord(data, pos).Got? {
      WithinIsAfter(data, BufferRecord(data, pos).next, k - 1);
    }
  }

  /** A loop that has ended has the same result however long one watches. */
  lemma {:induction false} EndedStays(data: string, pos: nat, k: nat, m: nat)
    requires pos <= |data| && k <= m && !BufferWithin(data, pos, k).Endless?
    ensures BufferWithin(data, pos, m) == BufferWithin(data, pos, k)
    decreases k
  {
    hide BufferRecord;
    if k > 0 && BufferRecord(data, pos).Got? {
      EndedStays(data, BufferRecord(data, pos).next, k - 1, m - 1);
    }
  }

  lemma {:induction false} AfterSum(data: string, pos: nat, a: nat, b: nat)
    requires pos <= |data|
    ensures After(data, pos, a + b) ==
      if After(data, pos, a).Some? then After(data, After(data, pos, a).value, b) else None
    decreases a
  {
    hide BufferRecord;
    if a > 0 && BufferRecord(data, pos).Got? {
      AfterSum(data, BufferRecord(data, pos).next, a - 1, b);
    }
  }

  /** A loop that comes back to where it was never ends. */
  lemma {:induction false} CycleNeverEnds(data: string, pos: nat, period: nat, k: nat)
    requires pos <= |data| && period > 0 && After(data, pos, period) == Some(pos)
    ensures After(data, pos, k).Some?
    decreases k
  {
    hide *;
    if k <= period {
      AfterSum(data, pos, k, period - k);
    } else {
      AfterSum(data, pos, period, k - period);
      CycleNeverEnds(data, pos, period, k - period);
    }
  }

  // ---------------------------------------------------------------- more turns than bytes

  lemma HeadInside(data: string, pos: nat, k: nat)
    requires pos <= |data| && After(data, pos, k + 1).Some?
    ensures After(data, pos, k).Some? && After(data, pos, k).value < |data|
  {
    hide BufferRecord;
    AfterSum(data, pos, k, 1);
    if After(data, pos, k).Some? {
      OneTurn(data, After(data, pos, k).value);
    }
  }

  lemma OneTurn(data: string, pos: nat)
    requires pos <= |data| && After(data, pos, 1).Some?
    ensures pos < |data|
  {
    hide BufferRecord;
  }

  /** The positions at which the first `k` turns begin are all inside the data. */
  lemma HeadsInside(data: string, pos: nat, k: nat)
    requires pos <= |data| && After(data, pos, k).Some?
    ensures forall i :: 0 <= i < k ==> After(data, pos, i).Some? && After(data, pos, i).value < |data|
  {
    hide *;
    forall i | 0 <= i < k ensures After(data, pos, i).Some? && After(data, pos, i).value < |data| {
      AfterSum(data, pos, i + 1, k - i - 1);
      HeadInside(data, pos, i);
    }
  }

  /** As many numbers as there are numbers below `n`, and one more: two of them are the same. */
  lemma {:induction false} Pigeonhole(numbers: seq<nat>, n: nat) returns (i: nat, j: nat)
    requires |numbers| > n && forall k :: 0 <= k < |numbers| ==> numbers[k] < n
    ensures i < j < |numbers| && numbers[i] == numbers[j]
    decreases n
  {
    var last := |numbers| - 1;
    if k :| 0 <= k < last && numbers[k] == numbers[last] {
      i, j := k, last;
    } else {
      var swapped := seq(last, k requires 0 <= k < last => if numbers[k] == n - 1 then numbers[last] else numbers[k]);
      if a, b :| 0 <= a < b < last && numbers[a] == n - 1 && numbers[b] == n - 1 {
        i, j := a, b;
      } else {
        i, j := Pigeonhole(swapped, n - 1);
      }
    }
  }

  /** The loop stands twice at the same position, `first` turns after it began and then again. */
  ghost predicate Returns(data: string, pos: nat, first: nat, again: nat)
    requires pos <= |data|
  {
    first < again <= |data| && After(data, pos, first).Some? && After(data, pos, again) == After(data, pos, first)
  }

  /** Still going after more turns than bytes: it has come back, and goes on for ever. */
  lemma TooManyTurns(data: string, pos: nat, k: nat)
    requires pos <= |data| && After(data, pos, |data| + 1).Some?
    ensures After(data, pos, k).Some? && exists first, again :: Returns(data, pos, first, again)
  {
    hide After;
    HeadsInside(data, pos, |data| + 1);
    var heads := seq(|data| + 1, i requires 0 <= i < |data| + 1 => After(data, pos, i).value);
    var i, j := Pigeonhole(heads, |data|);
    assert Returns(data, pos, i, j);
    BackAgain(data, pos, i, j, k);
  }

  lemma BackAgain(data: string, pos: nat, first: nat, again: nat, k: nat)
    requires pos <= |data| && Returns(data, pos, first, again)
    ensures After(data, pos, k).Some?
  {
    hide After;
    var head := After(data, pos, first).value;
    AfterSum(data, pos, first, again - first);
    CycleNeverEnds(data, head, again - first, k);
    AfterSum(data, pos, first, k);
    AfterSum(data, pos, k, first);
  }

  /** What one turn does to the whole parse. */
  lemma Turn(data: string, pos: nat)
    requires pos <= |data|
    ensures BufferFrom(data, pos) ==
      match BufferRecord(data, pos)
      case End => Parsed([])
      case Corrupt => Rejected
      case Got(r, next) => Prepend([r], BufferFrom(data, next))
  {
    hide BufferRecord;
    if BufferRecord(data, pos).Got? {
      var next := BufferRecord(data, pos).next;
      if BufferWithin(data, next, |data|).Endless? {
        WithinIsAfter(data, next, |data|);
        TooManyTurns(data, pos, |data| + 2);
        WithinIsAfter(data, next, |data| + 1);
      } else {
        EndedStays(data, next, |data|, |data| + 1);
      }
    }
  }

  // ---------------------------------------------------------------- when it ends

  /** `parseRecords` never returns, whatever one waits, exactly when its loop comes to the same position
      twice within as many turns as there are bytes. */
  lemma NeverReturnsExactly(data: string)
    ensures ParseBuffer(data).Endless? <==> forall k :: After(data, BodyStart(data), k).Some?
    ensures ParseBuffer(data).Endless? <==> exists first, again :: Returns(data, BodyStart(data), first, again)
  {
    hide After, BodyStart, BufferWithin;
    var pos := BodyStart(data);
    WithinIsAfter(data, pos, |data| + 1);
    if ParseBuffer(data).Endless? {
      TooManyTurns(data, pos, 0);
      forall k ensures After(data, pos, k).Some? {
        TooManyTurns(data, pos, k);
      }
    }
    if first, again :| Returns(data, pos, first, again) {
      BackAgain(data, pos, first, again, |data| + 1);
    }
  }

  /** No length written anywhere in the bytes wraps. */
  ghost predicate NoLengthWraps(data: string) {
    forall p :: 0 <= p < |data| && NumberAt(data, p, ':').Number? ==>
      NumberAt(data, p, ':').next + NumberAt(data, p, ':').value < SizeModulus
  }

  lemma {:induction false} FieldsGoForward(data: string, pos: nat, count: nat)
    requires pos <= |data| && NoLengthWraps(data) && BufferFields(data, pos, count).Got?
    ensures pos <= BufferFields(data, pos, count).next
    decreases count
  {
    hide NumberAt, FieldBytes;
    if count > 0 {
      FieldsGoForward(data, FieldEnd(NumberAt(data, pos, ':')), count - 1);
    }
  }

  lemma RecordGoesForward(data: string, pos: nat)
    requires pos <= |data| && NoLengthWraps(data) && BufferRecord(data, pos).Got?
    ensures pos < BufferRecord(data, pos).next
  {
    hide BufferFields, NumberAt;
    var n := NumberAt(data, SkipBlank(data, pos), '|');
    FieldsGoForward(data, n.next, n.value);
  }

  lemma {:induction false} ForwardEnds(data: string, pos: nat, turns: nat)
    requires pos <= |data| && NoLengthWraps(data) && turns > |data| - pos
    ensures !BufferWithin(data, pos, turns).Endless?
    decreases |data| - pos
  {
    hide BufferRecord, NoLengthWraps;
    if BufferRecord(data, pos).Got? {
      RecordGoesForward(data, pos);
      ForwardEnds(data, BufferRecord(data, pos).next, turns - 1);
    }
  }

  /** `parseRecords` returns on all bytes in which no length wraps. */
  lemma ReturnsWithoutWrap(data: string)
    requires NoLengthWraps(data)
    ensures !ParseBuffer(data).Endless?
  {
    hide NoLengthWraps, BufferWithin;
    ForwardEnds(data, BodyStart(data), |data| + 1);
  }
}
