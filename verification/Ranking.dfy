/** The order of match candidates: `candidateRankedBefore` (`analysis_core.cpp`). Scores, errors and
    priors are exact ordered keys. */
module Ranking {
  datatype CandidateType = UInt16 | Int16 | UInt32 | Int32 | Float32 | PackedBCD | Gray16 | BitFlags
  datatype WordOrder = HighWordFirst | LowWordFirst
  datatype ByteOrder = BigEndian | LittleEndian

  /** A candidate; `detail` stands for the fields that do not affect its rank. */
  datatype Candidate = Candidate(kind: CandidateType, wordOrder: WordOrder, byteOrder: ByteOrder, startAddress: int,
                                 registerCount: int, absoluteError: real, score: real, detail: nat)

  function TypeName(kind: CandidateType): string {
    match kind
    case UInt16 => "UInt16"
    case Int16 => "Int16"
    case UInt32 => "UInt32"
    case Int32 => "Int32"
    case Float32 => "Float32"
    case PackedBCD => "PackedBCD"
    case Gray16 => "Gray16"
    case BitFlags => "BitFlags"
  }

  function EndianPrior(wordOrder: WordOrder, byteOrder: ByteOrder, registerCount: int): real {
    if registerCount == 1 then if byteOrder == BigEndian then 1.00 else 0.90
    else if wordOrder == HighWordFirst && byteOrder == BigEndian then 1.00
    else if wordOrder == LowWordFirst && byteOrder == BigEndian then 0.95
    else if wordOrder == HighWordFirst && byteOrder == LittleEndian then 0.90
    else 0.85
  }

  /** The order of texts. */
  predicate TextBefore(a: string, b: string) {
    if b == [] then false
    else if a == [] then true
    else if a[0] != b[0] then a[0] < b[0]
    else TextBefore(a[1..], b[1..])
  }

  predicate StandardEndianBefore(left: Candidate, right: Candidate) {
    EndianPrior(left.wordOrder, left.byteOrder, left.registerCount)
      > EndianPrior(right.wordOrder, right.byteOrder, right.registerCount)
  }

  /** `candidateRankedBefore`. */
  predicate RankedBefore(left: Candidate, right: Candidate) {
    if left.score != right.score then left.score > right.score
    else if left.absoluteError != right.absoluteError then left.absoluteError < right.absoluteError
    else if left.registerCount != right.registerCount then left.registerCount < right.registerCount
    else if StandardEndianBefore(left, right) != StandardEndianBefore(right, left) then
      StandardEndianBefore(left, right)
    else if left.startAddress != right.startAddress then left.startAddress < right.startAddress
    else TextBefore(TypeName(left.kind), TypeName(right.kind))
  }

  // ---------------------------------------------------------------- rank keys

  /** All that the order looks at. */
  datatype Key = Key(score: real, absoluteError: real, registerCount: int, prior: real, startAddress: int, name: string)

  function KeyOf(c: Candidate): Key {
    Key(c.score, c.absoluteError, c.registerCount, EndianPrior(c.wordOrder, c.byteOrder, c.registerCount),
        c.startAddress, TypeName(c.kind))
  }

  predicate Before(a: Key, b: Key) {
    if a.score != b.score then a.score > b.score
    else if a.absoluteError != b.absoluteError then a.absoluteError < b.absoluteError
    else if a.registerCount != b.registerCount then a.registerCount < b.registerCount
    else if a.prior != b.prior then a.prior > b.prior
    else if a.startAddress != b.startAddress then a.startAddress < b.startAddress
    else TextBefore(a.name, b.name)
  }

  lemma RankIsKeyOrder(left: Candidate, right: Candidate)
    ensures RankedBefore(left, right) <==> Before(KeyOf(left), KeyOf(right))
  {
    hide EndianPrior, TypeName, TextBefore;
  }

  lemma {:induction false} TextsAreOrdered(a: string, b: string)
    ensures !(TextBefore(a, b) && TextBefore(b, a))
    ensures !TextBefore(a, b) && !TextBefore(b, a) <==> a == b
  {
    if a != [] && b != [] {
      TextsAreOrdered(a[1..], b[1..]);
      assert a == [a[0]] + a[1..] && b == [b[0]] + b[1..];
    }
  }

  lemma {:induction false} TextsAreTransitive(a: string, b: string, c: string)
    requires TextBefore(a, b) && TextBefore(b, c)
    ensures TextBefore(a, c)
  {
    if a != [] && b != [] && c != [] && a[0] == b[0] == c[0] {
      TextsAreTransitive(a[1..], b[1..], c[1..]);
    }
  }

  /** Of two keys that differ, exactly one is before the other. */
  lemma KeysAreTotal(a: Key, b: Key)
    ensures !(Before(a, b) && Before(b, a))
    ensures !Before(a, b) && !Before(b, a) <==> a == b
  {
    hide TextBefore;
    TextsAreOrdered(a.name, b.name);
  }

  lemma KeysAreTransitive(a: Key, b: Key, c: Key)
    requires Before(a, b) && Before(b, c)
    ensures Before(a, c)
  {
    hide TextBefore;
    if TextBefore(a.name, b.name) && TextBefore(b.name, c.name) {
      TextsAreTransitive(a.name, b.name, c.name);
    }
  }

  predicate Tied(left: Candidate, right: Candidate) {
    !RankedBefore(left, right) && !RankedBefore(right, left)
  }

  /** `candidateRankedBefore` is a strict weak order, as the sort it is given to demands. */
  lemma RankIsStrictWeakOrder(a: Candidate, b: Candidate, c: Candidate)
    ensures !RankedBefore(a, a)
    ensures RankedBefore(a, b) ==> !RankedBefore(b, a)
    ensures RankedBefore(a, b) && RankedBefore(b, c) ==> RankedBefore(a, c)
    ensures Tied(a, b) && Tied(b, c) ==> Tied(a, c)
    ensures Tied(a, b) <==> KeyOf(a) == KeyOf(b)
  {
    hide RankedBefore, Before, KeyOf;
    RankIsKeyOrder(a, a);
    RankIsKeyOrder(a, b);
    RankIsKeyOrder(b, a);
    RankIsKeyOrder(b, c);
    RankIsKeyOrder(c, b);
    RankIsKeyOrder(a, c);
    RankIsKeyOrder(c, a);
    KeysAreTotal(KeyOf(a), KeyOf(a));
    KeysAreTotal(KeyOf(a), KeyOf(b));
    KeysAreTotal(KeyOf(b), KeyOf(c));
    KeysAreTotal(KeyOf(a), KeyOf(c));
    if Before(KeyOf(a), KeyOf(b)) && Before(KeyOf(b), KeyOf(c)) {
      KeysAreTransitive(KeyOf(a), KeyOf(b), KeyOf(c));
    }
  }

  // ---------------------------------------------------------------- the direction of the order

  /** The first difference of two texts is at `k`, and there the first text is smaller or at its end. */
  predicate SmallerAt(a: string, b: string, k: nat) {
    k <= |a| && k < |b| && a[..k] == b[..k] && (k == |a| || a[k] < b[k])
  }

  lemma {:induction false} TextBeforeExactly(a: string, b: string)
    ensures TextBefore(a, b) <==> exists k: nat :: SmallerAt(a, b, k)
  {
    if a == [] || b == [] || a[0] != b[0] {
      assert TextBefore(a, b) ==> SmallerAt(a, b, 0);
    } else {
      TextBeforeExactly(a[1..], b[1..]);
      if k: nat :| SmallerAt(a[1..], b[1..], k) {
        assert a[..k + 1] == [a[0]] + a[1..][..k] && b[..k + 1] == [b[0]] + b[1..][..k];
        assert SmallerAt(a, b, k + 1);
      }
      if k: nat :| SmallerAt(a, b, k) {
        assert k > 0;
        assert a[1..][..k - 1] == a[..k][1..] && b[1..][..k - 1] == b[..k][1..];
        assert SmallerAt(a[1..], b[1..], k - 1);
      }
    }
  }

  /** Where a candidate's byte and word order stand among those of as many registers: for one register
      the word order does not matter. */
  function EndianPlace(c: Candidate): int {
    if c.registerCount == 1 then if c.byteOrder == BigEndian then 0 else 2
    else (if c.byteOrder == BigEndian then 0 else 2) + (if c.wordOrder == HighWordFirst then 0 else 1)
  }

  /** The higher score is ranked first; then the smaller error, the fewer registers, the more usual byte
      and word order, the lower address and the name that comes first, each where all before it are equal. */
  lemma RankDirection(left: Candidate, right: Candidate)
    ensures left.score > right.score ==> RankedBefore(left, right)
    ensures left.score == right.score && left.absoluteError < right.absoluteError ==> RankedBefore(left, right)
    ensures SameScore(left, right) && left.registerCount < right.registerCount ==> RankedBefore(left, right)
    ensures SameSize(left, right) && EndianPlace(left) < EndianPlace(right) ==> RankedBefore(left, right)
    ensures SameShape(left, right) && left.startAddress < right.startAddress ==> RankedBefore(left, right)
    ensures SameShape(left, right) && left.startAddress == right.startAddress ==>
      (RankedBefore(left, right) <==> exists k: nat :: SmallerAt(TypeName(left.kind), TypeName(right.kind), k))
  {
    hide TextBefore, SmallerAt, TypeName;
    TextBeforeExactly(TypeName(left.kind), TypeName(right.kind));
  }

  predicate SameScore(left: Candidate, right: Candidate) {
    left.score == right.score && left.absoluteError == right.absoluteError
  }

  predicate SameShape(left: Candidate, right: Candidate) {
    SameSize(left, right) && EndianPlace(left) == EndianPlace(right)
  }

  predicate SameSize(left: Candidate, right: Candidate) {
    SameScore(left, right) && left.registerCount == right.registerCount
  }
}
