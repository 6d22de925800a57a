/** Numbers in record fields: `std::to_string` and `std::from_chars` for signed integers
    (`native_store_record_codec.cpp`). */
module NumberText {
  import opened RecordLog

  const MaxInt64: int := 0x7FFF_FFFF_FFFF_FFFF
  const MinInt64: int := -0x8000_0000_0000_0000

  /** The longest numeric prefix that `std::from_chars` reads into an integer of `[-limit, limit)`, or
      `fallback` when there is none or it does not fit. */
  function ToSigned(text: string, fallback: int, limit: int): (n: int)
    requires -limit <= fallback < limit
    ensures -limit <= n < limit
  {
    var negative := |text| > 0 && text[0] == '-';
    var start := if negative then 1 else 0;
    var k := DigitRun(text, start);
    if k == 0 then fallback else
      var value: int := Value(text[start..start + k]);
      if negative then (if -value < -limit then fallback else -value)
      else if value >= limit then fallback else value
  }

  /** `toInt64`. */
  function ToInt64(text: string, fallback: int): (n: int)
    requires MinInt64 <= fallback <= MaxInt64
    ensures MinInt64 <= n <= MaxInt64
  {
    ToSigned(text, fallback, MaxInt64 + 1)
  }

  /** `std::to_string`. */
  function Printed(n: int): string {
    if n < 0 then "-" + Decimal(-n) else Decimal(n)
  }

  lemma {:induction false} DigitsToEnd(text: string, pos: nat)
    requires pos <= |text| && AllDigits(text[pos..])
    ensures DigitRun(text, pos) == |text| - pos
    decreases |text| - pos
  {
    if pos < |text| {
      assert text[pos] == text[pos..][0];
      assert text[pos + 1..] == text[pos..][1..];
      DigitsToEnd(text, pos + 1);
    }
  }

  /** A printed number that fits is read back, whatever the fallback. */
  lemma PrintedReads(n: int, fallback: int, limit: int)
    requires -limit <= n < limit && -limit <= fallback < limit
    ensures ToSigned(Printed(n), fallback, limit) == n
  {
    hide DigitRun, Value, Decimal;
    var text := Printed(n);
    var start := if n < 0 then 1 else 0;
    var digits := Decimal(if n < 0 then -n else n);
    assert text[start..] == digits && text[start..start + |digits|] == digits;
    DigitsToEnd(text, start);
    ValueOfDecimal(if n < 0 then -n else n);
    assert n >= 0 ==> IsDigit(text[0]);
  }

  /** Digits are written from the most significant on. */
  lemma PrintedInOrder()
    ensures Printed(-1205) == "-1205"
  {
    assert Decimal(1) == "1";
    assert Decimal(12) == Decimal(1) + "2";
    assert Decimal(120) == Decimal(12) + "0";
    assert Decimal(1205) == Decimal(120) + "5";
  }
}
