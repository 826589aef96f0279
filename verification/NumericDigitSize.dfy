/** How many base-100 digits a decimal of a given precision takes. */
module NumericDigitSize {
  import opened CArithmetic
  import opened Powers
  import opened Digits
  import opened NumericCodec
  import opened NumericCompare
  import opened NumericAddition
  import opened NumericRows
  import opened NumericAdditionLaws
  import opened NumericFromInteger

  /** Base-100 digits reserved for a decimal precision. */
  function DigitSize(precision: nat): nat
  {
    precision / 2 + 1
  }

  /** The number m * 10^k counted in units of 100^(k / 2), for exponents of either sign. */
  function InHundreds(m: nat, k: int): nat
  {
    m * Pow(10, k % 2)
  }

  /** It is the same number: both sides raised by s places of base 100 are equal integers. */
  lemma InHundredsIsSame(m: nat, k: int, s: nat)
    requires k + 2 * s >= 0
    ensures k / 2 + s >= 0 && m * Pow(10, k + 2 * s) == InHundreds(m, k) * Pow(100, k / 2 + s)
  {
    var j, r := k / 2 + s, k % 2;
    assert k + 2 * s == r + 2 * j;
    PowAdd(10, r, 2 * j);
    HundredIsTenSquared(j);
    MulAssoc(m, Pow(10, r), Pow(100, j));
  }

  /** Scaled by any power of ten, a decimal of p digits is below 100 to the digits reserved for p. */
  lemma {:induction false} DecimalFits(m: nat, p: nat, k: int)
    requires m < Pow(10, p)
    ensures InHundreds(m, k) < Pow(100, DigitSize(p))
  {
    var r, q := k % 2, Pow(10, k % 2);
    MulStep(m, Pow(10, p), q);
    PowAdd(10, p, r);
    HundredIsTenSquared(DigitSize(p));
    PowMonotone(10, p + r, 2 * DigitSize(p));
  }

  // ---------- numbers from their value ----------

  /** The digits of c in so many positions. */
  lemma {:induction false} DigitRow(p: bool, c: nat, count: nat) returns (row: seq<byte>)
    requires 0 < c < Pow(100, count)
    ensures |row| == count > 0 && DigitsOk(p, row) && Padded(p, row, count) == Signed(p, c)
  {
    var ds := DigitsOf(c, 100, count);
    row := Stored(p, ds);
    StoredValue(p, ds);
    ValueOfDigits(c, 100, count);
    SmallMod(c, Pow(100, count));
  }

  /** Zeros cut off at both ends. */
  lemma {:induction false} TrimmedRow(p: bool, row: seq<byte>, v: int) returns (k: nat, rest: seq<byte>)
    requires DigitsOk(p, row) && v == Padded(p, row, |row|) && v != 0
    ensures rest != [] && DigitsOk(p, rest) && rest[0] != Blank(p) && rest[|rest| - 1] != Blank(p)
    ensures |rest| <= |row| - k && Padded(p, rest, |row| - k) == v
  {
    var r := TrimTail(p, row);
    TrimKeepsValue(p, row, |row|);
    assert r != [];
    k, rest := StrippedParts(p, r, |row|);
  }

  /** A leading digit at exponent e keeps a number in range from going beyond the largest exponent. */
  lemma {:induction false} LeadInRange(p: bool, e: int, rest: seq<byte>, n: nat, unit: int, v: int)
    requires 0 < |rest| <= n == e + 1 - unit && DigitsOk(p, rest) && rest[0] != Blank(p)
    requires v == Padded(p, rest, n) && InRange(unit, v)
    ensures e <= MAX_EXPONENT
  {
    PaddedLeading(p, rest, n);
    CarryInRange(p, e - 1, unit, v);
  }

  /** Every value in range has a canonical number with no more digits than positions it takes. */
  lemma {:induction false} NumberOf(p: bool, c: nat, count: nat, unit: int) returns (n: seq<byte>)
    requires 0 < c < Pow(100, count) && count <= MAX_DIGIT_COUNT && InRange(unit, c)
    ensures Canonical(n) && !IsZero(n) && |n| <= count + 1 && Covers(unit, n) && ValueIn(unit, n) == Signed(p, c)
  {
    var v := Signed(p, c);
    var row := DigitRow(p, c, count);
    var k, rest := TrimmedRow(p, row, v);
    var e := unit + count - 1 - k;
    LeadInRange(p, e, rest, count - k, unit, v);
    n := Packed(p, e, rest);
    PackedOutcome(p, e, rest, unit, count - k, Sum(n), v);
  }

  // ---------- the digits reserved suffice and are needed ----------

  /**
   A decimal of p digits, scaled by any power of ten that keeps it in range, is a NUMERIC of at most
   the digits reserved for p.
   */
  lemma {:induction false} DigitSizeSuffices(positive: bool, m: nat, p: nat, k: int) returns (n: seq<byte>)
    requires 0 < m < Pow(10, p) && p <= 38 && InRange(k / 2, InHundreds(m, k))
    ensures Canonical(n) && Covers(k / 2, n) && ValueIn(k / 2, n) == Signed(positive, InHundreds(m, k))
    ensures |n| <= 1 + DigitSize(p) <= 21
    ensures p == 38 ==> DigitSize(p) == 20
  {
    DecimalFits(m, p, k);
    MulLe(1, m, Pow(10, k % 2));
    n := NumberOf(positive, InHundreds(m, k), DigitSize(p), k / 2);
  }

  /** The largest decimal of p digits, shifted by one place when p is even. */
  function Widest(p: nat): nat
  {
    InHundreds(Pow(10, p) - 1, if p % 2 == 0 then 1 else 0)
  }

  /** It spans every position reserved for p, and its last one is not zero. */
  lemma {:induction false} WidestSpansAll(p: nat)
    requires p > 0
    ensures Pow(100, DigitSize(p) - 1) <= Widest(p) < Pow(100, DigitSize(p)) && Widest(p) % 100 != 0
  {
    var d, q := DigitSize(p), Pow(10, p - 1);
    var k := if p % 2 == 0 then 1 else 0;
    DecimalFits(Pow(10, p) - 1, p, k);
    HundredIsTenSquared(d - 1);
    assert Pow(10, p) == 10 * q;
    if p % 2 == 0 {
      assert Pow(10, k) == 10 && Pow(10, p) == Pow(100, d - 1);
      LastDigitNinety(Widest(p), q);
    } else {
      assert Pow(10, k) == 1 && q == Pow(100, d - 1);
      if p > 1 { assert q == 10 * Pow(10, p - 2); }
      LastDigitNine(Widest(p), q);
    }
  }

  lemma LastDigitNinety(c: int, q: int)
    requires c == (10 * q - 1) * 10
    ensures c % 100 != 0
  {
    assert c == 100 * (q - 1) + 90;
  }

  lemma LastDigitNine(c: int, q: int)
    requires c == 10 * q - 1
    ensures c % 100 != 0
  {
    assert c % 10 == 9;
  }

  /** A canonical number whose value spans so many positions, the last not zero, has exactly so many digits. */
  lemma {:induction false} SpanIsLength(n: seq<byte>, c: nat, d: nat)
    requires Canonical(n) && Covers(0, n) && Abs(ValueIn(0, n)) == c && c % 100 != 0
    requires d > 0 && Pow(100, d - 1) <= c < Pow(100, d)
    ensures |n| == 1 + d
  {
    MagnitudeBounds(0, n);
    ExponentOfSpan(Exponent(n), c, d);
    if LowExponent(n) > 0 { TimesHundredEnds(n); }
  }

  lemma {:induction false} ExponentOfSpan(e: nat, c: nat, d: nat)
    requires Pow(100, e) <= c < Pow(100, e + 1) && d > 0 && Pow(100, d - 1) <= c < Pow(100, d)
    ensures e == d - 1
  {
    if e < d - 1 { PowMonotone(100, e + 1, d - 1); }
    if e > d - 1 { PowMonotone(100, d, e); }
  }

  lemma TimesHundredEnds(n: seq<byte>)
    requires |n| > 0 && !IsZero(n) && LowExponent(n) > 0
    ensures Abs(ValueIn(0, n)) % 100 == 0
  {
    TimesHundred(IsPositive(n), n[1..], Exponent(n));
    var x := Padded(IsPositive(n), n[1..], Exponent(n));
    assert ValueIn(0, n) == 100 * x;
    if x < 0 { assert Abs(ValueIn(0, n)) == 100 * (0 - x); }
  }

  /** Two numbers of equal value. */
  predicate SameNumber(m: seq<byte>, n: seq<byte>)
  {
    |m| > 0 && |n| > 0 && ValueIn(CommonUnit(m, n), m) == ValueIn(CommonUnit(m, n), n)
  }

  /**
   For every precision some decimal needs all of them: it has a NUMERIC of exactly that many digits,
   and no other canonical number denotes it.
   */
  lemma {:induction false} DigitSizeIsNeeded(positive: bool, p: nat) returns (n: seq<byte>)
    requires 0 < p <= 38
    ensures Canonical(n) && Covers(0, n) && ValueIn(0, n) == Signed(positive, Widest(p))
    ensures |n| == 1 + DigitSize(p)
    ensures forall other :: Canonical(other) && SameNumber(other, n) ==> other == n
  {
    WidestSpansAll(p);
    PowMonotone(100, DigitSize(p), MAX_EXPONENT + 1);
    n := NumberOf(positive, Widest(p), DigitSize(p), 0);
    SpanIsLength(n, Widest(p), DigitSize(p));
    forall other | Canonical(other) && SameNumber(other, n)
      ensures other == n
    {
      ByteOrderIsNumericOrder(CommonUnit(other, n), other, n);
    }
  }
}
