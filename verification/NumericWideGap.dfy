/** What NUMERIC addition returns when its operands are more than twenty positions apart. */
module NumericWideGap {
  import opened CArithmetic
  import opened Powers
  import opened NumericCodec
  import opened NumericCompare
  import opened NumericAddition
  import opened NumericRows
  import opened NumericAdditionLaws
  import opened NumericExactSum
  import opened NumericAdditionLimits
  import opened NumericRounding
  import opened NumericReporting

  /** The larger operand first, and no digit of the other inside its twenty positions. */
  ghost predicate Wide(a: seq<byte>, b: seq<byte>)
  {
    Aligned(a, b) && Gap(a, b) > MAX_DIGIT_COUNT
  }

  /** The larger operand in units of the last of twenty positions, with a unit more if the byte in front rounds up. */
  ghost function WideTotal(a: seq<byte>, b: seq<byte>, front: byte): int
    requires Wide(a, b)
  {
    ValueIn(LastPosition(a), a) + if RoundsUp(b, front) then Unit(IsPositive(b)) else 0
  }

  lemma {:induction false} WideRow(a: seq<byte>, b: seq<byte>, front: byte)
    requires Wide(a, b)
    ensures RowSum(a, b, front) == WideTotal(a, b, front) && RowUnit(a, b) == LastPosition(a)
  {
    WideGap(a, b, front);
  }

  /** The larger operand alone is more than a unit and in range. */
  lemma {:induction false} WideBounds(a: seq<byte>, b: seq<byte>, unit: int)
    requires Wide(a, b) && unit == LastPosition(a)
    ensures Covers(unit, a) && 1 < Abs(ValueIn(unit, a)) < Limit(unit) && unit > MIN_EXPONENT
  {
    SpanBounds(a, unit, Exponent(a) - unit);
  }

  lemma {:induction false} SpanBounds(n: seq<byte>, unit: int, k: nat)
    requires Canonical(n) && !IsZero(n) && Covers(unit, n) && k == Exponent(n) - unit > 0 && Exponent(n) <= MAX_EXPONENT
    ensures 1 < Abs(ValueIn(unit, n)) < Limit(unit)
  {
    MagnitudeBounds(unit, n);
    PowMonotone(100, 1, k);
    PowMonotone(100, k + 1, MAX_EXPONENT + 1 - unit);
  }

  /** Operands that do not overlap make a row that never loses a digit to a carry. */
  lemma {:induction false} ApartKeeps(a: seq<byte>, b: seq<byte>, front: byte, p: bool, e: int, ds: seq<byte>, c: int,
                                      t: int)
    requires RowOf(a, b, front, p, e, ds, c, t) && |a| - 1 <= Gap(a, b)
    ensures KeepsTwenty(e, e + 1 - |ds|, t)
  {
    RowEnds(a, b, front, p, e, ds, c, t);
    PaddedBounds(p, ds, |ds|);
    if c != 0 { TimesHundredPower(p, t, |ds|); }
  }

  lemma {:induction false} WideInRange(unit: int, t: int)
    requires unit > MIN_EXPONENT && unit <= MAX_EXPONENT && Abs(t) < Limit(unit)
    ensures InRange(unit, t)
  {
  }

  lemma {:induction false} WideNonZero(a: seq<byte>, b: seq<byte>, front: byte)
    requires Wide(a, b)
    ensures WideTotal(a, b, front) != 0
  {
    WideBounds(a, b, LastPosition(a));
  }

  /** The number returned for so many units of 100^unit, or the error. */
  ghost predicate Returns(unit: int, out: Outcome, t: int)
    requires unit <= MAX_EXPONENT + 1
  {
    if Abs(t) >= Limit(unit) then out == OutOfRange else Denotes(unit, out, t)
  }

  lemma {:induction false} AlignedWide(a: seq<byte>, b: seq<byte>, front: byte, beyond: byte, t: int, out: Outcome)
    requires Wide(a, b) && t == WideTotal(a, b, front) && out == AddAligned(a, b, front, beyond)
    ensures Returns(LastPosition(a), out, t)
  {
    WideRow(a, b, front);
    WideBounds(a, b, LastPosition(a));
    WideNonZero(a, b, front);
    AlignedReportsIff(a, b, front, beyond, t);
    if Abs(t) < Limit(LastPosition(a)) {
      RowFacts(a, b, front, IsPositive(a), Exponent(a), SumRow(a, b, front).0, SumRow(a, b, front).1, t);
      ApartKeeps(a, b, front, IsPositive(a), Exponent(a), SumRow(a, b, front).0, SumRow(a, b, front).1, t);
      WideInRange(LastPosition(a), t);
      RowIsReturned(a, b, front, beyond, t, out);
    }
  }

  // ---------- the error ----------

  /** The number of units is within half a unit of the exact sum. */
  ghost predicate WithinHalf(a: seq<byte>, b: seq<byte>, t: int)
    requires |a| > 0 && |b| > 0 && CommonUnit(a, b) <= LastPosition(a)
  {
    var w := Pow(100, LastPosition(a) - CommonUnit(a, b));
    2 * Abs(t * w - SumIn(a, b)) <= w
  }

  /** A second operand far below the unit is closer to nothing than to a unit. */
  lemma {:induction false} FarBelow(p: bool, x: int, y: int, t: int, w: nat, first: int, up: bool)
    requires 0 < 100 * Signed(p, y) < w && first == x * w && t == x + if up then Unit(p) else 0
    ensures 2 * Abs(t * w - (first + y)) <= w <==> !up
  {
    assert (x + Unit(p)) * w == x * w + Unit(p) * w;
    if up { UnitTimes(p, w); }
  }

  lemma UnitTimes(p: bool, w: int)
    ensures Unit(p) * w == Signed(p, w)
  {
  }

  lemma {:induction false} WideUnits(a: seq<byte>, b: seq<byte>)
    requires Wide(a, b)
    ensures CommonUnit(a, b) == LowExponent(b) <= Exponent(b) < LastPosition(a) - 1 && Covers(LastPosition(a), a)
  {
  }

  lemma {:induction false} SecondIsTiny(b: seq<byte>, unit: int, w: nat)
    requires Canonical(b) && !IsZero(b) && Exponent(b) < unit - 1 && LowExponent(b) <= unit
    requires w == Pow(100, unit - LowExponent(b))
    ensures 0 < 100 * Signed(IsPositive(b), ValueIn(LowExponent(b), b)) < w
  {
    var u := LowExponent(b);
    MagnitudeBounds(u, b);
    PowMonotone(100, Exponent(b) + 1 - u, unit - 1 - u);
    assert Pow(100, unit - u) == 100 * Pow(100, unit - 1 - u);
  }

  /** The result is rounded to within half a unit if and only if the byte in front does not round up. */
  lemma {:induction false} WideErrorIff(a: seq<byte>, b: seq<byte>, front: byte, t: int)
    requires Wide(a, b) && t == WideTotal(a, b, front)
    ensures CommonUnit(a, b) <= LastPosition(a) && (WithinHalf(a, b, t) <==> !RoundsUp(b, front))
  {
    WideUnits(a, b);
    var u, unit := CommonUnit(a, b), LastPosition(a);
    var w := Pow(100, unit - u);
    UnitChange(unit, unit - u, a);
    SecondIsTiny(b, unit, w);
    FarBelow(IsPositive(b), ValueIn(unit, a), ValueIn(u, b), t, w, ValueIn(u, a), RoundsUp(b, front));
  }

  // ---------- the addition routine ----------

  /**
   More than twenty positions apart, addition returns the larger operand to twenty positions, with a unit more
   if the byte in front of the smaller one rounds up, or the error if that reaches 1E126. It is the rounded
   sum exactly when that byte does not round up, which at a distance of 21 the smaller operand's header decides.
   */
  lemma {:induction false} WideSum(a: seq<byte>, b: seq<byte>, stray: byte, beyond: byte, x: seq<byte>, y: seq<byte>,
                                   t: int)
    requires Operand(a) && Operand(b) && (x, y) == (Larger(a, b), Smaller(a, b)) && Wide(x, y)
    requires t == WideTotal(x, y, FrontOf(a, b, stray))
    ensures Returns(LastPosition(x), AddSpec(a, b, stray, beyond), t)
    ensures CommonUnit(x, y) <= LastPosition(x) && (WithinHalf(x, y, t) <==> !RoundsUp(y, FrontOf(a, b, stray)))
    ensures Gap(x, y) == MAX_DIGIT_COUNT + 1 ==> (WithinHalf(x, y, t) <==> !HeaderRoundsUp(y))
  {
    LargerFirst(a, b, stray, beyond);
    AlignedWide(x, y, FrontOf(a, b, stray), beyond, t, AddSpec(a, b, stray, beyond));
    WideErrorIff(x, y, FrontOf(a, b, stray), t);
    HeaderAsDigit(y);
  }
}
