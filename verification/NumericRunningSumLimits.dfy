/**
 What a step of a running sum stores when it is not exact: how it is rounded, which sums are reported, when it
 agrees with addition into a fresh result, and when the order of the two numbers does not matter.
 */
module NumericRunningSumLimits {
  import opened CArithmetic
  import opened Powers
  import opened NumericCodec
  import opened NumericCompare
  import opened NumericAddition
  import opened NumericRows
  import opened NumericAdditionLaws
  import opened NumericExactSum
  import opened NumericAdditionLimits
  import opened NumericRounding
  import opened NumericReporting
  import opened NumericWideGap
  import opened NumericRunningSum
  import opened NumericRunningSumLaws

  // ---------- one step against the row ----------

  lemma {:induction false} CarryMeetsLimit(a: seq<byte>, b: seq<byte>, front: byte, p: bool, e: int, ds: seq<byte>,
                                           c: int, t: int)
    requires RowOf(a, b, front, p, e, ds, c, t)
    ensures c != 0 && e >= MAX_EXPONENT <==> Abs(t) >= Limit(e + 1 - |ds|)
  {
    if c == 0 { UncarriedSize(p, e, ds, t); } else { CarriedSize(p, e, ds, t); }
  }

  /** A step is addition, but for the sums it reports: all that reach 1E126. */
  lemma {:induction false} AlignedStep(a: seq<byte>, b: seq<byte>, front: byte, behind: byte, t: int)
    requires Aligned(a, b) && t == RowSum(a, b, front)
    ensures SumAligned(a, b, front, behind) ==
            if Abs(t) >= Limit(RowUnit(a, b)) then OutOfRange else AddAligned(a, b, front, behind)
  {
    var p, e, r := IsPositive(a), Exponent(a), SumRow(a, b, front);
    RowFacts(a, b, front, p, e, r.0, r.1, t);
    CarryMeetsLimit(a, b, front, p, e, r.0, r.1, t);
    if p == IsPositive(b) { SameIsAddition(a, b, front, behind); } else { OppositeIsAddition(a, b, front, behind); }
  }

  /** The byte in front of the smaller operand's digits, which the sum's own header no longer is. */
  function FrontInPlace(sum: seq<byte>, src: seq<byte>, stray: byte): byte
    requires |sum| > 0 && |src| > 0
  {
    var x, y := Larger(sum, src), Smaller(sum, src);
    FrontByte(if Order(sum, src) >= 0 then src[0] else Blank(IsPositive(src)), Gap(x, y), stray)
  }

  lemma {:induction false} StepLargerFirst(sum: seq<byte>, src: seq<byte>, stray: byte, behind: byte)
    requires Operand(sum) && Operand(src) && Aligned(Larger(sum, src), Smaller(sum, src))
    ensures SumSpec(sum, src, stray, behind) ==
            SumAligned(Larger(sum, src), Smaller(sum, src), FrontInPlace(sum, src, stray), behind)
  {
    OrderFlips(sum, src);
  }

  /** Operands that are not zero and do not cancel, and what the row of a step is worth. */
  ghost predicate Steps(sum: seq<byte>, src: seq<byte>, stray: byte, t: int)
  {
    && Operand(sum) && Operand(src) && Aligned(Larger(sum, src), Smaller(sum, src))
    && t == RowSum(Larger(sum, src), Smaller(sum, src), FrontInPlace(sum, src, stray))
  }

  // ---------- rounding ----------

  /** A step that drops digits of operands at most twenty positions apart is rounded as addition is. */
  lemma {:induction false} SumRounds(sum: seq<byte>, src: seq<byte>, stray: byte, behind: byte, t: int, w: nat)
    requires Operand(sum) && Operand(src) && RoundsTo(Larger(sum, src), Smaller(sum, src), 0, t, w)
    ensures OffByRounding(Larger(sum, src), SumSpec(sum, src, stray, behind), t, w, SumIn(sum, src))
  {
    var x, y, front := Larger(sum, src), Smaller(sum, src), FrontInPlace(sum, src, stray);
    StepLargerFirst(sum, src, stray, behind);
    FrontIsUnread(x, y, front, t, w);
    RoundedStep(x, y, front, behind, t, w);
    SumEitherWay(sum, src);
    RoundedResult(x, y, front, behind, t, w, SumSpec(sum, src, stray, behind));
  }

  lemma {:induction false} BelowLimit(unit: int, t: int)
    requires unit <= MAX_EXPONENT && InRange(unit, t)
    ensures Abs(t) < Limit(unit)
  {
  }

  lemma {:induction false} RoundedStep(a: seq<byte>, b: seq<byte>, front: byte, behind: byte, t: int, w: nat)
    requires RoundsTo(a, b, front, t, w)
    ensures SumAligned(a, b, front, behind) == AddAligned(a, b, front, behind)
  {
    RowIsFull(a, b, front);
    AlignedStep(a, b, front, behind, t);
    BelowLimit(RowUnit(a, b), t);
  }

  lemma {:induction false} CarriedStep(a: seq<byte>, b: seq<byte>, front: byte, behind: byte)
    requires CarriesOver(a, b)
    ensures SumAligned(a, b, front, behind) == AddAligned(a, b, front, behind)
  {
    RowSumIsExact(a, b, front);
    AlignedStep(a, b, front, behind, SumIn(a, b));
    BelowLimit(RowUnit(a, b), SumIn(a, b));
  }

  /** So is one that only loses the last digit to a carry. */
  lemma {:induction false} SumDropsDigit(sum: seq<byte>, src: seq<byte>, stray: byte, behind: byte)
    requires Operand(sum) && Operand(src) && CarriesOver(Larger(sum, src), Smaller(sum, src))
    ensures Near(Larger(sum, src), SumSpec(sum, src, stray, behind), SumIn(sum, src), 50)
  {
    var x, y, front := Larger(sum, src), Smaller(sum, src), FrontInPlace(sum, src, stray);
    StepLargerFirst(sum, src, stray, behind);
    SumEitherWay(sum, src);
    CarriedStep(x, y, front, behind);
    CarryRounds(x, y, front, behind, SumIn(sum, src), SumSpec(sum, src, stray, behind));
  }

  // ---------- reporting ----------

  /** Every sum that reaches 1E126 is reported, and no other. */
  lemma {:induction false} StepReportedIff(sum: seq<byte>, src: seq<byte>, stray: byte, behind: byte, t: int)
    requires Steps(sum, src, stray, t)
    ensures SumSpec(sum, src, stray, behind) == OutOfRange <==> Abs(t) >= Limit(UnitOf(sum, src))
  {
    var x, y, front := Larger(sum, src), Smaller(sum, src), FrontInPlace(sum, src, stray);
    StepLargerFirst(sum, src, stray, behind);
    AlignedStep(x, y, front, behind, t);
    AlignedReportsIff(x, y, front, behind, t);
  }

  lemma {:induction false} StepsExactly(sum: seq<byte>, src: seq<byte>, stray: byte)
    requires Operand(sum) && Operand(src) && !IsZero(sum) && !IsZero(src) && WithinTwenty(sum, src)
    requires Order(sum, src) != 0 || IsPositive(sum) == IsPositive(src)
    ensures Steps(sum, src, stray, SumIn(sum, src)) && UnitOf(sum, src) == CommonUnit(sum, src)
  {
    LargerIsAligned(sum, src);
    RowSumIsExact(Larger(sum, src), Smaller(sum, src), FrontInPlace(sum, src, stray));
    SumEitherWay(sum, src);
  }

  /** With digits within twenty positions, the exact sum decides. */
  lemma {:induction false} ExactStepReportedIff(sum: seq<byte>, src: seq<byte>, stray: byte, behind: byte)
    requires Operand(sum) && Operand(src) && !IsZero(sum) && !IsZero(src) && WithinTwenty(sum, src)
    ensures SumSpec(sum, src, stray, behind) == OutOfRange <==> Abs(SumIn(sum, src)) >= Limit(CommonUnit(sum, src))
  {
    LimitIsCoarse(CommonUnit(sum, src));
    if Order(sum, src) == 0 && IsPositive(sum) != IsPositive(src) {
      Cancels(sum, src);
    } else {
      StepsExactly(sum, src, stray);
      StepReportedIff(sum, src, stray, behind, SumIn(sum, src));
    }
  }

  lemma {:induction false} SmallIsBelow(unit: int, t: int)
    requires unit <= MIN_EXPONENT && Abs(t) < Pow(100, MIN_EXPONENT - unit)
    ensures Abs(t) < Limit(unit)
  {
    PowMonotone(100, MIN_EXPONENT - unit, MAX_EXPONENT + 1 - unit);
  }

  /** No sum below 1E-130 is reported. */
  lemma {:induction false} StepUnderflowNeverReported(sum: seq<byte>, src: seq<byte>, stray: byte, behind: byte, t: int)
    requires Steps(sum, src, stray, t) && t != 0
    requires UnitOf(sum, src) <= MIN_EXPONENT && Abs(t) < Pow(100, MIN_EXPONENT - UnitOf(sum, src))
    ensures Misplaced(UnitOf(sum, src), SumSpec(sum, src, stray, behind), t)
  {
    var x, y, front := Larger(sum, src), Smaller(sum, src), FrontInPlace(sum, src, stray);
    StepLargerFirst(sum, src, stray, behind);
    SmallStep(x, y, front, behind, t);
    AlignedMisplaces(x, y, front, behind, t);
  }

  lemma {:induction false} SmallStep(a: seq<byte>, b: seq<byte>, front: byte, behind: byte, t: int)
    requires Aligned(a, b) && t == RowSum(a, b, front)
    requires RowUnit(a, b) <= MIN_EXPONENT && Abs(t) < Pow(100, MIN_EXPONENT - RowUnit(a, b))
    ensures SumAligned(a, b, front, behind) == AddAligned(a, b, front, behind)
  {
    AlignedStep(a, b, front, behind, t);
    SmallIsBelow(RowUnit(a, b), t);
  }

  // ---------- more than twenty positions apart ----------

  lemma {:induction false} AlignedWideStep(a: seq<byte>, b: seq<byte>, front: byte, behind: byte, t: int, out: Outcome)
    requires Wide(a, b) && t == WideTotal(a, b, front) && out == SumAligned(a, b, front, behind)
    ensures out == AddAligned(a, b, front, behind) && Returns(LastPosition(a), out, t)
  {
    WideRow(a, b, front);
    AlignedStep(a, b, front, behind, t);
    AlignedWide(a, b, front, behind, t, AddAligned(a, b, front, behind));
  }

  /** A step returns the larger number, with a unit more if the byte in front of the smaller one rounds up. */
  lemma {:induction false} WideStep(sum: seq<byte>, src: seq<byte>, stray: byte, behind: byte, x: seq<byte>,
                                    y: seq<byte>, t: int)
    requires Operand(sum) && Operand(src) && (x, y) == (Larger(sum, src), Smaller(sum, src)) && Wide(x, y)
    requires t == WideTotal(x, y, FrontInPlace(sum, src, stray))
    ensures Returns(LastPosition(x), SumSpec(sum, src, stray, behind), t)
    ensures CommonUnit(x, y) <= LastPosition(x)
    ensures WithinHalf(x, y, t) <==> !RoundsUp(y, FrontInPlace(sum, src, stray))
  {
    StepLargerFirst(sum, src, stray, behind);
    AlignedWideStep(x, y, FrontInPlace(sum, src, stray), behind, t, SumSpec(sum, src, stray, behind));
    WideErrorIff(x, y, FrontInPlace(sum, src, stray), t);
  }

  /** The blank of one sign rounds up as a digit of the other sign, and only there. */
  lemma BlankAsDigit(b: seq<byte>, p: bool)
    requires |b| > 0
    ensures RoundsUp(b, Blank(p)) <==> p != IsPositive(b)
  {
  }

  /** Outcomes for different numbers of units differ, unless both are errors. */
  lemma {:induction false} ReturnsApart(unit: int, out: Outcome, t: int, other: Outcome, v: int)
    requires unit <= MAX_EXPONENT + 1 && Returns(unit, out, t) && Returns(unit, other, v)
    requires t != v && (Abs(t) < Limit(unit) || Abs(v) < Limit(unit))
    ensures out != other
  {
  }

  /** Bytes in front that round differently lead to different results. */
  lemma {:induction false} WideSameIff(a: seq<byte>, b: seq<byte>, front: byte, other: byte, behind: byte)
    requires Wide(a, b)
    ensures SumAligned(a, b, front, behind) == AddAligned(a, b, front, behind)
    ensures SumAligned(a, b, front, behind) == SumAligned(a, b, other, behind) <==>
            (RoundsUp(b, front) <==> RoundsUp(b, other))
  {
    var t, v := WideTotal(a, b, front), WideTotal(a, b, other);
    AlignedWideStep(a, b, front, behind, t, SumAligned(a, b, front, behind));
    AlignedWideStep(a, b, other, behind, v, SumAligned(a, b, other, behind));
    if RoundsUp(b, front) == RoundsUp(b, other) {
      SameRow(a, b, front, other);
    } else {
      WideBounds(a, b, LastPosition(a));
      ReturnsApart(LastPosition(a), SumAligned(a, b, front, behind), t, SumAligned(a, b, other, behind), v);
    }
  }

  lemma {:induction false} SameRow(a: seq<byte>, b: seq<byte>, front: byte, other: byte)
    requires Wide(a, b) && (RoundsUp(b, front) <==> RoundsUp(b, other))
    ensures SumRow(a, b, front) == SumRow(a, b, other)
  {
    assert RoundingCarry(a, b, front) == RoundingCarry(a, b, other);
  }

  // ---------- agreement with addition ----------

  /** The distance at which the overwritten header is read. */
  predicate HeaderGap(x: seq<byte>, y: seq<byte>)
    requires |x| > 0 && |y| > 0
  {
    Gap(x, y) == MAX_DIGIT_COUNT + 1
  }

  /**
   A step and addition agree if and only if, at a distance of 21 with the sum the smaller, its header and the
   blank written over it round alike, and anywhere else the row is not just 1E126 of overlapping operands.
   */
  lemma {:induction false} AgreesIff(sum: seq<byte>, src: seq<byte>, stray: byte, behind: byte, t: int)
    requires Adds(sum, src, stray, t)
    ensures SumSpec(sum, src, stray, behind) == AddSpec(sum, src, stray, behind) <==>
            if HeaderGap(src, sum) then HeaderRoundsUp(sum) <==> IsPositive(sum) != IsPositive(src)
            else Abs(t) != Limit(UnitOf(sum, src)) || Disjoint(sum, src)
  {
    var x, y := Larger(sum, src), Smaller(sum, src);
    StepLargerFirst(sum, src, stray, behind);
    LargerFirst(sum, src, stray, behind);
    if HeaderGap(src, sum) {
      WideSameIff(x, y, sum[0], Blank(IsPositive(src)), behind);
      HeaderAsDigit(sum);
      BlankAsDigit(sum, IsPositive(src));
    } else {
      AlignedStep(x, y, FrontOf(sum, src, stray), behind, t);
      AlignedReportsIff(x, y, FrontOf(sum, src, stray), behind, t);
    }
  }

  /**
   A running sum smaller by 21 positions is swallowed when the signs are equal; when they differ, a whole unit
   of its sign is added to the new value.
   */
  lemma {:induction false} SmallSumAt21(sum: seq<byte>, src: seq<byte>, stray: byte, behind: byte)
    requires Operand(sum) && Operand(src) && !IsZero(sum) && !IsZero(src) && HeaderGap(src, sum)
    ensures Covers(LastPosition(src), src)
    ensures Denotes(LastPosition(src), SumSpec(sum, src, stray, behind),
                    ValueIn(LastPosition(src), src) +
                    if IsPositive(sum) == IsPositive(src) then 0 else Unit(IsPositive(sum)))
  {
    var t := WideTotal(src, sum, Blank(IsPositive(src)));
    OrderFlips(sum, src);
    BlankAsDigit(sum, IsPositive(src));
    WideStep(sum, src, stray, behind, src, sum, t);
    WideBounds(src, sum, LastPosition(src));
    SignedBounds(LastPosition(src), src, IsPositive(src), Exponent(src) - LastPosition(src),
                 ValueIn(LastPosition(src), src));
  }

  // ---------- the order of two numbers ----------

  /**
   For the same bytes around the numbers, a step gives the same result in both orders, except at a distance
   of 21: there it does exactly when the header of the smaller number rounds as the blank of the larger does.
   */
  lemma {:induction false} OrderIndependentIff(sum: seq<byte>, src: seq<byte>, stray: byte, behind: byte)
    requires Operand(sum) && Operand(src)
    ensures SumSpec(sum, src, stray, behind) == SumSpec(src, sum, stray, behind) <==>
            || IsZero(sum) || IsZero(src) || !HeaderGap(Larger(sum, src), Smaller(sum, src))
            || (HeaderRoundsUp(Smaller(sum, src)) <==> IsPositive(sum) != IsPositive(src))
  {
    OrderFlips(sum, src);
    if IsZero(sum) || IsZero(src) {
    } else if Order(sum, src) == 0 {
      EqualOperands(sum, src);
    } else {
      BothOrders(Larger(sum, src), Smaller(sum, src), stray, behind);
    }
  }

  lemma {:induction false} EqualOperands(a: seq<byte>, b: seq<byte>)
    requires Operand(a) && Operand(b) && !IsZero(a) && !IsZero(b) && Order(a, b) == 0
    ensures IsPositive(a) == IsPositive(b) ==> a == b
  {
    if IsPositive(a) == IsPositive(b) {
      EqualMagnitudes(IsPositive(a), a[1..], b[1..]);
      assert a == [a[0]] + a[1..] && b == [b[0]] + b[1..];
    }
  }

  lemma {:induction false} BothOrders(x: seq<byte>, y: seq<byte>, stray: byte, behind: byte)
    requires Operand(x) && Operand(y) && !IsZero(x) && !IsZero(y) && Order(x, y) > 0
    ensures SumSpec(x, y, stray, behind) == SumSpec(y, x, stray, behind) <==>
            !HeaderGap(x, y) || (HeaderRoundsUp(y) <==> IsPositive(x) != IsPositive(y))
  {
    OrderFlips(x, y);
    if HeaderGap(x, y) {
      WideSameIff(x, y, y[0], Blank(IsPositive(x)), behind);
      HeaderAsDigit(y);
      BlankAsDigit(y, IsPositive(x));
    }
  }

  // ---------- examples ----------

  lemma {:induction false} OneToE42(a: seq<byte>, b: seq<byte>, stray: byte, behind: byte)
    requires OneAndE42(a, b)
    ensures Operand(a) && Operand(b) && Gap(a, b) == 21
    ensures SumSpec(a, b, stray, behind) == Sum([214] + ([2] + Zeros(18) + [2]))
  {
    assert Order(a, b) == 1;
    OneUnder(a, b, 193);
    KeptWhole(true, 21, [2] + Zeros(18) + [2], 0);
  }

  /** 1E42 and 1: added to a running 1E42 the 1 counts as 1E4, to a running 1 the 1E42 swallows it. */
  lemma {:induction false} OrderMattersExample(a: seq<byte>, b: seq<byte>, stray: byte, behind: byte)
    requires OneAndE42(a, b)
    ensures Operand(a) && Operand(b) && SumSpec(a, b, stray, behind) != SumSpec(b, a, stray, behind)
    ensures SumSpec(a, b, stray, behind) == Sum([214] + ([2] + Zeros(18) + [2]))
    ensures Denotes(2, SumSpec(b, a, stray, behind), ValueIn(2, a))
  {
    OneToE42(a, b, stray, behind);
    OrderIndependentIff(a, b, stray, behind);
    SmallSumAt21(b, a, stray, behind);
  }

  /** 50E124 + 50E124 is rejected, where addition stores 1E-130; so is the negative sum. */
  lemma {:induction false} CarryIsCheckedExample(p: bool, a: seq<byte>, stray: byte, behind: byte)
    requires a == if p then [255, 51] else [0, 51]
    ensures Operand(a) && SumSpec(a, a, stray, behind) == OutOfRange
    ensures AddSpec(a, a, stray, behind) == Sum(if p then [128, 2] else [255, 100])
  {
    FiftyE124(p, a);
    assert Limit(MAX_EXPONENT) == 100;
    ExactStepReportedIff(a, a, stray, behind);
    UncheckedCarryExample(p, a, stray, behind);
  }
}
