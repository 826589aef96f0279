/** How far the result of NUMERIC addition is from the exact sum when digits are dropped. */
module NumericRounding {
  import opened CArithmetic
  import opened Powers
  import opened NumericCodec
  import opened NumericCompare
  import opened NumericAddition
  import opened NumericRows
  import opened NumericAdditionLaws
  import opened NumericExactSum
  import opened NumericAdditionLimits

  /** Digits are dropped, and the first of them is a digit of the smaller operand. */
  ghost predicate Rounds(a: seq<byte>, b: seq<byte>)
  {
    Aligned(a, b) && !WithinTwenty(a, b) && Gap(a, b) <= MAX_DIGIT_COUNT
  }

  /** The position of the last of twenty digits. */
  function LastPosition(a: seq<byte>): int
    requires |a| > 0
  {
    Exponent(a) + 1 - MAX_DIGIT_COUNT
  }

  lemma {:induction false} RowIsFull(a: seq<byte>, b: seq<byte>, front: byte)
    requires Lined(a, b) && !WithinTwenty(a, b)
    ensures |SumRow(a, b, front).0| == MAX_DIGIT_COUNT == Positions(a, b)
  {
    RowReach(a, b, LastPosition(a));
  }

  /** What the row and its carry are worth, in units of the row's last position: the sum, rounded where digits drop. */
  ghost function RowSum(a: seq<byte>, b: seq<byte>, front: byte): int
    requires Lined(a, b)
  {
    var r := SumRow(a, b, front);
    Padded(IsPositive(a), r.0, |r.0|) + CarryTimes(r.1, Pow(100, |r.0|))
  }

  /** The position whose unit the row is counted in. */
  function RowUnit(a: seq<byte>, b: seq<byte>): int
    requires |a| > 0 && |b| > 0 && Gap(a, b) >= 0
  {
    Exponent(a) + 1 - Positions(a, b)
  }

  /** The result is within so many hundredths of a unit of the last position of the number of units t. */
  ghost predicate Near(a: seq<byte>, out: Outcome, t: int, off: nat)
  {
    |a| > 0 && out.Sum? && |out.bytes| > 0 && Covers(LastPosition(a), out.bytes) &&
    Abs(ValueIn(LastPosition(a), out.bytes) - t) <= off
  }

  /** The carry of a full row whose last digit is not zero is the one case that is rounded a second time. */
  ghost predicate RoundsTwice(t: int)
  {
    CarriesDigit(t, MAX_DIGIT_COUNT)
  }

  /** A carry out of n positions, the last of them not zero. */
  ghost predicate CarriesDigit(t: int, n: nat)
  {
    Abs(t) >= Pow(100, n) && t % 100 != 0
  }

  /** The row ds and the carry c of two operands, worth t. */
  ghost predicate RowOf(a: seq<byte>, b: seq<byte>, front: byte, p: bool, e: int, ds: seq<byte>, c: int, t: int)
  {
    && Aligned(a, b) && (ds, c) == SumRow(a, b, front) && (p, e) == (IsPositive(a), Exponent(a))
    && 0 < |ds| == Positions(a, b) <= MAX_DIGIT_COUNT && DigitsOk(p, ds) && MIN_EXPONENT <= e <= MAX_EXPONENT
    && (c == 0 || (c == Unit(p) && p == IsPositive(b)))
    && t == Padded(p, ds, |ds|) + CarryTimes(c, Pow(100, |ds|))
    && Signed(p, t) >= 0 && (p == IsPositive(b) ==> Signed(p, t) >= Pow(100, |ds| - 1))
  }

  lemma {:induction false} RowFacts(a: seq<byte>, b: seq<byte>, front: byte, p: bool, e: int, ds: seq<byte>, c: int,
                                    t: int)
    requires Aligned(a, b) && (ds, c) == SumRow(a, b, front) && (p, e) == (IsPositive(a), Exponent(a))
    requires t == RowSum(a, b, front)
    ensures RowOf(a, b, front, p, e, ds, c, t)
  {
    PositionsBounded(a, b);
    CarryShape(a, b, front);
  }

  /** What the final steps need of the ends of the row. */
  lemma {:induction false} RowEnds(a: seq<byte>, b: seq<byte>, front: byte, p: bool, e: int, ds: seq<byte>, c: int,
                                   t: int)
    requires RowOf(a, b, front, p, e, ds, c, t)
    ensures p == IsPositive(b) && c == 0 ==> ds[0] != Blank(p)
    ensures |a| - 1 <= Gap(a, b) && c != 0 ==> t == Signed(p, Pow(100, |ds|))
    ensures |a| - 1 > Gap(a, b) + |b| - 1 ==> ds[|ds| - 1] != Blank(p)
  {
    if p == IsPositive(b) && c == 0 { LeadingFromValue(p, ds); }
    if |a| - 1 <= Gap(a, b) && c != 0 { ApartClearsRow(a, b, front); }
    if |a| - 1 > Gap(a, b) + |b| - 1 { LastDigitKept(a, b, front); }
  }

  lemma {:induction false} ApartReturned(p: bool, e: int, ds: seq<byte>, carry: int, t: int, beyond: byte, unit: int,
                                         out: Outcome)
    requires Settled(p, e, ds, carry, t) && unit == e + 1 - |ds| && out == FinishApart(p, e, ds, carry, beyond)
    requires carry != 0 ==> t == Signed(p, Pow(100, |ds|))
    ensures if out == Unspecified then t == 0 else Denotes(unit, out, t)
  {
    if carry != 0 || t != 0 {
      FinishApartExact(p, e, ds, carry, t, beyond, unit, out);
    } else if LeadingBlanks(p, ds) < |ds| {
      var k, rest := ApartParts(p, e, ds, beyond);
      PaddedNonZero(p, rest, |ds| - k);
      assert false;
    } else {
      ZeroDenotes(unit);
    }
  }

  /** A settled row that its final step returns exactly; only the scan of an empty one may run past it. */
  ghost predicate Finishable(p: bool, e: int, ds: seq<byte>, c: int, same: bool, t: int, last1: int, gap: int,
                             last2: int)
  {
    && Settled(p, e, ds, c, t) && gap < last2
    && (same && c == 0 ==> ds[0] != Blank(p))
    && (last1 <= gap && c != 0 ==> t == Signed(p, Pow(100, |ds|)))
    && (last1 > last2 ==> ds[|ds| - 1] != Blank(p))
  }

  lemma {:induction false} FinishReturns(p: bool, e: int, ds: seq<byte>, c: int, same: bool, t: int, unit: int,
                                         beyond: byte, last1: int, gap: int, last2: int, out: Outcome)
    requires Finishable(p, e, ds, c, same, t, last1, gap, last2) && unit == e + 1 - |ds|
    requires out == FinalOutcome(p, e, ds, c, same, last1, gap, last2, beyond)
    ensures if out == Unspecified then t == 0 else Denotes(unit, out, t)
  {
    if last1 <= gap {
      ApartReturned(p, e, ds, c, t, beyond, unit, out);
    } else {
      SettledFinishes(p, e, ds, c, same, t, unit, beyond, last1, gap, last2, out);
    }
  }

  lemma {:induction false} RowFinishes(a: seq<byte>, b: seq<byte>, front: byte, p: bool, e: int, ds: seq<byte>, c: int,
                                       t: int)
    requires RowOf(a, b, front, p, e, ds, c, t) && InRange(e + 1 - |ds|, t) && KeepsTwenty(e, e + 1 - |ds|, t)
    ensures Finishable(p, e, ds, c, p == IsPositive(b), t, |a| - 1, Gap(a, b), Gap(a, b) + |b| - 1)
  {
    RowEnds(a, b, front, p, e, ds, c, t);
  }

  /**
   A row whose number is in range, and keeps its last digit when it carries, is returned exactly. A number
   of zero may send the scan for a leading digit past the row.
   */
  lemma {:induction false} RowIsReturned(a: seq<byte>, b: seq<byte>, front: byte, beyond: byte, t: int, out: Outcome)
    requires Aligned(a, b) && t == RowSum(a, b, front) && out == AddAligned(a, b, front, beyond)
    requires InRange(RowUnit(a, b), t) && KeepsTwenty(Exponent(a), RowUnit(a, b), t)
    ensures if out == Unspecified then t == 0 else Denotes(RowUnit(a, b), out, t)
  {
    var p, e, r := IsPositive(a), Exponent(a), SumRow(a, b, front);
    RowFacts(a, b, front, p, e, r.0, r.1, t);
    RowFinishes(a, b, front, p, e, r.0, r.1, t);
    FinalStep(a, b, front, beyond);
    FinishReturns(p, e, r.0, r.1, p == IsPositive(b), t, RowUnit(a, b), beyond, |a| - 1, Gap(a, b),
                  Gap(a, b) + |b| - 1, out);
  }

  /** Rounded once, the result is the row's number exactly. */
  lemma {:induction false} OnceIsExact(a: seq<byte>, b: seq<byte>, front: byte, beyond: byte, t: int, out: Outcome)
    requires Rounds(a, b) && out == AddAligned(a, b, front, beyond)
    requires t == RowSum(a, b, front) && InRange(LastPosition(a), t) && !RoundsTwice(t)
    ensures if out == Unspecified then t == 0 else Near(a, out, t, 0)
  {
    RowIsFull(a, b, front);
    RowIsReturned(a, b, front, beyond, t, out);
  }

  /** Operands that do not overlap carry into a row of zeros. */
  lemma {:induction false} CarriedOverlaps(a: seq<byte>, b: seq<byte>, front: byte, p: bool, ds: seq<byte>, c: int,
                                          t: int)
    requires Aligned(a, b) && p == IsPositive(a) && (ds, c) == SumRow(a, b, front) && c != 0
    requires |ds| == Positions(a, b) == MAX_DIGIT_COUNT
    requires t == Padded(p, ds, |ds|) + CarryTimes(c, Pow(100, |ds|)) && t % 100 != 0
    ensures |a| - 1 >= Gap(a, b) + 1
  {
    if |a| - 1 <= Gap(a, b) {
      ApartClearsRow(a, b, front);
      TimesHundredPower(p, t, |ds|);
      assert false;
    }
  }

  /** A full row that is worth a 21st position has a carry, and a sum in range leaves the exponent room for it. */
  lemma {:induction false} CarryFromSize(p: bool, e: int, ds: seq<byte>, carry: int, unit: int, t: int)
    requires |ds| == MAX_DIGIT_COUNT && DigitsOk(p, ds) && (carry == 0 || carry == Unit(p)) && unit == e + 1 - |ds|
    requires t == Padded(p, ds, |ds|) + CarryTimes(carry, Pow(100, |ds|)) && InRange(unit, t)
    requires CarriesDigit(t, |ds|)
    ensures carry == Unit(p) && e < MAX_EXPONENT && TrimTail(p, ds) == ds
  {
    PaddedBounds(p, ds, |ds|);
    CarryInRange(p, e, unit, t);
    LastDigitStays(p, ds, carry, t);
  }

  lemma TimesHundredPower(p: bool, t: int, n: nat)
    requires n > 0 && t == Signed(p, Pow(100, n))
    ensures t % 100 == 0
  {
    var q: int := Pow(100, n - 1);
    assert Pow(100, n) == 100 * q;
    if !p { assert t == 100 * (0 - q); }
  }

  /** A row that is not a multiple of 100 ends in a digit, so nothing is trimmed. */
  lemma {:induction false} LastDigitStays(p: bool, ds: seq<byte>, carry: int, t: int)
    requires |ds| == MAX_DIGIT_COUNT && DigitsOk(p, ds) && (carry == 0 || carry == Unit(p))
    requires t == Padded(p, ds, |ds|) + CarryTimes(carry, Pow(100, |ds|)) && t % 100 != 0
    ensures TrimTail(p, ds) == ds
  {
    var n := |ds|;
    if ds[n - 1] == Blank(p) {
      BlankLast(p, ds, n, carry, t);
      assert false;
    }
  }

  lemma {:induction false} BlankLast(p: bool, ds: seq<byte>, n: nat, carry: int, t: int)
    requires |ds| == n > 0 && ds[n - 1] == Blank(p) && -1 <= carry <= 1
    requires t == Padded(p, ds, n) + CarryTimes(carry, Pow(100, n))
    ensures t % 100 == 0
  {
    SplitLast(p, ds);
    CarryOfHundred(carry, Pow(100, n - 1), Pow(100, n), Padded(p, ds[..n - 1], n - 1), Padded(p, ds, n), t);
  }

  lemma CarryOfHundred(carry: int, q: int, weight: int, x: int, row: int, t: int)
    requires weight == 100 * q && row == 100 * x && t == row + CarryTimes(carry, weight) && -1 <= carry <= 1
    ensures t % 100 == 0
  {
    assert t == 100 * (x + CarryTimes(carry, q));
  }

  lemma {:induction false} CarryBranch(p: bool, e: int, ds: seq<byte>, c: int, same: bool, last1: int, gap: int,
                                       last2: int, beyond: byte)
    requires DigitsOk(p, ds) && ds != [] && TrimTail(p, ds) == ds && gap < last1 && gap < last2
    ensures var out := FinalOutcome(p, e, ds, c, same, last1, gap, last2, beyond);
            out == Finish(p, e, ds, c, true) || out == Finish(p, e, ds, c, false)
  {
  }

  lemma {:induction false} CarryOutcome(a: seq<byte>, e: int, ds: seq<byte>, p: bool, out: Outcome, t: int)
    requires |a| > 0 && DigitsOk(p, ds) && |ds| == MAX_DIGIT_COUNT && MIN_EXPONENT <= e < MAX_EXPONENT
    requires LastPosition(a) == e + 1 - MAX_DIGIT_COUNT && t == Total(p, e, ds, Unit(p), e + 1 - MAX_DIGIT_COUNT)
    requires out == Finish(p, e, ds, Unit(p), true) || out == Finish(p, e, ds, Unit(p), false)
    ensures Near(a, out, t, 50)
  {
    if out == Finish(p, e, ds, Unit(p), true) {
      OverflowRounds(p, e, ds, true);
    } else {
      OverflowRounds(p, e, ds, false);
    }
  }

  /** A full row in range, worth t, whose carry drops a last digit that is not zero. */
  ghost predicate Overflows(a: seq<byte>, b: seq<byte>, front: byte, p: bool, e: int, ds: seq<byte>, c: int, t: int)
  {
    RowOf(a, b, front, p, e, ds, c, t) && |ds| == MAX_DIGIT_COUNT && InRange(e + 1 - |ds|, t) && CarriesDigit(t, |ds|)
  }

  lemma {:induction false} CarriedRow(a: seq<byte>, b: seq<byte>, front: byte, p: bool, e: int, ds: seq<byte>, c: int,
                                      t: int)
    requires Overflows(a, b, front, p, e, ds, c, t)
    ensures c == Unit(p) && e < MAX_EXPONENT && TrimTail(p, ds) == ds && |a| - 1 >= Gap(a, b) + 1
  {
    CarryFromSize(p, e, ds, c, e + 1 - |ds|, t);
    CarriedOverlaps(a, b, front, p, ds, c, t);
  }

  /** A carry that drops a last digit which is not zero leaves the result at most 50 units of its position off. */
  lemma {:induction false} TwiceIsNear(a: seq<byte>, b: seq<byte>, front: byte, beyond: byte, p: bool, e: int,
                                       ds: seq<byte>, c: int, t: int, out: Outcome)
    requires Overflows(a, b, front, p, e, ds, c, t) && out == AddAligned(a, b, front, beyond)
    ensures Near(a, out, t, 50)
  {
    CarriedRow(a, b, front, p, e, ds, c, t);
    FinalStep(a, b, front, beyond);
    CarryBranch(p, e, ds, c, p == IsPositive(b), |a| - 1, Gap(a, b), Gap(a, b) + |b| - 1, beyond);
    CarryOutcome(a, e, ds, p, out, t);
  }

  lemma {:induction false} RowOverflows(a: seq<byte>, b: seq<byte>, front: byte, p: bool, e: int, ds: seq<byte>, c: int,
                                        t: int)
    requires Rounds(a, b) && (ds, c) == SumRow(a, b, front) && (p, e) == (IsPositive(a), Exponent(a))
    requires t == RowSum(a, b, front) && InRange(LastPosition(a), t) && RoundsTwice(t)
    ensures Overflows(a, b, front, p, e, ds, c, t)
  {
    RowIsFull(a, b, front);
    RowFacts(a, b, front, p, e, ds, c, t);
  }

  lemma {:induction false} TwiceRounded(a: seq<byte>, b: seq<byte>, front: byte, beyond: byte, t: int, out: Outcome)
    requires Rounds(a, b) && out == AddAligned(a, b, front, beyond)
    requires t == RowSum(a, b, front) && InRange(LastPosition(a), t) && RoundsTwice(t)
    ensures Near(a, out, t, 50)
  {
    var p, e, r := IsPositive(a), Exponent(a), SumRow(a, b, front);
    RowOverflows(a, b, front, p, e, r.0, r.1, t);
    TwiceIsNear(a, b, front, beyond, p, e, r.0, r.1, t, out);
  }

  lemma {:induction false} RowIsRounded(a: seq<byte>, b: seq<byte>, front: byte, t: int, w: nat)
    requires Rounds(a, b) && t == RowSum(a, b, front)
    requires CommonUnit(a, b) < LastPosition(a) && w == Pow(100, LastPosition(a) - CommonUnit(a, b))
    ensures 2 * Abs(t * w - SumIn(a, b)) <= w
  {
    RowRounds(a, b, front);
  }

  lemma TwoErrors(x: int, t: int, w: nat, v: int, off: nat)
    requires Abs(x - t) <= off && 2 * Abs(t * w - v) <= w
    ensures 2 * Abs(x * w - v) <= 2 * (off * w) + w
  {
    var d := x - t;
    assert x * w == t * w + d * w;
    MulLe(d, off, w);
    MulLe(0 - off, d, w);
    assert (0 - off) * w == 0 - off * w;
  }

  /** Digits are dropped, and the rounded sum t is in range; w is a unit of its last position. */
  ghost predicate RoundsTo(a: seq<byte>, b: seq<byte>, front: byte, t: int, w: nat)
  {
    && Rounds(a, b) && t == RowSum(a, b, front) && InRange(LastPosition(a), t)
    && CommonUnit(a, b) < LastPosition(a) && w == Pow(100, LastPosition(a) - CommonUnit(a, b))
  }

  /**
   The error when digits are dropped: at most half a unit of the last of twenty positions, and at most 50 units
   more when a carry out of the full row makes the last digit drop as well. A rounded sum of zero may send the
   scan for a leading digit past the row.
   */
  ghost predicate OffByRounding(a: seq<byte>, out: Outcome, t: int, w: nat, exact: int)
  {
    |a| > 0 &&
    if out == Unspecified then t == 0
    else
      && out.Sum? && |out.bytes| > 0 && Covers(LastPosition(a), out.bytes)
      && 2 * Abs(ValueIn(LastPosition(a), out.bytes) * w - exact) <= if RoundsTwice(t) then 101 * w else w
  }

  /** The error of addition when digits are dropped and the rounded sum is in range. */
  lemma {:induction false} RoundedResult(a: seq<byte>, b: seq<byte>, front: byte, beyond: byte, t: int, w: nat,
                                         out: Outcome)
    requires RoundsTo(a, b, front, t, w) && out == AddAligned(a, b, front, beyond)
    ensures OffByRounding(a, out, t, w, SumIn(a, b))
  {
    RowIsRounded(a, b, front, t, w);
    if RoundsTwice(t) {
      TwiceRounded(a, b, front, beyond, t, out);
      TwoErrors(ValueIn(LastPosition(a), out.bytes), t, w, SumIn(a, b), 50);
    } else {
      OnceIsExact(a, b, front, beyond, t, out);
    }
  }

  /** The operand with the larger magnitude, and the other one. */
  function Larger(a: seq<byte>, b: seq<byte>): seq<byte>
    requires |a| > 0 && |b| > 0
  {
    if Order(a, b) >= 0 then a else b
  }

  function Smaller(a: seq<byte>, b: seq<byte>): seq<byte>
    requires |a| > 0 && |b| > 0
  {
    if Order(a, b) >= 0 then b else a
  }

  /** The byte in front of the smaller operand's digits. */
  function FrontOf(a: seq<byte>, b: seq<byte>, stray: byte): byte
    requires |a| > 0 && |b| > 0
  {
    FrontByte(Smaller(a, b)[0], Gap(Larger(a, b), Smaller(a, b)), stray)
  }

  /** The routine puts the larger operand first. */
  lemma {:induction false} LargerFirst(a: seq<byte>, b: seq<byte>, stray: byte, beyond: byte)
    requires Operand(a) && Operand(b) && Aligned(Larger(a, b), Smaller(a, b))
    ensures AddSpec(a, b, stray, beyond) == AddAligned(Larger(a, b), Smaller(a, b), FrontOf(a, b, stray), beyond)
  {
    OrderFlips(a, b);
  }

  /** Within twenty positions the byte in front is not looked at. */
  lemma {:induction false} FrontIsUnread(a: seq<byte>, b: seq<byte>, front: byte, t: int, w: nat)
    requires RoundsTo(a, b, 0, t, w)
    ensures RoundsTo(a, b, front, t, w)
  {
    assert RoundingCarry(a, b, front) == RoundingCarry(a, b, 0);
    assert SumRow(a, b, front) == SumRow(a, b, 0);
    RowIsFull(a, b, front);
  }

  lemma SumEitherWay(a: seq<byte>, b: seq<byte>)
    requires |a| > 0 && |b| > 0
    ensures SumIn(Larger(a, b), Smaller(a, b)) == SumIn(a, b)
  {
  }

  /** The same for the addition routine, whichever operand is larger. */
  lemma {:induction false} AdditionRounds(a: seq<byte>, b: seq<byte>, stray: byte, beyond: byte, t: int, w: nat)
    requires Operand(a) && Operand(b) && RoundsTo(Larger(a, b), Smaller(a, b), 0, t, w)
    ensures OffByRounding(Larger(a, b), AddSpec(a, b, stray, beyond), t, w, SumIn(a, b))
  {
    var front := FrontOf(a, b, stray);
    LargerFirst(a, b, stray, beyond);
    FrontIsUnread(Larger(a, b), Smaller(a, b), front, t, w);
    SumEitherWay(a, b);
    RoundedResult(Larger(a, b), Smaller(a, b), front, beyond, t, w, AddSpec(a, b, stray, beyond));
  }

  // ---------- a carry out of twenty positions ----------

  /** No digit lies too low, but the carry into a 21st position meets a last digit that is not zero. */
  ghost predicate CarriesOver(a: seq<byte>, b: seq<byte>)
  {
    Aligned(a, b) && WithinTwenty(a, b) && InRange(CommonUnit(a, b), SumIn(a, b)) &&
    !KeepsTwenty(Exponent(a), CommonUnit(a, b), SumIn(a, b))
  }

  /** Within twenty positions the row is worth the exact sum. */
  lemma {:induction false} RowSumIsExact(a: seq<byte>, b: seq<byte>, front: byte)
    requires Lined(a, b) && WithinTwenty(a, b)
    ensures RowUnit(a, b) == CommonUnit(a, b) && RowSum(a, b, front) == SumIn(a, b)
  {
    ExactTotal(a, b, front);
  }

  lemma {:induction false} CarriedTotal(a: seq<byte>, b: seq<byte>, front: byte, p: bool, e: int, ds: seq<byte>, c: int)
    requires CarriesOver(a, b) && (ds, c) == SumRow(a, b, front) && (p, e) == (IsPositive(a), Exponent(a))
    ensures CommonUnit(a, b) == e + 1 - |ds| && Overflows(a, b, front, p, e, ds, c, SumIn(a, b))
  {
    RowSumIsExact(a, b, front);
    RowFacts(a, b, front, p, e, ds, c, SumIn(a, b));
  }

  lemma {:induction false} CarryRounds(a: seq<byte>, b: seq<byte>, front: byte, beyond: byte, t: int, out: Outcome)
    requires CarriesOver(a, b) && t == SumIn(a, b) && out == AddAligned(a, b, front, beyond)
    ensures Near(a, out, t, 50)
  {
    var p, e, r := IsPositive(a), Exponent(a), SumRow(a, b, front);
    CarriedTotal(a, b, front, p, e, r.0, r.1);
    TwiceIsNear(a, b, front, beyond, p, e, r.0, r.1, t, out);
  }

  /**
   The one case left in which a sum of digits within twenty positions is in range and not exact: it is off by
   at most 50 units of the last position.
   */
  lemma {:induction false} CarryDropsDigit(a: seq<byte>, b: seq<byte>, stray: byte, beyond: byte)
    requires Operand(a) && Operand(b) && CarriesOver(Larger(a, b), Smaller(a, b))
    ensures Near(Larger(a, b), AddSpec(a, b, stray, beyond), SumIn(a, b), 50)
  {
    LargerFirst(a, b, stray, beyond);
    SumEitherWay(a, b);
    CarryRounds(Larger(a, b), Smaller(a, b), FrontOf(a, b, stray), beyond, SumIn(a, b), AddSpec(a, b, stray, beyond));
  }
}
