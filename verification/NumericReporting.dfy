/**
 Which sums outside the exponent range NUMERIC addition reports as errors, and what it stores for the others;
 and which sums in range it stores in canonical form.
 */
module NumericReporting {
  import opened CArithmetic
  import opened Powers
  import opened NumericCodec
  import opened NumericCompare
  import opened NumericAddition
  import opened NumericRows
  import opened NumericAdditionLaws
  import opened NumericExactSum
  import opened NumericAdditionLimits
  import opened NumericRounding

  /** The least magnitude beyond the format, 1E126, in units of 100^unit. */
  function Limit(unit: int): nat
    requires unit <= MAX_EXPONENT + 1
  {
    Pow(100, MAX_EXPONENT + 1 - unit)
  }

  // ---------- sums that are too large ----------

  lemma {:induction false} UncarriedSize(p: bool, e: int, ds: seq<byte>, t: int)
    requires DigitsOk(p, ds) && e <= MAX_EXPONENT && t == Padded(p, ds, |ds|)
    ensures Abs(t) < Limit(e + 1 - |ds|)
  {
    PaddedBounds(p, ds, |ds|);
    PowMonotone(100, |ds|, MAX_EXPONENT - e + |ds|);
  }

  /** A carry reaches the limit from the largest exponent only, and meets it when the row is left empty. */
  lemma {:induction false} CarriedSize(p: bool, e: int, ds: seq<byte>, t: int)
    requires DigitsOk(p, ds) && e <= MAX_EXPONENT && t == WithCarry(p, ds, |ds|)
    ensures e < MAX_EXPONENT ==> Abs(t) < Limit(e + 1 - |ds|)
    ensures e == MAX_EXPONENT ==> Abs(t) >= Limit(e + 1 - |ds|)
    ensures e == MAX_EXPONENT ==> (Abs(t) == Limit(e + 1 - |ds|) <==> TrimTail(p, ds) == [])
  {
    var n, r := |ds|, TrimTail(p, ds);
    CarryIsBig(p, ds, n);
    PaddedBounds(p, ds, n);
    TrimKeepsValue(p, ds, n);
    if r != [] { PaddedNonZero(p, r, n); }
    if e < MAX_EXPONENT {
      assert Pow(100, n + 1) == 100 * Pow(100, n);
      PowMonotone(100, n + 1, MAX_EXPONENT - e + n);
    }
  }

  /** The final steps reject a carry out of the largest exponent, unless the trimmed row is empty. */
  lemma {:induction false} StepReports(p: bool, e: int, ds: seq<byte>, c: int, same: bool, last1: int, gap: int,
                                       last2: int, beyond: byte)
    requires DigitsOk(p, ds) && ds != [] && gap < last2 && (last1 > last2 ==> ds[|ds| - 1] != Blank(p))
    ensures FinalOutcome(p, e, ds, c, same, last1, gap, last2, beyond) == OutOfRange <==>
            c != 0 && e >= MAX_EXPONENT && (TrimTail(p, ds) != [] || last1 <= gap)
  {
  }

  lemma {:induction false} RowReports(a: seq<byte>, b: seq<byte>, front: byte, beyond: byte, p: bool, e: int,
                                      ds: seq<byte>, c: int, t: int, out: Outcome)
    requires RowOf(a, b, front, p, e, ds, c, t) && out == AddAligned(a, b, front, beyond)
    ensures out == OutOfRange <==>
            Abs(t) > Limit(e + 1 - |ds|) || (Abs(t) == Limit(e + 1 - |ds|) && |a| - 1 <= Gap(a, b))
  {
    RowEnds(a, b, front, p, e, ds, c, t);
    FinalStep(a, b, front, beyond);
    StepReports(p, e, ds, c, p == IsPositive(b), |a| - 1, Gap(a, b), Gap(a, b) + |b| - 1, beyond);
    if c == 0 { UncarriedSize(p, e, ds, t); } else { CarriedSize(p, e, ds, t); }
  }

  /**
   The sum of the row is reported exactly when it is beyond 1E126, or just 1E126 and the operands do not
   overlap.
   */
  lemma {:induction false} AlignedReportsIff(a: seq<byte>, b: seq<byte>, front: byte, beyond: byte, t: int)
    requires Aligned(a, b) && t == RowSum(a, b, front)
    ensures AddAligned(a, b, front, beyond) == OutOfRange <==>
            Abs(t) > Limit(RowUnit(a, b)) || (Abs(t) == Limit(RowUnit(a, b)) && |a| - 1 <= Gap(a, b))
  {
    var p, e, r := IsPositive(a), Exponent(a), SumRow(a, b, front);
    RowFacts(a, b, front, p, e, r.0, r.1, t);
    RowReports(a, b, front, beyond, p, e, r.0, r.1, t, AddAligned(a, b, front, beyond));
  }

  /** What a lone carry out of the largest exponent is stored as: 1E-130 for 1E126, and 99E124 for -1E126. */
  function WrappedLimit(positive: bool): seq<byte>
  {
    if positive then [128, 2] else [255, 100]
  }

  lemma {:induction false} StepWraps(p: bool, e: int, ds: seq<byte>, c: int, same: bool, last1: int, gap: int,
                                     last2: int, beyond: byte)
    requires DigitsOk(p, ds) && ds != [] && gap < last1 && gap < last2 && (last1 > last2 ==> ds[|ds| - 1] != Blank(p))
    requires c != 0 && e == MAX_EXPONENT && TrimTail(p, ds) == []
    ensures FinalOutcome(p, e, ds, c, same, last1, gap, last2, beyond) == Sum(WrappedLimit(p))
  {
  }

  lemma {:induction false} RowWraps(a: seq<byte>, b: seq<byte>, front: byte, beyond: byte, p: bool, e: int,
                                    ds: seq<byte>, c: int, t: int)
    requires RowOf(a, b, front, p, e, ds, c, t) && Abs(t) == Limit(e + 1 - |ds|) && |a| - 1 > Gap(a, b)
    ensures AddAligned(a, b, front, beyond) == Sum(WrappedLimit(t > 0))
  {
    RowEnds(a, b, front, p, e, ds, c, t);
    FinalStep(a, b, front, beyond);
    if c == 0 { UncarriedSize(p, e, ds, t); } else { CarriedSize(p, e, ds, t); }
    StepWraps(p, e, ds, c, p == IsPositive(b), |a| - 1, Gap(a, b), Gap(a, b) + |b| - 1, beyond);
  }

  // ---------- sums that are too small ----------

  /** Digits that make up t and start with one that is not zero, k positions down. */
  ghost predicate Remains(p: bool, rest: seq<byte>, n: nat, k: nat, t: int)
  {
    k < n && rest != [] && |rest| <= n - k && DigitsOk(p, rest) && rest[0] != Blank(p) && Padded(p, rest, n - k) == t
  }

  lemma {:induction false} FinishStrips(p: bool, e: int, ds: seq<byte>, n: nat, t: int)
    returns (k: nat, rest: seq<byte>)
    requires DigitsOk(p, ds) && ds != [] && ds[|ds| - 1] != Blank(p) && |ds| <= n && t == Padded(p, ds, n)
    ensures Remains(p, rest, n, k, t) && Finish(p, e, ds, 0, true) == Sum(Packed(p, e - k, rest))
  {
    k, rest := StrippedParts(p, ds, n);
    StrippedOutcome(p, e, ds);
  }

  lemma {:induction false} TrimmedStrips(p: bool, e: int, ds: seq<byte>, t: int) returns (k: nat, rest: seq<byte>)
    requires DigitsOk(p, ds) && t == Padded(p, ds, |ds|) && t != 0
    ensures Remains(p, rest, |ds|, k, t) && FinishTrimmed(p, e, ds, 0, true) == Sum(Packed(p, e - k, rest))
  {
    var r := TrimTail(p, ds);
    TrimKeepsValue(p, ds, |ds|);
    k, rest := FinishStrips(p, e, r, |ds|, t);
  }

  lemma {:induction false} ApartStrips(p: bool, e: int, ds: seq<byte>, beyond: byte, t: int)
    returns (k: nat, rest: seq<byte>)
    requires DigitsOk(p, ds) && t == Padded(p, ds, |ds|) && t != 0
    ensures Remains(p, rest, |ds|, k, t) && FinishApart(p, e, ds, 0, beyond) == Sum(Packed(p, e - k, rest))
  {
    if LeadingBlanks(p, ds) == |ds| { BlanksAreZero(p, ds, |ds|); }
    k, rest := ApartParts(p, e, ds, beyond);
  }

  /** Without a carry, operands of opposite sign are packed from the first digit of the row that is not zero. */
  lemma {:induction false} StepStrips(p: bool, e: int, ds: seq<byte>, last1: int, gap: int, last2: int, beyond: byte,
                                      t: int, out: Outcome)
    returns (k: nat, rest: seq<byte>)
    requires DigitsOk(p, ds) && ds != [] && gap < last2 && (last1 > last2 ==> ds[|ds| - 1] != Blank(p))
    requires t == Padded(p, ds, |ds|) && t != 0
    requires out == FinalOutcome(p, e, ds, 0, false, last1, gap, last2, beyond)
    ensures Remains(p, rest, |ds|, k, t) && out == Sum(Packed(p, e - k, rest))
  {
    if last1 <= gap {
      k, rest := ApartStrips(p, e, ds, beyond, t);
    } else if last1 > last2 {
      k, rest := FinishStrips(p, e, ds, |ds|, t);
    } else {
      k, rest := TrimmedStrips(p, e, ds, t);
    }
  }

  /** The header of an exponent below the range reads as a positive number, 256 decimal places up if it was one. */
  lemma {:induction false} LowPacked(p: bool, x: int, rest: seq<byte>, unit: int, n: nat, t: int, r: seq<byte>)
    requires Remains(p, rest, n, 0, t) && n == x + 1 - unit && -85 < x
    requires unit <= MIN_EXPONENT && Abs(t) < Pow(100, MIN_EXPONENT - unit)
    requires r == Packed(p, x, rest)
    ensures IsPositive(r) && (p ==> Covers(unit + 128, r) && ValueIn(unit + 128, r) == t)
  {
    PaddedLeading(p, rest, n);
    if x >= MIN_EXPONENT { PowMonotone(100, MIN_EXPONENT - unit, n - 1); }
    WrappedHeader(p, x, rest);
    assert r[1..] == rest;
  }

  /** What is stored for a sum below 1E-130: a positive number, and 256 decimal places too large for a positive sum. */
  ghost predicate Misplaced(unit: int, out: Outcome, t: int)
  {
    && out.Sum? && |out.bytes| > 0 && IsPositive(out.bytes)
    && (t > 0 ==> Covers(unit + 128, out.bytes) && ValueIn(unit + 128, out.bytes) == t)
  }

  /** A row of so small a number has no carry, and its operands have opposite signs. */
  lemma {:induction false} SmallRow(a: seq<byte>, b: seq<byte>, front: byte, p: bool, e: int, ds: seq<byte>, c: int,
                                    t: int)
    requires RowOf(a, b, front, p, e, ds, c, t) && e + 1 - |ds| <= MIN_EXPONENT
    requires Abs(t) < Pow(100, MIN_EXPONENT - (e + 1 - |ds|))
    ensures c == 0 && p != IsPositive(b)
  {
    PowMonotone(100, MIN_EXPONENT - (e + 1 - |ds|), |ds| - 1);
  }

  lemma {:induction false} RowMisplaces(a: seq<byte>, b: seq<byte>, front: byte, beyond: byte, p: bool, e: int,
                                        ds: seq<byte>, c: int, t: int, unit: int, out: Outcome)
    requires RowOf(a, b, front, p, e, ds, c, t) && out == AddAligned(a, b, front, beyond)
    requires t != 0 && unit == e + 1 - |ds| <= MIN_EXPONENT && Abs(t) < Pow(100, MIN_EXPONENT - unit)
    ensures Misplaced(unit, out, t)
  {
    SmallRow(a, b, front, p, e, ds, c, t);
    RowEnds(a, b, front, p, e, ds, c, t);
    FinalStep(a, b, front, beyond);
    var k, rest := StepStrips(p, e, ds, |a| - 1, Gap(a, b), Gap(a, b) + |b| - 1, beyond, t, out);
    LowPacked(p, e - k, rest, unit, |ds| - k, t, out.bytes);
  }

  /** A sum below 1E-130 is never reported. */
  lemma {:induction false} AlignedMisplaces(a: seq<byte>, b: seq<byte>, front: byte, beyond: byte, t: int)
    requires Aligned(a, b) && t == RowSum(a, b, front) && t != 0
    requires RowUnit(a, b) <= MIN_EXPONENT && Abs(t) < Pow(100, MIN_EXPONENT - RowUnit(a, b))
    ensures Misplaced(RowUnit(a, b), AddAligned(a, b, front, beyond), t)
  {
    var p, e, r := IsPositive(a), Exponent(a), SumRow(a, b, front);
    RowFacts(a, b, front, p, e, r.0, r.1, t);
    RowMisplaces(a, b, front, beyond, p, e, r.0, r.1, t, RowUnit(a, b), AddAligned(a, b, front, beyond));
  }

  // ---------- canonical results ----------

  /** A 21st position is carried into, the last one rounds down, and the one above it is zero. */
  predicate LeavesZero(t: int)
  {
    Abs(t) >= Pow(100, MAX_DIGIT_COUNT) && 0 < Abs(t) % 100 <= 49 && Abs(t) / 100 % 100 == 0
  }

  /** The last two digits of a full row with its carry. */
  lemma {:induction false} LastTwo(p: bool, ds: seq<byte>, t: int, n: nat)
    requires DigitsOk(p, ds) && |ds| == n >= 2 && t == WithCarry(p, ds, n)
    ensures Abs(t) % 100 == DigitValue(p, ds[n - 1]) && Abs(t) / 100 % 100 == DigitValue(p, ds[n - 2])
  {
    var high := ds[..n - 1];
    CarryIsBig(p, ds, n);
    SplitLast(p, ds);
    SplitLast(p, high);
    assert high[..n - 2] == ds[..n - 2] && DigitOk(p, ds[n - 1]) && DigitOk(p, ds[n - 2]);
    assert Pow(100, n) == 100 * Pow(100, n - 1) && Pow(100, n - 1) == 100 * Pow(100, n - 2);
    TwoDigits(Abs(t), Signed(p, Padded(p, ds[..n - 2], n - 2)) + Pow(100, n - 2), DigitValue(p, ds[n - 2]),
              DigitValue(p, ds[n - 1]));
  }

  lemma TwoDigits(m: int, x: int, second: int, last: int)
    requires m == 100 * (100 * x + second) + last && 0 <= second < 100 && 0 <= last < 100
    ensures m % 100 == last && m / 100 % 100 == second
  {
    assert m / 100 == 100 * x + second;
  }

  lemma NegatedMultiple(v: int)
    ensures Abs(v) % 100 == 0 <==> v % 100 == 0
  {
  }

  lemma {:induction false} ShortRow(p: bool, ds: seq<byte>, c: int, t: int, n: nat)
    requires DigitsOk(p, ds) && |ds| < n && (c == 0 || c == Unit(p))
    requires t == Padded(p, ds, |ds|) + CarryTimes(c, Pow(100, |ds|))
    ensures Abs(t) < Pow(100, n)
  {
    PaddedBounds(p, ds, |ds|);
    BelowNext(Padded(p, ds, |ds|), c, t, Pow(100, |ds|));
    assert Pow(100, |ds| + 1) == 100 * Pow(100, |ds|);
    PowMonotone(100, |ds| + 1, n);
  }

  lemma BelowNext(row: int, c: int, t: int, q: nat)
    requires Abs(row) < q && -1 <= c <= 1 && t == row + CarryTimes(c, q)
    ensures Abs(t) < 100 * q
  {
  }

  /** A number that loses no digit to a carry leaves no zero either. */
  lemma {:induction false} KeptLeavesNone(p: bool, e: int, ds: seq<byte>, c: int, t: int)
    requires DigitsOk(p, ds) && |ds| <= MAX_DIGIT_COUNT && (c == 0 || c == Unit(p))
    requires t == Padded(p, ds, |ds|) + CarryTimes(c, Pow(100, |ds|)) && KeepsTwenty(e, e + 1 - |ds|, t)
    ensures !LeavesZero(t)
  {
    if |ds| < MAX_DIGIT_COUNT {
      ShortRow(p, ds, c, t, MAX_DIGIT_COUNT);
    } else if t % 100 == 0 {
      NegatedMultiple(t);
    }
  }

  lemma {:induction false} OverflowedCanonicalIff(a: seq<byte>, b: seq<byte>, front: byte, beyond: byte, p: bool,
                                                  e: int, ds: seq<byte>, c: int, t: int, out: Outcome)
    requires Overflows(a, b, front, p, e, ds, c, t) && out == AddAligned(a, b, front, beyond)
    ensures out.Sum? && (Canonical(out.bytes) <==> !LeavesZero(t))
  {
    CarriedRow(a, b, front, p, e, ds, c, t);
    FinalStep(a, b, front, beyond);
    CarryBranch(p, e, ds, c, p == IsPositive(b), |a| - 1, Gap(a, b), Gap(a, b) + |b| - 1, beyond);
    OverflowCanonicalIff(p, e, ds, true);
    OverflowCanonicalIff(p, e, ds, false);
    LastTwo(p, ds, t, |ds|);
  }

  lemma {:induction false} LosesDigit(a: seq<byte>, b: seq<byte>, front: byte, p: bool, e: int, ds: seq<byte>, c: int,
                                      t: int)
    requires RowOf(a, b, front, p, e, ds, c, t) && InRange(e + 1 - |ds|, t) && !KeepsTwenty(e, e + 1 - |ds|, t)
    ensures Overflows(a, b, front, p, e, ds, c, t)
  {
  }

  lemma {:induction false} KeptIsCanonical(a: seq<byte>, b: seq<byte>, front: byte, beyond: byte, t: int, out: Outcome)
    requires Aligned(a, b) && t == RowSum(a, b, front) && InRange(RowUnit(a, b), t)
    requires KeepsTwenty(Exponent(a), RowUnit(a, b), t) && out == AddAligned(a, b, front, beyond)
    ensures if out.Sum? then Canonical(out.bytes) else out == Unspecified && t == 0
  {
    RowIsReturned(a, b, front, beyond, t, out);
  }

  /** A sum in range is stored in canonical form unless its row leaves a zero in the last place. */
  lemma {:induction false} AlignedCanonicalIff(a: seq<byte>, b: seq<byte>, front: byte, beyond: byte, p: bool, e: int,
                                               ds: seq<byte>, c: int, t: int, out: Outcome)
    requires RowOf(a, b, front, p, e, ds, c, t) && t == RowSum(a, b, front) && InRange(e + 1 - |ds|, t)
    requires out == AddAligned(a, b, front, beyond)
    ensures if out.Sum? then Canonical(out.bytes) <==> !LeavesZero(t) else out == Unspecified && t == 0
  {
    if KeepsTwenty(e, e + 1 - |ds|, t) {
      KeptIsCanonical(a, b, front, beyond, t, out);
      KeptLeavesNone(p, e, ds, c, t);
    } else {
      LosesDigit(a, b, front, p, e, ds, c, t);
      OverflowedCanonicalIff(a, b, front, beyond, p, e, ds, c, t, out);
    }
  }

  // ---------- the addition routine ----------

  /** Operands that are not zero and do not cancel, and what their row is worth. */
  ghost predicate Adds(a: seq<byte>, b: seq<byte>, stray: byte, t: int)
  {
    && Operand(a) && Operand(b) && Aligned(Larger(a, b), Smaller(a, b))
    && t == RowSum(Larger(a, b), Smaller(a, b), FrontOf(a, b, stray))
  }

  function UnitOf(a: seq<byte>, b: seq<byte>): int
    requires |a| > 0 && |b| > 0 && Gap(Larger(a, b), Smaller(a, b)) >= 0
  {
    RowUnit(Larger(a, b), Smaller(a, b))
  }

  /** No digit of the larger operand is as low as the first of the smaller. */
  predicate Disjoint(a: seq<byte>, b: seq<byte>)
    requires |a| > 0 && |b| > 0
  {
    |Larger(a, b)| - 1 <= Gap(Larger(a, b), Smaller(a, b))
  }

  /**
   For all operands: a sum beyond 1E126, rounded where digits drop, is reported. One that is just 1E126 or
   -1E126 is reported if the operands are disjoint, and is stored as 1E-130 or 99E124 if they overlap.
   */
  lemma {:induction false} OverflowReportedIff(a: seq<byte>, b: seq<byte>, stray: byte, beyond: byte, t: int)
    requires Adds(a, b, stray, t)
    ensures AddSpec(a, b, stray, beyond) == OutOfRange <==>
            Abs(t) > Limit(UnitOf(a, b)) || (Abs(t) == Limit(UnitOf(a, b)) && Disjoint(a, b))
    ensures Abs(t) == Limit(UnitOf(a, b)) && !Disjoint(a, b) ==>
              AddSpec(a, b, stray, beyond) == Sum(WrappedLimit(t > 0))
  {
    var x, y, front := Larger(a, b), Smaller(a, b), FrontOf(a, b, stray);
    LargerFirst(a, b, stray, beyond);
    AlignedReportsIff(x, y, front, beyond, t);
    if Abs(t) == Limit(UnitOf(a, b)) && !Disjoint(a, b) {
      RowFacts(x, y, front, IsPositive(x), Exponent(x), SumRow(x, y, front).0, SumRow(x, y, front).1, t);
      RowWraps(x, y, front, beyond, IsPositive(x), Exponent(x), SumRow(x, y, front).0, SumRow(x, y, front).1, t);
    }
  }

  /** No sum below 1E-130 is reported. */
  lemma {:induction false} UnderflowNeverReported(a: seq<byte>, b: seq<byte>, stray: byte, beyond: byte, t: int)
    requires Adds(a, b, stray, t) && t != 0
    requires UnitOf(a, b) <= MIN_EXPONENT && Abs(t) < Pow(100, MIN_EXPONENT - UnitOf(a, b))
    ensures Misplaced(UnitOf(a, b), AddSpec(a, b, stray, beyond), t)
  {
    LargerFirst(a, b, stray, beyond);
    AlignedMisplaces(Larger(a, b), Smaller(a, b), FrontOf(a, b, stray), beyond, t);
  }

  /** A sum in range is stored, and in canonical form unless it leaves a zero. */
  lemma {:induction false} CanonicalIff(a: seq<byte>, b: seq<byte>, stray: byte, beyond: byte, t: int)
    requires Adds(a, b, stray, t) && InRange(UnitOf(a, b), t)
    ensures var out := AddSpec(a, b, stray, beyond);
            if out.Sum? then Canonical(out.bytes) <==> !LeavesZero(t) else out == Unspecified && t == 0
  {
    var x, y, front := Larger(a, b), Smaller(a, b), FrontOf(a, b, stray);
    var p, e, r := IsPositive(x), Exponent(x), SumRow(x, y, front);
    LargerFirst(a, b, stray, beyond);
    RowFacts(x, y, front, p, e, r.0, r.1, t);
    AlignedCanonicalIff(x, y, front, beyond, p, e, r.0, r.1, t, AddSpec(a, b, stray, beyond));
  }

  // ---------- digits within twenty positions ----------

  lemma {:induction false} LargerIsAligned(a: seq<byte>, b: seq<byte>)
    requires Operand(a) && Operand(b) && !IsZero(a) && !IsZero(b)
    requires Order(a, b) != 0 || IsPositive(a) == IsPositive(b)
    ensures Aligned(Larger(a, b), Smaller(a, b))
  {
    OrderFlips(a, b);
  }

  /** Then the row is worth the exact sum. */
  lemma {:induction false} AddsExactly(a: seq<byte>, b: seq<byte>, stray: byte)
    requires Operand(a) && Operand(b) && !IsZero(a) && !IsZero(b) && WithinTwenty(a, b)
    requires Order(a, b) != 0 || IsPositive(a) == IsPositive(b)
    ensures Adds(a, b, stray, SumIn(a, b)) && UnitOf(a, b) == CommonUnit(a, b)
    ensures Disjoint(a, b) ==> SumIn(a, b) % 100 != 0
  {
    LargerIsAligned(a, b);
    RowSumIsExact(Larger(a, b), Smaller(a, b), FrontOf(a, b, stray));
    SumEitherWay(a, b);
    if Disjoint(a, b) { DisjointIsFine(Larger(a, b), Smaller(a, b)); }
  }

  lemma {:induction false} DisjointIsFine(a: seq<byte>, b: seq<byte>)
    requires Lined(a, b) && |a| - 1 <= Gap(a, b)
    ensures SumIn(a, b) % 100 != 0
  {
    assert CommonUnit(a, b) == LowExponent(b) < LowExponent(a);
    CoarseIsMultiple(LowExponent(b), a);
    FineIsNotMultiple(b);
    OneRest(ValueIn(LowExponent(b), a), ValueIn(LowExponent(b), b));
  }

  lemma LimitIsCoarse(unit: int)
    requires unit <= MAX_EXPONENT
    ensures Limit(unit) > 0 && Limit(unit) % 100 == 0
  {
    assert Limit(unit) == 100 * Pow(100, MAX_EXPONENT - unit);
  }

  /** Of all sums that are too large, exactly 1E126 and -1E126 are not reported. */
  lemma {:induction false} ExactOverflowReportedIff(a: seq<byte>, b: seq<byte>, stray: byte, beyond: byte)
    requires Operand(a) && Operand(b) && !IsZero(a) && !IsZero(b) && WithinTwenty(a, b)
    ensures AddSpec(a, b, stray, beyond) == OutOfRange <==> Abs(SumIn(a, b)) > Limit(CommonUnit(a, b))
    ensures Abs(SumIn(a, b)) == Limit(CommonUnit(a, b)) ==>
              AddSpec(a, b, stray, beyond) == Sum(WrappedLimit(SumIn(a, b) > 0))
  {
    LimitIsCoarse(CommonUnit(a, b));
    if Order(a, b) == 0 && IsPositive(a) != IsPositive(b) {
      Cancels(a, b);
    } else {
      AddsExactly(a, b, stray);
      OverflowReportedIff(a, b, stray, beyond, SumIn(a, b));
      if Abs(SumIn(a, b)) == Limit(CommonUnit(a, b)) && Disjoint(a, b) {
        NegatedMultiple(SumIn(a, b));
        assert false;
      }
    }
  }

  /** A sum below 1E-130 is never reported. */
  lemma {:induction false} ExactUnderflowNeverReported(a: seq<byte>, b: seq<byte>, stray: byte, beyond: byte)
    requires Operand(a) && Operand(b) && !IsZero(a) && !IsZero(b) && WithinTwenty(a, b) && SumIn(a, b) != 0
    requires CommonUnit(a, b) <= MIN_EXPONENT && Abs(SumIn(a, b)) < Pow(100, MIN_EXPONENT - CommonUnit(a, b))
    ensures Misplaced(CommonUnit(a, b), AddSpec(a, b, stray, beyond), SumIn(a, b))
  {
    if Order(a, b) == 0 && IsPositive(a) != IsPositive(b) { Cancels(a, b); }
    AddsExactly(a, b, stray);
    UnderflowNeverReported(a, b, stray, beyond, SumIn(a, b));
  }

  // ---------- examples ----------

  lemma FiftyE124(p: bool, a: seq<byte>)
    requires a == if p then [255, 51] else [0, 51]
    ensures Operand(a) && IsPositive(a) == p && !IsZero(a) && CommonUnit(a, a) == MAX_EXPONENT == Exponent(a)
    ensures SumIn(a, a) == Signed(p, 100)
  {
    var ds: seq<byte> := [51];
    assert a[1..] == ds && ds[1..] == [];
    assert Padded(p, ds, 1) == (51 - Blank(p)) * Pow(100, 0) + Padded(p, ds[1..], 0);
  }

  /**
   50E124 + 50E124: the lone carry is written with exponent 63, which reads back as 1E-130; and the negative
   sum reads back as 99E124.
   */
  lemma UncheckedCarryExample(p: bool, a: seq<byte>, stray: byte, beyond: byte)
    requires a == if p then [255, 51] else [0, 51]
    ensures Operand(a) && AddSpec(a, a, stray, beyond) == Sum(if p then [128, 2] else [255, 100])
  {
    FiftyE124(p, a);
    assert Limit(MAX_EXPONENT) == 100;
    ExactOverflowReportedIff(a, a, stray, beyond);
  }

  function Nines(n: nat): (r: seq<byte>)
    ensures |r| == n && forall i :: 0 <= i < n ==> r[i] == 100
  {
    seq(n, _ => 100)
  }

  lemma {:induction false} NinesValue(n: nat)
    ensures Padded(true, Nines(n), n) == Pow(100, n) - 1
  {
    if n > 0 {
      NinesValue(n - 1);
      assert Nines(n)[1..] == Nines(n - 1);
    }
  }

  /** 1E40 - 1 and 2. */
  predicate NinesAndTwo(a: seq<byte>, b: seq<byte>)
  {
    a == [212] + Nines(20) && b == [193, 3]
  }

  lemma {:induction false} NinesAre(a: seq<byte>, ds: seq<byte>, n: nat)
    requires ds == Nines(n) && n == MAX_DIGIT_COUNT && a == [212] + ds
    ensures Operand(a) && IsPositive(a) && !IsZero(a) && Exponent(a) == 19 && LowExponent(a) == 0
    ensures ValueIn(0, a) == Pow(100, n) - 1
  {
    assert a[1..] == ds && a[|a| - 1] == ds[n - 1];
    NinesValue(n);
  }

  lemma TwoIs(b: seq<byte>)
    requires b == [193, 3]
    ensures Operand(b) && IsPositive(b) && !IsZero(b) && Exponent(b) == 0 && LowExponent(b) == 0 && ValueIn(0, b) == 2
  {
    var ds: seq<byte> := [3];
    assert b[1..] == ds && ds[1..] == [];
    assert Padded(true, ds, 1) == 2 * Pow(100, 0) + Padded(true, ds[1..], 0);
  }

  lemma {:induction false} NinesSum(a: seq<byte>, b: seq<byte>, n: nat, t: int)
    requires NinesAndTwo(a, b) && n == MAX_DIGIT_COUNT && t == Pow(100, n) + 1
    ensures Operand(a) && Operand(b) && !IsZero(a) && !IsZero(b) && WithinTwenty(a, b) && CommonUnit(a, b) == 0
    ensures Order(a, b) == 1 && SumIn(a, b) == t
  {
    NinesAre(a, Nines(n), n);
    TwoIs(b);
    SumOfValues(a, b, 0, t - 2, 2);
  }

  lemma SumOfValues(a: seq<byte>, b: seq<byte>, unit: int, x: int, y: int)
    requires |a| > 0 && |b| > 0 && unit == CommonUnit(a, b) && Covers(unit, a) && Covers(unit, b)
    requires x == ValueIn(unit, a) && y == ValueIn(unit, b)
    ensures SumIn(a, b) == x + y
  {
  }

  lemma {:induction false} OneAbove(n: nat, t: int)
    requires n >= 2 && t == Pow(100, n) + 1
    ensures Abs(t) % 100 == 1 && Abs(t) / 100 % 100 == 0
  {
    assert Pow(100, n) == 100 * Pow(100, n - 1) && Pow(100, n - 1) == 100 * Pow(100, n - 2);
    TwoDigits(t, Pow(100, n - 2), 0, 1);
  }

  /** 1E40 - 1 + 2: the 21st digit is dropped, and a zero is left in the 20th. */
  lemma {:induction false} NotCanonicalExample(a: seq<byte>, b: seq<byte>, stray: byte, beyond: byte)
    requires NinesAndTwo(a, b)
    ensures Operand(a) && Operand(b) && AddSpec(a, b, stray, beyond).Sum?
    ensures !Canonical(AddSpec(a, b, stray, beyond).bytes)
  {
    var t := Pow(100, MAX_DIGIT_COUNT) + 1;
    NinesSum(a, b, MAX_DIGIT_COUNT, t);
    OneAbove(MAX_DIGIT_COUNT, t);
    PowMonotone(100, MAX_DIGIT_COUNT + 1, MAX_EXPONENT + 1);
    AddsExactly(a, b, stray);
    CanonicalIff(a, b, stray, beyond, t);
  }
}
