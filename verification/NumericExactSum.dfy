/** NUMERIC addition is exact precisely when the exact sum fits the format and the adder's twenty positions. */
module NumericExactSum {
  import opened CArithmetic
  import opened Powers
  import opened NumericCodec
  import opened NumericCompare
  import opened NumericAddition
  import opened NumericRows
  import opened NumericAdditionLaws

  /** The exact sum, in the coarsest unit common to the operands. */
  function SumIn(a: seq<byte>, b: seq<byte>): int
    requires |a| > 0 && |b| > 0
  {
    ValueIn(CommonUnit(a, b), a) + ValueIn(CommonUnit(a, b), b)
  }

  /** The first operand's last digit survives when it lies below the second operand. */
  lemma LastDigitKept(a: seq<byte>, b: seq<byte>, front: byte)
    requires Lined(a, b) && |a| - 1 > Gap(a, b) + |b| - 1
    ensures var n, ds := Positions(a, b), SumRow(a, b, front).0;
            n > 0 && |ds| == n && ds[n - 1] != Blank(IsPositive(a))
  {
    var p1, p2, n := IsPositive(a), IsPositive(b), Positions(a, b);
    var x, y := Row(p1, a[1..], 0, n), Row(p2, b[1..], Gap(a, b), n);
    LastDigitPasses(p1, p2, x, y);
    assert x[n - 1] == a[1..][n - 1] == a[|a| - 1];
  }

  lemma ApartIsNonZero(a: seq<byte>, b: seq<byte>, front: byte)
    requires Aligned(a, b) && WithinTwenty(a, b) && |a| - 1 <= Gap(a, b)
    ensures SumIn(a, b) != 0
  {
    var u := CommonUnit(a, b);
    FineMagnitude(a, b, IsPositive(a), IsPositive(b), Exponent(a), Exponent(b), u, ValueIn(u, a), ValueIn(u, b));
  }

  lemma {:induction false} AlignedSettles(a: seq<byte>, b: seq<byte>, front: byte)
    requires Aligned(a, b) && WithinTwenty(a, b)
    requires InRange(CommonUnit(a, b), SumIn(a, b))
    requires KeepsTwenty(Exponent(a), CommonUnit(a, b), SumIn(a, b))
    ensures var p, n, r := IsPositive(a), Positions(a, b), SumRow(a, b, front);
            && Settled(p, Exponent(a), r.0, r.1, SumIn(a, b)) && |r.0| == n && RoundingCarry(a, b, front) == 0
            && CommonUnit(a, b) == Exponent(a) + 1 - n
            && (r.1 == 0 || p == IsPositive(b))
            && Signed(p, SumIn(a, b)) >= 0 && (p == IsPositive(b) ==> Signed(p, SumIn(a, b)) >= Pow(100, n - 1))
  {
    ExactTotal(a, b, front);
    CarryShape(a, b, front);
  }

  /** The final step by the last positions of the operands and the distance between them. */
  function FinalOutcome(p: bool, e: int, ds: seq<byte>, carry: int, same: bool, last1: int, gap: int, last2: int,
                        beyond: byte): Outcome
    requires DigitsOk(p, ds)
  {
    if last1 == last2 then FinishTrimmed(p, e, ds, carry, !same)
    else if last1 < gap + 1 then FinishApart(p, e, ds, carry, beyond)
    else if last1 > last2 then Finish(p, e, ds, carry, true)
    else FinishTrimmed(p, e, ds, carry, true)
  }

  /** Whichever final step a settled row goes through returns its number. */
  lemma {:induction false} SettledFinishes(p: bool, e: int, ds: seq<byte>, carry: int, same: bool, v: int, unit: int,
                                          beyond: byte, last1: int, gap: int, last2: int, out: Outcome)
    requires Settled(p, e, ds, carry, v) && unit == e + 1 - |ds|
    requires out == FinalOutcome(p, e, ds, carry, same, last1, gap, last2, beyond)
    requires same && carry == 0 ==> ds[0] != Blank(p)
    requires last1 != last2 && last1 < gap + 1 ==> if carry == 0 then v != 0 else v == Signed(p, Pow(100, |ds|))
    requires last1 > last2 ==> ds[|ds| - 1] != Blank(p)
    ensures Denotes(unit, out, v)
  {
    if last1 == last2 {
      FinishTrimmedExact(p, e, ds, carry, !same, v, unit, out);
    } else if last1 < gap + 1 {
      FinishApartExact(p, e, ds, carry, v, beyond, unit, out);
    } else if last1 > last2 {
      FinishExact(p, e, ds, carry, true, v, ds, unit, out);
    } else {
      FinishTrimmedExact(p, e, ds, carry, true, v, unit, out);
    }
  }

  lemma {:induction false} AlignedExact(a: seq<byte>, b: seq<byte>, front: byte, beyond: byte)
    requires Aligned(a, b) && WithinTwenty(a, b)
    requires InRange(CommonUnit(a, b), SumIn(a, b))
    requires KeepsTwenty(Exponent(a), CommonUnit(a, b), SumIn(a, b))
    ensures Denotes(CommonUnit(a, b), AddAligned(a, b, front, beyond), SumIn(a, b))
  {
    var p, e, v, r := IsPositive(a), Exponent(a), SumIn(a, b), SumRow(a, b, front);
    var last1, gap, last2, same := |a| - 1, Gap(a, b), Gap(a, b) + |b| - 1, p == IsPositive(b);
    AlignedSettles(a, b, front);
    AlignedEnds(a, b, front);
    FinalStep(a, b, front, beyond);
    SettledFinishes(p, e, r.0, r.1, same, v, CommonUnit(a, b), beyond, last1, gap, last2,
                    AddAligned(a, b, front, beyond));
  }

  /** What the final steps need of the ends of the row. */
  lemma {:induction false} AlignedEnds(a: seq<byte>, b: seq<byte>, front: byte)
    requires Aligned(a, b) && WithinTwenty(a, b)
    requires InRange(CommonUnit(a, b), SumIn(a, b)) && KeepsTwenty(Exponent(a), CommonUnit(a, b), SumIn(a, b))
    ensures var p, r := IsPositive(a), SumRow(a, b, front);
            && r.0 != []
            && (p == IsPositive(b) && r.1 == 0 ==> r.0[0] != Blank(p))
            && (|a| - 1 < Gap(a, b) + 1 ==>
                  if r.1 == 0 then SumIn(a, b) != 0 else SumIn(a, b) == Signed(p, Pow(100, |r.0|)))
            && (|a| - 1 > Gap(a, b) + |b| - 1 ==> r.0[|r.0| - 1] != Blank(p))
  {
    var p, r := IsPositive(a), SumRow(a, b, front);
    AlignedSettles(a, b, front);
    if p == IsPositive(b) && r.1 == 0 { LeadingFromValue(p, r.0); }
    if |a| - 1 < Gap(a, b) + 1 {
      ApartIsNonZero(a, b, front);
      if r.1 != 0 { ApartClearsRow(a, b, front); }
    }
    if |a| - 1 > Gap(a, b) + |b| - 1 { LastDigitKept(a, b, front); }
  }

  /** The adder takes that step. */
  lemma FinalStep(a: seq<byte>, b: seq<byte>, front: byte, beyond: byte)
    requires Lined(a, b)
    ensures var p, e, r := IsPositive(a), Exponent(a), SumRow(a, b, front);
            AddAligned(a, b, front, beyond) ==
            FinalOutcome(p, e, r.0, r.1, p == IsPositive(b), |a| - 1, Gap(a, b), Gap(a, b) + |b| - 1, beyond)
  {
  }

  // ---------- what no outcome can denote ----------

  /** A canonical result of at most twenty digits can only denote numbers in range. */
  lemma OnlyInRange(unit: int, out: Outcome, v: int)
    requires Denotes(unit, out, v)
    ensures InRange(unit, v)
  {
    if !IsZero(out.bytes) { SpanInRange(unit, out.bytes, Exponent(out.bytes), v); }
  }

  lemma {:induction false} SpanInRange(unit: int, r: seq<byte>, e: int, v: int)
    requires Canonical(r) && !IsZero(r) && Covers(unit, r) && e == Exponent(r) && v == ValueIn(unit, r)
    ensures InRange(unit, v)
  {
    MagnitudeBounds(unit, r);
    PowMonotone(100, e + 1 - unit, MAX_EXPONENT + 1 - unit);
    if unit < MIN_EXPONENT { PowMonotone(100, MIN_EXPONENT - unit, e - unit); }
  }

  /** A number that needs a 21st position below its first one has no twenty-digit form. */
  lemma OnlyTwentyDigits(top: int, unit: int, out: Outcome, v: int)
    requires Denotes(unit, out, v) && top - unit == MAX_DIGIT_COUNT - 1
    ensures KeepsTwenty(top, unit, v)
  {
    if !IsZero(out.bytes) {
      if Exponent(out.bytes) <= top {
        BelowTop(top, unit, out.bytes, v);
      } else {
        CoarseIsMultiple(unit, out.bytes);
      }
    }
  }

  lemma {:induction false} BelowTop(top: int, unit: int, r: seq<byte>, v: int)
    requires Canonical(r) && !IsZero(r) && Covers(unit, r) && v == ValueIn(unit, r) && Exponent(r) <= top
    ensures unit <= top + 1 && Abs(v) < Pow(100, top + 1 - unit)
  {
    MagnitudeBounds(unit, r);
    PowMonotone(100, Exponent(r) + 1 - unit, top + 1 - unit);
  }

  lemma CoarseIsMultiple(unit: int, r: seq<byte>)
    requires |r| > 0 && !IsZero(r) && unit < LowExponent(r)
    ensures ValueIn(unit, r) % 100 == 0
  {
    MultipleOfHundred(IsPositive(r), r[1..], Exponent(r) - unit);
  }

  lemma MultipleOfHundred(p: bool, ds: seq<byte>, n: nat)
    requires |ds| <= n
    ensures Padded(p, ds, n + 1) % 100 == 0
  {
    TimesHundred(p, ds, n);
    HundredDivides(Padded(p, ds, n + 1), Padded(p, ds, n));
  }

  lemma HundredDivides(t: int, x: int)
    requires t == 100 * x
    ensures t % 100 == 0
  {
  }

  /** A number whose last digit sits at the unit is not a multiple of the next weight. */
  lemma FineIsNotMultiple(r: seq<byte>)
    requires Canonical(r) && !IsZero(r)
    ensures ValueIn(LowExponent(r), r) % 100 != 0
  {
    var p, ds := IsPositive(r), r[1..];
    SplitLast(p, ds);
    assert ds[|ds| - 1] == r[|r| - 1] && DigitOk(p, ds[|ds| - 1]);
    NotMultiple(Padded(p, ds, |ds|), Padded(p, ds[..|ds| - 1], |ds| - 1), ds[|ds| - 1] - Blank(p));
  }

  // ---------- sums that reach below the twentieth position ----------

  /** A result is one header over digits whose lowest position is not below the row. */
  ghost predicate Shaped(p: bool, e: int, n: nat, carry: int, bytes: seq<byte>, x: int, digits: seq<byte>)
  {
    bytes == Packed(p, x, digits) && digits != [] && x + 1 - |digits| >= e + 1 - n &&
    e - n < x <= e + 1 && (x == e + 1 ==> carry != 0)
  }

  lemma TrimmedShape(p: bool, e: int, ds: seq<byte>, carry: int) returns (x: int, digits: seq<byte>)
    requires DigitsOk(p, ds) && 0 < |ds| <= MAX_DIGIT_COUNT
    requires var out := FinishTrimmed(p, e, ds, carry, true); out.Sum? && out.bytes != ZERO
    ensures Shaped(p, e, |ds|, carry, FinishTrimmed(p, e, ds, carry, true).bytes, x, digits)
  {
    var r := TrimTail(p, ds);
    if r == [] {
      return e + 1, [DigitByte(p, 1)];
    }
    if carry != 0 {
      var all := [DigitByte(p, 1)] + r;
      return e + 1, if |r| == MAX_DIGIT_COUNT then DropLast(p, all) else all;
    }
    return e - LeadingBlanks(p, r), r[LeadingBlanks(p, r)..];
  }

  lemma ApartShape(p: bool, e: int, ds: seq<byte>, carry: int, beyond: byte) returns (x: int, digits: seq<byte>)
    requires 0 < |ds|
    requires var out := FinishApart(p, e, ds, carry, beyond); out.Sum? && out.bytes != ZERO
    ensures Shaped(p, e, |ds|, carry, FinishApart(p, e, ds, carry, beyond).bytes, x, digits)
  {
    if carry != 0 {
      return e + 1, [DigitByte(p, 1)];
    }
    TrimStripKeepsValue(p, ds);
    return e - LeadingBlanks(p, ds), TrimTail(p, ds)[LeadingBlanks(p, ds)..];
  }

  /** Below twenty positions the sum has a non-zero digit the row cannot hold. */
  lemma FineDigit(a: seq<byte>, b: seq<byte>)
    requires Lined(a, b) && !WithinTwenty(a, b)
    ensures var u := CommonUnit(a, b);
            && u == LowExponent(b) && u < Exponent(a) + 1 - MAX_DIGIT_COUNT
            && SumIn(a, b) % 100 != 0
  {
    FineSpan(a, b);
    CoarseIsMultiple(LowExponent(b), a);
    FineIsNotMultiple(b);
    OneRest(ValueIn(LowExponent(b), a), ValueIn(LowExponent(b), b));
  }

  lemma OneRest(x: int, y: int)
    requires x % 100 == 0 && y % 100 != 0
    ensures (x + y) % 100 != 0
  {
    assert x + y == 100 * (x / 100 + y / 100) + y % 100;
  }

  /** Digits below the twentieth position all belong to the second operand, which starts further down. */
  lemma FineSpan(a: seq<byte>, b: seq<byte>)
    requires Lined(a, b) && !WithinTwenty(a, b)
    ensures CommonUnit(a, b) == LowExponent(b) < Exponent(a) + 1 - MAX_DIGIT_COUNT && Exponent(b) < Exponent(a)
  {
  }

  lemma {:induction false} FineMagnitude(a: seq<byte>, b: seq<byte>, p1: bool, p2: bool, e: int, f: int, u: int,
                                         x: int, y: int)
    requires Canonical(a) && !IsZero(a) && Covers(u, a) && p1 == IsPositive(a) && e == Exponent(a) && x == ValueIn(u, a)
    requires Canonical(b) && !IsZero(b) && Covers(u, b) && p2 == IsPositive(b) && f == Exponent(b) && y == ValueIn(u, b)
    requires u <= f < e
    ensures Signed(p1, x + y) > 0 && Abs(x + y) < 2 * Pow(100, e + 1 - u)
    ensures p1 == p2 ==> Abs(x + y) >= Pow(100, e - u)
  {
    SignedBounds(u, a, p1, e - u, x);
    SignedBounds(u, b, p2, f - u, y);
    ApartBounds(p1, p2, e - u, f - u, x, y);
  }

  lemma {:induction false} SignedBounds(unit: int, n: seq<byte>, p: bool, e: nat, v: int)
    requires Canonical(n) && !IsZero(n) && Covers(unit, n) && p == IsPositive(n) && e == Exponent(n) - unit
    requires v == ValueIn(unit, n)
    ensures Pow(100, e) <= Signed(p, v) < Pow(100, e + 1)
  {
    MagnitudeBounds(unit, n);
  }

  lemma {:induction false} ApartBounds(p1: bool, p2: bool, e: nat, f: nat, x: int, y: int)
    requires f < e && Pow(100, e) <= Signed(p1, x) < Pow(100, e + 1) && Pow(100, f) <= Signed(p2, y) < Pow(100, f + 1)
    ensures Signed(p1, x + y) > 0 && Abs(x + y) < 2 * Pow(100, e + 1) && (p1 == p2 ==> Abs(x + y) >= Pow(100, e))
  {
    PowMonotone(100, f + 1, e);
    SumBounds(p1, p2, x, y, Pow(100, f + 1), Pow(100, e), Pow(100, e + 1));
  }

  /** A larger and a strictly smaller magnitude: the sum has the sign of the larger. */
  lemma SumBounds(p1: bool, p2: bool, x: int, y: int, below: int, least: int, most: int)
    requires least <= Signed(p1, x) < most && 0 < Signed(p2, y) < below <= least
    ensures Signed(p1, x + y) > 0 && Abs(x + y) < 2 * most && (p1 == p2 ==> Abs(x + y) >= least)
  {
  }

  /** A header written for an exponent outside the range reads back as a different number. */
  lemma WrappedNeverDenotes(p: bool, x: int, digits: seq<byte>, unit: int, v: int)
    requires -85 < x <= 63 && !(MIN_EXPONENT <= x <= MAX_EXPONENT) && digits != []
    requires Signed(p, v) > 0
    requires x == 63 ==> unit <= 62 && Abs(v) >= Pow(100, 62 - unit)
    requires x < MIN_EXPONENT ==> unit <= x + 20 && Abs(v) < 2 * Pow(100, x + 20 - unit)
    ensures !Denotes(unit, Sum(Packed(p, x, digits)), v)
  {
    var r := Packed(p, x, digits);
    WrappedHeader(p, x, digits);
    if Denotes(unit, Sum(r), v) && !IsZero(r) {
      MagnitudeBounds(unit, r);
      if p && x == 63 {
        PowMonotone(100, MIN_EXPONENT + 1 - unit, 62 - unit);
      } else if p {
        TooSmall(v, x + 20 - unit, x + 128 - unit);
      }
    }
  }

  /** What the header of an exponent outside the range reads back as. */
  lemma WrappedHeader(p: bool, x: int, digits: seq<byte>)
    requires -85 < x <= 63 && !(MIN_EXPONENT <= x <= MAX_EXPONENT)
    ensures var r := Packed(p, x, digits);
            && (!p ==> IsPositive(r))
            && (p ==> IsPositive(r) && Exponent(r) == if x == 63 then MIN_EXPONENT else x + 128)
  {
  }

  lemma TooSmall(v: int, k: nat, e: nat)
    requires k < e && Abs(v) < 2 * Pow(100, k)
    ensures Abs(v) < Pow(100, e)
  {
    assert Pow(100, k + 1) == 100 * Pow(100, k);
    PowMonotone(100, k + 1, e);
  }

  /** What is known of a sum with a non-zero digit below the twenty positions under exponent `e`. */
  ghost predicate Fine(p: bool, e: int, u: int, carry: int, v: int)
  {
    MIN_EXPONENT <= e <= MAX_EXPONENT && u < e + 1 - MAX_DIGIT_COUNT && v % 100 != 0 &&
    Signed(p, v) > 0 && Abs(v) < 2 * Pow(100, e + 1 - u) && (carry != 0 ==> Abs(v) >= Pow(100, e - u))
  }

  lemma {:induction false} FineSum(a: seq<byte>, b: seq<byte>, front: byte, p: bool, e: int, u: int, carry: int, v: int)
    requires Aligned(a, b) && !WithinTwenty(a, b)
    requires p == IsPositive(a) && e == Exponent(a) && u == CommonUnit(a, b) && v == SumIn(a, b)
    requires carry == SumRow(a, b, front).1
    ensures Fine(p, e, u, carry, v)
  {
    FineSpan(a, b);
    FineDigit(a, b);
    FineMagnitude(a, b, p, IsPositive(b), e, Exponent(b), u, ValueIn(u, a), ValueIn(u, b));
    CarrySigns(a, b, front);
  }

  /** Only equal signs carry out of the row. */
  lemma CarrySigns(a: seq<byte>, b: seq<byte>, front: byte)
    requires Aligned(a, b)
    ensures SumRow(a, b, front).1 != 0 ==> IsPositive(a) == IsPositive(b)
  {
    CarryShape(a, b, front);
  }

  lemma {:induction false} BelowTwentyNeverExact(a: seq<byte>, b: seq<byte>, front: byte, beyond: byte)
    requires Aligned(a, b) && !WithinTwenty(a, b)
    ensures !Denotes(CommonUnit(a, b), AddAligned(a, b, front, beyond), SumIn(a, b))
  {
    var p, e, u, r, v := IsPositive(a), Exponent(a), CommonUnit(a, b), SumRow(a, b, front), SumIn(a, b);
    var out := AddAligned(a, b, front, beyond);
    FineSum(a, b, front, p, e, u, r.1, v);
    if out.Sum? && out.bytes != ZERO {
      var x, digits := RowShape(a, b, front, beyond);
      ShapeNeverDenotes(p, e, u, |r.0|, r.1, out, x, digits, v);
    }
  }

  /** The result of the adder is shaped like its row. */
  lemma RowShape(a: seq<byte>, b: seq<byte>, front: byte, beyond: byte) returns (x: int, digits: seq<byte>)
    requires Aligned(a, b) && !WithinTwenty(a, b)
    requires var out := AddAligned(a, b, front, beyond); out.Sum? && out.bytes != ZERO
    ensures var r := SumRow(a, b, front);
            && 0 < |r.0| <= MAX_DIGIT_COUNT
            && Shaped(IsPositive(a), Exponent(a), |r.0|, r.1, AddAligned(a, b, front, beyond).bytes, x, digits)
  {
    var p, e, r := IsPositive(a), Exponent(a), SumRow(a, b, front);
    SumRowTotal(a, b, front);
    if |a| - 1 < Gap(a, b) + 1 {
      x, digits := ApartShape(p, e, r.0, r.1, beyond);
    } else {
      x, digits := TrimmedShape(p, e, r.0, r.1);
    }
  }

  /** A result shaped like the row cannot denote a number with a digit below the row. */
  lemma {:induction false} ShapeNeverDenotes(p: bool, e: int, u: int, n: nat, carry: int, out: Outcome, x: int,
                                             digits: seq<byte>, v: int)
    requires out.Sum? && Shaped(p, e, n, carry, out.bytes, x, digits)
    requires n <= MAX_DIGIT_COUNT && Fine(p, e, u, carry, v)
    ensures !Denotes(u, out, v)
  {
    if MIN_EXPONENT <= x <= MAX_EXPONENT {
      HeaderRoundTrip(p, x, digits);
      if Denotes(u, out, v) { CoarseIsMultiple(u, out.bytes); }
    } else {
      if x < MIN_EXPONENT { PowMonotone(100, e + 1 - u, x + 20 - u); }
      WrappedNeverDenotes(p, x, digits, u, v);
    }
  }

  // ---------- the theorem ----------

  /** What a caller can check before adding: no digit below twenty positions, and a sum the format holds. */
  predicate Addable(a: seq<byte>, b: seq<byte>)
    requires |a| > 0 && |b| > 0
  {
    IsZero(a) || IsZero(b) ||
    (WithinTwenty(a, b) &&
     InRange(CommonUnit(a, b), SumIn(a, b)) &&
     KeepsTwenty(Max(Exponent(a), Exponent(b)), CommonUnit(a, b), SumIn(a, b)))
  }

  lemma {:induction false} AlignedIff(a: seq<byte>, b: seq<byte>, front: byte, beyond: byte)
    requires Aligned(a, b)
    ensures Denotes(CommonUnit(a, b), AddAligned(a, b, front, beyond), SumIn(a, b)) <==> Addable(a, b)
  {
    var u, v, out := CommonUnit(a, b), SumIn(a, b), AddAligned(a, b, front, beyond);
    if !WithinTwenty(a, b) {
      BelowTwentyNeverExact(a, b, front, beyond);
    } else if Addable(a, b) {
      AlignedExact(a, b, front, beyond);
    } else if Denotes(u, out, v) {
      OnlyInRange(u, out, v);
      if Exponent(a) - u == MAX_DIGIT_COUNT - 1 { OnlyTwentyDigits(Exponent(a), u, out, v); }
      assert false;
    }
  }

  /** Equal exponents and magnitudes with opposite signs cancel. */
  lemma Cancels(a: seq<byte>, b: seq<byte>)
    requires Operand(a) && Operand(b) && !IsZero(a) && !IsZero(b)
    requires Order(a, b) == 0 && IsPositive(a) != IsPositive(b)
    ensures SumIn(a, b) == 0 && Addable(a, b)
  {
    var n := Exponent(a) + 1 - CommonUnit(a, b);
    assert a[1..][|a| - 2] == a[|a| - 1] && b[1..][|b| - 2] == b[|b| - 1];
    MagnitudeOrderMeaning(IsPositive(a), a[1..], IsPositive(b), b[1..], n);
  }

  /**
   NUMERIC addition returns a canonical value equal to the exact sum if and only if the operands are
   addable, whatever memory surrounds them.
   */
  lemma {:induction false} AdditionExactIff(a: seq<byte>, b: seq<byte>, stray: byte, beyond: byte)
    requires Operand(a) && Operand(b)
    ensures Denotes(CommonUnit(a, b), AddSpec(a, b, stray, beyond), SumIn(a, b)) <==> Addable(a, b)
  {
    if IsZero(a) || IsZero(b) {
    } else if Order(a, b) == 0 && IsPositive(a) != IsPositive(b) {
      Cancels(a, b);
    } else if Order(a, b) >= 0 {
      AlignedIff(a, b, FrontByte(b[0], Gap(a, b), stray), beyond);
    } else {
      OrderFlips(a, b);
      AlignedIff(b, a, FrontByte(a[0], Gap(b, a), stray), beyond);
    }
  }

  lemma {:induction false} MagnitudeOrderFlips(p1: bool, d1: seq<byte>, p2: bool, d2: seq<byte>)
    ensures MagnitudeOrder(p2, d2, p1, d1) == -MagnitudeOrder(p1, d1, p2, d2)
  {
    if d1 != [] && d2 != [] {
      MagnitudeOrderFlips(p1, d1[1..], p2, d2[1..]);
    }
  }

  lemma OrderFlips(a: seq<byte>, b: seq<byte>)
    requires |a| > 0 && |b| > 0
    ensures Order(b, a) == -Order(a, b)
  {
    MagnitudeOrderFlips(IsPositive(a), a[1..], IsPositive(b), b[1..]);
  }
}
