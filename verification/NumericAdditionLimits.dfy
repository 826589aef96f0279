/** Symmetry and rounding of NUMERIC addition, and the rows for which it falls short of the exact sum. */
module NumericAdditionLimits {
  import opened CArithmetic
  import opened Powers
  import opened NumericCodec
  import opened NumericCompare
  import opened NumericAddition
  import opened NumericRows
  import opened NumericAdditionLaws
  import opened NumericExactSum

  // ---------- symmetry ----------

  lemma {:induction false} EqualMagnitudes(p: bool, d1: seq<byte>, d2: seq<byte>)
    requires MagnitudeOrder(p, d1, p, d2) == 0
    ensures d1 == d2
  {
    if d1 != [] && d2 != [] {
      EqualMagnitudes(p, d1[1..], d2[1..]);
    }
  }

  /** The order of the operands does not matter. */
  lemma AdditionCommutes(a: seq<byte>, b: seq<byte>, stray: byte, beyond: byte)
    requires Operand(a) && Operand(b)
    ensures AddSpec(a, b, stray, beyond) == AddSpec(b, a, stray, beyond)
  {
    OrderFlips(a, b);
    if !IsZero(a) && !IsZero(b) && Order(a, b) == 0 && IsPositive(a) == IsPositive(b) {
      EqualMagnitudes(IsPositive(a), a[1..], b[1..]);
      assert a == [a[0]] + a[1..] && b == [b[0]] + b[1..];
    }
  }

  // ---------- rounding ----------

  /** Rounding on the first dropped digit is rounding half up of all dropped digits. */
  lemma {:induction false} FirstDigitDecides(p: bool, dropped: seq<byte>)
    requires dropped != [] && DigitsOk(p, dropped)
    ensures var up := if DigitValue(p, dropped[0]) > 49 then Pow(100, |dropped|) else 0;
            2 * Abs(Signed(p, up) - Padded(p, dropped, |dropped|)) <= Pow(100, |dropped|)
  {
    var d, q := DigitValue(p, dropped[0]), Pow(100, |dropped| - 1);
    assert DigitOk(p, dropped[0]);
    PaddedBounds(p, dropped[1..], |dropped| - 1);
    HeadOfMag(p, dropped, |dropped|);
    assert Pow(100, |dropped|) == 100 * q;
    if d > 49 { MulLe(50, d, q); MulLe(d, 99, q); } else { MulLe(0, d, q); MulLe(d, 49, q); }
  }

  /**
   When the smaller operand reaches below position 20 but starts at most 20 positions down, the row
   is the exact sum with an error of at most half a unit of the last position.
   */
  lemma RowRounds(a: seq<byte>, b: seq<byte>, front: byte)
    requires Lined(a, b) && !WithinTwenty(a, b) && Gap(a, b) <= MAX_DIGIT_COUNT
    ensures var u, row, r := CommonUnit(a, b), Exponent(a) + 1 - MAX_DIGIT_COUNT, SumRow(a, b, front);
            && u < row && |r.0| == MAX_DIGIT_COUNT
            && (var w, t := Pow(100, row - u), Total(IsPositive(a), Exponent(a), r.0, r.1, row);
                2 * Abs(t * w - SumIn(a, b)) <= w)
  {
    var u, row := CommonUnit(a, b), Exponent(a) + 1 - MAX_DIGIT_COUNT;
    var w, r := Pow(100, row - u), SumRow(a, b, front);
    RowTotal(a, b, front, row);
    UnitChange(row, row - u, a);
    LowerRounds(a, b, front);
    RowError(Total(IsPositive(a), Exponent(a), r.0, r.1, row), ValueIn(row, a), Lower(a, b),
             RoundingCarry(a, b, front), w, ValueIn(u, a), ValueIn(u, b));
  }

  /** The full row is the first operand and what is kept of the second, rounded. */
  lemma {:induction false} RowTotal(a: seq<byte>, b: seq<byte>, front: byte, row: int)
    requires Lined(a, b) && !WithinTwenty(a, b) && Gap(a, b) <= MAX_DIGIT_COUNT
    requires row == Exponent(a) + 1 - MAX_DIGIT_COUNT
    ensures var r := SumRow(a, b, front);
            && |r.0| == MAX_DIGIT_COUNT && Covers(row, a) && Covers(CommonUnit(a, b), a) && CommonUnit(a, b) < row
            && Total(IsPositive(a), Exponent(a), r.0, r.1, row) ==
               ValueIn(row, a) + Lower(a, b) + RoundingCarry(a, b, front)
  {
    RowReach(a, b, row);
    SumRowTotal(a, b, front);
  }

  lemma RowReach(a: seq<byte>, b: seq<byte>, row: int)
    requires Lined(a, b) && !WithinTwenty(a, b) && row == Exponent(a) + 1 - MAX_DIGIT_COUNT
    ensures Covers(row, a) && CommonUnit(a, b) < row && Positions(a, b) == MAX_DIGIT_COUNT
  {
  }

  lemma RowError(t: int, x: int, y: int, z: int, w: int, first: int, second: int)
    requires t == x + y + z && first == x * w && 2 * Abs(y * w + z * w - second) <= w
    ensures 2 * Abs(t * w - (first + second)) <= w
  {
    ThreeParts(x, y, z, w);
  }

  /** The rounded second operand differs from the exact one by at most half a unit of the last position. */
  lemma LowerRounds(a: seq<byte>, b: seq<byte>, front: byte)
    requires Lined(a, b) && !WithinTwenty(a, b) && Gap(a, b) <= MAX_DIGIT_COUNT
    ensures var u, row := CommonUnit(a, b), Exponent(a) + 1 - MAX_DIGIT_COUNT;
            && u == LowExponent(b) && u < row
            && (var w := Pow(100, row - u);
                2 * Abs(Lower(a, b) * w + RoundingCarry(a, b, front) * w - ValueIn(u, b)) <= w)
  {
    var u, row := CommonUnit(a, b), Exponent(a) + 1 - MAX_DIGIT_COUNT;
    var p, j, w := IsPositive(b), MAX_DIGIT_COUNT - Gap(a, b), Pow(100, row - u);
    LowerIsKept(a, b);
    CarryWeight(a, b, front, w);
    assert b[1..][j] == b[j + 1];
    KeptRounds(p, b[1..], j, row - u, w, if DigitValue(p, b[j + 1]) > 49 then w else 0);
  }

  lemma {:induction false} KeptRounds(p: bool, ds: seq<byte>, j: nat, m: nat, w: int, up: int)
    requires DigitsOk(p, ds) && j < |ds| && m == |ds| - j && w == Pow(100, m)
    requires up == if DigitValue(p, ds[j]) > 49 then w else 0
    ensures 2 * Abs(Padded(p, ds[..j], j) * w + Signed(p, up) - Padded(p, ds, |ds|)) <= w
  {
    var kept, dropped := ds[..j], ds[j..];
    assert ds == kept + dropped;
    PaddedConcat(p, kept, dropped, |ds|);
    PaddedShift(p, kept, j, m);
    FirstDigitDecides(p, dropped);
  }

  lemma CarryWeight(a: seq<byte>, b: seq<byte>, front: byte, w: int)
    requires Lined(a, b) && !WithinTwenty(a, b) && Gap(a, b) <= MAX_DIGIT_COUNT
    ensures var p, j := IsPositive(b), MAX_DIGIT_COUNT - Gap(a, b);
            && 0 <= j + 1 < |b|
            && RoundingCarry(a, b, front) * w == Signed(p, if DigitValue(p, b[j + 1]) > 49 then w else 0)
  {
  }

  lemma LowerIsKept(a: seq<byte>, b: seq<byte>)
    requires Lined(a, b) && !WithinTwenty(a, b) && Gap(a, b) <= MAX_DIGIT_COUNT
    ensures var j := MAX_DIGIT_COUNT - Gap(a, b);
            && Positions(a, b) == MAX_DIGIT_COUNT && 0 <= j < |b| - 1
            && Lower(a, b) == Padded(IsPositive(b), b[1..][..j], j)
  {
  }

  lemma ThreeParts(x: int, y: int, z: int, p: int)
    ensures (x + y + z) * p == x * p + y * p + z * p
  {
  }

  /** A full row with a carry is rounded a second time, to the position above, by at most half of that one. */
  lemma OverflowRounds(p: bool, e: int, ds: seq<byte>, strip: bool)
    requires DigitsOk(p, ds) && |ds| == MAX_DIGIT_COUNT && MIN_EXPONENT <= e < MAX_EXPONENT
    ensures var out := Finish(p, e, ds, Unit(p), strip);
            && out.Sum? && Covers(e + 1 - MAX_DIGIT_COUNT, out.bytes) && !IsZero(out.bytes)
            && Abs(ValueIn(e + 1 - MAX_DIGIT_COUNT, out.bytes) -
                   Total(p, e, ds, Unit(p), e + 1 - MAX_DIGIT_COUNT)) <= 50
  {
    var r := DropLast(p, [DigitByte(p, 1)] + ds);
    OverflowOutcome(p, e, ds, strip, r);
    OverflowValue(p, e, ds, r, e + 1 - MAX_DIGIT_COUNT, MAX_DIGIT_COUNT);
  }

  lemma OverflowValue(p: bool, e: int, ds: seq<byte>, r: seq<byte>, unit: int, n: nat)
    requires DigitsOk(p, ds) && ds != [] && |ds| == n == e + 1 - unit && MIN_EXPONENT <= e < MAX_EXPONENT
    requires r == DropLast(p, [DigitByte(p, 1)] + ds)
    ensures var out := Packed(p, e + 1, r);
            && Covers(unit, out) && !IsZero(out) && Abs(ValueIn(unit, out) - Total(p, e, ds, Unit(p), unit)) <= 50
  {
    DroppedTotal(p, ds);
    PackedValue(p, e + 1, r, unit, n + 1);
  }

  lemma OverflowOutcome(p: bool, e: int, ds: seq<byte>, strip: bool, r: seq<byte>)
    requires DigitsOk(p, ds) && |ds| == MAX_DIGIT_COUNT && e < MAX_EXPONENT && r == DropLast(p, [DigitByte(p, 1)] + ds)
    ensures Finish(p, e, ds, Unit(p), strip) == Sum(Packed(p, e + 1, r))
  {
  }

  lemma PackedValue(p: bool, e: int, ds: seq<byte>, unit: int, n: nat)
    requires ds != [] && MIN_EXPONENT <= e <= MAX_EXPONENT && |ds| <= n == e + 1 - unit
    ensures var r := Packed(p, e, ds); !IsZero(r) && Covers(unit, r) && ValueIn(unit, r) == Padded(p, ds, n)
  {
    HeaderRoundTrip(p, e, ds);
    assert Packed(p, e, ds)[1..] == ds;
  }

  lemma {:induction false} DroppedTotal(p: bool, ds: seq<byte>)
    requires DigitsOk(p, ds) && ds != []
    ensures var r := DropLast(p, [DigitByte(p, 1)] + ds);
            && r[0] != Blank(p) && |r| <= |ds|
            && Abs(Padded(p, r, |ds| + 1) - (Padded(p, ds, |ds|) + CarryTimes(Unit(p), Pow(100, |ds|)))) <= 50
  {
    var all := [DigitByte(p, 1)] + ds;
    DropLastRounds(p, all);
    TimesHundred(p, DropLast(p, all), |ds|);
    PrefixedRow(p, ds);
  }

  lemma {:induction false} PrefixedRow(p: bool, ds: seq<byte>)
    ensures Padded(p, [DigitByte(p, 1)] + ds, |ds| + 1) == Padded(p, ds, |ds|) + Signed(p, Pow(100, |ds|))
  {
    HeadOfPadded(p, [DigitByte(p, 1)] + ds, |ds| + 1);
    assert ([DigitByte(p, 1)] + ds)[1..] == ds;
    SignedTimes(p, 1, Pow(100, |ds|));
  }

  // ---------- where the adder falls short ----------

  /**
   A full row that carries out is left non-canonical exactly when its last digit is rounded down
   and the digit before it is zero.
   */
  lemma OverflowCanonicalIff(p: bool, e: int, ds: seq<byte>, strip: bool)
    requires DigitsOk(p, ds) && |ds| == MAX_DIGIT_COUNT && MIN_EXPONENT <= e < MAX_EXPONENT
    ensures var out := Finish(p, e, ds, Unit(p), strip);
            out.Sum? &&
            (Canonical(out.bytes) <==> DigitValue(p, ds[19]) > 49 || ds[18] != Blank(p))
  {
    var all := [DigitByte(p, 1)] + ds;
    var r := DropLast(p, all);
    DropLastRounds(p, all);
    HeaderRoundTrip(p, e + 1, r);
    assert Packed(p, e + 1, r)[1..] == r;
    assert all[20] == ds[19] && all[19] == ds[18];
    if DigitValue(p, ds[19]) > 49 {
      BumpAddsOne(p, all[..20]);
    }
  }

  /** Read as a digit of b, this byte rounds up. */
  predicate RoundsUp(b: seq<byte>, front: byte)
    requires |b| > 0
  {
    DigitValue(IsPositive(b), front) > 49
  }

  /** So does the header of b: a positive number, or a negative one from 1E22 on. */
  predicate HeaderRoundsUp(b: seq<byte>)
    requires |b| > 0
  {
    IsPositive(b) || Exponent(b) > 10
  }

  /**
   When the second operand starts more than 20 positions down, nothing of it lies inside the row, yet
   the row is the first operand plus a carry taken from a byte that is not one of its digits.
   */
  lemma WideGap(a: seq<byte>, b: seq<byte>, front: byte)
    requires Lined(a, b) && Gap(a, b) > MAX_DIGIT_COUNT
    ensures var row, r := Exponent(a) + 1 - MAX_DIGIT_COUNT, SumRow(a, b, front);
            && |r.0| == MAX_DIGIT_COUNT
            && Total(IsPositive(a), Exponent(a), r.0, r.1, row) == ValueIn(row, a) + RoundingCarry(a, b, front)
            && (RoundingCarry(a, b, front) != 0 <==> RoundsUp(b, front))
  {
    SumRowTotal(a, b, front);
  }

  lemma HeaderAsDigit(b: seq<byte>)
    requires Canonical(b) && !IsZero(b)
    ensures RoundsUp(b, b[0]) <==> HeaderRoundsUp(b)
  {
  }

  function Zeros(n: nat): (r: seq<byte>)
    ensures |r| == n && forall i :: 0 <= i < n ==> r[i] == 1
  {
    seq(n, _ => 1)
  }

  lemma {:induction false} ZeroRows(n: nat)
    ensures AddRows(true, true, Zeros(n), Zeros(n), 0) == (Zeros(n), 0)
    ensures n > 0 ==> AddRows(true, true, Zeros(n), Zeros(n), 1) == (Zeros(n - 1) + [2], 0)
  {
    if n > 0 {
      var x := Zeros(n);
      ZeroRows(n - 1);
      assert x[1..] == Zeros(n - 1) && [1] + Zeros(n - 1) == x;
      if n == 1 {
        assert x[1..] == [] && [2] + [] == Zeros(0) + [2];
      } else {
        assert [1] + (Zeros(n - 2) + [2]) == Zeros(n - 1) + [2];
      }
    }
  }

  /** A single 1 at the top of a row of twenty positions, over nothing. */
  lemma {:induction false} OneOverNothing(x: seq<byte>, y: seq<byte>, n: nat, carry: int)
    requires n >= 2 && x == [2] + Zeros(n - 1) && y == Zeros(n) && 0 <= carry <= 1
    ensures DigitsOk(true, x) && DigitsOk(true, y)
    ensures AddRows(true, true, x, y, carry) ==
            if carry == 1 then ([2] + Zeros(n - 2) + [2], 0) else ([2] + Zeros(n - 1), 0)
  {
    ZeroRows(n - 1);
    assert x[1..] == Zeros(n - 1) == y[1..];
    assert [2] + (Zeros(n - 2) + [2]) == [2] + Zeros(n - 2) + [2];
  }

  /** 1E42 and 1. */
  predicate OneAndE42(a: seq<byte>, b: seq<byte>)
  {
    a == [214, 2] && b == [193, 2]
  }

  /** The row of 1E42 over 1, with the rounding carry and without. */
  lemma {:induction false} OneUnder(a: seq<byte>, b: seq<byte>, front: byte)
    requires OneAndE42(a, b)
    ensures Operand(a) && Operand(b) && IsPositive(a) && IsPositive(b) && Exponent(a) == 21 && Gap(a, b) == 21
    ensures SumRow(a, b, front) ==
            if DigitValue(true, front) > 49 then ([2] + Zeros(18) + [2], 0) else ([2] + Zeros(19), 0)
  {
    var n, carry := MAX_DIGIT_COUNT, if DigitValue(true, front) > 49 then 1 else 0;
    assert a[1..] == [2] && b[1..] == [2];
    var x, y := Row(true, a[1..], 0, n), Row(true, b[1..], 21, n);
    assert x == [2] + Zeros(n - 1) && y == Zeros(n);
    OneOverNothing(x, y, n, carry);
  }

  /**
   1E42 + 1: at a distance of 21 positions the header of the smaller operand is read as a digit and rounds up,
   so a whole unit of the last position is added and the result is 1E42 + 1E4.
   */
  lemma {:induction false} WideGapExample(a: seq<byte>, b: seq<byte>, stray: byte, beyond: byte)
    requires OneAndE42(a, b)
    ensures Operand(a) && Operand(b) && AddSpec(a, b, stray, beyond) == Sum([214] + ([2] + Zeros(18) + [2]))
  {
    var ds: seq<byte> := [2] + Zeros(18) + [2];
    OneUnder(a, b, 193);
    KeptWhole(true, 21, ds, beyond);
    assert Order(a, b) == 1 && FrontByte(b[0], Gap(a, b), stray) == 193;
    ApartBranch(a, b, 193, beyond);
  }

  lemma ApartBranch(a: seq<byte>, b: seq<byte>, front: byte, beyond: byte)
    requires Summand(a) && Summand(b) && !IsZero(a) && !IsZero(b) && Gap(a, b) > |a| - 1
    ensures var r := SumRow(a, b, front);
            AddAligned(a, b, front, beyond) == FinishApart(IsPositive(a), Exponent(a), r.0, r.1, beyond)
  {
  }

  /** A row with non-zero digits at both ends is stored as it is. */
  lemma KeptWhole(p: bool, e: int, ds: seq<byte>, beyond: byte)
    requires ds != [] && ds[0] != Blank(p) && ds[|ds| - 1] != Blank(p)
    ensures TrimTail(p, ds) == ds && FinishApart(p, e, ds, 0, beyond) == Sum(Packed(p, e, ds))
  {
    assert ds[0..] == ds;
  }

  /** 1.01E-130 and -1E-130. */
  predicate SmallPair(a: seq<byte>, b: seq<byte>)
  {
    a == [128, 2, 2] && b == [127, 100]
  }

  /** 1.01E-130 - 1E-130: stripping the leading zero writes exponent -66, which reads back as 62. */
  lemma UncheckedStripExample(a: seq<byte>, b: seq<byte>, stray: byte, beyond: byte)
    requires SmallPair(a, b)
    ensures Operand(a) && Operand(b) && AddSpec(a, b, stray, beyond) == Sum([255, 2])
  {
    var front, ds: seq<byte> := FrontByte(b[0], Gap(a, b), stray), [1, 2];
    SmallPairOrder(a, b);
    SmallPairRow(a, b, front, ds);
    assert ds[1..] == [2] && LeadingBlanks(true, ds) == 1;
    assert Finish(true, -65, ds, 0, true) == Sum([255, 2]);
  }

  lemma SmallPairOrder(a: seq<byte>, b: seq<byte>)
    requires SmallPair(a, b)
    ensures Operand(a) && Operand(b) && Order(a, b) == 1 && Gap(a, b) == 0
  {
    var d1: seq<byte>, d2: seq<byte> := [2, 2], [100];
    assert a[1..] == d1 && b[1..] == d2 && d1[1..] == [2] && d2[1..] == [];
    assert MagnitudeOrder(true, d1[1..], false, d2[1..]) == 1;
  }

  lemma {:induction false} SmallPairRow(a: seq<byte>, b: seq<byte>, front: byte, ds: seq<byte>)
    requires SmallPair(a, b) && Operand(a) && Operand(b) && Gap(a, b) == 0 && ds == [1, 2]
    ensures var r := SumRow(a, b, front); r.0 == ds && r.1 == 0
  {
    var x, y := Row(true, a[1..], 0, 2), Row(false, b[1..], 0, 2);
    assert x == [2, 2] && y == [100, 101];
    SmallPairDigits(x, y, ds);
  }

  lemma {:induction false} SmallPairDigits(x: seq<byte>, y: seq<byte>, ds: seq<byte>)
    requires x == [2, 2] && y == [100, 101] && ds == [1, 2]
    ensures var r := AddRows(true, false, x, y, 0); r.0 == ds && r.1 == 0
  {
    var u: seq<byte>, v: seq<byte> := [2], [101];
    assert x[1..] == u && y[1..] == v && u[1..] == [] && v[1..] == [];
    var low := AddRows(true, false, u, v, 0);
    assert low.0 == [2] && low.1 == 0;
  }
}
