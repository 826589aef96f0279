/** What NUMERIC addition returns: the exact sum, exactly when the adder's guards allow it. */
module NumericAdditionLaws {
  import opened CArithmetic
  import opened Powers
  import opened NumericCodec
  import opened NumericCompare
  import opened NumericAddition
  import opened NumericRows

  /** The coarsest unit both operands can be counted in. */
  function CommonUnit(a: seq<byte>, b: seq<byte>): int
    requires |a| > 0 && |b| > 0
  {
    Min(LowExponent(a), LowExponent(b))
  }

  /** No digit of either operand lies below the 20th position of the larger exponent. */
  predicate WithinTwenty(a: seq<byte>, b: seq<byte>)
    requires |a| > 0 && |b| > 0
  {
    Max(Exponent(a), Exponent(b)) - CommonUnit(a, b) < MAX_DIGIT_COUNT
  }

  /** The number is zero or has a base-100 exponent the header can hold. */
  predicate InRange(unit: int, v: int)
  {
    v == 0 ||
    ((unit >= MIN_EXPONENT || Abs(v) >= Pow(100, MIN_EXPONENT - unit)) &&
     unit <= MAX_EXPONENT && Abs(v) < Pow(100, MAX_EXPONENT + 1 - unit))
  }

  /** A sum spread over twenty positions that carries into a 21st has a zero in its last position. */
  predicate KeepsTwenty(top: int, unit: int, v: int)
  {
    top - unit < MAX_DIGIT_COUNT - 1 || Abs(v) < Pow(100, top + 1 - unit) || v % 100 == 0
  }

  /** The outcome is a canonical NUMERIC denoting exactly v units. */
  predicate Denotes(unit: int, out: Outcome, v: int)
  {
    out.Sum? && Operand(out.bytes) && Covers(unit, out.bytes) && ValueIn(unit, out.bytes) == v
  }

  // ---------- packing a row ----------

  lemma PackedDenotes(p: bool, e: int, ds: seq<byte>, unit: int)
    requires ds != [] && DigitsOk(p, ds) && ds[0] != Blank(p) && ds[|ds| - 1] != Blank(p)
    requires MIN_EXPONENT <= e <= MAX_EXPONENT && |ds| <= MAX_DIGIT_COUNT && unit <= e + 1 - |ds|
    ensures Denotes(unit, Sum(Packed(p, e, ds)), Padded(p, ds, e + 1 - unit))
  {
    var r := Packed(p, e, ds);
    assert r[1..] == ds;
    HeaderRoundTrip(p, e, ds);
  }

  lemma ZeroDenotes(unit: int)
    ensures Denotes(unit, Sum(ZERO), 0)
  {
  }

  /** A row and its carry, counted in units of 100^unit when the first position has weight 100^e. */
  function Total(p: bool, e: int, ds: seq<byte>, carry: int, unit: int): int
    requires unit <= e + 1 - |ds|
  {
    Padded(p, ds, e + 1 - unit) + CarryTimes(carry, Pow(100, e + 1 - unit))
  }

  /** In range, stripping leading zeros cannot push the exponent below the smallest one. */
  lemma ExponentStays(p: bool, e: int, ds: seq<byte>, unit: int)
    requires ds != [] && DigitsOk(p, ds) && e <= MAX_EXPONENT && unit <= e + 1 - |ds|
    requires Padded(p, ds, e + 1 - unit) != 0 && InRange(unit, Padded(p, ds, e + 1 - unit))
    ensures e >= MIN_EXPONENT
  {
    PaddedBounds(p, ds, e + 1 - unit);
    if unit < MIN_EXPONENT && e < MIN_EXPONENT {
      PowMonotone(100, e + 1 - unit, MIN_EXPONENT - unit);
    }
  }

  lemma PackedInRange(p: bool, e: int, ds: seq<byte>, unit: int)
    requires ds != [] && DigitsOk(p, ds) && ds[0] != Blank(p) && ds[|ds| - 1] != Blank(p)
    requires e <= MAX_EXPONENT && |ds| <= MAX_DIGIT_COUNT && unit <= e + 1 - |ds|
    requires InRange(unit, Padded(p, ds, e + 1 - unit))
    ensures Denotes(unit, Sum(Packed(p, e, ds)), Padded(p, ds, e + 1 - unit))
  {
    PaddedNonZero(p, ds, e + 1 - unit);
    ExponentStays(p, e, ds, unit);
    PackedDenotes(p, e, ds, unit);
  }

  /** The same, with the number of positions and the value named by the caller. */
  lemma PackedOutcome(p: bool, e: int, ds: seq<byte>, unit: int, n: nat, out: Outcome, v: int)
    requires ds != [] && DigitsOk(p, ds) && ds[0] != Blank(p) && ds[|ds| - 1] != Blank(p)
    requires e <= MAX_EXPONENT && |ds| <= MAX_DIGIT_COUNT && |ds| <= n == e + 1 - unit
    requires v == Padded(p, ds, n) && InRange(unit, v) && out == Sum(Packed(p, e, ds))
    ensures Denotes(unit, out, v)
  {
    PackedInRange(p, e, ds, unit);
  }

  lemma StrippedOutcome(p: bool, e: int, ds: seq<byte>)
    requires DigitsOk(p, ds) && LeadingBlanks(p, ds) < |ds|
    ensures Finish(p, e, ds, 0, true) == Sum(Packed(p, e - LeadingBlanks(p, ds), ds[LeadingBlanks(p, ds)..]))
  {
  }

  /** What stripping leaves: non-zero digits at both ends and the same value. */
  lemma StrippedParts(p: bool, ds: seq<byte>, n: nat) returns (k: nat, rest: seq<byte>)
    requires ds != [] && DigitsOk(p, ds) && ds[|ds| - 1] != Blank(p) && |ds| <= n
    ensures k == LeadingBlanks(p, ds) < |ds| && rest == ds[k..] && rest != [] && DigitsOk(p, rest)
    ensures rest[0] != Blank(p) && rest[|rest| - 1] != Blank(p) && |rest| <= n - k
    ensures Padded(p, rest, n - k) == Padded(p, ds, n)
  {
    k, rest := LeadingBlanks(p, ds), ds[LeadingBlanks(p, ds)..];
    assert k < |ds|;
    assert rest[0] == ds[k] && rest[|rest| - 1] == ds[|ds| - 1];
    StripKeepsValue(p, ds, n);
  }

  lemma FinishStripped(p: bool, e: int, ds: seq<byte>, unit: int, n: nat, v: int)
    requires ds != [] && DigitsOk(p, ds) && |ds| <= MAX_DIGIT_COUNT && ds[|ds| - 1] != Blank(p)
    requires e <= MAX_EXPONENT && |ds| <= n == e + 1 - unit && v == Padded(p, ds, n) && InRange(unit, v)
    ensures Denotes(unit, Finish(p, e, ds, 0, true), v)
  {
    var k, rest := StrippedParts(p, ds, n);
    StrippedOutcome(p, e, ds);
    PackedOutcome(p, e - k, rest, unit, n - k, Finish(p, e, ds, 0, true), v);
  }

  lemma FinishUncarried(p: bool, e: int, ds: seq<byte>, strip: bool, unit: int, n: nat, v: int)
    requires ds != [] && DigitsOk(p, ds) && |ds| <= MAX_DIGIT_COUNT && ds[|ds| - 1] != Blank(p)
    requires !strip ==> ds[0] != Blank(p)
    requires e <= MAX_EXPONENT && |ds| <= n == e + 1 - unit && v == Padded(p, ds, n) && InRange(unit, v)
    ensures Denotes(unit, Finish(p, e, ds, 0, strip), v)
  {
    if strip {
      FinishStripped(p, e, ds, unit, n, v);
    } else {
      PackedOutcome(p, e, ds, unit, n, Finish(p, e, ds, 0, strip), v);
    }
  }

  /** A row with its carry. */
  function WithCarry(p: bool, ds: seq<byte>, n: nat): int
    requires |ds| <= n
  {
    Padded(p, ds, n) + CarryTimes(Unit(p), Pow(100, n))
  }

  lemma CarryIsBig(p: bool, ds: seq<byte>, n: nat)
    requires DigitsOk(p, ds) && |ds| <= n
    ensures Signed(p, WithCarry(p, ds, n)) >= Pow(100, n) && Abs(WithCarry(p, ds, n)) >= Pow(100, n)
  {
    PaddedBounds(p, ds, n);
  }

  lemma CarriedParts(p: bool, e: int, ds: seq<byte>, strip: bool, n: nat) returns (all: seq<byte>)
    requires ds != [] && DigitsOk(p, ds) && |ds| < MAX_DIGIT_COUNT && ds[|ds| - 1] != Blank(p) && |ds| <= n
    requires e < MAX_EXPONENT
    ensures all != [] && DigitsOk(p, all) && |all| <= MAX_DIGIT_COUNT && |all| <= n + 1
    ensures all[0] != Blank(p) && all[|all| - 1] != Blank(p)
    ensures Padded(p, all, n + 1) == WithCarry(p, ds, n)
    ensures Finish(p, e, ds, Unit(p), strip) == Sum(Packed(p, e + 1, all))
  {
    all := [DigitByte(p, 1)] + ds;
    assert all[1..] == ds && all[|all| - 1] == ds[|ds| - 1];
    HeadOfPadded(p, all, n + 1);
  }

  lemma FinishCarried(p: bool, e: int, ds: seq<byte>, strip: bool, unit: int, n: nat, v: int)
    requires ds != [] && DigitsOk(p, ds) && |ds| < MAX_DIGIT_COUNT && ds[|ds| - 1] != Blank(p)
    requires MIN_EXPONENT <= e && |ds| <= n == e + 1 - unit && InRange(unit, v) && v == WithCarry(p, ds, n)
    ensures Denotes(unit, Finish(p, e, ds, Unit(p), strip), v)
  {
    CarryIsBig(p, ds, n);
    CarryInRange(p, e, unit, v);
    var all := CarriedParts(p, e, ds, strip, n);
    PackedOutcome(p, e + 1, all, unit, n + 1, Finish(p, e, ds, Unit(p), strip), v);
  }

  lemma CarryInRange(p: bool, e: int, unit: int, t: int)
    requires unit <= e + 1 && Abs(t) >= Pow(100, e + 1 - unit) && InRange(unit, t)
    ensures e < MAX_EXPONENT
  {
    if e >= MAX_EXPONENT {
      PowMonotone(100, MAX_EXPONENT + 1 - unit, e + 1 - unit);
    }
  }

  lemma NotMultiple(t: int, x: int, r: int)
    requires t == 100 * x + r && -100 < r < 100 && r != 0
    ensures t % 100 != 0
  {
  }

  /** A full row with a carry breaks the twenty-digit condition. */
  lemma FullRowOverflows(p: bool, e: int, ds: seq<byte>, n: nat)
    requires DigitsOk(p, ds) && |ds| == n == MAX_DIGIT_COUNT && ds[n - 1] != Blank(p)
    ensures !KeepsTwenty(e, e + 1 - n, Total(p, e, ds, Unit(p), e + 1 - n))
  {
    var t := Total(p, e, ds, Unit(p), e + 1 - n);
    CarryIsBig(p, ds, n);
    SplitLast(p, ds);
    assert DigitOk(p, ds[n - 1]);
    assert Pow(100, n) == 100 * Pow(100, n - 1);
    NotMultiple(t, Padded(p, ds[..n - 1], n - 1) + Signed(p, Pow(100, n - 1)), ds[n - 1] - Blank(p));
  }

  // ---------- the row of sums ----------

  /** Two numbers that are not zero, the second not above the first. */
  ghost predicate Lined(a: seq<byte>, b: seq<byte>)
  {
    Operand(a) && Operand(b) && !IsZero(a) && !IsZero(b) && Gap(a, b) >= 0
  }

  /** The larger in magnitude comes first, and they do not cancel. */
  ghost predicate Aligned(a: seq<byte>, b: seq<byte>)
  {
    Lined(a, b) && Order(a, b) >= 0 && (Order(a, b) == 0 ==> IsPositive(a) == IsPositive(b))
  }

  /** What the second operand adds inside the row, before rounding. */
  function Lower(a: seq<byte>, b: seq<byte>): int
    requires |a| > 0 && |b| > 0 && Gap(a, b) >= 0
  {
    var gap, n := Gap(a, b), Positions(a, b);
    if gap < n then Padded(IsPositive(b), Kept(b[1..], gap, n), n - gap) else 0
  }

  /** What the second operand adds to the row, rounded, as a magnitude. */
  function Added(a: seq<byte>, b: seq<byte>, front: byte): int
    requires |a| > 0 && |b| > 0 && Gap(a, b) >= 0
  {
    Signed(IsPositive(b), Lower(a, b) + RoundingCarry(a, b, front))
  }

  lemma PositionsBounded(a: seq<byte>, b: seq<byte>)
    requires Lined(a, b)
    ensures 0 < |a| - 1 <= Positions(a, b) <= MAX_DIGIT_COUNT
  {
  }

  lemma {:induction false} SumRowTotal(a: seq<byte>, b: seq<byte>, front: byte)
    requires Lined(a, b)
    ensures var n, r := Positions(a, b), SumRow(a, b, front);
            var ds, c := r.0, r.1;
            && |ds| == n && 0 < n <= MAX_DIGIT_COUNT
            && Padded(IsPositive(a), ds, n) + CarryTimes(c, Pow(100, n)) ==
               Padded(IsPositive(a), a[1..], n) + Lower(a, b) + RoundingCarry(a, b, front)
  {
    var p1, p2, d1, d2, gap, n := IsPositive(a), IsPositive(b), a[1..], b[1..], Gap(a, b), Positions(a, b);
    PositionsBounded(a, b);
    RowsTotal(p1, p2, d1, d2, gap, n, RoundingCarry(a, b, front));
  }

  lemma {:induction false} RowsTotal(p1: bool, p2: bool, d1: seq<byte>, d2: seq<byte>, gap: nat, n: nat, carry: int)
    requires DigitsOk(p1, d1) && DigitsOk(p2, d2) && |d1| <= n && CarryOk(p2, carry)
    ensures var (ds, c) := AddRows(p1, p2, Row(p1, d1, 0, n), Row(p2, d2, gap, n), carry);
            && |ds| == n
            && Padded(p1, ds, n) + CarryTimes(c, Pow(100, n)) ==
               Padded(p1, d1, n) + (if gap < n then Padded(p2, Kept(d2, gap, n), n - gap) else 0) + carry
  {
    AddRowsExact(p1, p2, Row(p1, d1, 0, n), Row(p2, d2, gap, n), carry);
    RowValue(p1, d1, 0, n);
    assert n > 0 ==> Kept(d1, 0, n) == d1;
    if gap < n { RowValue(p2, d2, gap, n); } else { BlankRowValue(p2, d2, gap, n); }
  }

  lemma {:induction false} LowerUnshifted(a: seq<byte>, b: seq<byte>, front: byte)
    requires Aligned(a, b) && Gap(a, b) == 0
    ensures var n := Positions(a, b);
            && n > 0 && RoundingCarry(a, b, front) == 0
            && Lower(a, b) == Padded(IsPositive(b), b[1..], n)
            && 0 <= Mag(IsPositive(b), b[1..], n) <= Mag(IsPositive(a), a[1..], n)
  {
    var p1, p2, n := IsPositive(a), IsPositive(b), Positions(a, b);
    assert Kept(b[1..], 0, n) == b[1..];
    assert a[1..][|a| - 2] == a[|a| - 1] && b[1..][|b| - 2] == b[|b| - 1];
    MagnitudeOrderMeaning(p1, a[1..], p2, b[1..], n);
    PaddedBounds(p2, b[1..], n);
  }

  lemma {:induction false} LowerShifted(a: seq<byte>, b: seq<byte>, front: byte, n: int, gap: int, y: int)
    requires Aligned(a, b) && gap == Gap(a, b) > 0 && n == Positions(a, b) && y == Added(a, b, front)
    ensures n > 0 && 0 <= y <= Pow(100, n - 1)
    ensures gap < n ==> y <= Pow(100, n - gap)
    ensures gap >= n ==> y <= 1
  {
    if gap < n {
      PaddedBounds(IsPositive(b), Kept(b[1..], gap, n), n - gap);
      PowMonotone(100, n - gap, n - 1);
    }
  }

  /** The second operand, rounded, is no larger in magnitude than the first. */
  lemma {:induction false} LowerIsSmaller(a: seq<byte>, b: seq<byte>, front: byte, n: int, x: int, y: int)
    requires Aligned(a, b) && n == Positions(a, b) && |a| - 1 <= n && x == Mag(IsPositive(a), a[1..], n)
    requires y == Added(a, b, front)
    ensures n > 0 && Pow(100, n - 1) <= x < Pow(100, n) && 0 <= y <= x
  {
    PaddedLeading(IsPositive(a), a[1..], n);
    PaddedBounds(IsPositive(a), a[1..], n);
    if Gap(a, b) == 0 { LowerUnshifted(a, b, front); } else { LowerShifted(a, b, front, n, Gap(a, b), y); }
  }

  /** The only carry out of the row is a further unit of the common sign. */
  lemma {:induction false} CarryShape(a: seq<byte>, b: seq<byte>, front: byte)
    requires Aligned(a, b)
    ensures var p, n, r := IsPositive(a), Positions(a, b), SumRow(a, b, front);
            var ds, c := r.0, r.1;
            && |ds| == n > 0
            && (c == 0 || (p == IsPositive(b) && c == Unit(p)))
            && (var t := Signed(p, Padded(p, ds, n) + CarryTimes(c, Pow(100, n)));
                t >= 0 && (p == IsPositive(b) ==> t >= Pow(100, n - 1)))
  {
    var n := Positions(a, b);
    SumRowTotal(a, b, front);
    LowerIsSmaller(a, b, front, n, Mag(IsPositive(a), a[1..], n), Added(a, b, front));
    PaddedBounds(IsPositive(a), SumRow(a, b, front).0, n);
  }

  // ---------- the exact sum ----------

  /** The value a row must denote for the final steps to return it exactly. */
  ghost predicate Settled(p: bool, e: int, ds: seq<byte>, carry: int, t: int)
  {
    var n := |ds|;
    && 0 < n <= MAX_DIGIT_COUNT && DigitsOk(p, ds) && MIN_EXPONENT <= e <= MAX_EXPONENT
    && (carry == 0 || carry == Unit(p))
    && t == Padded(p, ds, n) + CarryTimes(carry, Pow(100, n))
    && InRange(e + 1 - n, t) && KeepsTwenty(e, e + 1 - n, t)
  }

  lemma OneDigit(p: bool, n: nat)
    requires n > 0
    ensures Padded(p, [DigitByte(p, 1)], n) == Signed(p, Pow(100, n - 1))
  {
    HeadOfPadded(p, [DigitByte(p, 1)], n);
    SignedTimes(p, 1, Pow(100, n - 1));
  }

  lemma SignedTimes(p: bool, x: int, q: int)
    ensures Signed(p, x) * q == Signed(p, x * q)
  {
    assert (-x) * q == -(x * q);
  }

  lemma {:induction false} LoneOneDenotes(p: bool, e: int, n: nat, unit: int, v: int, out: Outcome)
    requires 0 < n && MIN_EXPONENT <= e && unit == e + 1 - n && v == Signed(p, Pow(100, n)) && InRange(unit, v)
    requires out == Sum(LoneOne(p, e + 1))
    ensures e < MAX_EXPONENT && Denotes(unit, out, v)
  {
    CarryInRange(p, e, unit, v);
    OneDigit(p, n + 1);
    PackedOutcome(p, e + 1, [DigitByte(p, 1)], unit, n + 1, out, v);
  }

  lemma FullRowHasNoCarry(p: bool, e: int, row: seq<byte>, carry: int, t: int)
    requires Settled(p, e, row, carry, t) && |row| == MAX_DIGIT_COUNT && row[|row| - 1] != Blank(p)
    ensures carry == 0
  {
    FullRowOverflows(p, e, row, |row|);
  }

  lemma {:induction false} FinishExact(p: bool, e: int, ds: seq<byte>, carry: int, strip: bool, t: int,
                                       row: seq<byte>, unit: int, out: Outcome)
    requires Settled(p, e, row, carry, t) && ds != [] && ds <= row
    requires unit == e + 1 - |row| && out == Finish(p, e, ds, carry, strip)
    requires Padded(p, ds, |row|) == Padded(p, row, |row|) && ds[|ds| - 1] != Blank(p)
    requires carry == 0 && !strip ==> ds[0] != Blank(p)
    ensures Denotes(unit, out, t)
  {
    var n := |row|;
    if |ds| == MAX_DIGIT_COUNT { FullRowHasNoCarry(p, e, row, carry, t); }
    if carry == 0 {
      FinishUncarried(p, e, ds, strip, unit, n, t);
    } else {
      FinishCarried(p, e, ds, strip, unit, n, t);
    }
  }

  lemma {:induction false} FinishTrimmedExact(p: bool, e: int, ds: seq<byte>, carry: int, strip: bool, t: int,
                                              unit: int, out: Outcome)
    requires Settled(p, e, ds, carry, t) && unit == e + 1 - |ds| && out == FinishTrimmed(p, e, ds, carry, strip)
    requires carry == 0 && !strip ==> ds[0] != Blank(p)
    ensures Denotes(unit, out, t)
  {
    var r := TrimTail(p, ds);
    TrimKeepsValue(p, ds, |ds|);
    if r == [] {
      if carry == 0 { ZeroDenotes(unit); } else { LoneOneDenotes(p, e, |ds|, unit, t, Sum(LoneOne(p, e + 1))); }
    } else {
      FinishExact(p, e, r, carry, strip, t, ds, unit, out);
    }
  }

  /** What stripping at both ends leaves. */
  lemma ApartParts(p: bool, e: int, ds: seq<byte>, beyond: byte) returns (k: nat, rest: seq<byte>)
    requires DigitsOk(p, ds) && LeadingBlanks(p, ds) < |ds|
    ensures k < |ds| && rest != [] && DigitsOk(p, rest) && |rest| <= |ds| - k
    ensures rest[0] != Blank(p) && rest[|rest| - 1] != Blank(p)
    ensures Padded(p, rest, |ds| - k) == Padded(p, ds, |ds|)
    ensures FinishApart(p, e, ds, 0, beyond) == Sum(Packed(p, e - k, rest))
  {
    k := LeadingBlanks(p, ds);
    var r := TrimTail(p, ds);
    TrimStripKeepsValue(p, ds);
    rest := r[k..];
    assert r == ds[..|r|] && rest[0] == r[k] == ds[k] && rest[|rest| - 1] == r[|r| - 1];
  }

  lemma {:induction false} FinishApartUncarried(p: bool, e: int, ds: seq<byte>, beyond: byte, unit: int, v: int,
                                                out: Outcome)
    requires DigitsOk(p, ds) && LeadingBlanks(p, ds) < |ds| <= MAX_DIGIT_COUNT && e <= MAX_EXPONENT
    requires unit == e + 1 - |ds| && v == Padded(p, ds, |ds|) && InRange(unit, v)
    requires out == FinishApart(p, e, ds, 0, beyond)
    ensures Denotes(unit, out, v)
  {
    var k, rest := ApartParts(p, e, ds, beyond);
    PackedOutcome(p, e - k, rest, unit, |ds| - k, out, v);
  }

  lemma {:induction false} FinishApartExact(p: bool, e: int, ds: seq<byte>, carry: int, t: int, beyond: byte,
                                            unit: int, out: Outcome)
    requires Settled(p, e, ds, carry, t) && unit == e + 1 - |ds| && out == FinishApart(p, e, ds, carry, beyond)
    requires if carry == 0 then t != 0 else t == Signed(p, Pow(100, |ds|))
    ensures Denotes(unit, out, t)
  {
    if carry != 0 {
      LoneOneDenotes(p, e, |ds|, unit, t, Sum(LoneOne(p, e + 1)));
    } else {
      if LeadingBlanks(p, ds) == |ds| { BlanksAreZero(p, ds, |ds|); }
      FinishApartUncarried(p, e, ds, beyond, unit, t, out);
    }
  }

  /** Within twenty positions the row and its carry denote the exact sum. */
  lemma {:induction false} ExactTotal(a: seq<byte>, b: seq<byte>, front: byte)
    requires Lined(a, b) && WithinTwenty(a, b)
    ensures var u, n, r := CommonUnit(a, b), Positions(a, b), SumRow(a, b, front);
            && u == Exponent(a) + 1 - n && RoundingCarry(a, b, front) == 0
            && Lower(a, b) == ValueIn(u, b)
            && Padded(IsPositive(a), r.0, n) + CarryTimes(r.1, Pow(100, n)) == ValueIn(u, a) + ValueIn(u, b)
  {
    SumRowTotal(a, b, front);
    assert Kept(b[1..], Gap(a, b), Positions(a, b)) == b[1..];
  }

  /** A digit string placed at the top of a row stays one of its last units below the row's end. */
  lemma MagGap(p: bool, d: seq<byte>, n: nat)
    requires |d| <= n && DigitsOk(p, d)
    ensures Mag(p, d, n) <= Pow(100, n) - Pow(100, n - |d|)
  {
    PaddedBounds(p, d, |d|);
    PowAdd(100, |d|, n - |d|);
    MulLe(Mag(p, d, |d|) + 1, Pow(100, |d|), Pow(100, n - |d|));
    ScaledMag(p, d, n);
  }

  /** Operands that do not overlap can only carry out by clearing the whole row. */
  lemma ApartCarry(a: seq<byte>, b: seq<byte>, front: byte, n: int, m: int, y: int)
    requires Aligned(a, b) && n == Positions(a, b) && m == |a| - 1 <= Gap(a, b) && m <= n && y == Added(a, b, front)
    ensures y <= Pow(100, n - m)
  {
    var gap := Gap(a, b);
    LowerShifted(a, b, front, n, gap, y);
    if gap < n { PowMonotone(100, n - gap, n - m); }
  }

  lemma {:induction false} ApartClearsRow(a: seq<byte>, b: seq<byte>, front: byte)
    requires Aligned(a, b) && |a| - 1 <= Gap(a, b) && SumRow(a, b, front).1 != 0
    ensures var p, n, r := IsPositive(a), Positions(a, b), SumRow(a, b, front);
            Padded(p, r.0, n) + CarryTimes(r.1, Pow(100, n)) == Signed(p, Pow(100, n))
  {
    var p, n, r := IsPositive(a), Positions(a, b), SumRow(a, b, front);
    var x, y := Padded(p, a[1..], n), Lower(a, b) + RoundingCarry(a, b, front);
    SumRowTotal(a, b, front);
    CarryShape(a, b, front);
    ApartFits(a, b, front, p, n, x, y);
    PaddedBounds(p, r.0, n);
    Cleared(p, Padded(p, r.0, n), r.1, Pow(100, n), x, y);
  }

  /** Operands that do not overlap make at most one unit more than the row holds. */
  lemma {:induction false} ApartFits(a: seq<byte>, b: seq<byte>, front: byte, p: bool, n: nat, x: int, y: int)
    requires Aligned(a, b) && |a| - 1 <= Gap(a, b) && p == IsPositive(a) == IsPositive(b) && n == Positions(a, b)
    requires x == Padded(p, a[1..], n) && y == Lower(a, b) + RoundingCarry(a, b, front)
    ensures Signed(p, x) + Signed(p, y) <= Pow(100, n)
  {
    MagGap(p, a[1..], n);
    ApartCarry(a, b, front, n, |a| - 1, Signed(p, y));
  }

  /** A row that carries out while its operands make at most one unit more than it holds is empty. */
  lemma Cleared(p: bool, row: int, carry: int, weight: int, x: int, y: int)
    requires carry == Unit(p) && row + CarryTimes(carry, weight) == x + y
    requires Signed(p, row) >= 0 && Signed(p, x) + Signed(p, y) <= weight
    ensures row + CarryTimes(carry, weight) == Signed(p, weight)
  {
  }

  lemma ScaledMag(p: bool, d: seq<byte>, n: nat)
    requires |d| <= n
    ensures (Mag(p, d, |d|) + 1) * Pow(100, n - |d|) == Mag(p, d, n) + Pow(100, n - |d|)
  {
    var m, q := Mag(p, d, |d|), Pow(100, n - |d|);
    PaddedShift(p, d, |d|, n - |d|);
    SignedTimes(p, Padded(p, d, |d|), q);
    OneMore(m, q);
  }

  lemma OneMore(m: int, q: int)
    ensures (m + 1) * q == m * q + q
  {
  }
}
