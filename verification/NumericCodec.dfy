/**
 The NUMERIC storage format: one header byte holding the sign and a base-100 exponent,
 then base-100 digits, each stored with a bias of 1 (positive) or as 101 minus it (negative).
 A stored digit is read here as the signed number `digit - Blank(sign)`, so one positional
 sum covers both signs.
 */
module NumericCodec {
  import opened CArithmetic
  import opened Powers

  const MIN_EXPONENT := -65
  const MAX_EXPONENT := 62
  const MAX_DIGIT_COUNT := 20
  const MAX_SIZE := 21
  const SIGN_POSITIVE: byte := 0x80

  /** The positive and negative fence values: the stored form of the digit zero. */
  function Blank(positive: bool): byte { if positive then 1 else 101 }

  function DigitByte(positive: bool, value: int): byte
    requires 0 <= value < 100
  {
    if positive then 1 + value else 101 - value
  }

  /** The value 0..99 that a stored digit stands for. */
  function DigitValue(positive: bool, digit: int): int
  {
    if positive then digit - 1 else 101 - digit
  }

  predicate DigitOk(positive: bool, digit: int)
  {
    0 <= DigitValue(positive, digit) < 100
  }

  predicate DigitsOk(positive: bool, ds: seq<byte>)
  {
    forall i :: 0 <= i < |ds| ==> DigitOk(positive, ds[i])
  }

  predicate IsPositive(n: seq<byte>)
    requires |n| > 0
  {
    n[0] > 127
  }

  function Exponent(n: seq<byte>): int
    requires |n| > 0
  {
    if IsPositive(n) then n[0] as int - 193 else 62 - n[0] as int
  }

  predicate IsZero(n: seq<byte>)
  {
    n == [0x80]
  }

  /** The byte stored by the one-shot sign-and-exponent setter; the int result of the OR is cut to 8 bits. */
  function HeaderByte(positive: bool, exponent: int): byte
  {
    if positive then
      var low := (exponent - MIN_EXPONENT) % 256;
      if low < 128 then 128 + low else low
    else (MAX_EXPONENT - exponent) % 256
  }

  /** A NUMERIC as the arithmetic routines keep it: zero, or first and last digits non-zero. */
  predicate Canonical(n: seq<byte>)
  {
    IsZero(n) ||
    (|n| >= 2 && DigitsOk(IsPositive(n), n[1..]) &&
     n[1] != Blank(IsPositive(n)) && n[|n| - 1] != Blank(IsPositive(n)))
  }

  /** Signed value of a digit string placed in n positions, as a multiple of the last position. */
  function Padded(positive: bool, ds: seq<byte>, n: nat): int
    requires |ds| <= n
  {
    if ds == [] then 0
    else (ds[0] - Blank(positive)) * Pow(100, n - 1) + Padded(positive, ds[1..], n - 1)
  }

  /** Exponent of the last digit of a non-zero NUMERIC. */
  function LowExponent(n: seq<byte>): int
    requires |n| > 0
  {
    Exponent(n) + 2 - |n|
  }

  /** 100^unit divides the number, so the number can be counted in units of 100^unit. */
  predicate Covers(unit: int, n: seq<byte>)
    requires |n| > 0
  {
    IsZero(n) || unit <= LowExponent(n)
  }

  /** The exact number a NUMERIC denotes, counted in units of 100^unit. */
  function ValueIn(unit: int, n: seq<byte>): int
    requires |n| > 0 && Covers(unit, n)
  {
    if IsZero(n) then 0 else Padded(IsPositive(n), n[1..], Exponent(n) + 1 - unit)
  }

  // ---------- positional arithmetic ----------

  lemma {:induction false} PaddedShift(positive: bool, ds: seq<byte>, n: nat, m: nat)
    requires |ds| <= n
    ensures Padded(positive, ds, n + m) == Padded(positive, ds, n) * Pow(100, m)
  {
    if ds != [] {
      PaddedShift(positive, ds[1..], n - 1, m);
      PowAdd(100, n - 1, m);
      var d, p, q, t := ds[0] - Blank(positive), Pow(100, n - 1), Pow(100, m), Padded(positive, ds[1..], n - 1);
      MulAssoc(d, p, q);
      SumTimes(d * p, t, q);
    }
  }

  lemma SumTimes(x: int, y: int, z: int)
    ensures (x + y) * z == x * z + y * z
  {
  }

  lemma {:induction false} PaddedConcat(positive: bool, u: seq<byte>, v: seq<byte>, n: nat)
    requires |u| + |v| <= n
    ensures Padded(positive, u + v, n) == Padded(positive, u, n) + Padded(positive, v, n - |u|)
  {
    if u == [] {
      assert u + v == v;
    } else {
      assert (u + v)[1..] == u[1..] + v;
      PaddedConcat(positive, u[1..], v, n - 1);
    }
  }

  /** Digits in range keep the sum on the side of their sign and below one unit of the next position. */
  lemma {:induction false} PaddedBounds(positive: bool, ds: seq<byte>, n: nat)
    requires |ds| <= n && DigitsOk(positive, ds)
    ensures positive ==> 0 <= Padded(positive, ds, n) < Pow(100, n)
    ensures !positive ==> 0 - Pow(100, n) < Padded(positive, ds, n) <= 0
  {
    if ds != [] {
      assert DigitOk(positive, ds[0]);
      PaddedBounds(positive, ds[1..], n - 1);
      var d, p := ds[0] - Blank(positive), Pow(100, n - 1);
      if positive {
        MulLe(0, d, p);
        MulLe(d, 99, p);
      } else {
        MulLe(d, 0, p);
        MulLe(-99, d, p);
      }
    }
  }

  /** A non-zero first digit puts the magnitude at or above the weight of the first position. */
  lemma {:induction false} PaddedLeading(positive: bool, ds: seq<byte>, n: nat)
    requires 0 < |ds| <= n && DigitsOk(positive, ds) && ds[0] != Blank(positive)
    ensures positive ==> Padded(positive, ds, n) >= Pow(100, n - 1)
    ensures !positive ==> Padded(positive, ds, n) <= 0 - Pow(100, n - 1)
  {
    assert DigitOk(positive, ds[0]);
    PaddedBounds(positive, ds[1..], n - 1);
    var d, p := ds[0] - Blank(positive), Pow(100, n - 1);
    if positive { MulLe(1, d, p); } else { MulLe(d, -1, p); }
  }

  /** A non-zero last digit makes the whole digit string non-zero. */
  lemma {:induction false} PaddedNonZero(positive: bool, ds: seq<byte>, n: nat)
    requires 0 < |ds| <= n && DigitsOk(positive, ds) && ds[|ds| - 1] != Blank(positive)
    ensures positive ==> Padded(positive, ds, n) > 0
    ensures !positive ==> Padded(positive, ds, n) < 0
  {
    assert DigitOk(positive, ds[0]);
    var d, p := ds[0] - Blank(positive), Pow(100, n - 1);
    if |ds| > 1 {
      PaddedNonZero(positive, ds[1..], n - 1);
      if positive { MulLe(0, d, p); } else { MulLe(d, 0, p); }
    } else {
      PaddedLeading(positive, ds, n);
    }
  }

  /** A finer unit multiplies the count by a power of 100, so comparisons and sums do not depend on the unit. */
  lemma UnitChange(unit: int, finer: nat, n: seq<byte>)
    requires |n| > 0 && Covers(unit, n)
    ensures ValueIn(unit - finer, n) == ValueIn(unit, n) * Pow(100, finer)
  {
    if !IsZero(n) {
      PaddedShift(IsPositive(n), n[1..], Exponent(n) + 1 - unit, finer);
    }
  }

  // ---------- range and header ----------

  /** Non-zero canonical values lie between the weight of their first digit and the next weight up. */
  lemma MagnitudeBounds(unit: int, n: seq<byte>)
    requires Canonical(n) && !IsZero(n) && Covers(unit, n)
    ensures var e := Exponent(n) - unit;
            if IsPositive(n) then Pow(100, e) <= ValueIn(unit, n) < Pow(100, e + 1)
            else 0 - Pow(100, e + 1) < ValueIn(unit, n) <= 0 - Pow(100, e)
  {
    PaddedLeading(IsPositive(n), n[1..], Exponent(n) + 1 - unit);
    PaddedBounds(IsPositive(n), n[1..], Exponent(n) + 1 - unit);
  }

  /** The header setter and the two getters agree on every exponent the format allows. */
  lemma HeaderRoundTrip(positive: bool, exponent: int, ds: seq<byte>)
    requires MIN_EXPONENT <= exponent <= MAX_EXPONENT
    ensures IsPositive([HeaderByte(positive, exponent)] + ds) == positive
    ensures Exponent([HeaderByte(positive, exponent)] + ds) == exponent
  {
  }

  /** Resetting the header, then setting sign and exponent with OR, stores what the one-shot setter stores. */
  lemma HeaderInSteps(positive: bool, exponent: int, sign: nat, low: nat)
    requires MIN_EXPONENT <= exponent <= MAX_EXPONENT && sign == (if positive then SIGN_POSITIVE else 0)
    requires low == if positive then exponent - MIN_EXPONENT else MAX_EXPONENT - exponent
    ensures BitOr(BitOr(0, sign), low) == BitOr(sign, low) == HeaderByte(positive, exponent)
  {
    OrFromZero(sign);
    OrFromZero(low);
    if positive { SignAndExponent(low, sign); }
  }

  lemma SignAndExponent(low: nat, sign: nat)
    requires low < 128 && sign == 128
    ensures BitOr(sign, low) == 128 + low
  {
    var k := 7;
    SevenBits(k);
    BitOrDisjoint(1, low, k);
  }

  lemma OrFromZero(x: nat)
    ensures BitOr(0, x) == x
  {
  }

  /** Sign and exponent are read back exactly for the exponents of the format. */
  lemma HeaderRoundTripIff(positive: bool, exponent: int, ds: seq<byte>)
    ensures var n := [HeaderByte(positive, exponent)] + ds;
            IsPositive(n) == positive && Exponent(n) == exponent <==> MIN_EXPONENT <= exponent <= MAX_EXPONENT
  {
    if MIN_EXPONENT <= exponent <= MAX_EXPONENT {
      HeaderRoundTrip(positive, exponent, ds);
    }
  }

  /** One step outside the range the stored byte reads back as a different sign or exponent. */
  lemma HeaderWraps(ds: seq<byte>)
    ensures Exponent([HeaderByte(true, MAX_EXPONENT + 1)] + ds) == MIN_EXPONENT
    ensures Exponent([HeaderByte(true, MIN_EXPONENT - 1)] + ds) == MAX_EXPONENT
    ensures IsPositive([HeaderByte(false, MAX_EXPONENT + 1)] + ds)
    ensures IsPositive([HeaderByte(false, MIN_EXPONENT - 1)] + ds)
  {
  }

  // ---------- numbers byte by byte ----------

  /** The value of one digit, and of two, in units of the last. */
  lemma {:induction false} ShortValues(p: bool, x: byte, y: byte)
    ensures Padded(p, [x], 1) == x - Blank(p)
    ensures Padded(p, [x, y], 2) == 100 * (x - Blank(p)) + (y - Blank(p))
  {
    var one: seq<byte>, two: seq<byte> := [x], [x, y];
    assert one[1..] == [] && two[1..] == [y];
    assert Pow(100, 0) == 1 && Pow(100, 1) == 100;
    assert Padded(p, [y], 1) == (y - Blank(p)) * Pow(100, 0) + Padded(p, [y][1..], 0);
  }

  lemma {:induction false} OneDigitNumber(n: seq<byte>, p: bool, e: int, x: byte)
    requires n == [HeaderByte(p, e), x] && MIN_EXPONENT <= e <= MAX_EXPONENT && DigitOk(p, x) && x != Blank(p)
    ensures Canonical(n) && Covers(e, n) && ValueIn(e, n) == x - Blank(p)
  {
    HeaderRoundTrip(p, e, [x]);
    assert n == [HeaderByte(p, e)] + [x] && n[1..] == [x];
    ShortValues(p, x, x);
  }

  lemma {:induction false} TwoDigitNumber(n: seq<byte>, p: bool, e: int, x: byte, y: byte)
    requires n == [HeaderByte(p, e), x, y] && MIN_EXPONENT <= e <= MAX_EXPONENT
    requires DigitOk(p, x) && DigitOk(p, y) && x != Blank(p) && y != Blank(p)
    ensures Canonical(n) && Covers(e - 1, n) && ValueIn(e - 1, n) == 100 * (x - Blank(p)) + (y - Blank(p))
  {
    HeaderRoundTrip(p, e, [x, y]);
    assert n == [HeaderByte(p, e)] + [x, y] && n[1..] == [x, y];
    ShortValues(p, x, y);
  }

  /** 1 and -1, 0.01 and 100, 12.34 and -12.34 as they are stored. */
  lemma KnownNumbers()
    ensures Canonical([193, 2]) && Covers(0, [193, 2]) && ValueIn(0, [193, 2]) == 1
    ensures Canonical([62, 100]) && Covers(0, [62, 100]) && ValueIn(0, [62, 100]) == -1
    ensures Canonical([192, 2]) && Covers(-1, [192, 2]) && ValueIn(-1, [192, 2]) == 1
    ensures Canonical([194, 2]) && Covers(1, [194, 2]) && ValueIn(1, [194, 2]) == 1
    ensures Canonical([193, 13, 35]) && Covers(-1, [193, 13, 35]) && ValueIn(-1, [193, 13, 35]) == 1234
    ensures Canonical([62, 89, 67]) && Covers(-1, [62, 89, 67]) && ValueIn(-1, [62, 89, 67]) == -1234
    ensures IsZero([128])
  {
    OneDigitNumber([193, 2], true, 0, 2);
    OneDigitNumber([62, 100], false, 0, 100);
    OneDigitNumber([192, 2], true, -1, 2);
    OneDigitNumber([194, 2], true, 1, 2);
    TwoDigitNumber([193, 13, 35], true, 0, 13, 35);
    TwoDigitNumber([62, 89, 67], false, 0, 89, 67);
  }
}
