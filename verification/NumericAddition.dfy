/**
 NUMERIC addition as the server performs it: the digits of the two operands are aligned by
 exponent and added from the last position up through a carry table indexed by the sum of the
 stored bytes, in at most 20 positions, and the result is brought back to canonical form.

 This module holds the adder and the function it is proved to compute; NumericAdditionLaws
 proves what that function means.
 */
module NumericAddition {
  import opened CArithmetic
  import opened Powers
  import opened NumericCodec
  import opened NumericCompare

  datatype CarryInfo = CarryInfo(carry: int, digit: byte)

  /** Unspecified: the code goes on reading memory it never wrote. */
  datatype Outcome = Sum(bytes: seq<byte>) | OutOfRange | Unspecified

  function Unit(positive: bool): int { if positive then 1 else -1 }

  /** The carry table. Entries 0 and 1 are the carries for rounding the second operand down and up. */
  function DigitMap(p1: bool, p2: bool, index: int): CarryInfo
    requires 0 <= index < 203
  {
    if index == 0 then CarryInfo(0, 0)
    else if index == 1 then CarryInfo(Unit(p2), 0)
    else if p1 && index == 202 then CarryInfo(0, 0)
    else if index <= (if p1 then 101 else 102) then CarryInfo(if p2 then 0 else -1, index - 1)
    else CarryInfo(if p2 then 1 else 0, index - 101)
  }

  predicate CarryOk(p2: bool, carry: int)
  {
    if p2 then 0 <= carry <= 1 else -1 <= carry <= 0
  }

  /** One table step adds two stored digits and a carry exactly, and never leaves the table. */
  lemma DigitMapAdds(p1: bool, p2: bool, x: byte, y: byte, carry: int)
    requires DigitOk(p1, x) && DigitOk(p2, y) && CarryOk(p2, carry)
    ensures 2 <= x + y + carry < 203
    ensures var m := DigitMap(p1, p2, x + y + carry);
            && DigitOk(p1, m.digit) && CarryOk(p2, m.carry)
            && m.digit - Blank(p1) + 100 * m.carry == x - Blank(p1) + (y - Blank(p2)) + carry
  {
  }

  // ---------- the function computed ----------

  /** The byte at one position: a digit of the operand, or the stored zero outside it. */
  function Cell(positive: bool, ds: seq<byte>, offset: nat, i: nat): byte
  {
    if offset <= i < offset + |ds| then ds[i - offset] else Blank(positive)
  }

  function Row(positive: bool, ds: seq<byte>, offset: nat, n: nat): (r: seq<byte>)
    ensures |r| == n
    ensures forall i :: 0 <= i < n ==> r[i] == Cell(positive, ds, offset, i)
    ensures DigitsOk(positive, ds) ==> DigitsOk(positive, r)
  {
    seq(n, i requires 0 <= i < n => Cell(positive, ds, offset, i))
  }

  /** Adds two rows of equal length from the last position up. */
  function AddRows(p1: bool, p2: bool, x: seq<byte>, y: seq<byte>, carry: int): (r: (seq<byte>, int))
    requires |x| == |y| && DigitsOk(p1, x) && DigitsOk(p2, y) && CarryOk(p2, carry)
    ensures |r.0| == |x| && DigitsOk(p1, r.0) && CarryOk(p2, r.1)
  {
    if x == [] then ([], carry)
    else
      var (ds, c) := AddRows(p1, p2, x[1..], y[1..], carry);
      assert DigitOk(p1, x[0]) && DigitOk(p2, y[0]);
      DigitMapAdds(p1, p2, x[0], y[0], c);
      var m := DigitMap(p1, p2, x[0] + y[0] + c);
      ([m.digit] + ds, m.carry)
  }

  function TrimTail(positive: bool, ds: seq<byte>): (r: seq<byte>)
    ensures r <= ds
    ensures r != [] ==> r[|r| - 1] != Blank(positive)
    ensures forall i :: |r| <= i < |ds| ==> ds[i] == Blank(positive)
  {
    if ds != [] && ds[|ds| - 1] == Blank(positive) then TrimTail(positive, ds[..|ds| - 1]) else ds
  }

  function LeadingBlanks(positive: bool, ds: seq<byte>): (k: nat)
    ensures k <= |ds|
    ensures forall i :: 0 <= i < k ==> ds[i] == Blank(positive)
    ensures k < |ds| ==> ds[k] != Blank(positive)
  {
    if ds == [] || ds[0] != Blank(positive) then 0
    else
      var k := LeadingBlanks(positive, ds[1..]);
      assert forall i :: 0 < i <= k ==> ds[i] == ds[1..][i - 1];
      k + 1
  }

  /** Adds one unit to the last digit, dropping every digit that wraps to zero. */
  function BumpLast(positive: bool, ds: seq<byte>): (r: seq<byte>)
    requires |ds| > 0 && DigitsOk(positive, ds) && ds[0] == DigitByte(positive, 1)
    ensures 0 < |r| <= |ds| && DigitsOk(positive, r)
  {
    assert DigitOk(positive, ds[|ds| - 1]);
    DigitMapAdds(positive, positive, ds[|ds| - 1], Blank(positive), Unit(positive));
    var m := DigitMap(positive, positive, ds[|ds| - 1] + Blank(positive) + Unit(positive));
    if m.carry != 0 then BumpLast(positive, ds[..|ds| - 1])
    else ds[..|ds| - 1] + [m.digit]
  }

  /** A 21-digit result loses its last digit, rounded half up on that digit alone. */
  function DropLast(positive: bool, ds: seq<byte>): (r: seq<byte>)
    requires |ds| > 1 && DigitsOk(positive, ds) && ds[0] == DigitByte(positive, 1)
    ensures 0 < |r| < |ds| && DigitsOk(positive, r)
  {
    if DigitValue(positive, ds[|ds| - 1]) > 49 then BumpLast(positive, ds[..|ds| - 1])
    else ds[..|ds| - 1]
  }

  const ZERO: seq<byte> := [0x80]

  function Packed(positive: bool, exponent: int, ds: seq<byte>): seq<byte>
  {
    [HeaderByte(positive, exponent)] + ds
  }

  /** A carry out of an all-zero row: a lone 1 one position up. */
  function LoneOne(positive: bool, exponent: int): seq<byte>
  {
    Packed(positive, exponent, [DigitByte(positive, 1)])
  }

  /** Final step when some digit is non-zero or a carry is left. */
  function Finish(positive: bool, exponent: int, ds: seq<byte>, carry: int, strip: bool): Outcome
    requires DigitsOk(positive, ds)
  {
    if carry != 0 then
      if exponent + 1 > MAX_EXPONENT then OutOfRange
      else
        var all := [DigitByte(positive, 1)] + ds;
        Sum(Packed(positive, exponent + 1, if |ds| == MAX_DIGIT_COUNT then DropLast(positive, all) else all))
    else if strip then
      var k := LeadingBlanks(positive, ds);
      if k == |ds| then Sum(ZERO) else Sum(Packed(positive, exponent - k, ds[k..]))
    else Sum(Packed(positive, exponent, ds))
  }

  /** Final step after trailing zeros were removed; the exponent of a lone carry is not range-checked. */
  function FinishTrimmed(positive: bool, exponent: int, ds: seq<byte>, carry: int, strip: bool): Outcome
    requires DigitsOk(positive, ds)
  {
    var r := TrimTail(positive, ds);
    if r == [] then Sum(if carry == 0 then ZERO else LoneOne(positive, exponent + 1))
    else Finish(positive, exponent, r, carry, strip)
  }

  /** Final step when the operands do not overlap: any carry has cleared the whole row. */
  function FinishApart(positive: bool, exponent: int, ds: seq<byte>, carry: int, beyond: byte): Outcome
  {
    if carry != 0 then
      if exponent + 1 > MAX_EXPONENT then OutOfRange else Sum(LoneOne(positive, exponent + 1))
    else
      var k := LeadingBlanks(positive, ds);
      if k == |ds| then if beyond == Blank(positive) then Unspecified else Sum(ZERO)
      else Sum(Packed(positive, exponent - k, TrimTail(positive, ds)[k..]))
  }

  /** Sign of |d1| - |d2| for two operands with equal exponents. */
  function MagnitudeOrder(p1: bool, d1: seq<byte>, p2: bool, d2: seq<byte>): int
  {
    if d1 == [] || d2 == [] then Sign(|d1| - |d2|)
    else if DigitValue(p1, d1[0]) != DigitValue(p2, d2[0]) then Sign(DigitValue(p1, d1[0]) - DigitValue(p2, d2[0]))
    else MagnitudeOrder(p1, d1[1..], p2, d2[1..])
  }

  function Order(a: seq<byte>, b: seq<byte>): int
    requires |a| > 0 && |b| > 0
  {
    if Exponent(a) != Exponent(b) then Sign(Exponent(a) - Exponent(b))
    else MagnitudeOrder(IsPositive(a), a[1..], IsPositive(b), b[1..])
  }

  /** Operands of the adder: canonical and within the 21 bytes a value may occupy. */
  predicate Operand(n: seq<byte>)
  {
    Canonical(n) && |n| <= MAX_DIGIT_COUNT + 1
  }

  /** A value the digit loops can work on: its digits are in range and the first is not zero; a last zero may stay. */
  predicate Summand(n: seq<byte>)
  {
    IsZero(n) ||
    (2 <= |n| <= MAX_DIGIT_COUNT + 1 && DigitsOk(IsPositive(n), n[1..]) && n[1] != Blank(IsPositive(n)))
  }

  /** Distance of the second operand's first digit below the first operand's. */
  function Gap(a: seq<byte>, b: seq<byte>): int
    requires |a| > 0 && |b| > 0
  {
    Exponent(a) - Exponent(b)
  }

  /**
   The byte inspected for rounding when the second operand reaches below position 20: the digit
   at index 20 - gap. The code does not check that this index is inside the operand, so for a gap of
   more than 20 it is a byte in front of the operand's digits.
   */
  function RoundingByte(b: seq<byte>, gap: nat, front: byte): byte
    requires gap + |b| - 1 > MAX_DIGIT_COUNT && |b| > 0
  {
    if gap <= MAX_DIGIT_COUNT then b[MAX_DIGIT_COUNT - gap + 1] else front
  }

  /** For a gap of 21 that byte is the header, and for more it is whatever precedes the operand in memory. */
  function FrontByte(header: byte, gap: int, stray: byte): byte
  {
    if gap == MAX_DIGIT_COUNT + 1 then header else stray
  }

  function RoundingCarry(a: seq<byte>, b: seq<byte>, front: byte): (c: int)
    requires |a| > 0 && |b| > 0 && Gap(a, b) >= 0
    ensures CarryOk(IsPositive(b), c)
  {
    if Gap(a, b) + |b| - 1 > MAX_DIGIT_COUNT &&
       DigitValue(IsPositive(b), RoundingByte(b, Gap(a, b), front)) > 49
    then DigitMap(IsPositive(a), IsPositive(b), 1).carry
    else 0
  }

  function Positions(a: seq<byte>, b: seq<byte>): (n: nat)
    requires |a| > 0 && |b| > 0 && Gap(a, b) >= 0
    ensures n >= |a| - 1
  {
    var last1, last2 := |a| - 1, Gap(a, b) + |b| - 1;
    if last1 >= last2 then last1
    else if last2 > MAX_DIGIT_COUNT && last1 <= MAX_DIGIT_COUNT then MAX_DIGIT_COUNT
    else last2
  }

  function SumRow(a: seq<byte>, b: seq<byte>, front: byte): (r: (seq<byte>, int))
    requires Summand(a) && Summand(b) && Gap(a, b) >= 0 && !IsZero(a) && !IsZero(b)
    ensures |r.0| == Positions(a, b) && DigitsOk(IsPositive(a), r.0) && CarryOk(IsPositive(b), r.1)
  {
    var n := Positions(a, b);
    AddRows(IsPositive(a), IsPositive(b),
            Row(IsPositive(a), a[1..], 0, n), Row(IsPositive(b), b[1..], Gap(a, b), n),
            RoundingCarry(a, b, front))
  }

  /** The sum when |a| >= |b|. */
  function AddAligned(a: seq<byte>, b: seq<byte>, front: byte, beyond: byte): Outcome
    requires Summand(a) && Summand(b) && Gap(a, b) >= 0 && !IsZero(a) && !IsZero(b)
  {
    var p1, e := IsPositive(a), Exponent(a);
    var last1, first2, last2 := |a| - 1, Gap(a, b) + 1, Gap(a, b) + |b| - 1;
    var (ds, carry) := SumRow(a, b, front);
    if last1 == last2 then FinishTrimmed(p1, e, ds, carry, p1 != IsPositive(b))
    else if last1 < first2 then FinishApart(p1, e, ds, carry, beyond)
    else if last1 > last2 then Finish(p1, e, ds, carry, true)
    else FinishTrimmed(p1, e, ds, carry, true)
  }

  function AddSpec(a: seq<byte>, b: seq<byte>, stray: byte, beyond: byte): Outcome
    requires Operand(a) && Operand(b)
  {
    if IsZero(a) then Sum(b)
    else if IsZero(b) then Sum(a)
    else if Order(a, b) == 0 && IsPositive(a) != IsPositive(b) then Sum(ZERO)
    else if Order(a, b) >= 0 then AddAligned(a, b, FrontByte(b[0], Gap(a, b), stray), beyond)
    else AddAligned(b, a, FrontByte(a[0], Gap(b, a), stray), beyond)
  }

  // ---------- the code ----------

  lemma MagnitudeOrderStep(p1: bool, d1: seq<byte>, p2: bool, d2: seq<byte>, i: nat)
    requires i < |d1| && i < |d2|
    ensures DigitValue(p1, d1[i]) != DigitValue(p2, d2[i]) ==>
              MagnitudeOrder(p1, d1[i..], p2, d2[i..]) == Sign(DigitValue(p1, d1[i]) - DigitValue(p2, d2[i]))
    ensures DigitValue(p1, d1[i]) == DigitValue(p2, d2[i]) ==>
              MagnitudeOrder(p1, d1[i..], p2, d2[i..]) == MagnitudeOrder(p1, d1[i + 1..], p2, d2[i + 1..])
  {
    assert d1[i..][1..] == d1[i + 1..] && d2[i..][1..] == d2[i + 1..];
  }

  /** Which operand is larger in magnitude, and whether the two cancel exactly. */
  method CompareMagnitude(a: seq<byte>, b: seq<byte>) returns (isGreater: bool, cancels: bool)
    requires (Canonical(a) && Canonical(b)) || (Summand(a) && Summand(b))
    requires !IsZero(a) && !IsZero(b)
    ensures cancels <==> Order(a, b) == 0 && IsPositive(a) != IsPositive(b)
    ensures !cancels ==> (isGreater <==> Order(a, b) >= 0)
  {
    cancels := false;
    if Exponent(a) > Exponent(b) { return true, false; }
    if Exponent(a) < Exponent(b) { return false, false; }
    if IsPositive(a) == IsPositive(b) {
      isGreater := CompareAlike(IsPositive(a), a[1..], b[1..]);
    } else {
      isGreater, cancels := CompareUnlike(IsPositive(a), a[1..], b[1..]);
    }
  }

  /** Digits of equal sign, the larger stored digit being the larger one for positive numbers only. */
  method CompareAlike(p: bool, d1: seq<byte>, d2: seq<byte>) returns (isGreater: bool)
    ensures isGreater <==> MagnitudeOrder(p, d1, p, d2) >= 0
  {
    var count := if |d1| <= |d2| then |d1| else |d2|;
    var i := 0;
    assert d1[0..] == d1 && d2[0..] == d2;
    while i < count && d1[i] == d2[i]
      invariant i <= count
      invariant MagnitudeOrder(p, d1, p, d2) == MagnitudeOrder(p, d1[i..], p, d2[i..])
    {
      MagnitudeOrderStep(p, d1, p, d2, i);
      i := i + 1;
    }
    if i == count {
      isGreater := |d1| >= |d2|;
    } else {
      MagnitudeOrderStep(p, d1, p, d2, i);
      isGreater := if p then d1[i] >= d2[i] else d1[i] <= d2[i];
    }
  }

  /** Digits of opposite sign, compared after complementing the second; equal magnitudes cancel. */
  method CompareUnlike(p: bool, d1: seq<byte>, d2: seq<byte>) returns (isGreater: bool, cancels: bool)
    requires DigitsOk(p, d1) && DigitsOk(!p, d2)
    ensures cancels <==> MagnitudeOrder(p, d1, !p, d2) == 0
    ensures isGreater <==> MagnitudeOrder(p, d1, !p, d2) >= 0
  {
    var count := if |d1| <= |d2| then |d1| else |d2|;
    var i := 0;
    cancels := false;
    assert d1[0..] == d1 && d2[0..] == d2;
    while i < count && d1[i] == Reverse(d2[i])
      invariant i <= count
      invariant MagnitudeOrder(p, d1, !p, d2) == MagnitudeOrder(p, d1[i..], !p, d2[i..])
    {
      MagnitudeOrderStep(p, d1, !p, d2, i);
      i := i + 1;
    }
    if i == count {
      cancels := |d1| == |d2|;
      isGreater := |d1| >= |d2|;
    } else {
      assert DigitOk(!p, d2[i]);
      MagnitudeOrderStep(p, d1, !p, d2, i);
      isGreater := if p then d1[i] > Reverse(d2[i]) else d1[i] < Reverse(d2[i]);
    }
  }

  /** Extends a partial sum by the position in front of it. */
  lemma AddRowsStep(p1: bool, p2: bool, x: seq<byte>, y: seq<byte>, i: nat, carry: int)
    requires i < |x| == |y| && DigitsOk(p1, x) && DigitsOk(p2, y) && CarryOk(p2, carry)
    ensures var (ds, c) := AddRows(p1, p2, x[i + 1..], y[i + 1..], carry);
            && 0 <= x[i] + y[i] + c < 203
            && (var m := DigitMap(p1, p2, x[i] + y[i] + c);
                AddRows(p1, p2, x[i..], y[i..], carry) == ([m.digit] + ds, m.carry))
  {
    assert x[i..][1..] == x[i + 1..] && y[i..][1..] == y[i + 1..];
    var (ds, c) := AddRows(p1, p2, x[i + 1..], y[i + 1..], carry);
    assert DigitOk(p1, x[i]) && DigitOk(p2, y[i]);
    DigitMapAdds(p1, p2, x[i], y[i], c);
  }

  ghost predicate Partial(p1: bool, p2: bool, d1: seq<byte>, d2: seq<byte>, gap: nat, n: nat, start: int,
                          cur: int, ds: seq<byte>, carry: int)
    requires DigitsOk(p1, d1) && DigitsOk(p2, d2) && CarryOk(p2, start)
  {
    0 <= cur <= n &&
    (ds, carry) == AddRows(p1, p2, Row(p1, d1, 0, n)[cur..], Row(p2, d2, gap, n)[cur..], start)
  }

  lemma PartialStep(p1: bool, p2: bool, d1: seq<byte>, d2: seq<byte>, gap: nat, n: nat, start: int,
                    cur: int, ds: seq<byte>, carry: int)
    requires DigitsOk(p1, d1) && DigitsOk(p2, d2) && CarryOk(p2, start)
    requires cur > 0 && Partial(p1, p2, d1, d2, gap, n, start, cur, ds, carry)
    ensures var index := Cell(p1, d1, 0, cur - 1) + Cell(p2, d2, gap, cur - 1) + carry;
            && 0 <= index < 203
            && (var m := DigitMap(p1, p2, index);
                Partial(p1, p2, d1, d2, gap, n, start, cur - 1, [m.digit] + ds, m.carry))
  {
    AddRowsStep(p1, p2, Row(p1, d1, 0, n), Row(p2, d2, gap, n), cur - 1, start);
  }

  /** The digit loops for operands that do not overlap: the second operand, then the hole up to the first. */
  method AddApart(p1: bool, p2: bool, d1: seq<byte>, d2: seq<byte>, gap: nat, n: nat, start: int)
    returns (ds: seq<byte>, carry: int)
    requires DigitsOk(p1, d1) && DigitsOk(p2, d2) && CarryOk(p2, start)
    requires |d1| <= gap && |d1| <= n <= gap + |d2|
    ensures Partial(p1, p2, d1, d2, gap, n, start, |d1|, ds, carry)
  {
    var cur;
    cur, ds, carry := AddSecondAlone(p1, p2, d1, d2, gap, n, start);
    while cur > |d1|
      invariant Partial(p1, p2, d1, d2, gap, n, start, cur, ds, carry)
      invariant |d1| <= cur <= gap
    {
      PartialStep(p1, p2, d1, d2, gap, n, start, cur, ds, carry);
      cur := cur - 1;
      var info := DigitMap(p1, p2, Blank(p1) + Blank(p2) + carry);
      ds, carry := [info.digit] + ds, info.carry;
    }
  }

  /** Digits of a second operand that lies wholly below the first, as far as they are inside the row. */
  method AddSecondAlone(p1: bool, p2: bool, d1: seq<byte>, d2: seq<byte>, gap: nat, n: nat, start: int)
    returns (cur: nat, ds: seq<byte>, carry: int)
    requires DigitsOk(p1, d1) && DigitsOk(p2, d2) && CarryOk(p2, start)
    requires |d1| <= gap && |d1| <= n <= gap + |d2|
    ensures Partial(p1, p2, d1, d2, gap, n, start, cur, ds, carry) && |d1| <= cur <= gap
  {
    cur := n;
    ds, carry := [], start;
    while cur >= gap + 1
      invariant Partial(p1, p2, d1, d2, gap, n, start, cur, ds, carry)
      invariant cur >= |d1|
    {
      PartialStep(p1, p2, d1, d2, gap, n, start, cur, ds, carry);
      cur := cur - 1;
      var info := DigitMap(p1, p2, d2[cur - gap] + Blank(p1) + carry);
      ds, carry := [info.digit] + ds, info.carry;
    }
  }

  /** Overlapping operands, first segment: the tail of whichever reaches further down. */
  method AddTail(p1: bool, p2: bool, d1: seq<byte>, d2: seq<byte>, gap: nat, n: nat, start: int)
    returns (ds: seq<byte>, carry: int)
    requires DigitsOk(p1, d1) && DigitsOk(p2, d2) && CarryOk(p2, start)
    requires gap < |d1| <= n && (n == |d1| || n <= gap + |d2|)
    ensures Partial(p1, p2, d1, d2, gap, n, start,
                    if |d1| <= gap + |d2| then |d1| else gap + |d2|, ds, carry)
  {
    var last2 := if gap + |d2| <= n then gap + |d2| else n;
    ds, carry := AddFirstAlone(p1, p2, d1, d2, gap, n, start, last2);
    var cur := last2;
    while cur > |d1|
      invariant Partial(p1, p2, d1, d2, gap, n, start, cur, ds, carry)
      invariant gap <= cur && (cur == last2 || |d1| <= cur < last2)
    {
      PartialStep(p1, p2, d1, d2, gap, n, start, cur, ds, carry);
      cur := cur - 1;
      var info := DigitMap(p1, p2, d2[cur - gap] + Blank(p1) + carry);
      ds, carry := [info.digit] + ds, info.carry;
    }
  }

  /** Digits of the first operand below the last digit of the second. */
  method AddFirstAlone(p1: bool, p2: bool, d1: seq<byte>, d2: seq<byte>, gap: nat, n: nat, start: int, last2: nat)
    returns (ds: seq<byte>, carry: int)
    requires DigitsOk(p1, d1) && DigitsOk(p2, d2) && CarryOk(p2, start)
    requires gap < |d1| <= n && (n == |d1| || n <= gap + |d2|)
    requires last2 == if gap + |d2| <= n then gap + |d2| else n
    ensures Partial(p1, p2, d1, d2, gap, n, start, last2, ds, carry)
  {
    var cur := n;
    ds, carry := [], start;
    while cur > last2
      invariant Partial(p1, p2, d1, d2, gap, n, start, cur, ds, carry)
      invariant last2 <= cur <= n && (last2 < n ==> n == |d1|)
    {
      PartialStep(p1, p2, d1, d2, gap, n, start, cur, ds, carry);
      cur := cur - 1;
      var info := DigitMap(p1, p2, d1[cur] + Blank(p2) + carry);
      ds, carry := [info.digit] + ds, info.carry;
    }
  }

  /** The digit loops for overlapping operands, down to the first digit of the second. */
  method AddOverlap(p1: bool, p2: bool, d1: seq<byte>, d2: seq<byte>, gap: nat, n: nat, start: int)
    returns (ds: seq<byte>, carry: int)
    requires DigitsOk(p1, d1) && DigitsOk(p2, d2) && CarryOk(p2, start)
    requires gap < |d1| <= n && (n == |d1| || n <= gap + |d2|)
    ensures Partial(p1, p2, d1, d2, gap, n, start, gap, ds, carry)
  {
    var cur := if |d1| <= gap + |d2| then |d1| else gap + |d2|;
    ds, carry := AddTail(p1, p2, d1, d2, gap, n, start);
    while cur >= gap + 1
      invariant Partial(p1, p2, d1, d2, gap, n, start, cur, ds, carry)
      invariant gap <= cur <= gap + |d2| && cur <= |d1|
    {
      PartialStep(p1, p2, d1, d2, gap, n, start, cur, ds, carry);
      cur := cur - 1;
      var info := DigitMap(p1, p2, d1[cur] + d2[cur - gap] + carry);
      ds, carry := [info.digit] + ds, info.carry;
    }
  }

  /** All segments: the part above starts where the second operand, or its padding, begins. */
  method AddDigits(p1: bool, p2: bool, d1: seq<byte>, d2: seq<byte>, gap: nat, n: nat, start: int)
    returns (ds: seq<byte>, carry: int)
    requires DigitsOk(p1, d1) && DigitsOk(p2, d2) && CarryOk(p2, start)
    requires |d1| <= n && (n == |d1| || n <= gap + |d2|)
    ensures Partial(p1, p2, d1, d2, gap, n, start, 0, ds, carry)
  {
    var cur;
    if |d1| < gap + 1 {
      cur := |d1|;
      ds, carry := AddApart(p1, p2, d1, d2, gap, n, start);
    } else {
      cur := gap;
      ds, carry := AddOverlap(p1, p2, d1, d2, gap, n, start);
    }
    while cur >= 1
      invariant Partial(p1, p2, d1, d2, gap, n, start, cur, ds, carry)
      invariant cur <= |d1| && cur <= gap
    {
      PartialStep(p1, p2, d1, d2, gap, n, start, cur, ds, carry);
      cur := cur - 1;
      var info := DigitMap(p1, p2, d1[cur] + Blank(p2) + carry);
      ds, carry := [info.digit] + ds, info.carry;
    }
  }

  method TrimTrailing(positive: bool, ds: seq<byte>) returns (len: nat)
    ensures len <= |ds| && ds[..len] == TrimTail(positive, ds)
  {
    len := |ds|;
    assert ds[..len] == ds;
    while len > 0 && ds[len - 1] == Blank(positive)
      invariant len <= |ds| && TrimTail(positive, ds) == TrimTail(positive, ds[..len])
    {
      assert ds[..len][..len - 1] == ds[..len - 1];
      len := len - 1;
    }
  }

  method ScanLeading(positive: bool, ds: seq<byte>) returns (k: nat)
    ensures k == LeadingBlanks(positive, ds)
  {
    k := 0;
    while k < |ds| && ds[k] == Blank(positive)
      invariant k <= |ds| && LeadingBlanks(positive, ds) == k + LeadingBlanks(positive, ds[k..])
    {
      assert ds[k..][1..] == ds[k + 1..];
      k := k + 1;
    }
  }

  /** Rounds the 21st digit away; the carry runs down the digits and every wrapped digit is dropped. */
  method RoundAway(positive: bool, all: seq<byte>) returns (ds: seq<byte>)
    requires |all| > 1 && DigitsOk(positive, all) && all[0] == DigitByte(positive, 1)
    ensures ds == DropLast(positive, all)
  {
    var len := |all| - 1;
    var info := DigitMap(positive, positive, if DigitValue(positive, all[len]) > 49 then 1 else 0);
    ds := all[..len];
    if info.carry != 0 {
      while info.carry != 0
        invariant 0 <= len < |all| && len <= |ds| && ds[..len] == all[..len]
        invariant info.carry != 0 ==> info.carry == Unit(positive) && len > 0
        invariant info.carry != 0 ==> BumpLast(positive, all[..len]) == DropLast(positive, all)
        invariant info.carry == 0 ==> len < |ds| && ds[..len + 1] == DropLast(positive, all)
        decreases if info.carry != 0 then len + 1 else 0
      {
        var cut := all[..len];
        len := len - 1;
        assert cut[..len] == all[..len] && ds[len] == ds[..len + 1][len] == cut[len];
        assert DigitOk(positive, all[len]) && cut[0] == all[0];
        DigitMapAdds(positive, positive, ds[len], Blank(positive), info.carry);
        info := DigitMap(positive, positive, ds[len] + Blank(positive) + info.carry);
        ds := all[..len] + [info.digit];
      }
      ds := ds[..len + 1];
    }
  }

  method FinishSum(positive: bool, exponent: int, ds: seq<byte>, carry: int, strip: bool) returns (out: Outcome)
    requires DigitsOk(positive, ds)
    ensures out == Finish(positive, exponent, ds, carry, strip)
  {
    if carry != 0 {
      if exponent + 1 > MAX_EXPONENT { return OutOfRange; }
      var all := [DigitByte(positive, 1)] + ds;
      if |ds| == MAX_DIGIT_COUNT {
        all := RoundAway(positive, all);
      }
      return Sum([HeaderByte(positive, exponent + 1)] + all);
    }
    if strip {
      var k := ScanLeading(positive, ds);
      if k == |ds| { return Sum([0x80]); }
      return Sum([HeaderByte(positive, exponent - k)] + ds[k..]);
    }
    return Sum([HeaderByte(positive, exponent)] + ds);
  }

  method FinishTrimmedSum(positive: bool, exponent: int, ds: seq<byte>, carry: int, strip: bool)
    returns (out: Outcome)
    requires DigitsOk(positive, ds)
    ensures out == FinishTrimmed(positive, exponent, ds, carry, strip)
  {
    var len := TrimTrailing(positive, ds);
    if len == 0 {
      return Sum(if carry == 0 then [0x80]
                 else [HeaderByte(positive, exponent + 1), DigitByte(positive, 1)]);
    }
    out := FinishSum(positive, exponent, ds[..len], carry, strip);
  }

  method FinishApartSum(positive: bool, exponent: int, ds: seq<byte>, carry: int, beyond: byte)
    returns (out: Outcome)
    ensures out == FinishApart(positive, exponent, ds, carry, beyond)
  {
    if carry != 0 {
      if exponent + 1 > MAX_EXPONENT { return OutOfRange; }
      return Sum([HeaderByte(positive, exponent + 1), DigitByte(positive, 1)]);
    }
    var k := ScanLeading(positive, ds);
    if k == |ds| {
      return if beyond == Blank(positive) then Unspecified else Sum([0x80]);
    }
    var len := TrimTrailing(positive, ds);
    assert k < len by {
      assert ds[k] != Blank(positive);
    }
    out := Sum([HeaderByte(positive, exponent - k)] + ds[k..len]);
    assert ds[k..len] == ds[..len][k..];
  }

  method SumDigits(a: seq<byte>, b: seq<byte>, stray: byte) returns (ds: seq<byte>, carry: int)
    requires Operand(a) && Operand(b) && Gap(a, b) >= 0 && !IsZero(a) && !IsZero(b)
    ensures (ds, carry) == SumRow(a, b, FrontByte(b[0], Gap(a, b), stray))
  {
    var p1, p2 := IsPositive(a), IsPositive(b);
    var last1, first2 := |a| - 1, Exponent(a) - Exponent(b) + 1;
    var last2 := first2 + (|b| - 1) - 1;
    var n := if last1 >= last2 then last1 else if last2 > MAX_DIGIT_COUNT then MAX_DIGIT_COUNT else last2;
    var start := 0;
    if last2 > MAX_DIGIT_COUNT {
      var index := MAX_DIGIT_COUNT - first2 + 1;
      var dropped := if index >= 0 then b[1..][index] else if index == -1 then b[0] else stray;
      start := DigitMap(p1, p2, if DigitValue(p2, dropped) > 49 then 1 else 0).carry;
    }
    assert start == RoundingCarry(a, b, FrontByte(b[0], Gap(a, b), stray));
    ds, carry := AddDigits(p1, p2, a[1..], b[1..], first2 - 1, n, start);
  }

  method AddLargerFirst(a: seq<byte>, b: seq<byte>, stray: byte, beyond: byte) returns (out: Outcome)
    requires Operand(a) && Operand(b) && Gap(a, b) >= 0 && !IsZero(a) && !IsZero(b)
    ensures out == AddAligned(a, b, FrontByte(b[0], Gap(a, b), stray), beyond)
  {
    var p1, p2, exponent := IsPositive(a), IsPositive(b), Exponent(a);
    var last1, first2 := |a| - 1, Exponent(a) - Exponent(b) + 1;
    var last2 := first2 + (|b| - 1) - 1;
    var ds, carry := SumDigits(a, b, stray);
    if last1 == last2 {
      if ds[|ds| - 1] == Blank(p1) {
        out := FinishTrimmedSum(p1, exponent, ds, carry, p1 != p2);
      } else {
        out := FinishSum(p1, exponent, ds, carry, p1 != p2);
      }
    } else if last1 < first2 {
      out := FinishApartSum(p1, exponent, ds, carry, beyond);
    } else if last1 > last2 {
      out := FinishSum(p1, exponent, ds, carry, true);
    } else {
      out := FinishTrimmedSum(p1, exponent, ds, carry, true);
    }
  }

  /**
   The addition entry point. `stray` is the byte in front of the smaller operand that the rounding
   test reads when the exponents differ by more than 21; `beyond` is the byte after the result row.
   */
  method Add(a: seq<byte>, b: seq<byte>, stray: byte, beyond: byte) returns (out: Outcome)
    requires Operand(a) && Operand(b)
    ensures out == AddSpec(a, b, stray, beyond)
  {
    if IsZero(a) { return Sum(b); }
    if IsZero(b) { return Sum(a); }
    var isGreater, cancels := CompareMagnitude(a, b);
    if cancels { return Sum([0x80]); }
    if isGreater {
      out := AddLargerFirst(a, b, stray, beyond);
    } else {
      out := AddLargerFirst(b, a, stray, beyond);
    }
  }
}
