/**
 The running sum of an aggregate: each value is added into the buffer that holds the sum. The routine is
 chosen by the two signs. The buffer is read and written by the same digit loops, and digits that need no
 change are left where they are.
 */
module NumericRunningSum {
  import opened CArithmetic
  import opened NumericCodec
  import opened NumericCompare
  import opened NumericAddition

  // ---------- the function computed ----------

  /** Equal signs: only the loops that may end in a zero are trimmed, and every carry is range-checked. */
  function FinishSame(p: bool, exponent: int, ds: seq<byte>, carry: int, apart: bool, trim: bool): Outcome
    requires DigitsOk(p, ds)
  {
    FinishKept(p, exponent, if trim then TrimTail(p, ds) else ds, carry, apart)
  }

  function FinishKept(p: bool, exponent: int, r: seq<byte>, carry: int, apart: bool): Outcome
    requires DigitsOk(p, r)
  {
    if carry == 0 then Sum(Packed(p, exponent, r))
    else if exponent + 1 > MAX_EXPONENT then OutOfRange
    else if apart then Sum(LoneOne(p, exponent + 1))
    else
      var all := [DigitByte(p, 1)] + r;
      Sum(Packed(p, exponent + 1, if |r| == MAX_DIGIT_COUNT then DropLast(p, all) else all))
  }

  function SumSame(a: seq<byte>, b: seq<byte>, front: byte): Outcome
    requires Summand(a) && Summand(b) && Gap(a, b) >= 0 && !IsZero(a) && !IsZero(b)
  {
    var last1, first2, last2 := |a| - 1, Gap(a, b) + 1, Gap(a, b) + |b| - 1;
    var (ds, carry) := SumRow(a, b, front);
    FinishSame(IsPositive(a), Exponent(a), ds, carry, last1 < first2,
               last1 == last2 || (last1 < last2 && last2 > MAX_DIGIT_COUNT))
  }

  /** Opposite signs: no carry can be left, and the code does not look for one. */
  function FinishOpposite(p: bool, exponent: int, ds: seq<byte>, carry: int): Outcome
    requires DigitsOk(p, ds)
  {
    var r := TrimTail(p, ds);
    if r == [] then Sum(if carry == 0 then ZERO else LoneOne(p, exponent + 1)) else Finish(p, exponent, r, 0, true)
  }

  function SumOpposite(a: seq<byte>, b: seq<byte>, front: byte, behind: byte): Outcome
    requires Summand(a) && Summand(b) && Gap(a, b) >= 0 && !IsZero(a) && !IsZero(b)
  {
    var p, e := IsPositive(a), Exponent(a);
    var last1, first2, last2 := |a| - 1, Gap(a, b) + 1, Gap(a, b) + |b| - 1;
    var (ds, carry) := SumRow(a, b, front);
    if last1 == last2 then FinishOpposite(p, e, ds, carry)
    else if last1 < first2 then FinishApart(p, e, ds, 0, behind)
    else if last1 > last2 then Finish(p, e, ds, 0, true)
    else FinishOpposite(p, e, ds, carry)
  }

  function SumAligned(a: seq<byte>, b: seq<byte>, front: byte, behind: byte): Outcome
    requires Summand(a) && Summand(b) && Gap(a, b) >= 0 && !IsZero(a) && !IsZero(b)
  {
    if IsPositive(a) == IsPositive(b) then SumSame(a, b, front) else SumOpposite(a, b, front, behind)
  }

  /**
   The new running sum. The header of the sum is overwritten before the byte in front of the digits of
   the second operand is read, so for a gap of 21 that byte is a zero digit when the sum is the smaller.
   */
  function SumSpec(sum: seq<byte>, src: seq<byte>, stray: byte, behind: byte): Outcome
    requires Summand(sum) && Summand(src)
  {
    if IsZero(sum) then Sum(src)
    else if IsZero(src) then Sum(sum)
    else if Order(sum, src) == 0 && IsPositive(sum) != IsPositive(src) then Sum(ZERO)
    else if Order(sum, src) >= 0 then SumAligned(sum, src, FrontByte(src[0], Gap(sum, src), stray), behind)
    else SumAligned(src, sum, FrontByte(Blank(IsPositive(src)), Gap(src, sum), stray), behind)
  }

  // ---------- the digit loops ----------

  /** The operands in order of size; the digits of the sum are in the buffer, those of the source are not. */
  datatype Job = Job(inFirst: bool, p1: bool, p2: bool, d1: seq<byte>, d2: seq<byte>, gap: nat, n: nat, start: int)

  ghost predicate Sane(j: Job, src: seq<byte>, before: seq<byte>)
  {
    && DigitsOk(j.p1, j.d1) && DigitsOk(j.p2, j.d2) && CarryOk(j.p2, j.start) && |src| > 0
    && |j.d1| <= j.n < |before| && (j.n == |j.d1| || j.n <= j.gap + |j.d2|)
    && (if j.inFirst then j.d1 == before[1..1 + |j.d1|] && j.d2 == src[1..]
        else j.d1 == src[1..] && |j.d2| < |before| && j.d2 == before[1..1 + |j.d2|])
  }

  /** The positions from cur on hold the row of the sum, those before it the old sum, those behind it are untouched. */
  ghost predicate Progress(j: Job, src: seq<byte>, before: seq<byte>, cells: seq<byte>, cur: int, carry: int)
    requires Sane(j, src, before)
  {
    && |cells| == |before| && 0 <= cur <= j.n
    && Partial(j.p1, j.p2, j.d1, j.d2, j.gap, j.n, j.start, cur, cells[1 + cur..1 + j.n], carry)
    && cells[1..1 + cur] == before[1..1 + cur] && cells[1 + j.n..] == before[1 + j.n..]
  }

  /** One position: the table is asked about the digits there and the carry, and the digit is stored. */
  lemma {:induction false} StepInPlace(j: Job, src: seq<byte>, before: seq<byte>, cells: seq<byte>, cur: int,
                                       carry: int)
    requires Sane(j, src, before) && cur > 0 && Progress(j, src, before, cells, cur, carry)
    ensures var index := Cell(j.p1, j.d1, 0, cur - 1) + Cell(j.p2, j.d2, j.gap, cur - 1) + carry;
            && 0 <= index < 203
            && (var m := DigitMap(j.p1, j.p2, index);
                Progress(j, src, before, cells[cur := m.digit], cur - 1, m.carry))
  {
    var ds := cells[1 + cur..1 + j.n];
    PartialStep(j.p1, j.p2, j.d1, j.d2, j.gap, j.n, j.start, cur, ds, carry);
    var m := DigitMap(j.p1, j.p2, Cell(j.p1, j.d1, 0, cur - 1) + Cell(j.p2, j.d2, j.gap, cur - 1) + carry);
    StoredCell(before, cells, cur, j.n, m.digit);
  }

  lemma StoredCell(before: seq<byte>, cells: seq<byte>, cur: int, n: nat, digit: byte)
    requires 0 < cur <= n < |cells| == |before|
    requires cells[1..1 + cur] == before[1..1 + cur] && cells[1 + n..] == before[1 + n..]
    ensures var stored := cells[cur := digit];
            && stored[cur..1 + n] == [digit] + cells[1 + cur..1 + n]
            && stored[1..cur] == before[1..cur] && stored[1 + n..] == before[1 + n..]
  {
    assert forall i :: 1 <= i < cur ==> cells[i] == cells[1..1 + cur][i - 1] == before[1..1 + cur][i - 1] == before[i];
    assert forall i :: 1 + n <= i < |cells| ==> cells[i] == cells[1 + n..][i - 1 - n] == before[1 + n..][i - 1 - n];
  }

  /** Without a carry a digit over nothing stays as it is. */
  lemma KeepsDigit(p1: bool, p2: bool, x: byte)
    requires DigitOk(p1, x)
    ensures DigitMap(p1, p2, x + Blank(p2)) == CarryInfo(0, x)
  {
  }

  /** Digits of the sum that nothing is added to need not be visited once the carry is gone. */
  lemma {:induction false} StaysPut(j: Job, src: seq<byte>, before: seq<byte>, cells: seq<byte>, cur: int, stop: nat)
    requires Sane(j, src, before) && Progress(j, src, before, cells, cur, 0) && stop <= cur
    requires j.inFirst && cur <= |j.d1| && (cur <= j.gap || stop >= j.gap + |j.d2|)
    ensures Progress(j, src, before, cells, stop, 0)
    decreases cur
  {
    if stop < cur {
      StepInPlace(j, src, before, cells, cur, 0);
      assert DigitOk(j.p1, j.d1[cur - 1]);
      KeepsDigit(j.p1, j.p2, j.d1[cur - 1]);
      assert cells[cur] == cells[1..1 + cur][cur - 1] == before[1..1 + cur][cur - 1] == before[cur];
      assert j.d1[cur - 1] == before[cur];
      assert cells[cur := cells[cur]] == cells;
      StaysPut(j, src, before, cells, cur - 1, stop);
    }
  }

  /** The byte the first operand's pointer is at: in the buffer, or in the source. */
  function First(inFirst: bool, cells: seq<byte>, src: seq<byte>, i: nat): byte
    requires 1 + i < |if inFirst then cells else src|
  {
    if inFirst then cells[1 + i] else src[1 + i]
  }

  lemma FirstIsDigit(j: Job, src: seq<byte>, before: seq<byte>, cells: seq<byte>, cur: int, carry: int)
    requires Sane(j, src, before) && Progress(j, src, before, cells, cur, carry) && 0 < cur <= |j.d1|
    ensures 1 + (cur - 1) < |if j.inFirst then cells else src|
    ensures First(j.inFirst, cells, src, cur - 1) == Cell(j.p1, j.d1, 0, cur - 1) == j.d1[cur - 1]
  {
    if j.inFirst {
      assert cells[cur] == cells[1..1 + cur][cur - 1] == before[1..1 + cur][cur - 1] == before[cur];
    }
  }

  lemma SecondIsDigit(j: Job, src: seq<byte>, before: seq<byte>, cells: seq<byte>, cur: int, carry: int)
    requires Sane(j, src, before) && Progress(j, src, before, cells, cur, carry) && j.gap < cur <= j.gap + |j.d2|
    ensures 1 + (cur - 1 - j.gap) < |if !j.inFirst then cells else src|
    ensures First(!j.inFirst, cells, src, cur - 1 - j.gap) == Cell(j.p2, j.d2, j.gap, cur - 1) == j.d2[cur - 1 - j.gap]
  {
    var i := cur - 1 - j.gap;
    if !j.inFirst {
      assert cells[1 + i] == cells[1..1 + cur][i] == before[1..1 + cur][i] == before[1 + i];
    }
  }

  lemma BothAreDigits(j: Job, src: seq<byte>, before: seq<byte>, cells: seq<byte>, cur: int, carry: int)
    requires Sane(j, src, before) && Progress(j, src, before, cells, cur, carry)
    requires j.gap < cur <= j.gap + |j.d2| && cur <= |j.d1|
    ensures 1 + (cur - 1) < |if j.inFirst then cells else src|
    ensures 1 + (cur - 1 - j.gap) < |if !j.inFirst then cells else src|
    ensures First(j.inFirst, cells, src, cur - 1) + First(!j.inFirst, cells, src, cur - 1 - j.gap) ==
            Cell(j.p1, j.d1, 0, cur - 1) + Cell(j.p2, j.d2, j.gap, cur - 1)
  {
    FirstIsDigit(j, src, before, cells, cur, carry);
    SecondIsDigit(j, src, before, cells, cur, carry);
  }

  /** The table entry for one position: its digit is stored, its carry handed on. */
  method Place(data: array<byte>, p1: bool, p2: bool, cur: nat, index: int, ghost carryIn: int,
               ghost j: Job, ghost src: seq<byte>, ghost before: seq<byte>)
    returns (carry: int)
    requires Sane(j, src, before) && cur > 0 && Progress(j, src, before, data[..], cur, carryIn)
    requires (p1, p2) == (j.p1, j.p2)
    requires index == Cell(p1, j.d1, 0, cur - 1) + Cell(p2, j.d2, j.gap, cur - 1) + carryIn
    modifies data
    ensures Progress(j, src, before, data[..], cur - 1, carry)
  {
    ghost var cells := data[..];
    StepInPlace(j, src, before, cells, cur, carryIn);
    var info := DigitMap(p1, p2, index);
    data[cur] := info.digit;
    assert data[..] == cells[cur := info.digit];
    carry := info.carry;
  }

  /** Both operands have a digit. */
  method AddBoth(data: array<byte>, src: seq<byte>, inFirst: bool, p1: bool, p2: bool, gap: nat, from: nat,
                 carryIn: int,
                 ghost j: Job, ghost before: seq<byte>)
    returns (carry: int)
    requires Sane(j, src, before) && Progress(j, src, before, data[..], from, carryIn)
    requires (inFirst, p1, p2, gap) == (j.inFirst, j.p1, j.p2, j.gap) && gap <= from <= |j.d1| && from <= gap + |j.d2|
    modifies data
    ensures Progress(j, src, before, data[..], gap, carry)
  {
    var cur := from;
    carry := carryIn;
    while cur > gap
      invariant gap <= cur <= from && Progress(j, src, before, data[..], cur, carry)
    {
      carry := BothAt(data, src, inFirst, p1, p2, gap, cur, carry, j, before);
      cur := cur - 1;
    }
  }

  method BothAt(data: array<byte>, src: seq<byte>, inFirst: bool, p1: bool, p2: bool, gap: nat, cur: nat, carryIn: int,
                ghost j: Job, ghost before: seq<byte>)
    returns (carry: int)
    requires Sane(j, src, before) && Progress(j, src, before, data[..], cur, carryIn)
    requires (inFirst, p1, p2, gap) == (j.inFirst, j.p1, j.p2, j.gap) && gap < cur <= |j.d1| && cur <= gap + |j.d2|
    modifies data
    ensures Progress(j, src, before, data[..], cur - 1, carry)
  {
    BothAreDigits(j, src, before, data[..], cur, carryIn);
    var x, y := First(inFirst, data[..], src, cur - 1), First(!inFirst, data[..], src, cur - 1 - gap);
    carry := Place(data, p1, p2, cur, x + y + carryIn, carryIn, j, src, before);
  }

  /** Only the first operand has a digit. */
  method AddFirst(data: array<byte>, src: seq<byte>, inFirst: bool, p1: bool, p2: bool, from: nat, stop: nat,
                  carryIn: int,
                  ghost j: Job, ghost before: seq<byte>)
    returns (carry: int)
    requires Sane(j, src, before) && Progress(j, src, before, data[..], from, carryIn)
    requires (inFirst, p1, p2) == (j.inFirst, j.p1, j.p2) && stop <= from <= |j.d1|
    requires from <= j.gap || stop >= j.gap + |j.d2|
    modifies data
    ensures Progress(j, src, before, data[..], stop, carry)
  {
    var cur := from;
    carry := carryIn;
    while cur > stop
      invariant stop <= cur <= from && Progress(j, src, before, data[..], cur, carry)
    {
      carry := FirstAt(data, src, inFirst, p1, p2, cur, carry, j, before);
      cur := cur - 1;
    }
  }

  method FirstAt(data: array<byte>, src: seq<byte>, inFirst: bool, p1: bool, p2: bool, cur: nat, carryIn: int,
                 ghost j: Job, ghost before: seq<byte>)
    returns (carry: int)
    requires Sane(j, src, before) && Progress(j, src, before, data[..], cur, carryIn)
    requires (inFirst, p1, p2) == (j.inFirst, j.p1, j.p2) && 0 < cur <= |j.d1| && (cur <= j.gap || cur > j.gap + |j.d2|)
    modifies data
    ensures Progress(j, src, before, data[..], cur - 1, carry)
  {
    FirstIsDigit(j, src, before, data[..], cur, carryIn);
    var x := First(inFirst, data[..], src, cur - 1);
    carry := Place(data, p1, p2, cur, x + Blank(p2) + carryIn, carryIn, j, src, before);
  }

  /** Only the second operand has a digit. */
  method AddSecond(data: array<byte>, src: seq<byte>, inFirst: bool, p1: bool, p2: bool, gap: nat, from: nat, stop: nat,
                   carryIn: int, ghost j: Job, ghost before: seq<byte>)
    returns (carry: int)
    requires Sane(j, src, before) && Progress(j, src, before, data[..], from, carryIn)
    requires (inFirst, p1, p2, gap) == (j.inFirst, j.p1, j.p2, j.gap)
    requires stop <= from <= gap + |j.d2| && gap <= stop && |j.d1| <= stop
    modifies data
    ensures Progress(j, src, before, data[..], stop, carry)
  {
    var cur := from;
    carry := carryIn;
    while cur > stop
      invariant stop <= cur <= from && Progress(j, src, before, data[..], cur, carry)
    {
      carry := SecondAt(data, src, inFirst, p1, p2, gap, cur, carry, j, before);
      cur := cur - 1;
    }
  }

  method SecondAt(data: array<byte>, src: seq<byte>, inFirst: bool, p1: bool, p2: bool, gap: nat, cur: nat,
                  carryIn: int,
                  ghost j: Job, ghost before: seq<byte>)
    returns (carry: int)
    requires Sane(j, src, before) && Progress(j, src, before, data[..], cur, carryIn)
    requires (inFirst, p1, p2, gap) == (j.inFirst, j.p1, j.p2, j.gap) && gap < cur <= gap + |j.d2| && cur > |j.d1|
    modifies data
    ensures Progress(j, src, before, data[..], cur - 1, carry)
  {
    SecondIsDigit(j, src, before, data[..], cur, carryIn);
    var y := First(!inFirst, data[..], src, cur - 1 - gap);
    carry := Place(data, p1, p2, cur, y + Blank(p1) + carryIn, carryIn, j, src, before);
  }

  /** The hole between the operands. */
  method AddHole(data: array<byte>, src: seq<byte>, p1: bool, p2: bool, from: nat, stop: nat, carryIn: int,
                 ghost j: Job, ghost before: seq<byte>)
    returns (carry: int)
    requires Sane(j, src, before) && Progress(j, src, before, data[..], from, carryIn)
    requires (p1, p2) == (j.p1, j.p2) && |j.d1| <= stop <= from <= j.gap
    modifies data
    ensures Progress(j, src, before, data[..], stop, carry)
  {
    var cur := from;
    carry := carryIn;
    while cur > stop
      invariant stop <= cur <= from && Progress(j, src, before, data[..], cur, carry)
    {
      carry := Place(data, p1, p2, cur, Blank(p1) + Blank(p2) + carry, carry, j, src, before);
      cur := cur - 1;
    }
  }

  /** The top of a sum that is the first operand: nothing is touched once the carry is gone. */
  method CarryUp(data: array<byte>, src: seq<byte>, p1: bool, p2: bool, from: nat, carryIn: int,
                 ghost j: Job, ghost before: seq<byte>)
    returns (carry: int)
    requires Sane(j, src, before) && Progress(j, src, before, data[..], from, carryIn)
    requires (p1, p2) == (j.p1, j.p2) && j.inFirst && from <= |j.d1| && from <= j.gap
    modifies data
    ensures Progress(j, src, before, data[..], 0, carry)
  {
    var cur := from;
    carry := carryIn;
    while cur > 0 && carry != 0
      invariant cur <= from && Progress(j, src, before, data[..], cur, carry)
    {
      carry := FirstAt(data, src, true, p1, p2, cur, carry, j, before);
      cur := cur - 1;
    }
    if carry == 0 { StaysPut(j, src, before, data[..], cur, 0); }
  }

  /** The table entry for a digit of one operand over nothing, without a carry, is that digit. */
  ghost predicate Copies(j: Job, cur: nat, digit: byte)
    requires cur > 0
  {
    var index := Cell(j.p1, j.d1, 0, cur - 1) + Cell(j.p2, j.d2, j.gap, cur - 1);
    0 <= index < 203 && DigitMap(j.p1, j.p2, index) == CarryInfo(0, digit)
  }

  lemma FirstCopies(j: Job, src: seq<byte>, before: seq<byte>, cells: seq<byte>, cur: int)
    requires Sane(j, src, before) && Progress(j, src, before, cells, cur, 0)
    requires 0 < cur <= |j.d1| && (cur <= j.gap || cur > j.gap + |j.d2|)
    ensures 1 + (cur - 1) < |if j.inFirst then cells else src| && Copies(j, cur, First(j.inFirst, cells, src, cur - 1))
  {
    FirstIsDigit(j, src, before, cells, cur, 0);
    assert DigitOk(j.p1, j.d1[cur - 1]);
    KeepsDigit(j.p1, j.p2, j.d1[cur - 1]);
  }

  lemma SecondCopies(j: Job, src: seq<byte>, before: seq<byte>, cells: seq<byte>, cur: int)
    requires Sane(j, src, before) && Progress(j, src, before, cells, cur, 0) && j.p1 == j.p2
    requires j.gap < cur <= j.gap + |j.d2| && cur > |j.d1|
    ensures 1 + (cur - 1 - j.gap) < |if !j.inFirst then cells else src|
    ensures Copies(j, cur, First(!j.inFirst, cells, src, cur - 1 - j.gap))
  {
    SecondIsDigit(j, src, before, cells, cur, 0);
    assert DigitOk(j.p2, j.d2[cur - 1 - j.gap]);
    KeepsDigit(j.p1, j.p2, j.d2[cur - 1 - j.gap]);
  }

  lemma HoleCopies(j: Job, cur: int)
    requires j.p1 == j.p2 && |j.d1| < cur <= j.gap
    ensures Copies(j, cur, Blank(j.p1))
  {
  }

  /** Storing a digit to which nothing is added. */
  method Copy(data: array<byte>, cur: nat, digit: byte, ghost j: Job, ghost src: seq<byte>, ghost before: seq<byte>)
    requires Sane(j, src, before) && cur > 0 && Progress(j, src, before, data[..], cur, 0) && Copies(j, cur, digit)
    modifies data
    ensures Progress(j, src, before, data[..], cur - 1, 0)
  {
    ghost var cells := data[..];
    StepInPlace(j, src, before, cells, cur, 0);
    data[cur] := digit;
    assert data[..] == cells[cur := digit];
  }

  method CopyFirstAt(data: array<byte>, src: seq<byte>, inFirst: bool, cur: nat, ghost j: Job, ghost before: seq<byte>)
    requires Sane(j, src, before) && Progress(j, src, before, data[..], cur, 0)
    requires inFirst == j.inFirst && 0 < cur <= |j.d1| && (cur <= j.gap || cur > j.gap + |j.d2|)
    modifies data
    ensures Progress(j, src, before, data[..], cur - 1, 0)
  {
    FirstCopies(j, src, before, data[..], cur);
    Copy(data, cur, First(inFirst, data[..], src, cur - 1), j, src, before);
  }

  /** Equal signs and no rounding: digits over nothing are copied. */
  method CopyFirst(data: array<byte>, src: seq<byte>, inFirst: bool, from: nat, stop: nat,
                   ghost j: Job, ghost before: seq<byte>)
    requires Sane(j, src, before) && Progress(j, src, before, data[..], from, 0)
    requires inFirst == j.inFirst && stop <= from <= |j.d1| && (from <= j.gap || stop >= j.gap + |j.d2|)
    modifies data
    ensures Progress(j, src, before, data[..], stop, 0)
  {
    var cur := from;
    while cur > stop
      invariant stop <= cur <= from && Progress(j, src, before, data[..], cur, 0)
    {
      CopyFirstAt(data, src, inFirst, cur, j, before);
      cur := cur - 1;
    }
  }

  method CopySecond(data: array<byte>, src: seq<byte>, inFirst: bool, gap: nat, from: nat, stop: nat,
                    ghost j: Job, ghost before: seq<byte>)
    requires Sane(j, src, before) && Progress(j, src, before, data[..], from, 0) && j.p1 == j.p2
    requires (inFirst, gap) == (j.inFirst, j.gap) && stop <= from <= gap + |j.d2| && gap <= stop && |j.d1| <= stop
    modifies data
    ensures Progress(j, src, before, data[..], stop, 0)
  {
    var cur := from;
    while cur > stop
      invariant stop <= cur <= from && Progress(j, src, before, data[..], cur, 0)
    {
      SecondCopies(j, src, before, data[..], cur);
      Copy(data, cur, First(!inFirst, data[..], src, cur - 1 - gap), j, src, before);
      cur := cur - 1;
    }
  }

  method FillHole(data: array<byte>, src: seq<byte>, p: bool, from: nat, stop: nat, ghost j: Job,
                  ghost before: seq<byte>)
    requires Sane(j, src, before) && Progress(j, src, before, data[..], from, 0)
    requires p == j.p1 == j.p2 && |j.d1| <= stop <= from <= j.gap
    modifies data
    ensures Progress(j, src, before, data[..], stop, 0)
  {
    var cur := from;
    while cur > stop
      invariant stop <= cur <= from && Progress(j, src, before, data[..], cur, 0)
    {
      HoleCopies(j, cur);
      Copy(data, cur, Blank(p), j, src, before);
      cur := cur - 1;
    }
  }

  // ---------- the row ----------

  /** The top of the row: a sum that is the first operand is left alone where it can be. */
  method AddTop(data: array<byte>, src: seq<byte>, inFirst: bool, p1: bool, p2: bool, from: nat, carryIn: int,
                ghost j: Job, ghost before: seq<byte>)
    returns (carry: int)
    requires Sane(j, src, before) && Progress(j, src, before, data[..], from, carryIn)
    requires (inFirst, p1, p2) == (j.inFirst, j.p1, j.p2) && from <= |j.d1| && from <= j.gap
    modifies data
    ensures Progress(j, src, before, data[..], 0, carry)
  {
    if inFirst {
      carry := CarryUp(data, src, p1, p2, from, carryIn, j, before);
    } else {
      carry := AddFirst(data, src, inFirst, p1, p2, from, 0, carryIn, j, before);
    }
  }

  /** Operands that do not overlap, through the table: the second, the hole, the first. */
  method AddApartInPlace(data: array<byte>, src: seq<byte>, inFirst: bool, p1: bool, p2: bool, gap: nat, last1: nat,
                         n: nat, start: int, ghost j: Job, ghost before: seq<byte>)
    returns (carry: int)
    requires Sane(j, src, before) && Progress(j, src, before, data[..], n, start)
    requires (inFirst, p1, p2, gap, last1, n) == (j.inFirst, j.p1, j.p2, j.gap, |j.d1|, j.n)
    requires last1 <= gap && n <= gap + |j.d2|
    modifies data
    ensures Progress(j, src, before, data[..], 0, carry)
  {
    carry := start;
    var cur := n;
    if n > gap {
      carry := AddSecond(data, src, inFirst, p1, p2, gap, n, gap, carry, j, before);
      cur := gap;
    }
    carry := AddHole(data, src, p1, p2, cur, last1, carry, j, before);
    carry := AddFirst(data, src, inFirst, p1, p2, last1, 0, carry, j, before);
  }

  /** The same without rounding and with equal signs: nothing but copying, and not even that at the top of the sum. */
  method CopyApart(data: array<byte>, src: seq<byte>, inFirst: bool, p: bool, gap: nat, last1: nat, n: nat,
                   ghost j: Job, ghost before: seq<byte>)
    requires Sane(j, src, before) && Progress(j, src, before, data[..], n, 0) && p == j.p1 == j.p2
    requires (inFirst, gap, last1, n) == (j.inFirst, j.gap, |j.d1|, j.n) && last1 <= gap && n == gap + |j.d2|
    modifies data
    ensures Progress(j, src, before, data[..], 0, 0)
  {
    CopySecond(data, src, inFirst, gap, n, gap, j, before);
    FillHole(data, src, p, gap, last1, j, before);
    if inFirst {
      StaysPut(j, src, before, data[..], last1, 0);
    } else {
      CopyFirst(data, src, inFirst, last1, 0, j, before);
    }
  }

  /** What the row loops are given: signs and positions of the operands, the last position, the rounding carry. */
  ghost predicate Ready(j: Job, src: seq<byte>, before: seq<byte>, cells: seq<byte>, inFirst: bool, p1: bool, p2: bool,
                        gap: nat, last1: nat, last2: nat, n: nat, start: int)
  {
    && Sane(j, src, before) && Progress(j, src, before, cells, n, start) && j.d2 != []
    && (inFirst, p1, p2, gap, last1, n) == (j.inFirst, j.p1, j.p2, j.gap, |j.d1|, j.n) && last2 == gap + |j.d2|
    && n == (if last1 >= last2 then last1 else if last2 > MAX_DIGIT_COUNT then MAX_DIGIT_COUNT else last2)
    && last1 <= MAX_DIGIT_COUNT && (start == 0 || last2 > MAX_DIGIT_COUNT)
  }

  method RowSame(data: array<byte>, src: seq<byte>, inFirst: bool, p: bool, gap: nat, last1: nat, last2: nat, n: nat,
                 start: int, ghost j: Job, ghost before: seq<byte>)
    returns (carry: int)
    requires Ready(j, src, before, data[..], inFirst, p, p, gap, last1, last2, n, start)
    modifies data
    ensures Progress(j, src, before, data[..], 0, carry)
  {
    if last1 < gap + 1 && last1 != last2 {
      if last2 > MAX_DIGIT_COUNT {
        carry := AddApartInPlace(data, src, inFirst, p, p, gap, last1, n, start, j, before);
      } else {
        CopyApart(data, src, inFirst, p, gap, last1, n, j, before);
        carry := 0;
      }
      return;
    }
    var from := if last1 <= last2 then last1 else last2;
    carry := start;
    if last1 > last2 {
      if inFirst {
        StaysPut(j, src, before, data[..], last1, last2);
      } else {
        CopyFirst(data, src, inFirst, last1, last2, j, before);
      }
    } else if last2 > MAX_DIGIT_COUNT {
      carry := AddSecond(data, src, inFirst, p, p, gap, n, last1, start, j, before);
    } else if last1 < last2 {
      CopySecond(data, src, inFirst, gap, n, last1, j, before);
    }
    carry := AddBoth(data, src, inFirst, p, p, gap, from, carry, j, before);
    carry := AddTop(data, src, inFirst, p, p, gap, carry, j, before);
  }

  method RowOpposite(data: array<byte>, src: seq<byte>, inFirst: bool, p1: bool, p2: bool, gap: nat, last1: nat,
                     last2: nat, n: nat, start: int, ghost j: Job, ghost before: seq<byte>)
    returns (carry: int)
    requires Ready(j, src, before, data[..], inFirst, p1, p2, gap, last1, last2, n, start)
    modifies data
    ensures Progress(j, src, before, data[..], 0, carry)
  {
    carry := start;
    if last1 == last2 {
      carry := AddBoth(data, src, inFirst, p1, p2, gap, last1, carry, j, before);
      carry := AddTop(data, src, inFirst, p1, p2, gap, carry, j, before);
    } else if last1 < gap + 1 {
      carry := AddApartInPlace(data, src, inFirst, p1, p2, gap, last1, n, start, j, before);
    } else if last1 > last2 {
      carry := AddFirst(data, src, inFirst, p1, p2, last1, last2, carry, j, before);
      carry := AddBoth(data, src, inFirst, p1, p2, gap, last2, carry, j, before);
      carry := AddFirst(data, src, inFirst, p1, p2, gap, 0, carry, j, before);
    } else {
      carry := AddSecond(data, src, inFirst, p1, p2, gap, n, last1, carry, j, before);
      carry := AddBoth(data, src, inFirst, p1, p2, gap, last1, carry, j, before);
      carry := AddFirst(data, src, inFirst, p1, p2, gap, 0, carry, j, before);
    }
  }

  // ---------- storing the result ----------

  /** Rounds the 21st digit away inside the buffer; the carry may run up to the leading 1. */
  method RoundInPlace(data: array<byte>, p: bool) returns (kept: nat)
    requires data.Length >= MAX_SIZE && DigitsOk(p, data[..MAX_SIZE]) && data[0] == DigitByte(p, 1)
    modifies data
    ensures 0 < kept <= MAX_DIGIT_COUNT && data[..kept] == DropLast(p, old(data[..MAX_SIZE]))
  {
    ghost var all := data[..MAX_SIZE];
    var i := MAX_DIGIT_COUNT;
    var info := DigitMap(p, p, if DigitValue(p, data[i]) > 49 then 1 else 0);
    assert data[..i] == all[..i] && all[i] == data[i];
    if info.carry == 0 { return i; }
    while info.carry != 0
      invariant 0 <= i <= MAX_DIGIT_COUNT && data[..i] == all[..i]
      invariant info.carry != 0 ==> info.carry == Unit(p) && i > 0 && BumpLast(p, all[..i]) == DropLast(p, all)
      invariant info.carry == 0 ==> i < MAX_DIGIT_COUNT && data[..i + 1] == DropLast(p, all)
      decreases if info.carry != 0 then i + 1 else 0
    {
      i := i - 1;
      BumpStep(p, all, data[..], i);
      info := DigitMap(p, p, data[i] + Blank(p) + info.carry);
      data[i] := info.digit;
      assert data[..i + 1] == all[..i] + [info.digit];
    }
    kept := i + 1;
  }

  lemma BumpStep(p: bool, all: seq<byte>, cells: seq<byte>, i: nat)
    requires i < |all| <= |cells| && DigitsOk(p, all) && all[0] == DigitByte(p, 1) && cells[..i + 1] == all[..i + 1]
    ensures cells[..i] == all[..i] && DigitOk(p, cells[i])
    ensures 0 <= cells[i] + Blank(p) + Unit(p) < 203
    ensures var m := DigitMap(p, p, cells[i] + Blank(p) + Unit(p));
            && (m.carry != 0 ==> m.carry == Unit(p) && i > 0 && BumpLast(p, all[..i + 1]) == BumpLast(p, all[..i]))
            && (m.carry == 0 ==> BumpLast(p, all[..i + 1]) == all[..i] + [m.digit])
  {
    var cut := all[..i + 1];
    assert cells[i] == cells[..i + 1][i] == cut[i] == all[i] && cut[..i] == all[..i];
    assert cells[..i] == cells[..i + 1][..i];
    assert DigitOk(p, all[i]);
    DigitMapAdds(p, p, all[i], Blank(p), Unit(p));
    assert cut[0] == all[0];
  }

  /** Makes room for the header in front of a number that begins where the header is. */
  method ShiftRight(data: array<byte>, count: nat)
    requires count < data.Length
    modifies data
    ensures data[1..1 + count] == old(data[..count])
  {
    var k := count;
    while k > 0
      invariant 0 <= k <= count
      invariant forall i :: k < i <= count ==> data[i] == old(data[i - 1])
      invariant forall i :: 0 <= i <= k ==> data[i] == old(data[i])
    {
      data[k] := data[k - 1];
      k := k - 1;
    }
  }

  /** Leading zero digits are moved out. */
  method ShiftLeft(data: array<byte>, k: nat, count: nat)
    requires 1 + k + count <= data.Length
    modifies data
    ensures data[1..1 + count] == old(data[1 + k..1 + k + count])
  {
    for i := 0 to count
      invariant forall m :: 1 <= m < 1 + i ==> data[m] == old(data[m + k])
      invariant forall m :: 1 + i <= m < data.Length ==> data[m] == old(data[m])
    {
      data[1 + i] := data[1 + k + i];
    }
  }

  datatype Status = Done | Failed | Astray

  /** The buffer holds what the outcome says, or the routine ended as it says. */
  predicate Matches(status: Status, contents: seq<byte>, out: Outcome)
  {
    match out
    case Sum(bytes) => status == Done && contents == bytes
    case OutOfRange => status == Failed
    case Unspecified => status == Astray
  }

  /** Digits that begin after the header, with a header in front. */
  method PutHeader(data: array<byte>, p: bool, exponent: int, count: nat)
    requires count < data.Length
    modifies data
    ensures data[..1 + count] == Packed(p, exponent, old(data[1..1 + count]))
  {
    data[0] := HeaderByte(p, exponent);
    assert data[..1 + count] == [data[0]] + data[1..1 + count];
  }

  method StoreOne(data: array<byte>, p: bool, exponent: int) returns (length: nat)
    requires data.Length >= MAX_SIZE
    modifies data
    ensures length == 2 && data[..length] == LoneOne(p, exponent)
  {
    data[1] := DigitByte(p, 1);
    assert data[1..2] == [DigitByte(p, 1)];
    PutHeader(data, p, exponent, 1);
    length := 2;
  }

  /** A carry out of the row: one digit more in front, the last of 21 rounded away. */
  method StoreCarried(data: array<byte>, p: bool, exponent: int, len: nat) returns (length: nat)
    requires data.Length >= MAX_SIZE && len <= MAX_DIGIT_COUNT && DigitsOk(p, data[1..1 + len])
    modifies data
    ensures length <= MAX_SIZE
    ensures var all := [DigitByte(p, 1)] + old(data[1..1 + len]);
            data[..length] == Packed(p, exponent, if len == MAX_DIGIT_COUNT then DropLast(p, all) else all)
  {
    ghost var all := [DigitByte(p, 1)] + data[1..1 + len];
    data[0] := DigitByte(p, 1);
    assert data[..1 + len] == all;
    var count := 1 + len;
    if len == MAX_DIGIT_COUNT { count := RoundInPlace(data, p); }
    ShiftRight(data, count);
    PutHeader(data, p, exponent, count);
    length := 1 + count;
  }

  method StoreSame(data: array<byte>, p: bool, exponent: int, n: nat, carry: int, apart: bool, trim: bool)
    returns (status: Status, length: nat)
    requires data.Length >= MAX_SIZE && n <= MAX_DIGIT_COUNT && DigitsOk(p, data[1..1 + n])
    modifies data
    ensures length <= MAX_SIZE
    ensures Matches(status, data[..length], FinishSame(p, exponent, old(data[1..1 + n]), carry, apart, trim))
  {
    var len := n;
    if trim {
      len := TrimTrailing(p, data[1..1 + n]);
      assert data[1..1 + len] == data[1..1 + n][..len];
    }
    status, length := StoreKept(data, p, exponent, len, carry, apart);
  }

  method StoreKept(data: array<byte>, p: bool, exponent: int, len: nat, carry: int, apart: bool)
    returns (status: Status, length: nat)
    requires data.Length >= MAX_SIZE && len <= MAX_DIGIT_COUNT && DigitsOk(p, data[1..1 + len])
    modifies data
    ensures length <= MAX_SIZE
    ensures Matches(status, data[..length], FinishKept(p, exponent, old(data[1..1 + len]), carry, apart))
  {
    if carry == 0 {
      PutHeader(data, p, exponent, len);
      return Done, 1 + len;
    }
    if exponent + 1 > MAX_EXPONENT { return Failed, 0; }
    if apart {
      length := StoreOne(data, p, exponent + 1);
    } else {
      length := StoreCarried(data, p, exponent + 1, len);
    }
    status := Done;
  }

  /** The digits from k on, moved to the front with the exponent that many lower. */
  method StoreFrom(data: array<byte>, p: bool, exponent: int, k: nat, len: nat) returns (length: nat)
    requires k < len < data.Length
    modifies data
    ensures length == 1 + len - k && data[..length] == Packed(p, exponent - k, old(data[1 + k..1 + len]))
  {
    if k > 0 { ShiftLeft(data, k, len - k); }
    PutHeader(data, p, exponent - k, len - k);
    length := 1 + len - k;
  }

  /** Leading zeros are moved out; nothing but zeros is the number zero. */
  method StoreStripped(data: array<byte>, p: bool, exponent: int, len: nat) returns (length: nat)
    requires data.Length >= MAX_SIZE && len <= MAX_DIGIT_COUNT && DigitsOk(p, data[1..1 + len])
    modifies data
    ensures length <= MAX_SIZE && Finish(p, exponent, old(data[1..1 + len]), 0, true) == Sum(data[..length])
  {
    ghost var ds := data[1..1 + len];
    var k := ScanLeading(p, data[1..1 + len]);
    if k == len {
      data[0] := 0x80;
      return 1;
    }
    assert data[1 + k..1 + len] == ds[k..];
    length := StoreFrom(data, p, exponent, k, len);
  }

  method StoreOpposite(data: array<byte>, p: bool, exponent: int, n: nat, carry: int) returns (length: nat)
    requires data.Length >= MAX_SIZE && n <= MAX_DIGIT_COUNT && DigitsOk(p, data[1..1 + n])
    modifies data
    ensures length <= MAX_SIZE && FinishOpposite(p, exponent, old(data[1..1 + n]), carry) == Sum(data[..length])
  {
    ghost var ds := data[1..1 + n];
    var len := TrimTrailing(p, data[1..1 + n]);
    assert data[1..1 + len] == ds[..len];
    if len == 0 {
      if carry == 0 {
        data[0] := 0x80;
        return 1;
      }
      length := StoreOne(data, p, exponent + 1);
      return;
    }
    length := StoreStripped(data, p, exponent, len);
  }

  /** The scan for a leading digit does not stop at the end of the row. */
  method StoreApart(data: array<byte>, p: bool, exponent: int, n: nat, beyond: byte)
    returns (status: Status, length: nat)
    requires data.Length >= MAX_SIZE && n <= MAX_DIGIT_COUNT && DigitsOk(p, data[1..1 + n])
    modifies data
    ensures length <= MAX_SIZE
    ensures Matches(status, data[..length],
                    FinishApart(p, exponent, old(data[1..1 + n]), 0, Behind(old(data[..]), n, beyond)))
  {
    ghost var ds, behind := data[1..1 + n], Behind(data[..], n, beyond);
    var k := ScanLeading(p, data[1..1 + n]);
    ApartByLead(p, exponent, ds, behind, k);
    if k == n {
      status, length := StoreNothing(data, p, n, beyond);
    } else {
      assert data[1 + k] == ds[k];
      length := StoreTrimmed(data, p, exponent, n, k);
      status := Done;
    }
  }

  lemma {:induction false} ApartByLead(p: bool, exponent: int, ds: seq<byte>, behind: byte, k: nat)
    requires k == LeadingBlanks(p, ds)
    ensures k == |ds| ==>
              FinishApart(p, exponent, ds, 0, behind) == if behind == Blank(p) then Unspecified else Sum(ZERO)
    ensures k < |ds| ==> ds[k] != Blank(p) && k < |TrimTail(p, ds)| &&
                         FinishApart(p, exponent, ds, 0, behind) == Sum(Packed(p, exponent - k, TrimTail(p, ds)[k..]))
  {
  }

  /** A row of zeros: the number zero, if the scan stops behind the row. */
  method StoreNothing(data: array<byte>, p: bool, n: nat, beyond: byte) returns (status: Status, length: nat)
    requires n < data.Length
    modifies data
    ensures length <= 1 && status == if Behind(old(data[..]), n, beyond) == Blank(p) then Astray else Done
    ensures status == Done ==> data[..length] == ZERO
  {
    if (if 1 + n < data.Length then data[1 + n] else beyond) == Blank(p) { return Astray, 0; }
    data[0] := 0x80;
    return Done, 1;
  }

  lemma TrimReaches(p: bool, ds: seq<byte>, k: nat)
    requires k < |ds| && ds[k] != Blank(p)
    ensures k < |TrimTail(p, ds)|
  {
  }

  /** Zeros are cut off at both ends. */
  method StoreTrimmed(data: array<byte>, p: bool, exponent: int, n: nat, k: nat) returns (length: nat)
    requires data.Length >= MAX_SIZE && k < n <= MAX_DIGIT_COUNT && data[1 + k] != Blank(p)
    modifies data
    ensures k < |TrimTail(p, old(data[1..1 + n]))| && length <= MAX_SIZE
    ensures data[..length] == Packed(p, exponent - k, TrimTail(p, old(data[1..1 + n]))[k..])
  {
    ghost var ds := data[1..1 + n];
    TrimReaches(p, ds, k);
    var len := TrimTrailing(p, data[1..1 + n]);
    assert data[1 + k..1 + len] == ds[..len][k..];
    length := StoreFrom(data, p, exponent, k, len);
  }

  /** The byte behind the row: still in the buffer, or the one after it. */
  function Behind(cells: seq<byte>, n: nat, beyond: byte): byte
  {
    if 1 + n < |cells| then cells[1 + n] else beyond
  }

  // ---------- the two operands ----------

  /** The digit loops for a and b in order of size. */
  ghost function JobOf(inFirst: bool, a: seq<byte>, b: seq<byte>, front: byte): Job
    requires Summand(a) && Summand(b) && Gap(a, b) >= 0
  {
    Job(inFirst, IsPositive(a), IsPositive(b), a[1..], b[1..], Gap(a, b), Positions(a, b), RoundingCarry(a, b, front))
  }

  lemma JobIsSane(inFirst: bool, a: seq<byte>, b: seq<byte>, front: byte, before: seq<byte>)
    requires Summand(a) && Summand(b) && !IsZero(a) && !IsZero(b) && Gap(a, b) >= 0 && |before| >= MAX_SIZE
    requires var sum := if inFirst then a else b; before[1..|sum|] == sum[1..]
    ensures var j, src := JobOf(inFirst, a, b, front), if inFirst then b else a;
            Sane(j, src, before) && Progress(j, src, before, before, j.n, j.start)
  {
    var j := JobOf(inFirst, a, b, front);
    var x, y := Row(j.p1, j.d1, 0, j.n), Row(j.p2, j.d2, j.gap, j.n);
    assert x[j.n..] == [] && y[j.n..] == [] && before[1 + j.n..1 + j.n] == [];
  }

  lemma {:induction false} JobIsReady(cells: seq<byte>, a: seq<byte>, b: seq<byte>, inFirst: bool, stray: byte,
                                      front: byte,
                                     n: nat, start: int)
    requires Given(cells, a, b, inFirst, stray, front) && n == Positions(a, b)
    requires start == RoundingCarry(a, b, front) && (start == 0 || Gap(a, b) + |b| - 1 > MAX_DIGIT_COUNT)
    ensures Ready(JobOf(inFirst, a, b, front), if inFirst then b else a, cells, cells, inFirst, IsPositive(a),
                  IsPositive(b), Gap(a, b), |a| - 1, Gap(a, b) + |b| - 1, n, start)
  {
    JobIsSane(inFirst, a, b, front, cells);
  }

  lemma RowIsSum(inFirst: bool, a: seq<byte>, b: seq<byte>, front: byte, src: seq<byte>, before: seq<byte>,
                 cells: seq<byte>, carry: int)
    requires Summand(a) && Summand(b) && !IsZero(a) && !IsZero(b) && Gap(a, b) >= 0
    requires var j := JobOf(inFirst, a, b, front); Sane(j, src, before) && Progress(j, src, before, cells, 0, carry)
    ensures 1 + Positions(a, b) <= |cells| && (cells[1..1 + Positions(a, b)], carry) == SumRow(a, b, front)
    ensures cells[1 + Positions(a, b)..] == before[1 + Positions(a, b)..]
  {
    var j := JobOf(inFirst, a, b, front);
    var x, y := Row(j.p1, j.d1, 0, j.n), Row(j.p2, j.d2, j.gap, j.n);
    assert x[0..] == x && y[0..] == y;
  }

  /**
   The rounding carry. The byte looked at is found by counting back from the smaller operand's end
   without checking that the operand has it; the header of the sum is already overwritten.
   */
  method StartCarry(data: array<byte>, src: seq<byte>, inFirst: bool, p1: bool, p2: bool, gap: nat, last2: nat,
                    stray: byte,
                    ghost a: seq<byte>, ghost b: seq<byte>, ghost front: byte)
    returns (start: int)
    requires Summand(a) && Summand(b) && Gap(a, b) >= 0 && !IsZero(a) && !IsZero(b)
    requires (p1, p2, gap, last2) == (IsPositive(a), IsPositive(b), Gap(a, b), Gap(a, b) + |b| - 1)
    requires if inFirst then src == b else src == a && |b| <= data.Length && data[1..|b|] == b[1..]
    requires data.Length > 0 && front == FrontByte(if inFirst then b[0] else data[0], gap, stray)
    ensures start == RoundingCarry(a, b, front) && (start == 0 || last2 > MAX_DIGIT_COUNT)
  {
    start := 0;
    if last2 > MAX_DIGIT_COUNT {
      var index := MAX_DIGIT_COUNT - gap + 1;
      assert index > 0 && !inFirst ==> data[index] == data[1..|b|][index - 1] == b[1..][index - 1];
      var dropped := if index < 0 then stray else if inFirst then src[index] else data[index];
      start := DigitMap(p1, p2, if DigitValue(p2, dropped) > 49 then 1 else 0).carry;
    }
  }

  /** Equal signs: which operand to put first. For negative numbers the digits are compared the wrong way round. */
  method PutsSumFirst(a: seq<byte>, b: seq<byte>) returns (inFirst: bool)
    requires |a| > 1 && |b| > 1 && IsPositive(a) == IsPositive(b)
    ensures Exponent(a) != Exponent(b) ==> (inFirst <==> Exponent(a) > Exponent(b))
    ensures IsPositive(a) ==> (inFirst <==> Order(a, b) >= 0)
  {
    if Exponent(a) != Exponent(b) { return Exponent(a) > Exponent(b); }
    var d1, d2, i := a[1..], b[1..], 0;
    var count := if |a| <= |b| then |a| - 1 else |b| - 1;
    while i < count && a[1 + i] == b[1 + i]
      invariant 0 <= i <= count
      invariant IsPositive(a) ==> MagnitudeOrder(true, d1, true, d2) == MagnitudeOrder(true, d1[i..], true, d2[i..])
    {
      if IsPositive(a) { MagnitudeOrderStep(true, d1, true, d2, i); }
      i := i + 1;
    }
    if i == count { return |a| >= |b|; }
    if IsPositive(a) { MagnitudeOrderStep(true, d1, true, d2, i); }
    return a[1 + i] >= b[1 + i];
  }

  /** Two operands in order of exponent, one of them in the buffer, and the byte in front of the smaller's digits. */
  ghost predicate Given(cells: seq<byte>, a: seq<byte>, b: seq<byte>, inFirst: bool, stray: byte, front: byte)
  {
    && Summand(a) && Summand(b) && !IsZero(a) && !IsZero(b) && Gap(a, b) >= 0 && |cells| >= MAX_SIZE
    && (var sum := if inFirst then a else b; cells[1..|sum|] == sum[1..])
    && front == FrontByte(if inFirst then b[0] else Blank(IsPositive(a)), Gap(a, b), stray)
  }

  /** The header is overwritten, and the rounding carry found. */
  method Prepare(data: array<byte>, a: seq<byte>, b: seq<byte>, inFirst: bool, stray: byte, ghost front: byte)
    returns (start: int)
    requires Given(data[..], a, b, inFirst, stray, front)
    modifies data
    ensures start == RoundingCarry(a, b, front) && (start == 0 || Gap(a, b) + |b| - 1 > MAX_DIGIT_COUNT)
    ensures Given(data[..], a, b, inFirst, stray, front) && data[1..] == old(data[1..])
  {
    var p1, p2, gap := IsPositive(a), IsPositive(b), Exponent(a) - Exponent(b);
    ghost var digits, sum := data[1..], if inFirst then a else b;
    assert digits[..|sum| - 1] == data[1..|sum|] == sum[1..];
    data[0] := Blank(p1);
    assert data[1..] == digits && data[1..|sum|] == digits[..|sum| - 1];
    start := StartCarry(data, if inFirst then b else a, inFirst, p1, p2, gap, gap + |b| - 1, stray, a, b, front);
  }

  /** The digit loops, from the position of the rounding carry on. */
  method RunLoops(data: array<byte>, a: seq<byte>, b: seq<byte>, inFirst: bool, n: nat, start: int,
                  ghost stray: byte, ghost front: byte)
    returns (carry: int)
    requires Given(data[..], a, b, inFirst, stray, front) && n == Positions(a, b)
    requires start == RoundingCarry(a, b, front) && (start == 0 || Gap(a, b) + |b| - 1 > MAX_DIGIT_COUNT)
    modifies data
    ensures (data[1..1 + n], carry) == SumRow(a, b, front) && data[1 + n..] == old(data[1 + n..])
  {
    ghost var before, j := data[..], JobOf(inFirst, a, b, front);
    JobIsReady(before, a, b, inFirst, stray, front, n, start);
    var gap, src := Exponent(a) - Exponent(b), if inFirst then b else a;
    carry := RowBySigns(data, src, inFirst, IsPositive(a), IsPositive(b), gap, |a| - 1, gap + |b| - 1, n, start,
                        j, before);
    RowIsSum(inFirst, a, b, front, src, before, data[..], carry);
  }

  method RowBySigns(data: array<byte>, src: seq<byte>, inFirst: bool, p1: bool, p2: bool, gap: nat, last1: nat,
                    last2: nat, n: nat, start: int, ghost j: Job, ghost before: seq<byte>)
    returns (carry: int)
    requires Ready(j, src, before, data[..], inFirst, p1, p2, gap, last1, last2, n, start)
    modifies data
    ensures Progress(j, src, before, data[..], 0, carry)
  {
    if p1 == p2 {
      carry := RowSame(data, src, inFirst, p1, gap, last1, last2, n, start, j, before);
    } else {
      carry := RowOpposite(data, src, inFirst, p1, p2, gap, last1, last2, n, start, j, before);
    }
  }

  /** The buffer's digits become the row of the sum. */
  method FillRow(data: array<byte>, a: seq<byte>, b: seq<byte>, inFirst: bool, stray: byte, ghost front: byte)
    returns (n: nat, carry: int)
    requires Given(data[..], a, b, inFirst, stray, front)
    modifies data
    ensures n == Positions(a, b) <= MAX_DIGIT_COUNT && (data[1..1 + n], carry) == SumRow(a, b, front)
    ensures data[1 + n..] == old(data[1 + n..])
  {
    var last1, last2 := |a| - 1, Exponent(a) - Exponent(b) + |b| - 1;
    n := if last1 >= last2 then last1 else if last2 > MAX_DIGIT_COUNT then MAX_DIGIT_COUNT else last2;
    ghost var digits := data[1..];
    assert data[1 + n..] == digits[n..];
    var start := Prepare(data, a, b, inFirst, stray, front);
    assert data[1 + n..] == data[1..][n..] == digits[n..];
    carry := RunLoops(data, a, b, inFirst, n, start, stray, front);
  }

  method SumSameInPlace(data: array<byte>, a: seq<byte>, b: seq<byte>, inFirst: bool, stray: byte, ghost front: byte)
    returns (status: Status, length: nat)
    requires Given(data[..], a, b, inFirst, stray, front) && IsPositive(a) == IsPositive(b)
    modifies data
    ensures length <= MAX_SIZE && Matches(status, data[..length], SumSame(a, b, front))
  {
    var last1, first2, last2 := |a| - 1, Exponent(a) - Exponent(b) + 1, Exponent(a) - Exponent(b) + |b| - 1;
    var n, carry := FillRow(data, a, b, inFirst, stray, front);
    status, length := StoreSame(data, IsPositive(a), Exponent(a), n, carry, last1 < first2,
                                last1 == last2 || (last1 < last2 && last2 > MAX_DIGIT_COUNT));
  }

  method SumOppositeInPlace(data: array<byte>, a: seq<byte>, b: seq<byte>, inFirst: bool, stray: byte, beyond: byte,
                            ghost front: byte)
    returns (status: Status, length: nat)
    requires Given(data[..], a, b, inFirst, stray, front) && IsPositive(a) != IsPositive(b)
    modifies data
    ensures length <= MAX_SIZE
    ensures Matches(status, data[..length],
                    SumOpposite(a, b, front, Behind(old(data[..]), Positions(a, b), beyond)))
  {
    ghost var before := data[..];
    var n, carry := FillRow(data, a, b, inFirst, stray, front);
    BehindStays(before, data[..], n, beyond);
    status, length := StoreRow(data, IsPositive(a), Exponent(a), n, carry, |a| - 1, Exponent(a) - Exponent(b) + |b| - 1,
                               Exponent(a) - Exponent(b), beyond);
  }

  lemma BehindStays(cells: seq<byte>, later: seq<byte>, n: nat, beyond: byte)
    requires |cells| == |later| && 1 + n <= |cells|
    requires cells[1 + n..] == later[1 + n..]
    ensures Behind(cells, n, beyond) == Behind(later, n, beyond)
  {
    if 1 + n < |cells| { assert cells[1 + n] == cells[1 + n..][0] && later[1 + n] == later[1 + n..][0]; }
  }

  method StoreRow(data: array<byte>, p: bool, exponent: int, n: nat, carry: int, last1: nat, last2: nat, gap: nat,
                  beyond: byte)
    returns (status: Status, length: nat)
    requires data.Length >= MAX_SIZE && n <= MAX_DIGIT_COUNT && DigitsOk(p, data[1..1 + n])
    modifies data
    ensures length <= MAX_SIZE
    ensures var ds, behind := old(data[1..1 + n]), Behind(old(data[..]), n, beyond);
            Matches(status, data[..length],
                    if last1 == last2 then FinishOpposite(p, exponent, ds, carry)
                    else if last1 < gap + 1 then FinishApart(p, exponent, ds, 0, behind)
                    else if last1 > last2 then Finish(p, exponent, ds, 0, true)
                    else FinishOpposite(p, exponent, ds, carry))
  {
    status := Done;
    if last1 == last2 {
      length := StoreOpposite(data, p, exponent, n, carry);
    } else if last1 < gap + 1 {
      status, length := StoreApart(data, p, exponent, n, beyond);
    } else if last1 > last2 {
      length := StoreStripped(data, p, exponent, n);
    } else {
      length := StoreOpposite(data, p, exponent, n, carry);
    }
  }

  // ---------- the running sum ----------

  /** How many positions the row of the sum takes. */
  function RowLength(sum: seq<byte>, src: seq<byte>): nat
    requires Summand(sum) && Summand(src)
  {
    if Order(sum, src) >= 0 then Positions(sum, src) else Positions(src, sum)
  }

  class RunningSum {
    const data: array<byte>
    var length: nat

    ghost predicate Valid()
      reads this, data
    {
      data.Length >= MAX_SIZE && length <= MAX_SIZE && Summand(data[..length])
    }

    ghost function Contents(): seq<byte>
      reads this, data
      requires Valid()
    {
      data[..length]
    }

    /** The first value of the aggregate is copied. */
    constructor (value: seq<byte>, size: nat)
      requires Summand(value) && size >= MAX_SIZE
      ensures Valid() && fresh(data) && Contents() == value
    {
      data := new byte[size](i => if 0 <= i < |value| then value[i] else 0);
      length := |value|;
    }

    method Copy(value: seq<byte>)
      requires data.Length >= MAX_SIZE && Summand(value)
      modifies this`length, data
      ensures Valid() && Contents() == value
    {
      for i := 0 to |value|
        invariant data[..i] == value[..i]
      {
        data[i] := value[i];
        assert data[..i + 1] == data[..i] + [value[i]];
      }
      length := |value|;
      assert value[..|value|] == value;
    }

    /** Equal signs. */
    method AddSame(src: seq<byte>, stray: byte) returns (status: Status)
      requires Valid() && Summand(src) && !IsZero(src) && !IsZero(Contents())
      requires IsPositive(src) == IsPositive(Contents())
      modifies this`length, data
      ensures length <= MAX_SIZE && Matches(status, data[..length], SumSpec(old(Contents()), src, stray, 0))
    {
      var sum := data[..length];
      var inFirst := PutsSumFirst(sum, src);
      SameEitherWay(sum, src, stray);
      assert data[1..|sum|] == sum[1..];
      if inFirst {
        status, length := SumSameInPlace(data, sum, src, true, stray, FrontByte(src[0], Gap(sum, src), stray));
      } else {
        status, length := SumSameInPlace(data, src, sum, false, stray,
                                         FrontByte(Blank(IsPositive(src)), Gap(src, sum), stray));
      }
    }

    /** Opposite signs. */
    method AddOpposite(src: seq<byte>, stray: byte, beyond: byte) returns (status: Status)
      requires Valid() && Summand(src) && !IsZero(src) && !IsZero(Contents())
      requires IsPositive(src) != IsPositive(Contents())
      modifies this`length, data
      ensures length <= MAX_SIZE
      ensures var behind := Behind(old(data[..]), RowLength(old(Contents()), src), beyond);
              Matches(status, data[..length], SumSpec(old(Contents()), src, stray, behind))
    {
      var sum := data[..length];
      var inFirst, cancels := CompareMagnitude(sum, src);
      assert data[1..|sum|] == sum[1..];
      if cancels {
        data[0] := 0x80;
        length := 1;
        assert data[..1] == ZERO;
        return Done;
      }
      if inFirst {
        status, length := SumOppositeInPlace(data, sum, src, true, stray, beyond,
                                             FrontByte(src[0], Gap(sum, src), stray));
      } else {
        status, length := SumOppositeInPlace(data, src, sum, false, stray, beyond,
                                             FrontByte(Blank(IsPositive(src)), Gap(src, sum), stray));
      }
    }

    /** The routine is chosen by the signs; a zero on either side is dealt with first. */
    method Add(src: seq<byte>, stray: byte, beyond: byte) returns (status: Status)
      requires Valid() && Summand(src)
      modifies this`length, data
      ensures length <= MAX_SIZE
      ensures var behind := Behind(old(data[..]), RowLength(old(Contents()), src), beyond);
              Matches(status, data[..length], SumSpec(old(Contents()), src, stray, behind))
    {
      ghost var sum, behind := Contents(), Behind(data[..], RowLength(Contents(), src), beyond);
      if IsZero(data[..length]) {
        Copy(src);
        return Done;
      }
      if IsZero(src) { return Done; }
      if IsPositive(src) == IsPositive(data[..length]) {
        NothingBehind(sum, src, stray, 0, behind);
        status := AddSame(src, stray);
      } else {
        status := AddOpposite(src, stray, beyond);
      }
    }
  }

  /** With equal signs no byte behind the row is looked at. */
  lemma NothingBehind(sum: seq<byte>, src: seq<byte>, stray: byte, behind: byte, other: byte)
    requires Summand(sum) && Summand(src) && IsPositive(sum) == IsPositive(src)
    ensures SumSpec(sum, src, stray, behind) == SumSpec(sum, src, stray, other)
  {
  }

  lemma {:induction false} AddRowsSwap(p: bool, x: seq<byte>, y: seq<byte>, carry: int)
    requires |x| == |y| && DigitsOk(p, x) && DigitsOk(p, y) && CarryOk(p, carry)
    ensures AddRows(p, p, x, y, carry) == AddRows(p, p, y, x, carry)
  {
    if x != [] { AddRowsSwap(p, x[1..], y[1..], carry); }
  }

  /** For equal signs and exponents either operand may come first. */
  lemma SameSwaps(a: seq<byte>, b: seq<byte>, front: byte, other: byte)
    requires Summand(a) && Summand(b) && !IsZero(a) && !IsZero(b)
    requires IsPositive(a) == IsPositive(b) && Exponent(a) == Exponent(b)
    ensures SumSame(a, b, front) == SumSame(b, a, other)
  {
    var p, n := IsPositive(a), Positions(a, b);
    AddRowsSwap(p, Row(p, a[1..], 0, n), Row(p, b[1..], 0, n), 0);
  }

  /** So the choice of the first operand does not show. */
  lemma SameEitherWay(sum: seq<byte>, src: seq<byte>, stray: byte)
    requires Summand(sum) && Summand(src) && !IsZero(sum) && !IsZero(src) && IsPositive(sum) == IsPositive(src)
    ensures Gap(sum, src) >= 0 && (Gap(sum, src) > 0 || Order(sum, src) >= 0) ==>
              SumSpec(sum, src, stray, 0) == SumSame(sum, src, FrontByte(src[0], Gap(sum, src), stray))
    ensures Gap(sum, src) == 0 ==>
              && SumSpec(sum, src, stray, 0) == SumSame(sum, src, FrontByte(src[0], 0, stray))
              && SumSpec(sum, src, stray, 0) == SumSame(src, sum, FrontByte(Blank(IsPositive(src)), 0, stray))
    ensures Gap(sum, src) < 0 ==>
              SumSpec(sum, src, stray, 0) == SumSame(src, sum, FrontByte(Blank(IsPositive(src)), Gap(src, sum), stray))
  {
    if Gap(sum, src) == 0 {
      SameSwaps(sum, src, FrontByte(src[0], 0, stray), FrontByte(Blank(IsPositive(src)), 0, stray));
    }
  }
}
