/** What a running sum holds: the exact sum, exactly when addition into a fresh result would be exact. */
module NumericRunningSumLaws {
  import opened CArithmetic
  import opened Powers
  import opened NumericCodec
  import opened NumericCompare
  import opened NumericAddition
  import opened NumericRows
  import opened NumericAdditionLaws
  import opened NumericExactSum
  import opened NumericAdditionLimits
  import opened NumericRunningSum

  // ---------- one step ----------

  /** Equal signs leave a leading digit unless they carry. */
  lemma {:induction false} LeadStays(a: seq<byte>, b: seq<byte>, front: byte)
    requires Aligned(a, b) && IsPositive(a) == IsPositive(b) && SumRow(a, b, front).1 == 0
    ensures SumRow(a, b, front).0 != [] && SumRow(a, b, front).0[0] != Blank(IsPositive(a))
  {
    CarryShape(a, b, front);
    LeadFromWeight(IsPositive(a), SumRow(a, b, front).0, |SumRow(a, b, front).0|);
  }

  lemma {:induction false} LeadFromWeight(p: bool, ds: seq<byte>, n: nat)
    requires n == |ds| > 0 && DigitsOk(p, ds) && Signed(p, Padded(p, ds, n)) >= Pow(100, n - 1)
    ensures ds[0] != Blank(p)
  {
    LeadingFromValue(p, ds);
  }

  /** The last digit of a second operand that reaches further down than the first is kept, within twenty positions. */
  lemma SecondLastKept(a: seq<byte>, b: seq<byte>, front: byte)
    requires Aligned(a, b) && IsPositive(a) == IsPositive(b)
    requires |a| - 1 < Gap(a, b) + |b| - 1 <= MAX_DIGIT_COUNT
    ensures var p, ds := IsPositive(a), SumRow(a, b, front).0; TrimTail(p, ds) == ds && ds != []
  {
    var p, n := IsPositive(a), Positions(a, b);
    var x, y := Row(p, a[1..], 0, n), Row(p, b[1..], Gap(a, b), n);
    AddRowsSwap(p, x, y, 0);
    LastDigitPasses(p, p, y, x);
    assert y[n - 1] == b[1..][|b| - 2] == b[|b| - 1];
  }

  /** Equal signs: the same result as addition, but a carry out of the largest exponent is never let through. */
  lemma {:induction false} SameIsAddition(a: seq<byte>, b: seq<byte>, front: byte, beyond: byte)
    requires Aligned(a, b) && IsPositive(a) == IsPositive(b)
    ensures SumSame(a, b, front) == if SumRow(a, b, front).1 != 0 && Exponent(a) >= MAX_EXPONENT then OutOfRange
                                    else AddAligned(a, b, front, beyond)
  {
    var p, e, r := IsPositive(a), Exponent(a), SumRow(a, b, front);
    var last1, last2 := |a| - 1, Gap(a, b) + |b| - 1;
    if r.1 == 0 {
      LeadStays(a, b, front);
      LeadTrims(p, r.0);
      if last1 < last2 <= MAX_DIGIT_COUNT { SecondLastKept(a, b, front); }
      UncarriedFinish(p, e, r.0, last1, Gap(a, b), last2, beyond);
    } else {
      if last1 < last2 <= MAX_DIGIT_COUNT { SecondLastKept(a, b, front); }
    }
  }

  lemma LeadTrims(p: bool, ds: seq<byte>)
    requires ds != [] && ds[0] != Blank(p)
    ensures TrimTail(p, ds) != [] && TrimTail(p, ds)[0] != Blank(p)
    ensures LeadingBlanks(p, ds) == 0 && LeadingBlanks(p, TrimTail(p, ds)) == 0
  {
  }

  lemma {:induction false} UncarriedFinish(p: bool, e: int, ds: seq<byte>, last1: int, gap: int, last2: int,
                                           beyond: byte)
    requires DigitsOk(p, ds) && ds != [] && LeadingBlanks(p, ds) == 0 && TrimTail(p, ds) != []
    requires LeadingBlanks(p, TrimTail(p, ds)) == 0 && (last1 < last2 <= MAX_DIGIT_COUNT ==> TrimTail(p, ds) == ds)
    ensures FinishSame(p, e, ds, 0, last1 < gap + 1, last1 == last2 || (last1 < last2 && last2 > MAX_DIGIT_COUNT)) ==
            if last1 == last2 then FinishTrimmed(p, e, ds, 0, false)
            else if last1 < last2 && last1 < gap + 1 then FinishApart(p, e, ds, 0, beyond)
            else if last1 > last2 then Finish(p, e, ds, 0, true)
            else FinishTrimmed(p, e, ds, 0, true)
  {
    UncarriedOutcomes(p, e, ds, TrimTail(p, ds), beyond);
  }

  /** Without a carry and with a leading digit every final step packs the row, trimmed or not. */
  lemma {:induction false} UncarriedOutcomes(p: bool, e: int, ds: seq<byte>, r: seq<byte>, beyond: byte)
    requires DigitsOk(p, ds) && ds != [] && LeadingBlanks(p, ds) == 0 && r == TrimTail(p, ds) != []
    requires LeadingBlanks(p, r) == 0
    ensures FinishTrimmed(p, e, ds, 0, false) == FinishTrimmed(p, e, ds, 0, true) == Sum(Packed(p, e, r))
    ensures FinishApart(p, e, ds, 0, beyond) == Sum(Packed(p, e, r))
    ensures Finish(p, e, ds, 0, true) == Sum(Packed(p, e, ds))
  {
    assert r[0..] == r && ds[0..] == ds;
  }

  /** Opposite signs: the same result as addition. */
  lemma {:induction false} OppositeIsAddition(a: seq<byte>, b: seq<byte>, front: byte, behind: byte)
    requires Aligned(a, b) && IsPositive(a) != IsPositive(b)
    ensures SumOpposite(a, b, front, behind) == AddAligned(a, b, front, behind)
  {
    CarryShape(a, b, front);
  }

  /** A carry out of the largest exponent is a sum out of range. */
  lemma {:induction false} CarryLeavesRange(a: seq<byte>, b: seq<byte>, front: byte)
    requires Aligned(a, b) && SumRow(a, b, front).1 != 0 && Exponent(a) >= MAX_EXPONENT
    ensures !Addable(a, b)
  {
    if Addable(a, b) {
      var r := SumRow(a, b, front);
      AlignedSettles(a, b, front);
      SettledCarry(IsPositive(a), Exponent(a), r.0, r.1, SumIn(a, b));
    }
  }

  lemma SettledCarry(p: bool, e: int, ds: seq<byte>, carry: int, t: int)
    requires Settled(p, e, ds, carry, t) && carry != 0
    ensures e < MAX_EXPONENT
  {
    CarryIsBig(p, ds, |ds|);
    CarryInRange(p, e, e + 1 - |ds|, t);
  }

  lemma {:induction false} AlignedSumIff(a: seq<byte>, b: seq<byte>, front: byte, behind: byte)
    requires Aligned(a, b)
    ensures Denotes(CommonUnit(a, b), SumAligned(a, b, front, behind), SumIn(a, b)) <==> Addable(a, b)
  {
    AlignedIff(a, b, front, behind);
    if IsPositive(a) != IsPositive(b) {
      OppositeIsAddition(a, b, front, behind);
    } else {
      SameIsAddition(a, b, front, behind);
      if SumRow(a, b, front).1 != 0 && Exponent(a) >= MAX_EXPONENT { CarryLeavesRange(a, b, front); }
    }
  }

  /**
   One step of a running sum leaves the canonical number of the exact sum in the buffer if and only if the
   two numbers are addable, whatever memory surrounds them.
   */
  lemma {:induction false} SumExactIff(sum: seq<byte>, src: seq<byte>, stray: byte, behind: byte)
    requires Operand(sum) && Operand(src)
    ensures Denotes(CommonUnit(sum, src), SumSpec(sum, src, stray, behind), SumIn(sum, src)) <==> Addable(sum, src)
  {
    if IsZero(sum) || IsZero(src) {
    } else if Order(sum, src) == 0 && IsPositive(sum) != IsPositive(src) {
      Cancels(sum, src);
    } else if Order(sum, src) >= 0 {
      AlignedSumIff(sum, src, FrontByte(src[0], Gap(sum, src), stray), behind);
    } else {
      OrderFlips(sum, src);
      AlignedSumIff(src, sum, FrontByte(Blank(IsPositive(src)), Gap(src, sum), stray), behind);
    }
  }

  // ---------- many steps ----------

  lemma FinerUnit(unit: int, fine: int, out: Outcome, v: int, w: int)
    requires Denotes(unit, out, v) && fine <= unit && w == v * Pow(100, unit - fine)
    ensures Denotes(fine, out, w)
  {
    UnitChange(unit, unit - fine, out.bytes);
  }

  lemma SumAtUnit(unit: int, a: seq<byte>, b: seq<byte>)
    requires |a| > 0 && |b| > 0 && !IsZero(a) && !IsZero(b) && unit <= CommonUnit(a, b)
    ensures ValueIn(unit, a) + ValueIn(unit, b) == SumIn(a, b) * Pow(100, CommonUnit(a, b) - unit)
  {
    var u := CommonUnit(a, b);
    UnitChange(u, u - unit, a);
    UnitChange(u, u - unit, b);
    SumTimes(ValueIn(u, a), ValueIn(u, b), Pow(100, u - unit));
  }

  lemma {:induction false} StepAtUnit(unit: int, sum: seq<byte>, src: seq<byte>, stray: byte, behind: byte)
    requires Operand(sum) && Operand(src) && Addable(sum, src) && Covers(unit, sum) && Covers(unit, src)
    ensures Denotes(unit, SumSpec(sum, src, stray, behind), ValueIn(unit, sum) + ValueIn(unit, src))
  {
    if !IsZero(sum) && !IsZero(src) {
      var out, exact, v := SumSpec(sum, src, stray, behind), SumIn(sum, src), ValueIn(unit, sum) + ValueIn(unit, src);
      assert Denotes(CommonUnit(sum, src), out, exact) by { SumExactIff(sum, src, stray, behind); }
      SumAtUnit(unit, sum, src);
      FinerUnit(CommonUnit(sum, src), unit, out, exact, v);
    }
  }

  predicate AllSummands(values: seq<seq<byte>>)
  {
    forall i :: 0 <= i < |values| ==> Summand(values[i])
  }

  predicate AllOperands(values: seq<seq<byte>>)
  {
    forall i :: 0 <= i < |values| ==> Operand(values[i])
  }

  /** What the running sum can come to, whatever bytes lie around the values at each step. */
  ghost predicate Possible(sum: seq<byte>, values: seq<seq<byte>>, out: Outcome)
    requires Summand(sum) && AllSummands(values)
    decreases |values|, 0
  {
    if values == [] then out == Sum(sum)
    else exists stray: byte, behind: byte :: Leads(SumSpec(sum, values[0], stray, behind), values[1..], out)
  }

  ghost predicate Leads(next: Outcome, values: seq<seq<byte>>, out: Outcome)
    requires AllSummands(values)
    decreases |values|, 1
  {
    if next.Sum? && Summand(next.bytes) then Possible(next.bytes, values, out) else out == next
  }

  /** Every step is addable; the surrounding bytes do not matter then. */
  predicate AllAddable(sum: seq<byte>, values: seq<seq<byte>>)
    requires Operand(sum) && AllOperands(values)
    decreases |values|
  {
    values != [] ==>
      Operand(values[0]) && Addable(sum, values[0]) && AllOperands(values[1..]) &&
      (SumExactIff(sum, values[0], 0, 0); AllAddable(SumSpec(sum, values[0], 0, 0).bytes, values[1..]))
  }

  lemma MemoryIsIrrelevant(sum: seq<byte>, src: seq<byte>, stray: byte, behind: byte)
    requires Operand(sum) && Operand(src) && Addable(sum, src)
    ensures SumSpec(sum, src, stray, behind) == SumSpec(sum, src, 0, 0)
  {
    SumExactIff(sum, src, stray, behind);
    SumExactIff(sum, src, 0, 0);
    ByteOrderIsNumericOrder(CommonUnit(sum, src), SumSpec(sum, src, stray, behind).bytes,
                            SumSpec(sum, src, 0, 0).bytes);
  }

  function TotalIn(unit: int, values: seq<seq<byte>>): int
    requires forall i :: 0 <= i < |values| ==> |values[i]| > 0 && Covers(unit, values[i])
  {
    if values == [] then 0 else ValueIn(unit, values[0]) + TotalIn(unit, values[1..])
  }

  /** A running sum over any list is the canonical number of the exact sum while every step is addable. */
  lemma {:induction false} RunningSumIsExact(unit: int, sum: seq<byte>, values: seq<seq<byte>>, out: Outcome)
    requires Operand(sum) && Covers(unit, sum)
    requires AllOperands(values) && forall i :: 0 <= i < |values| ==> Covers(unit, values[i])
    requires AllAddable(sum, values) && Possible(sum, values, out)
    ensures Denotes(unit, out, ValueIn(unit, sum) + TotalIn(unit, values))
    decreases |values|
  {
    if values != [] {
      var stray: byte, behind: byte :| Leads(SumSpec(sum, values[0], stray, behind), values[1..], out);
      MemoryIsIrrelevant(sum, values[0], stray, behind);
      StepAtUnit(unit, sum, values[0], 0, 0);
      RunningSumIsExact(unit, SumSpec(sum, values[0], 0, 0).bytes, values[1..], out);
    }
  }

  /**
   SUM over the values of a column: the first is copied, every further one is added in place, and the first
   failure ends the aggregate. `memory` gives the bytes around the values at each step.
   */
  method SumOver(values: seq<seq<byte>>, size: nat, memory: seq<(byte, byte)>) returns (out: Outcome)
    requires values != [] && |memory| == |values| && size >= MAX_SIZE
    requires AllOperands(values)
    ensures Operand(values[0]) && AllOperands(values[1..]) && AllSummands(values[1..])
    ensures Possible(values[0], values[1..], out)
    ensures AllAddable(values[0], values[1..]) ==>
              forall unit :: (forall i :: 0 <= i < |values| ==> Covers(unit, values[i])) ==>
                Denotes(unit, out, TotalIn(unit, values))
  {
    out := Accumulate(values, size, memory);
    if AllAddable(values[0], values[1..]) {
      forall unit | forall i :: 0 <= i < |values| ==> Covers(unit, values[i])
        ensures Denotes(unit, out, TotalIn(unit, values))
      {
        RunningSumIsExact(unit, values[0], values[1..], out);
      }
    }
  }

  method Accumulate(values: seq<seq<byte>>, size: nat, memory: seq<(byte, byte)>) returns (out: Outcome)
    requires values != [] && |memory| == |values| && size >= MAX_SIZE
    requires AllOperands(values)
    ensures Operand(values[0]) && AllOperands(values[1..]) && AllSummands(values[1..])
    ensures Possible(values[0], values[1..], out)
  {
    assert Operand(values[0]);
    var total := new RunningSum(values[0], size);
    for i := 1 to |values|
      invariant fresh(total) && fresh(total.data) && total.Valid()
      invariant forall o :: Possible(total.Contents(), values[i..], o) ==> Possible(values[0], values[1..], o)
    {
      assert values[i..] == [values[i]] + values[i + 1..] && Operand(values[i]);
      var stop;
      stop, out := AddNext(total, values[i], memory[i].0, memory[i].1, values[i + 1..]);
      if stop { return; }
    }
    out := Sum(total.data[..total.length]);
  }

  /** One value more; the aggregate ends with what is no number any more. */
  method AddNext(total: RunningSum, value: seq<byte>, stray: byte, beyond: byte, ghost rest: seq<seq<byte>>)
    returns (stop: bool, out: Outcome)
    requires total.Valid() && Summand(value) && AllSummands([value] + rest) && AllSummands(rest)
    modifies total, total.data
    ensures stop ==> Possible(old(total.Contents()), [value] + rest, out)
    ensures !stop ==> total.Valid()
    ensures !stop ==>
              (forall o :: Possible(total.Contents(), rest, o) ==> Possible(old(total.Contents()), [value] + rest, o))
  {
    ghost var sum := total.Contents();
    ghost var behind := Behind(total.data[..], RowLength(sum, value), beyond);
    var status := total.Add(value, stray, beyond);
    assert ([value] + rest)[1..] == rest;
    StepIsPossible(sum, [value] + rest, stray, behind);
    if status != Done { return true, if status == Failed then OutOfRange else Unspecified; }
    if !Summand(total.data[..total.length]) { return true, Sum(total.data[..total.length]); }
    return false, OutOfRange;
  }

  lemma StepIsPossible(sum: seq<byte>, values: seq<seq<byte>>, stray: byte, behind: byte)
    requires Summand(sum) && values != [] && AllSummands(values)
    ensures forall out :: Leads(SumSpec(sum, values[0], stray, behind), values[1..], out) ==> Possible(sum, values, out)
  {
  }
}
