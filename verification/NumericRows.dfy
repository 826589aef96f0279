/** The numbers denoted by digit rows, and what each step of the adder does to them. */
module NumericRows {
  import opened CArithmetic
  import opened Powers
  import opened NumericCodec
  import opened NumericCompare
  import opened NumericAddition

  /** A carry of -1, 0 or 1 times a weight. */
  function CarryTimes(carry: int, weight: int): int
  {
    if carry > 0 then weight else if carry < 0 then -weight else 0
  }

  /** Row addition is exact: the digits and the carry out denote the sum of the rows and the carry in. */
  lemma {:induction false} AddRowsExact(p1: bool, p2: bool, x: seq<byte>, y: seq<byte>, carry: int)
    requires |x| == |y| && DigitsOk(p1, x) && DigitsOk(p2, y) && CarryOk(p2, carry)
    ensures var (ds, c) := AddRows(p1, p2, x, y, carry);
            Padded(p1, ds, |x|) + CarryTimes(c, Pow(100, |x|)) == Padded(p1, x, |x|) + Padded(p2, y, |x|) + carry
  {
    if x != [] {
      var n := |x| - 1;
      AddRowsExact(p1, p2, x[1..], y[1..], carry);
      var r, m, c := AddRowsHead(p1, p2, x, y, carry);
      HeadOfPadded(p1, r, n + 1);
      HeadOfPadded(p1, x, n + 1);
      HeadOfPadded(p2, y, n + 1);
      StepArithmetic(m.digit - Blank(p1), m.carry, x[0] - Blank(p1), y[0] - Blank(p2), c, Pow(100, n), Pow(100, n + 1));
    }
  }

  /** The first position of a sum of rows. */
  lemma {:induction false} AddRowsHead(p1: bool, p2: bool, x: seq<byte>, y: seq<byte>, carry: int)
    returns (r: seq<byte>, m: CarryInfo, c: int)
    requires |x| == |y| > 0 && DigitsOk(p1, x) && DigitsOk(p2, y) && CarryOk(p2, carry)
    ensures AddRows(p1, p2, x, y, carry) == (r, m.carry) && |r| == |x| && r[0] == m.digit
    ensures AddRows(p1, p2, x[1..], y[1..], carry) == (r[1..], c) && CarryOk(p2, c) && CarryOk(p2, m.carry)
    ensures m.digit - Blank(p1) + 100 * m.carry == x[0] - Blank(p1) + (y[0] - Blank(p2)) + c
  {
    var rest := AddRows(p1, p2, x[1..], y[1..], carry);
    c := rest.1;
    assert DigitOk(p1, x[0]) && DigitOk(p2, y[0]);
    DigitMapAdds(p1, p2, x[0], y[0], c);
    m := DigitMap(p1, p2, x[0] + y[0] + c);
    r := [m.digit] + rest.0;
    assert r[1..] == rest.0;
  }

  lemma HeadOfPadded(positive: bool, ds: seq<byte>, n: nat)
    requires 0 < |ds| <= n
    ensures Padded(positive, ds, n) ==
            (ds[0] - Blank(positive)) * Pow(100, n - 1) + Padded(positive, ds[1..], n - 1)
  {
  }

  lemma StepArithmetic(digit: int, out: int, x: int, y: int, c: int, p: int, q: int)
    requires digit + 100 * out == x + y + c && q == 100 * p && -1 <= out <= 1 && -1 <= c <= 1
    ensures digit * p + CarryTimes(out, q) == x * p + y * p + CarryTimes(c, p)
  {
    assert (digit + 100 * out) * p == (x + y + c) * p;
    assert out == 0 || out == 1 || out == -1;
    assert c == 0 || c == 1 || c == -1;
  }

  lemma TimesHundred(positive: bool, ds: seq<byte>, n: nat)
    requires |ds| <= n
    ensures Padded(positive, ds, n + 1) == 100 * Padded(positive, ds, n)
  {
    PaddedShift(positive, ds, n, 1);
    assert Pow(100, 1) == 100 * Pow(100, 0) == 100;
  }

  lemma {:induction false} BlanksAreZero(positive: bool, ds: seq<byte>, n: nat)
    requires |ds| <= n && forall i :: 0 <= i < |ds| ==> ds[i] == Blank(positive)
    ensures Padded(positive, ds, n) == 0
  {
    if ds != [] {
      BlanksAreZero(positive, ds[1..], n - 1);
    }
  }

  /** The part of an operand that lies inside n positions when it starts `offset` positions down. */
  function Kept(ds: seq<byte>, offset: nat, n: nat): seq<byte>
  {
    if offset >= n then [] else if |ds| <= n - offset then ds else ds[..n - offset]
  }

  lemma RowValue(positive: bool, ds: seq<byte>, offset: nat, n: nat)
    requires offset <= n
    ensures Padded(positive, Row(positive, ds, offset, n), n) == Padded(positive, Kept(ds, offset, n), n - offset)
  {
    var r, kept := Row(positive, ds, offset, n), Kept(ds, offset, n);
    var head, tail := r[..offset], r[offset + |kept|..];
    assert r == head + kept + tail;
    PaddedConcat(positive, head + kept, tail, n);
    PaddedConcat(positive, head, kept, n);
    BlanksAreZero(positive, head, n);
    BlanksAreZero(positive, tail, n - offset - |kept|);
  }

  lemma BlankRowValue(positive: bool, ds: seq<byte>, offset: nat, n: nat)
    requires offset >= n
    ensures Padded(positive, Row(positive, ds, offset, n), n) == 0
  {
    BlanksAreZero(positive, Row(positive, ds, offset, n), n);
  }

  lemma TrimKeepsValue(positive: bool, ds: seq<byte>, n: nat)
    requires |ds| <= n
    ensures Padded(positive, TrimTail(positive, ds), n) == Padded(positive, ds, n)
  {
    var r := TrimTail(positive, ds);
    assert ds == r + ds[|r|..];
    PaddedConcat(positive, r, ds[|r|..], n);
    BlanksAreZero(positive, ds[|r|..], n - |r|);
  }

  lemma StripKeepsValue(positive: bool, ds: seq<byte>, n: nat)
    requires |ds| <= n
    ensures var k := LeadingBlanks(positive, ds);
            Padded(positive, ds[k..], n - k) == Padded(positive, ds, n)
  {
    BlankHead(positive, ds, LeadingBlanks(positive, ds), n);
  }

  lemma BlankHead(positive: bool, ds: seq<byte>, k: nat, n: nat)
    requires k <= |ds| <= n && forall i :: 0 <= i < k ==> ds[i] == Blank(positive)
    ensures Padded(positive, ds[k..], n - k) == Padded(positive, ds, n)
  {
    assert ds == ds[..k] + ds[k..];
    PaddedConcat(positive, ds[..k], ds[k..], n);
    BlanksAreZero(positive, ds[..k], n);
  }

  /** Strips at both ends leave the same number. */
  lemma {:induction false} TrimStripKeepsValue(positive: bool, ds: seq<byte>)
    ensures var r, k := TrimTail(positive, ds), LeadingBlanks(positive, ds);
            k < |ds| ==> k < |r| && Padded(positive, r[k..], |ds| - k) == Padded(positive, ds, |ds|)
  {
    var r, k := TrimTail(positive, ds), LeadingBlanks(positive, ds);
    if k < |ds| {
      assert ds[k] != Blank(positive);
      assert k < |r|;
      assert forall i :: 0 <= i < k ==> r[i] == ds[i];
      TrimKeepsValue(positive, ds, |ds|);
      BlankHead(positive, r, k, |ds|);
    }
  }

  /** A row whose value reaches the weight of its first position has a non-zero first digit. */
  lemma LeadingFromValue(positive: bool, ds: seq<byte>)
    requires ds != [] && DigitsOk(positive, ds)
    requires Padded(positive, ds, |ds|) >= Pow(100, |ds| - 1) || -Padded(positive, ds, |ds|) >= Pow(100, |ds| - 1)
    ensures ds[0] != Blank(positive)
  {
    if ds[0] == Blank(positive) {
      PaddedBounds(positive, ds[1..], |ds| - 1);
    }
  }

  // ---------- rounding away the 21st digit ----------

  lemma {:induction false} SplitLast(positive: bool, ds: seq<byte>)
    requires ds != []
    ensures Padded(positive, ds, |ds|) ==
            100 * Padded(positive, ds[..|ds| - 1], |ds| - 1) + ds[|ds| - 1] - Blank(positive)
  {
    var m := |ds| - 1;
    assert ds == ds[..m] + [ds[m]];
    PaddedConcat(positive, ds[..m], [ds[m]], m + 1);
    TimesHundred(positive, ds[..m], m);
    assert Padded(positive, [ds[m]], 1) == ds[m] - Blank(positive);
  }

  lemma {:induction false} BumpAddsOne(positive: bool, ds: seq<byte>)
    requires |ds| > 0 && DigitsOk(positive, ds) && ds[0] == DigitByte(positive, 1)
    ensures var r := BumpLast(positive, ds);
            && Padded(positive, r, |ds|) == Padded(positive, ds, |ds|) + Unit(positive)
            && r[0] != Blank(positive) && r[|r| - 1] != Blank(positive)
  {
    var m := |ds| - 1;
    assert DigitOk(positive, ds[m]);
    DigitMapAdds(positive, positive, ds[m], Blank(positive), Unit(positive));
    var info := DigitMap(positive, positive, ds[m] + Blank(positive) + Unit(positive));
    SplitLast(positive, ds);
    if info.carry != 0 {
      assert info.carry == Unit(positive);
      BumpAddsOne(positive, ds[..m]);
      var r := BumpLast(positive, ds[..m]);
      TimesHundred(positive, r, m);
    } else {
      var r := ds[..m] + [info.digit];
      SplitLast(positive, r);
      assert r[..m] == ds[..m];
    }
  }

  /** Dropping the last of m+1 digits is off by at most half a unit of the m-th. */
  lemma {:induction false} DropLastRounds(positive: bool, ds: seq<byte>)
    requires |ds| > 1 && DigitsOk(positive, ds) && ds[0] == DigitByte(positive, 1)
    ensures var r, v := DropLast(positive, ds), Padded(positive, ds, |ds|);
            var w := 100 * Padded(positive, r, |ds| - 1);
            && -50 <= w - v <= 50
            && (positive ==> w - v != -50) && (!positive ==> w - v != 50)
            && (w == v ==> ds[|ds| - 1] == Blank(positive))
            && r[0] != Blank(positive)
  {
    var m := |ds| - 1;
    SplitLast(positive, ds);
    assert DigitOk(positive, ds[m]);
    if DigitValue(positive, ds[m]) > 49 {
      BumpAddsOne(positive, ds[..m]);
    }
  }

  // ---------- the last digit ----------

  /** Where the second row and the carry in are zero, the last digit of the first row passes unchanged. */
  lemma {:induction false} LastDigitPasses(p1: bool, p2: bool, x: seq<byte>, y: seq<byte>)
    requires |x| == |y| > 0 && DigitsOk(p1, x) && DigitsOk(p2, y) && y[|y| - 1] == Blank(p2)
    ensures AddRows(p1, p2, x, y, 0).0[|x| - 1] == x[|x| - 1]
  {
    var (ds, c) := AddRows(p1, p2, x[1..], y[1..], 0);
    assert DigitOk(p1, x[0]) && DigitOk(p2, y[0]);
    DigitMapAdds(p1, p2, x[0], y[0], c);
    if |x| > 1 {
      LastDigitPasses(p1, p2, x[1..], y[1..]);
    } else {
      assert ds == [] && c == 0;
    }
  }

  // ---------- magnitudes ----------

  function Signed(positive: bool, x: int): int { if positive then x else -x }

  function Mag(positive: bool, ds: seq<byte>, n: nat): int
    requires |ds| <= n
  {
    Signed(positive, Padded(positive, ds, n))
  }

  /** The digit comparison of the adder orders the two magnitudes. */
  lemma {:induction false} MagnitudeOrderMeaning(p1: bool, d1: seq<byte>, p2: bool, d2: seq<byte>, n: nat)
    requires |d1| <= n && |d2| <= n && DigitsOk(p1, d1) && DigitsOk(p2, d2)
    requires d1 != [] ==> d1[|d1| - 1] != Blank(p1)
    requires d2 != [] ==> d2[|d2| - 1] != Blank(p2)
    ensures MagnitudeOrder(p1, d1, p2, d2) == Sign(Mag(p1, d1, n) - Mag(p2, d2, n))
  {
    if d1 == [] {
      if d2 != [] { PaddedNonZero(p2, d2, n); }
    } else if d2 == [] {
      PaddedNonZero(p1, d1, n);
    } else {
      assert DigitOk(p1, d1[0]) && DigitOk(p2, d2[0]);
      PaddedBounds(p1, d1[1..], n - 1);
      PaddedBounds(p2, d2[1..], n - 1);
      var p, m1, m2 := Pow(100, n - 1), DigitValue(p1, d1[0]), DigitValue(p2, d2[0]);
      HeadOfMag(p1, d1, n);
      HeadOfMag(p2, d2, n);
      if m1 < m2 {
        MulStep(m1, m2, p);
      } else if m2 < m1 {
        MulStep(m2, m1, p);
      } else {
        MagnitudeOrderMeaning(p1, d1[1..], p2, d2[1..], n - 1);
      }
    }
  }

  lemma HeadOfMag(positive: bool, ds: seq<byte>, n: nat)
    requires 0 < |ds| <= n
    ensures Mag(positive, ds, n) == DigitValue(positive, ds[0]) * Pow(100, n - 1) + Mag(positive, ds[1..], n - 1)
  {
    var d, p := ds[0] - Blank(positive), Pow(100, n - 1);
    assert (-d) * p == -(d * p);
  }
}
