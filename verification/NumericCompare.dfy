/** NUMERIC comparison by raw bytes, and why that is comparison of the numbers. */
module NumericCompare {
  import opened CArithmetic
  import opened Powers
  import opened NumericCodec

  function Sign(x: int): int { if x < 0 then -1 else if x > 0 then 1 else 0 }

  /** Length of the longest common prefix. */
  function CommonPrefix(a: seq<byte>, b: seq<byte>): (k: nat)
    ensures k <= |a| && k <= |b| && a[..k] == b[..k]
    ensures k < |a| && k < |b| ==> a[k] != b[k]
  {
    if a == [] || b == [] || a[0] != b[0] then 0
    else
      var k := CommonPrefix(a[1..], b[1..]);
      assert a[..k + 1] == [a[0]] + a[1..][..k] && b[..k + 1] == [b[0]] + b[1..][..k];
      k + 1
  }

  /** Byte-lexicographic order in which a proper prefix ranks low for positives and high for negatives. */
  function ByteOrder(a: seq<byte>, b: seq<byte>): int
    requires |a| > 0 && |b| > 0
  {
    var k := CommonPrefix(a, b);
    if k < |a| && k < |b| then Sign(a[k] as int - b[k] as int)
    else if IsPositive(a) then Sign(|a| - |b|)
    else Sign(|b| - |a|)
  }

  lemma {:induction false} CommonPrefixUnique(a: seq<byte>, b: seq<byte>, k: nat)
    requires k <= |a| && k <= |b| && a[..k] == b[..k]
    requires k < |a| && k < |b| ==> a[k] != b[k]
    ensures CommonPrefix(a, b) == k
  {
    if k > 0 {
      assert a[0] == a[..k][0] == b[..k][0] == b[0];
      assert a[1..][..k - 1] == a[..k][1..] == b[..k][1..] == b[1..][..k - 1];
      CommonPrefixUnique(a[1..], b[1..], k - 1);
    }
  }

  /**
   The comparison loop as written for platforms that allow unaligned reads: four bytes at a
   time while they agree, then the first difference inside the four, then the tail of 0..3 bytes.
   */
  method CompareNumeric(left: seq<byte>, right: seq<byte>) returns (result: int)
    requires |left| > 0 && |right| > 0
    ensures result == ByteOrder(left, right)
  {
    var len: int;
    if |left| == |right| {
      len := |left|; result := 0;
    } else if |left| < |right| {
      len := |left|; result := -1;
    } else {
      len := |right|; result := 1;
    }
    ghost var byLength := result;
    ghost var common := len;
    var p := 0;
    while len >= 4
      invariant len >= 0 && p + len == common && result == byLength
      invariant left[..p] == right[..p]
      decreases len
    {
      if left[p..p + 4] == right[p..p + 4] {
        assert left[..p + 4] == left[..p] + left[p..p + 4];
        assert right[..p + 4] == right[..p] + right[p..p + 4];
        p := p + 4;
        len := len - 4;
        continue;
      }
      var l0, l1, l2, l3 := left[p], left[p + 1], left[p + 2], left[p + 3];
      var r0, r1, r2, r3 := right[p], right[p + 1], right[p + 2], right[p + 3];
      assert left[p..p + 4] == [l0, l1, l2, l3] && right[p..p + 4] == [r0, r1, r2, r3];
      if l0 == r0 && l1 == r1 {
        if l2 == r2 {
          result := if l3 < r3 then -1 else 1;
          CommonPrefixUnique(left, right, p + 3);
        } else {
          result := if l2 < r2 then -1 else 1;
          CommonPrefixUnique(left, right, p + 2);
        }
      } else {
        if l0 == r0 {
          result := if l1 < r1 then -1 else 1;
          CommonPrefixUnique(left, right, p + 1);
        } else {
          result := if l0 < r0 then -1 else 1;
          CommonPrefixUnique(left, right, p);
        }
      }
      return;
    }
    result := CompareTail(left, right, p, len, result);
  }

  lemma PrefixStep(left: seq<byte>, right: seq<byte>, k: nat)
    requires k < |left| && k < |right| && left[..k] == right[..k] && left[k] == right[k]
    ensures left[..k + 1] == right[..k + 1]
  {
    assert left[..k + 1] == left[..k] + [left[k]] && right[..k + 1] == right[..k] + [right[k]];
  }

  /** The switch over the 0..3 bytes left after the four-byte loop. */
  method CompareTail(left: seq<byte>, right: seq<byte>, p: nat, len: nat, byLength: int) returns (result: int)
    requires |left| > 0 && |right| > 0 && len <= 3
    requires p + len == (if |left| <= |right| then |left| else |right|)
    requires byLength == Sign(|left| - |right|)
    requires left[..p] == right[..p]
    ensures result == ByteOrder(left, right)
  {
    result := byLength;
    if len >= 1 && left[p] != right[p] {
      CommonPrefixUnique(left, right, p);
      return if left[p] < right[p] then -1 else 1;
    }
    if len >= 1 { PrefixStep(left, right, p); }
    if len >= 2 && left[p + 1] != right[p + 1] {
      CommonPrefixUnique(left, right, p + 1);
      return if left[p + 1] < right[p + 1] then -1 else 1;
    }
    if len >= 2 { PrefixStep(left, right, p + 1); }
    if len == 3 && left[p + 2] != right[p + 2] {
      CommonPrefixUnique(left, right, p + 2);
      return if left[p + 2] < right[p + 2] then -1 else 1;
    }
    if len == 3 { PrefixStep(left, right, p + 2); }
    CommonPrefixUnique(left, right, p + len);
    if left[0] <= 127 {
      result := -result;
    }
  }

  // ---------- byte order is numeric order ----------

  lemma {:induction false} HeadLess(positive: bool, u: seq<byte>, v: seq<byte>, n: nat)
    requires DigitsOk(positive, u) && DigitsOk(positive, v)
    requires 0 < |u| <= n && 0 < |v| <= n && u[0] < v[0]
    ensures Padded(positive, u, n) < Padded(positive, v, n)
  {
    PaddedBounds(positive, u[1..], n - 1);
    PaddedBounds(positive, v[1..], n - 1);
    MulStep(u[0] - Blank(positive), v[0] - Blank(positive), Pow(100, n - 1));
  }

  /** A common prefix counts the same on both sides. */
  lemma CommonHead(positive: bool, u: seq<byte>, v: seq<byte>, n: nat, k: nat)
    requires k <= |u| <= n && k <= |v| <= n && u[..k] == v[..k]
    ensures Padded(positive, u, n) - Padded(positive, v, n) ==
            Padded(positive, u[k..], n - k) - Padded(positive, v[k..], n - k)
  {
    assert u == u[..k] + u[k..] && v == v[..k] + v[k..];
    PaddedConcat(positive, u[..k], u[k..], n);
    PaddedConcat(positive, v[..k], v[k..], n);
  }

  lemma {:induction false} DigitsLess(positive: bool, u: seq<byte>, v: seq<byte>, n: nat, k: nat)
    requires DigitsOk(positive, u) && DigitsOk(positive, v)
    requires k < |u| <= n && k < |v| <= n && u[..k] == v[..k] && u[k] < v[k]
    ensures Padded(positive, u, n) < Padded(positive, v, n)
  {
    CommonHead(positive, u, v, n, k);
    HeadLess(positive, u[k..], v[k..], n - k);
  }

  lemma {:induction false} DigitsPrefix(positive: bool, u: seq<byte>, v: seq<byte>, n: nat)
    requires DigitsOk(positive, u) && DigitsOk(positive, v)
    requires |u| < |v| <= n && u == v[..|u|] && v[|v| - 1] != Blank(positive)
    ensures positive ==> Padded(positive, u, n) < Padded(positive, v, n)
    ensures !positive ==> Padded(positive, u, n) > Padded(positive, v, n)
  {
    assert v == u + v[|u|..];
    PaddedConcat(positive, u, v[|u|..], n);
    PaddedNonZero(positive, v[|u|..], n - |u|);
  }

  /** Two non-zero numbers with the same header compare as their digit bytes do. */
  lemma SameHeaderOrder(unit: int, a: seq<byte>, b: seq<byte>)
    requires Canonical(a) && Canonical(b) && !IsZero(a) && !IsZero(b)
    requires Covers(unit, a) && Covers(unit, b) && a[0] == b[0]
    ensures ByteOrder(a, b) == Sign(ValueIn(unit, a) - ValueIn(unit, b))
  {
    var pos, n, k := IsPositive(a), Exponent(a) + 1 - unit, CommonPrefix(a, b);
    var u, v := a[1..], b[1..];
    if k < |a| && k < |b| {
      assert k > 0;
      assert u[..k - 1] == a[..k][1..] == b[..k][1..] == v[..k - 1];
      if a[k] < b[k] {
        DigitsLess(pos, u, v, n, k - 1);
      } else {
        DigitsLess(pos, v, u, n, k - 1);
      }
    } else if |a| < |b| {
      assert u == v[..|u|];
      DigitsPrefix(pos, u, v, n);
    } else if |b| < |a| {
      assert v == u[..|v|];
      DigitsPrefix(pos, v, u, n);
    } else {
      assert a == b;
    }
  }

  /** A larger header byte means a larger number, whatever the digits. */
  lemma HeaderOrder(unit: int, a: seq<byte>, b: seq<byte>)
    requires Canonical(a) && Canonical(b) && Covers(unit, a) && Covers(unit, b)
    requires a[0] < b[0]
    ensures ValueIn(unit, a) < ValueIn(unit, b)
  {
    if !IsZero(a) { MagnitudeBounds(unit, a); }
    if !IsZero(b) { MagnitudeBounds(unit, b); }
    if !IsZero(a) && !IsZero(b) && IsPositive(a) == IsPositive(b) {
      if IsPositive(a) {
        PowMonotone(100, Exponent(a) - unit + 1, Exponent(b) - unit);
      } else {
        PowMonotone(100, Exponent(b) - unit + 1, Exponent(a) - unit);
      }
    }
  }

  lemma {:induction false} ByteOrderIsNumericOrder(unit: int, a: seq<byte>, b: seq<byte>)
    requires Canonical(a) && Canonical(b) && Covers(unit, a) && Covers(unit, b)
    ensures ByteOrder(a, b) == Sign(ValueIn(unit, a) - ValueIn(unit, b))
    ensures a == b <==> ValueIn(unit, a) == ValueIn(unit, b)
  {
    if a[0] < b[0] {
      HeaderOrder(unit, a, b);
    } else if b[0] < a[0] {
      HeaderOrder(unit, b, a);
    } else if IsZero(a) || IsZero(b) {
      if !IsZero(a) { MagnitudeBounds(unit, a); }
      if !IsZero(b) { MagnitudeBounds(unit, b); }
      CommonPrefixUnique(a, b, if |a| <= |b| then |a| else |b|);
    } else {
      SameHeaderOrder(unit, a, b);
    }
    if ByteOrder(a, b) == 0 {
      assert a == b;
    }
  }

  // ---------- negation ----------

  function Reverse(digit: byte): int { 102 - digit }

  function ReverseDigits(ds: seq<byte>, positive: bool): (r: seq<byte>)
    requires DigitsOk(positive, ds)
    ensures |r| == |ds| && DigitsOk(!positive, r)
    ensures forall i :: 0 <= i < |ds| ==> r[i] == 102 - ds[i]
  {
    if ds == [] then []
    else
      assert DigitOk(positive, ds[0]);
      [Reverse(ds[0])] + ReverseDigits(ds[1..], positive)
  }

  function Negated(n: seq<byte>): seq<byte>
    requires Canonical(n)
  {
    if IsZero(n) then n else [0xFF - n[0]] + ReverseDigits(n[1..], IsPositive(n))
  }

  lemma NegatedAt(n: seq<byte>, i: nat)
    requires Canonical(n) && !IsZero(n) && 0 < i < |n|
    ensures |Negated(n)| == |n| && 1 <= n[i] <= 101 && Negated(n)[i] == 102 - n[i]
  {
    assert DigitOk(IsPositive(n), n[1..][i - 1]);
  }

  /** The in-place negation loop, last digit first. */
  method Negate(source: seq<byte>, target: array<byte>) returns (length: nat)
    requires Canonical(source) && target.Length >= |source|
    modifies target
    ensures length == |source| && target[..length] == Negated(source)
    ensures target[length..] == old(target[length..])
  {
    if IsZero(source) {
      target[0] := 0x80;
      return 1;
    }
    ghost var negated := Negated(source);
    forall i | 0 < i < |source|
      ensures 1 <= source[i] <= 101 && negated[i] == 102 - source[i]
    {
      NegatedAt(source, i);
    }
    target[0] := 0xFF - source[0];
    NegateDigits(source, target, negated);
    length := |source|;
  }

  method NegateDigits(source: seq<byte>, target: array<byte>, ghost negated: seq<byte>)
    requires 0 < |source| == |negated| <= target.Length && target[0] == negated[0]
    requires forall i :: 0 < i < |source| ==> 1 <= source[i] <= 101 && negated[i] == 102 - source[i]
    modifies target
    ensures target[..|source|] == negated && target[|source|..] == old(target[|source|..])
  {
    var len := |source| - 1;
    while len > 0
      invariant 0 <= len < |source|
      invariant target[0] == negated[0] && target[|source|..] == old(target[|source|..])
      invariant forall i :: len < i < |source| ==> target[i] == negated[i]
    {
      target[len] := Reverse(source[len]);
      len := len - 1;
    }
  }

  lemma {:induction false} PaddedReverse(positive: bool, ds: seq<byte>, n: nat)
    requires |ds| <= n && DigitsOk(positive, ds)
    ensures Padded(!positive, ReverseDigits(ds, positive), n) == -Padded(positive, ds, n)
  {
    if ds != [] {
      PaddedReverse(positive, ds[1..], n - 1);
      assert DigitOk(positive, ds[0]);
      var r := ReverseDigits(ds, positive);
      assert r[1..] == ReverseDigits(ds[1..], positive);
      var d, p := ds[0] - Blank(positive), Pow(100, n - 1);
      assert (-d) * p == -(d * p);
    }
  }

  lemma NegatedShape(n: seq<byte>)
    requires Canonical(n) && !IsZero(n)
    ensures var r := Negated(n);
            && |r| == |n| && Canonical(r) && !IsZero(r)
            && IsPositive(r) == !IsPositive(n) && Exponent(r) == Exponent(n)
            && r[1..] == ReverseDigits(n[1..], IsPositive(n))
  {
    NegatedAt(n, 1);
    NegatedAt(n, |n| - 1);
    NegatedParts(n);
  }

  lemma {:induction false} NegatedParts(n: seq<byte>)
    requires Canonical(n) && !IsZero(n)
    ensures var r := Negated(n);
            && |r| == |n| && r[1..] == ReverseDigits(n[1..], IsPositive(n)) && DigitsOk(!IsPositive(n), r[1..])
            && IsPositive(r) == !IsPositive(n) && Exponent(r) == Exponent(n)
  {
    assert Negated(n)[1..] == ReverseDigits(n[1..], IsPositive(n));
  }

  lemma NegationInvolution(n: seq<byte>)
    requires Canonical(n) && !IsZero(n)
    ensures Canonical(Negated(n)) && Negated(Negated(n)) == n
  {
    NegatedShape(n);
    var r := Negated(n);
    NegatedShape(r);
    forall i | 0 <= i < |n|
      ensures Negated(r)[i] == n[i]
    {
      if i > 0 {
        NegatedAt(n, i);
        NegatedAt(r, i);
      }
    }
  }

  /** Negation keeps the canonical form and the exponents, changes the sign of the number, and undoes itself. */
  lemma NegationLaws(unit: int, n: seq<byte>)
    requires Canonical(n) && Covers(unit, n)
    ensures Canonical(Negated(n)) && Covers(unit, Negated(n))
    ensures ValueIn(unit, Negated(n)) == -ValueIn(unit, n)
    ensures Negated(Negated(n)) == n
  {
    if !IsZero(n) {
      NegationInvolution(n);
      NegatedShape(n);
      PaddedReverse(IsPositive(n), n[1..], Exponent(n) + 1 - unit);
    }
  }

  /** Negation turns the byte order round. */
  lemma NegationReversesOrder(a: seq<byte>, b: seq<byte>)
    requires Canonical(a) && Canonical(b)
    ensures Canonical(Negated(a)) && Canonical(Negated(b))
    ensures ByteOrder(Negated(b), Negated(a)) == ByteOrder(a, b)
  {
    var unit := if LowExponent(a) < LowExponent(b) then LowExponent(a) else LowExponent(b);
    NegationLaws(unit, a);
    NegationLaws(unit, b);
    ByteOrderIsNumericOrder(unit, a, b);
    ByteOrderIsNumericOrder(unit, Negated(b), Negated(a));
  }

  // ---------- decimal range ----------

  /**
   Every non-zero NUMERIC, whatever its digit count, lies in [10^-130, 10^126). With a unit of
   10^-(130 + 2*scale) those two bounds are 10^(2*scale) and 10^(256 + 2*scale).
   */
  lemma DecimalRange(scale: nat, n: seq<byte>)
    requires Canonical(n) && !IsZero(n) && Covers(MIN_EXPONENT - scale, n)
    ensures var v := ValueIn(MIN_EXPONENT - scale, n);
            Pow(10, 2 * scale) <= (if v < 0 then -v else v) < Pow(10, 256 + 2 * scale)
  {
    MagnitudeBounds(MIN_EXPONENT - scale, n);
    var e := Exponent(n) - (MIN_EXPONENT - scale);
    PowMonotone(100, scale, e);
    PowMonotone(100, e + 1, 128 + scale);
    HundredIsTenSquared(scale);
    HundredIsTenSquared(128 + scale);
  }

  /** Both ends of the exponent range are reached by one-digit numbers. */
  lemma DecimalRangeAttained()
    ensures Canonical([0x80, 2]) && ValueIn(MIN_EXPONENT, [0x80, 2]) == 1
    ensures Canonical([0xFF, 100]) && ValueIn(MAX_EXPONENT, [0xFF, 100]) == 99
  {
    var low: seq<byte> := [0x80, 2];
    var high: seq<byte> := [0xFF, 100];
    assert low[1..] == [2] && high[1..] == [100];
    assert Pow(100, 0) == 1;
  }
}
