/** The cast of a 32-bit integer to NUMERIC: rounding to precision or scale, then base-100 digits. */
module NumericFromInteger {
  import opened CArithmetic
  import opened Wrappers
  import opened Powers
  import opened Digits
  import opened NumericCodec

  // ---------- division by 100 without dividing ----------

  /** Multiply by a constant, shift, add, shift. */
  function DivBy100(n: nat): nat
  {
    (n * 0x47AE147B / 0x1_0000_0000 + n) / 2 / 64
  }

  /** The first value on which the shifts do not divide. */
  const FIRST_WRONG := 45812984499

  /** The shifts divide every value below that one; 32-bit values are below it and do not overflow 64 bits. */
  lemma DivBy100IsExact(n: nat)
    ensures n < FIRST_WRONG ==> DivBy100(n) == n / 100
    ensures 12 * n < 0x80_0000_0000 ==> n < FIRST_WRONG
    ensures n < 0x1_0000_0000 ==>
              12 * n < 0x80_0000_0000 && n * 0x47AE147B / 0x1_0000_0000 + n < 0x1_0000_0000_0000_0000
  {
    var high, q := n * 0x47AE147B / 0x1_0000_0000, n / 100;
    assert high * 0x1_0000_0000 <= n * 0x47AE147B < (high + 1) * 0x1_0000_0000;
    assert (high + n) / 2 / 64 == (high + n) / 128;
    if n < FIRST_WRONG {
      assert 128 * q <= high + n < 128 * (q + 1);
    }
  }

  /** There the quotient is one too large. */
  lemma DivBy100FailsFirst(n: nat)
    requires n == FIRST_WRONG
    ensures DivBy100(n) == n / 100 + 1
  {
  }

  // ---------- rounding ----------

  /** Half up to a multiple of 10^k. */
  function RoundedTo(n: nat, k: nat): int
  {
    if k == 0 then n else (n + 5 * Pow(10, k - 1)) / Pow(10, k) * Pow(10, k)
  }

  /** Fewest decimal digits to drop so that at most p are left. */
  function Excess(n: nat, p: nat): nat
    decreases n
  {
    if n < Pow(10, p) then 0 else (assert Pow(10, p) > 0; 1 + Excess(n / 10, p))
  }

  /** Nearest: no multiple is closer, and a tie goes up. */
  lemma RoundedIsNearest(n: nat, k: nat)
    requires k > 0
    ensures RoundedTo(n, k) % Pow(10, k) == 0
    ensures -5 * Pow(10, k - 1) < RoundedTo(n, k) - n <= 5 * Pow(10, k - 1)
  {
    var p := Pow(10, k - 1);
    var m := n + 5 * p;
    assert Pow(10, k) == 10 * p;
    var q := m / (10 * p);
    assert m == (10 * p) * q + m % (10 * p);
    assert RoundedTo(n, k) == q * (10 * p) == (10 * p) * q;
    DivModUnique(q * (10 * p), 10 * p, q, 0);
  }

  /** Dropping the digits one at a time and looking at the last one dropped rounds as dropping them at once. */
  lemma {:induction false} LastDropped(n: nat, k: nat)
    requires k > 0
    ensures var q, d := n / Pow(10, k), n / Pow(10, k - 1) % 10;
            RoundedTo(n, k) == (if d > 4 then q + 1 else q) * Pow(10, k)
  {
    var p := Pow(10, k - 1);
    assert Pow(10, k) == 10 * p;
    DivTwice(n, p, 10);
    assert n / (10 * p) == n / p / 10;
    var h, r := n / p, n % p;
    var q, d := h / 10, h % 10;
    assert n == p * h + r && h == 10 * q + d;
    RoundQuotient(n, p, q, d, r);
  }

  lemma RoundQuotient(n: nat, p: nat, q: nat, d: nat, r: nat)
    requires p > 0 && r < p && d < 10 && n == p * (10 * q + d) + r
    ensures (n + 5 * p) / (10 * p) == if d > 4 then q + 1 else q
  {
    TensApart(p, q, d);
    MulLe(0, d, p);
    MulLe(d, 9, p);
    if d > 4 {
      MulLe(5, d, p);
      NextMultiple(10 * p, q);
      DivModUnique(n + 5 * p, 10 * p, q + 1, d * p + r - 5 * p);
    } else {
      MulLe(d, 4, p);
      DivModUnique(n + 5 * p, 10 * p, q, d * p + r + 5 * p);
    }
  }

  lemma TensApart(p: nat, q: nat, d: nat)
    ensures p * (10 * q + d) == (10 * p) * q + d * p
  {
    MulAssoc(p, 10, q);
  }

  lemma NextMultiple(w: nat, q: nat)
    ensures w * (q + 1) == w * q + w
  {
  }

  /** One more digit dropped. */
  lemma ExcessStep(n: nat, p: nat, k: nat)
    ensures n / Pow(10, k + 1) == n / Pow(10, k) / 10
    ensures n / Pow(10, k) >= Pow(10, p) ==> Excess(n / Pow(10, k), p) == 1 + Excess(n / Pow(10, k + 1), p)
  {
    DivTwice(n, Pow(10, k), 10);
    assert Pow(10, k + 1) == 10 * Pow(10, k);
    assert Pow(10, k) * 10 == 10 * Pow(10, k);
  }

  /** The value q * 10^k, exactly, as the value q' * 100^e. */
  datatype Scaled = Scaled(quotient: nat, exponent: nat)

  ghost predicate Represents(x: Scaled, value: int)
  {
    x.quotient * Pow(100, x.exponent) == value
  }

  /** An even power of ten moves into the exponent; an odd one leaves a factor of ten. */
  method ToExponent(q: nat, k: nat) returns (x: Scaled)
    ensures Represents(x, q * Pow(10, k)) && x.exponent == k / 2
    ensures x.quotient == if k % 2 == 0 then q else q * 10
  {
    var exponent := k / 2;
    var quotient := q;
    HundredIsTenSquared(exponent);
    if k != exponent * 2 {
      quotient := quotient * 10;
      MulAssoc(q, 10, Pow(10, 2 * exponent));
    }
    x := Scaled(quotient, exponent);
  }

  lemma TenToTheTenth(k: nat)
    requires k == 10
    ensures Pow(10, k) == 10000000000
  {
    assert Pow(10, k - 9) == 10 && Pow(10, k - 8) == 100;
    assert Pow(10, k - 7) == 1000 && Pow(10, k - 6) == 10000;
    assert Pow(10, k - 5) == 100000 && Pow(10, k - 4) == 1000000;
    assert Pow(10, k - 3) == 10000000 && Pow(10, k - 2) == 100000000;
  }

  lemma ShortPower(j: nat)
    ensures j <= 1 ==> Pow(10, j) <= 10
    ensures j > 0 ==> Pow(10, j) == 10 * Pow(10, j - 1)
  {
  }

  lemma AtLeastTen(p: nat)
    requires p > 0
    ensures Pow(10, p) >= 10
  {
    PowMonotone(10, 1, p);
  }

  lemma FewerThanTen(quot: nat, k: nat)
    requires k <= 10 && 10 <= quot < Pow(10, 10 - k)
    ensures k <= 8 && quot / 10 < Pow(10, 10 - (k + 1))
  {
    ShortPower(10 - k);
  }

  /** Digits are dropped one by one; the last one dropped is remembered. */
  method DropDigits(n: nat, p: nat) returns (quot: nat, rem: nat, k: nat)
    requires n <= 0x8000_0000 && p > 0
    ensures k == Excess(n, p) <= 9 && quot == n / Pow(10, k) < Pow(10, p)
    ensures rem == (if k == 0 then 0 else n / Pow(10, k - 1) % 10)
    ensures quot <= (if k == 0 then 0x8000_0000 else 0x0CCC_CCCC)
  {
    quot, rem, k := n, 0, 0;
    ghost var excess := Excess(n, p);
    var limit := 10;
    TenToTheTenth(limit);
    AtLeastTen(p);
    while quot >= Pow(10, p)
      invariant quot == n / Pow(10, k) && k + Excess(quot, p) == excess
      invariant rem == if k == 0 then 0 else n / Pow(10, k - 1) % 10
      invariant k <= 9 && quot < Pow(10, 10 - k)
      invariant quot <= if k == 0 then 0x8000_0000 else 0x0CCC_CCCC
      decreases quot
    {
      FewerThanTen(quot, k);
      ExcessStep(n, p, k);
      var num := quot;
      quot := num / 10;
      rem := num - quot * 10;
      k := k + 1;
    }
  }

  /** No scale given: as many digits as the precision allows, rounded half up. */
  method RoundToPrecision(n: nat, p: nat) returns (x: Scaled)
    requires n <= 0x8000_0000 && p > 0
    ensures Represents(x, RoundedTo(n, Excess(n, p))) && x.quotient <= 0x1_0000_0000 && x.exponent <= 5
  {
    var quot, rem, k := DropDigits(n, p);
    if k > 0 { LastDropped(n, k); }
    if rem > 4 { quot := quot + 1; }
    if quot >= Pow(10, p) {
      CarryOut(quot, p, k);
      quot := quot / 10;
      k := k + 1;
    }
    x := ToExponent(quot, k);
  }

  /** Rounding up to the next power of ten: one more digit is dropped, and it is zero. */
  lemma CarryOut(quot: nat, p: nat, k: nat)
    requires quot == Pow(10, p) && p > 0
    ensures quot / 10 * Pow(10, k + 1) == quot * Pow(10, k)
  {
    assert quot == 10 * Pow(10, p - 1);
    MulAssoc(quot / 10, 10, Pow(10, k));
  }

  /** Whether a value lies below 10^e, also for a negative e. */
  predicate Below(n: nat, e: int)
  {
    if e >= 0 then n < Pow(10, e) else n == 0
  }

  lemma RoundInSteps(n: nat, k: nat)
    requires k > 0
    ensures (n / Pow(10, k - 1) + 5) / 10 * Pow(10, k) == RoundedTo(n, k)
  {
    var p := Pow(10, k - 1);
    DivTwice(n + 5 * p, p, 10);
    assert p * 10 == Pow(10, k);
    assert n + 5 * p == p * (n / p + 5) + n % p;
    DivModUnique(n + 5 * p, p, n / p + 5, n % p);
  }

  lemma SmallScale(n: nat, k: nat)
    requires n <= 0x8000_0000 && k > 0 && n / Pow(10, k - 1) >= 5
    ensures k <= 10
  {
    if k > 10 {
      var ten := 10;
      TenToTheTenth(ten);
      PowMonotone(10, ten, k - 1);
      DivModUnique(n, Pow(10, k - 1), 0, n);
    }
  }

  /** A scale given: out of range from 10^(p-s) on; a negative scale rounds half up to a multiple of 10^-s. */
  method RoundToScale(n: nat, p: int, s: int) returns (ok: bool, x: Scaled)
    requires n <= 0x8000_0000
    ensures ok == Below(n, p - s)
    ensures ok ==> Represents(x, RoundedTo(n, if s < 0 then -s else 0))
    ensures ok ==> x.quotient <= 0x1_0000_0000 && (x.quotient > 0 ==> x.exponent <= 5)
  {
    if !Below(n, p - s) { return false, Scaled(0, 0); }
    if s < 0 {
      x := RoundToMultiple(n, -s);
    } else {
      x := Scaled(n, 0);
      assert Pow(100, 0) == 1;
    }
    ok := true;
  }

  method RoundToMultiple(n: nat, k: nat) returns (x: Scaled)
    requires n <= 0x8000_0000 && k > 0
    ensures Represents(x, RoundedTo(n, k))
    ensures x.quotient <= 0x1_0000_0000 && (x.quotient > 0 ==> x.exponent <= 5)
  {
    var quot := n / Pow(10, k - 1);
    MultipleFacts(n, k, quot);
    RoundInSteps(n, k);
    quot := quot + 5;
    quot := quot / 10;
    x := ToExponent(quot, k);
  }

  lemma MultipleFacts(n: nat, k: nat, quot: int)
    requires n <= 0x8000_0000 && k > 0 && quot == n / Pow(10, k - 1)
    ensures 0 <= quot <= n && (quot >= 5 ==> k <= 10)
  {
    QuotientShrinks(n, k - 1);
    if quot >= 5 { SmallScale(n, k); }
  }

  lemma QuotientShrinks(n: nat, k: nat)
    ensures n / Pow(10, k) <= n
  {
    var p := Pow(10, k);
    assert n == p * (n / p) + n % p;
    MulLe(1, p, n / p);
  }

  // ---------- digits ----------

  /** The stored form of base-100 digits. */
  function Stored(positive: bool, ds: seq<nat>): (r: seq<byte>)
    requires InBase(ds, 100)
    ensures |r| == |ds| && DigitsOk(positive, r)
  {
    seq(|ds|, i requires 0 <= i < |ds| => DigitByte(positive, ds[i]))
  }

  lemma {:induction false} StoredValue(positive: bool, ds: seq<nat>)
    requires InBase(ds, 100)
    ensures Padded(positive, Stored(positive, ds), |ds|) == if positive then ValueOf(ds, 100) else 0 - ValueOf(ds, 100)
  {
    if ds != [] {
      var front, last, n := ds[..|ds| - 1], ds[|ds| - 1], |ds|;
      var one := [DigitByte(positive, last)];
      assert Stored(positive, ds) == Stored(positive, front) + one;
      PaddedConcat(positive, Stored(positive, front), one, n);
      PaddedShift(positive, Stored(positive, front), n - 1, 1);
      StoredValue(positive, front);
      assert Pow(100, 1) == 100 && Pow(100, 0) == 1 && one[1..] == [];
    }
  }

  /** Digits without zeros at either end, put behind a header, make the canonical number. */
  lemma {:induction false} MakesCanonical(positive: bool, ds: seq<nat>, exponent: int, low: nat)
    requires ds != [] && InBase(ds, 100) && ds[0] != 0 && ds[|ds| - 1] != 0
    requires exponent == low + |ds| - 1 <= MAX_EXPONENT
    ensures var n := [HeaderByte(positive, exponent)] + Stored(positive, ds);
            && Canonical(n) && !IsZero(n) && IsPositive(n) == positive && Covers(0, n)
            && ValueIn(0, n) == (if positive then ValueOf(ds, 100) else 0 - ValueOf(ds, 100)) * Pow(100, low)
  {
    var n := [HeaderByte(positive, exponent)] + Stored(positive, ds);
    HeaderRoundTrip(positive, exponent, Stored(positive, ds));
    assert n[1..] == Stored(positive, ds);
    PaddedShift(positive, Stored(positive, ds), |ds|, low);
    StoredValue(positive, ds);
  }

  const BUFFER := 20

  /** The digits at the end of the buffer, from position b on. */
  function Tail(tmp: array<nat>, b: nat): seq<nat>
    reads tmp
    requires b <= tmp.Length
  {
    tmp[b..]
  }

  /** The number that a remaining quotient and the digits already written make together. */
  function Together(quot: nat, digits: seq<nat>): nat
    decreases |digits|
  {
    if digits == [] then quot else Together(100 * quot + digits[0], digits[1..])
  }

  lemma {:induction false} TogetherIsValue(quot: nat, digits: seq<nat>)
    ensures Together(quot, digits) == quot * Pow(100, |digits|) + ValueOf(digits, 100)
    decreases |digits|
  {
    if digits != [] {
      var d, rest, p := digits[0], digits[1..], Pow(100, |digits| - 1);
      TogetherIsValue(100 * quot + d, rest);
      assert digits == [d] + rest;
      PrependDigit(d, rest, 100);
      HundredMore(quot, d, p);
    }
  }

  lemma HundredMore(quot: nat, d: nat, p: nat)
    ensures (100 * quot + d) * p == quot * (100 * p) + d * p
  {
    MulAssoc(quot, 100, p);
  }

  /** Repeated division by 100 fills the buffer from its end; the first digit written last is not zero. */
  method FillDigits(quotient: nat, tmp: array<nat>) returns (begin: nat)
    requires 0 < quotient <= 0x1_0000_0000 && tmp.Length == BUFFER
    modifies tmp
    ensures 14 < begin < BUFFER && InBase(Tail(tmp, begin), 100) && tmp[begin] > 0
    ensures ValueOf(Tail(tmp, begin), 100) == quotient
  {
    var quot: nat := quotient;
    begin := BUFFER;
    while quot > 0
      invariant 14 < begin <= BUFFER && InBase(Tail(tmp, begin), 100)
      invariant Together(quot, Tail(tmp, begin)) == quotient && quot <= Room(BUFFER - begin)
      invariant quot == 0 ==> begin < BUFFER && tmp[begin] > 0
    {
      var num := quot;
      DivBy100IsExact(num);
      ghost var before := Tail(tmp, begin);
      quot := DivBy100(num);
      begin := begin - 1;
      tmp[begin] := num - quot * 100;
      assert Tail(tmp, begin) == [num % 100] + before && ([num % 100] + before)[1..] == before;
    }
    TogetherIsValue(0, Tail(tmp, begin));
  }

  /** Bound of the quotient after so many digits. */
  function Room(count: nat): nat
  {
    if count == 0 then 0x1_0000_0000 else if count == 1 then 42949672 else if count == 2 then 429496
    else if count == 3 then 4294 else if count == 4 then 42 else 0
  }

  /** Trailing zero digits move into the exponent. */
  method StripZeros(tmp: array<nat>, begin: nat) returns (end: nat)
    requires begin < tmp.Length && tmp[begin] > 0 && InBase(Tail(tmp, begin), 100)
    ensures begin < end <= tmp.Length && tmp[end - 1] != 0
    ensures ValueOf(tmp[begin..end], 100) * Pow(100, tmp.Length - end) == ValueOf(Tail(tmp, begin), 100)
  {
    end := tmp.Length;
    ghost var total := ValueOf(Tail(tmp, begin), 100);
    assert tmp[begin..end] == Tail(tmp, begin) && Pow(100, 0) == 1;
    while begin + 1 < end && tmp[end - 1] == 0
      invariant begin < end <= tmp.Length
      invariant ValueOf(tmp[begin..end], 100) * Pow(100, tmp.Length - end) == total
    {
      var shown: seq<nat> := tmp[begin..end];
      assert shown[..|shown| - 1] == tmp[begin..end - 1];
      MulAssoc(ValueOf(tmp[begin..end - 1], 100), 100, Pow(100, tmp.Length - end));
      end := end - 1;
    }
  }

  /** Header and stored digits. */
  method Assemble(ds: seq<nat>, exponent: int, negative: bool) returns (n: seq<byte>)
    requires InBase(ds, 100)
    ensures n == [HeaderByte(!negative, exponent)] + Stored(!negative, ds)
  {
    n := [HeaderByte(!negative, exponent)];
    for i := 0 to |ds|
      invariant n == [HeaderByte(!negative, exponent)] + Stored(!negative, ds)[..i]
    {
      n := n + [DigitByte(!negative, ds[i])];
    }
    assert Stored(!negative, ds)[..|ds|] == Stored(!negative, ds);
  }

  /** Digits, header and length of a non-zero value. */
  method Encode(x: Scaled, negative: bool) returns (n: seq<byte>)
    requires 0 < x.quotient <= 0x1_0000_0000 && x.exponent <= 5
    ensures Canonical(n) && !IsZero(n) && IsPositive(n) == !negative && |n| <= 6 && Covers(0, n)
    ensures ValueIn(0, n) ==
            if negative then 0 - x.quotient * Pow(100, x.exponent) else x.quotient * Pow(100, x.exponent)
  {
    var tmp := new nat[BUFFER](_ => 0);
    var begin := FillDigits(x.quotient, tmp);
    var end := StripZeros(tmp, begin);
    var exponent := x.exponent + (BUFFER - end);
    var count := end - begin;
    var ds: seq<nat> := tmp[begin..end];
    assert forall i :: 0 <= i < |ds| ==> ds[i] == Tail(tmp, begin)[i];
    n := Assemble(ds, exponent + (count - 1), negative);
    EncodedValue(x, negative, ds, BUFFER - end, n);
  }

  lemma {:induction false} EncodedValue(x: Scaled, negative: bool, ds: seq<nat>, stripped: nat, n: seq<byte>)
    requires InBase(ds, 100) && 0 < |ds| <= 5 && ds[0] != 0 && ds[|ds| - 1] != 0
    requires x.exponent <= 5 && stripped < BUFFER && ValueOf(ds, 100) * Pow(100, stripped) == x.quotient
    requires n == [HeaderByte(!negative, x.exponent + stripped + (|ds| - 1))] + Stored(!negative, ds)
    ensures Canonical(n) && !IsZero(n) && IsPositive(n) == !negative && |n| <= 6 && Covers(0, n)
    ensures ValueIn(0, n) ==
            if negative then 0 - x.quotient * Pow(100, x.exponent) else x.quotient * Pow(100, x.exponent)
  {
    var low := x.exponent + stripped;
    MakesCanonical(!negative, ds, low + |ds| - 1, low);
    ScaledValue(x, ValueOf(ds, 100), stripped);
    SignedProduct(negative, ValueOf(ds, 100), Pow(100, low), x.quotient * Pow(100, x.exponent));
  }

  lemma SignedProduct(negative: bool, v: int, p: nat, w: int)
    requires v * p == w
    ensures (if !negative then v else 0 - v) * p == if negative then 0 - w else w
  {
    assert (-v) * p == -(v * p);
  }

  lemma ScaledValue(x: Scaled, v: nat, stripped: nat)
    requires v * Pow(100, stripped) == x.quotient
    ensures v * Pow(100, x.exponent + stripped) == x.quotient * Pow(100, x.exponent)
  {
    PowAdd(100, stripped, x.exponent);
    MulAssoc(v, Pow(100, stripped), Pow(100, x.exponent));
  }

  // ---------- the cast ----------

  datatype CastResult = Number(n: seq<byte>) | OutOfRange

  /** A canonical number for an integer given by sign and magnitude. */
  ghost predicate NumberFor(n: seq<byte>, negative: bool, magnitude: int)
  {
    Canonical(n) && Covers(0, n) && ValueIn(0, n) == (if negative then -magnitude else magnitude) && |n| <= 6
  }

  method Store(x: Scaled, negative: bool, ghost magnitude: int) returns (n: seq<byte>)
    requires Represents(x, magnitude) && x.quotient <= 0x1_0000_0000 && (x.quotient > 0 ==> x.exponent <= 5)
    ensures NumberFor(n, negative, magnitude)
  {
    if x.quotient == 0 { return [0x80]; }
    n := Encode(x, negative);
  }

  /** The multiple of the unit nearest to i, the one further from zero of two that are equally near. */
  predicate Nearest(v: int, i: int, unit: nat)
  {
    unit > 0 && v % unit == 0 && (if i < 0 then v <= 0 else v >= 0) &&
    2 * Abs(v) <= 2 * Abs(i) + unit && 2 * Abs(i) < 2 * Abs(v) + unit
  }

  /** The integer has k decimal digits more than p. */
  predicate TooLongBy(i: int, p: nat, k: nat)
  {
    k > 0 && Pow(10, p + (k - 1)) <= Abs(i) < Pow(10, p + k)
  }

  /** There is one nearest multiple. */
  lemma NearestIsUnique(v: int, w: int, i: int, unit: nat)
    requires Nearest(v, i, unit) && Nearest(w, i, unit)
    ensures v == w
  {
    var q, r := v / unit, w / unit;
    assert v == unit * q && w == unit * r;
    if q < r { MulStepUp(unit, q, r); }
    if r < q { MulStepUp(unit, r, q); }
  }

  lemma MulStepUp(unit: nat, q: int, r: int)
    requires q < r
    ensures unit * q + unit <= unit * r
  {
    MulLe(q + 1, r, unit);
    assert (q + 1) * unit == unit * q + unit;
  }

  /** Every integer that is too long is so by one number of digits. */
  lemma {:induction false} TooLongBySome(i: int, p: nat) returns (k: nat)
    requires Abs(i) >= Pow(10, p)
    ensures TooLongBy(i, p, k)
    ensures forall other: nat :: TooLongBy(i, p, other) ==> other == k
  {
    k := 1;
    while Abs(i) >= Pow(10, p + k)
      invariant k > 0 && Pow(10, p + (k - 1)) <= Abs(i)
      decreases Abs(i) - (p + k)
    {
      TenBeats(p + k);
      k := k + 1;
    }
    forall other: nat | TooLongBy(i, p, other)
      ensures other == k
    {
      ExcessIs(Abs(i), p, k);
      ExcessIs(Abs(i), p, other);
    }
  }

  lemma {:induction false} TenBeats(e: nat)
    ensures Pow(10, e) > e
  {
    if e > 0 { TenBeats(e - 1); }
  }

  /** So k is the least number of digits to drop. */
  lemma {:induction false} ExcessIs(n: nat, p: nat, k: nat)
    requires TooLongBy(n, p, k)
    ensures Excess(n, p) == k
  {
    var m, q := n / 10, Pow(10, p + k - 1);
    PowMonotone(10, p, p + k - 1);
    assert Pow(10, p + k) == 10 * q && n == 10 * m + n % 10;
    if k > 1 {
      assert q == 10 * Pow(10, p + k - 2);
      ExcessIs(m, p, k - 1);
    } else {
      assert m < Pow(10, p);
    }
  }

  lemma {:induction false} RoundedIsExact(i: int, p: nat)
    requires Abs(i) < Pow(10, p)
    ensures RoundedTo(Abs(i), Excess(Abs(i), p)) == RoundedTo(Abs(i), 0) == Abs(i)
  {
  }

  /** The rounded magnitude with the sign of the integer is the nearest multiple. */
  lemma {:induction false} RoundedIsSigned(i: int, k: nat, magnitude: int, v: int)
    requires k > 0 && magnitude == RoundedTo(Abs(i), k) && v == if i < 0 then -magnitude else magnitude
    ensures Nearest(v, i, Pow(10, k))
  {
    var half := 5 * Pow(10, k - 1);
    RoundedIsNearest(Abs(i), k);
    assert Pow(10, k) == 2 * half;
    MultipleAbove(magnitude, Pow(10, k));
    if i < 0 { NegatedMultiple(magnitude, Pow(10, k)); }
  }

  lemma MultipleAbove(v: int, unit: nat)
    requires unit > 0 && v % unit == 0 && v + unit > 0
    ensures v >= 0
  {
    var q := v / unit;
    assert v == unit * q;
    if q < 0 { MulLe(q, -1, unit); }
  }

  lemma NegatedMultiple(v: int, unit: nat)
    requires unit > 0 && v % unit == 0
    ensures -v % unit == 0
  {
    var q := v / unit;
    assert v == unit * q;
    assert -v == unit * (-q);
    DivModUnique(-v, unit, -q, 0);
  }

  /**
   The cast. Without a scale the integer is rounded half away from zero to the precision and never
   fails; with one it fails exactly from 10^(precision - scale) on, and is otherwise exact or, for a
   negative scale, rounded half away from zero to a multiple of 10^-scale.
   */
  method CastInteger(i: int, precision: nat, scale: Option<int>) returns (r: CastResult)
    requires FitsInt32(i) && precision > 0
    ensures r.Number? ==> Canonical(r.n) && |r.n| <= 6 && Covers(0, r.n)
    ensures r.OutOfRange? <==>
            scale.Some? && if scale.value <= precision then Abs(i) >= Pow(10, precision - scale.value) else i != 0
    ensures scale.None? && Abs(i) < Pow(10, precision) ==> ValueIn(0, r.n) == i
    ensures scale.None? ==>
              forall k: nat :: TooLongBy(i, precision, k) ==> Nearest(ValueIn(0, r.n), i, Pow(10, k))
    ensures scale.Some? && scale.value >= 0 && r.Number? ==> ValueIn(0, r.n) == i
    ensures scale.Some? && scale.value < 0 && r.Number? ==> Nearest(ValueIn(0, r.n), i, Pow(10, -scale.value))
  {
    var magnitude := if i < 0 then -i else i;
    var x;
    match scale {
      case None =>
        x := RoundToPrecision(magnitude, precision);
        ghost var rounded := RoundedTo(magnitude, Excess(magnitude, precision));
        var n := Store(x, i < 0, rounded);
        if magnitude < Pow(10, precision) { RoundedIsExact(i, precision); }
        forall k: nat | TooLongBy(i, precision, k)
          ensures Nearest(ValueIn(0, n), i, Pow(10, k))
        {
          ExcessIs(magnitude, precision, k);
          RoundedIsSigned(i, k, rounded, ValueIn(0, n));
        }
        r := Number(n);
      case Some(s) =>
        var ok;
        ok, x := RoundToScale(magnitude, precision, s);
        if !ok { return OutOfRange; }
        ghost var rounded := RoundedTo(magnitude, if s < 0 then -s else 0);
        var n := Store(x, i < 0, rounded);
        if s < 0 { RoundedIsSigned(i, -s, rounded, ValueIn(0, n)); }
        r := Number(n);
    }
  }

  /**
   The range is checked before rounding, not after: a rounded result can reach 10^(precision - scale).
   It stays below exactly when half a unit more than the value does.
   */
  lemma RoundedStaysInRangeIff(n: nat, p: nat, k: nat)
    requires k > 0
    ensures RoundedTo(n, k) < Pow(10, p + k) <==> n + 5 * Pow(10, k - 1) < Pow(10, p + k)
  {
    PowAdd(10, p, k);
    FloorBelow(n + 5 * Pow(10, k - 1), Pow(10, k), Pow(10, p));
  }

  /** A multiple of the unit lies above a value exactly when it lies above its floor. */
  lemma FloorBelow(m: nat, unit: nat, c: nat)
    requires unit > 0
    ensures m / unit * unit < c * unit <==> m < c * unit
  {
    var q := m / unit;
    assert m == unit * q + m % unit;
    if q < c { MulStep(q, c, unit); } else { MulLe(c, q, unit); }
  }

  /** NUMERIC(1,-1) accepts 95 and stores 100, which has a digit too many. */
  lemma RoundedOutOfRangeExample(n: nat, p: nat, k: nat)
    requires n == 95 && p == 1 && k == 1
    ensures Below(n, p + k) && RoundedTo(n, k) == 100 == Pow(10, p + k)
  {
    assert Pow(10, k - 1) == 1 && Pow(10, k) == 10 && Pow(10, k + 1) == 100;
  }
}
