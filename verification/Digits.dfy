/** Big-endian digit strings over any base: bytes of an integer, and its 6-bit groups. */
module Digits {
  import opened Powers

  /** The last n digits of an integer, also of a negative one (an arithmetic shift and a mask per digit). */
  function DigitsOf(v: int, base: nat, n: nat): (r: seq<nat>)
    requires base > 0
    ensures |r| == n && forall i :: 0 <= i < n ==> r[i] < base
    decreases n
  {
    if n == 0 then [] else DigitsOf(v / base, base, n - 1) + [v % base]
  }

  function ValueOf(ds: seq<nat>, base: nat): nat
  {
    if ds == [] then 0 else ValueOf(ds[..|ds| - 1], base) * base + ds[|ds| - 1]
  }

  predicate InBase(ds: seq<nat>, base: nat)
  {
    forall i :: 0 <= i < |ds| ==> ds[i] < base
  }

  /** The digits of an integer have its value, up to the power that the digits can hold. */
  lemma {:induction false} ValueOfDigits(v: int, base: nat, n: nat)
    requires base > 0
    ensures ValueOf(DigitsOf(v, base, n), base) == v % Pow(base, n)
    decreases n
  {
    if n > 0 {
      var ds := DigitsOf(v, base, n);
      ValueOfDigits(v / base, base, n - 1);
      NestedMod(v, base, Pow(base, n - 1));
      assert ds[..n - 1] == DigitsOf(v / base, base, n - 1);
    }
  }

  lemma {:induction false} ValueBound(ds: seq<nat>, base: nat)
    requires base > 0 && InBase(ds, base)
    ensures ValueOf(ds, base) < Pow(base, |ds|)
  {
    if ds != [] {
      var front := ds[..|ds| - 1];
      ValueBound(front, base);
      MulStep(ValueOf(front, base), Pow(base, |front|), base);
    }
  }

  /** A digit string is the digits of every integer that has its value modulo the power. */
  lemma {:induction false} DigitsOfValue(v: int, ds: seq<nat>, base: nat)
    requires base > 0 && InBase(ds, base) && v % Pow(base, |ds|) == ValueOf(ds, base)
    ensures DigitsOf(v, base, |ds|) == ds
    decreases |ds|
  {
    if ds != [] {
      var n, front, d := |ds|, ds[..|ds| - 1], ds[|ds| - 1];
      NestedMod(v, base, Pow(base, n - 1));
      var high := (v / base) % Pow(base, n - 1);
      assert base * high + v % base == base * ValueOf(front, base) + d;
      DivModUnique(base * high + v % base, base, high, v % base);
      DivModUnique(base * high + v % base, base, ValueOf(front, base), d);
      DigitsOfValue(v / base, front, base);
      assert front + [d] == ds;
    }
  }

  /** The digit k places from the right, cut out with an arithmetic shift and a mask. */
  function DigitAt(v: int, base: nat, k: nat): (d: nat)
    requires base > 0
    ensures d < base
  {
    v / Pow(base, k) % base
  }

  lemma {:induction false} DigitIsShift(v: int, base: nat, n: nat, i: nat)
    requires base > 0 && i < n
    ensures DigitsOf(v, base, n)[i] == DigitAt(v, base, n - 1 - i)
    decreases n
  {
    if i < n - 1 {
      DigitIsShift(v / base, base, n - 1, i);
      DivTwice(v, base, Pow(base, n - 2 - i));
    }
  }

  /** Groups of k bits put together with shifts and OR. */
  function OrOf(ds: seq<nat>, k: nat): nat
  {
    if ds == [] then 0 else BitOr(OrOf(ds[..|ds| - 1], k) * Pow(2, k), ds[|ds| - 1])
  }

  /** The groups do not overlap, so OR adds them up. */
  lemma {:induction false} OrIsValue(ds: seq<nat>, k: nat)
    requires InBase(ds, Pow(2, k))
    ensures OrOf(ds, k) == ValueOf(ds, Pow(2, k))
  {
    if ds != [] {
      OrIsValue(ds[..|ds| - 1], k);
      BitOrDisjoint(OrOf(ds[..|ds| - 1], k), ds[|ds| - 1], k);
    }
  }

  // ---------- machine words ----------

  /** The signed reading of a word of the given modulus. */
  function AsSigned(u: nat, modulus: nat): int
  {
    if u < modulus / 2 then u else u - modulus
  }

  lemma SignedIsCongruent(u: nat, modulus: nat)
    requires u < modulus
    ensures AsSigned(u, modulus) % modulus == u
  {
    var s := AsSigned(u, modulus);
    if s < 0 { DivModUnique(s, modulus, -1, u); } else { DivModUnique(s, modulus, 0, u); }
  }

  lemma SignedOfCongruent(v: int, modulus: nat)
    requires modulus > 0 && modulus % 2 == 0 && -(modulus / 2) <= v < modulus / 2
    ensures AsSigned(v % modulus, modulus) == v
  {
    if v < 0 { DivModUnique(v, modulus, -1, v + modulus); } else { DivModUnique(v, modulus, 0, v); }
  }

  /** Reducing by a multiple first does not matter. */
  lemma ModOfMultiple(v: int, m: nat, c: nat)
    requires m > 0 && c > 0
    ensures m * c > 0 && (v % (m * c)) % m == v % m
  {
    MulLe(1, m, c);
    var q := v / (m * c);
    var r := v % (m * c);
    assert v == (m * c) * q + r;
    MulAssoc(m, c, q);
    assert v == m * (c * q + r / m) + r % m;
    DivModUnique(v, m, c * q + r / m, r % m);
  }

  lemma SmallMod(v: int, m: nat)
    requires 0 <= v < m
    ensures v % m == v
  {
    DivModUnique(v, m, 0, v);
  }

  /** The leading digit bounds the value from both sides. */
  lemma {:induction false} LeadingDigit(ds: seq<nat>, base: nat)
    requires base > 0 && ds != [] && InBase(ds, base)
    ensures ds[0] * Pow(base, |ds| - 1) <= ValueOf(ds, base) < (ds[0] + 1) * Pow(base, |ds| - 1)
  {
    if |ds| == 1 {
      assert ds[..0] == [];
    } else {
      var front, p := ds[..|ds| - 1], Pow(base, |ds| - 2);
      LeadingDigit(front, base);
      MulLe(ds[0] * p, ValueOf(front, base), base);
      MulStep(ValueOf(front, base), (ds[0] + 1) * p, base);
      MulAssoc(ds[0], p, base);
      MulAssoc(ds[0] + 1, p, base);
      assert p * base == Pow(base, |ds| - 1);
    }
  }

  /** A digit string holds the digits of v exactly when v has its value modulo the power. */
  lemma DigitsIff(v: int, ds: seq<nat>, base: nat)
    requires base > 0 && InBase(ds, base)
    ensures DigitsOf(v, base, |ds|) == ds <==> v % Pow(base, |ds|) == ValueOf(ds, base)
  {
    ValueOfDigits(v, base, |ds|);
    if v % Pow(base, |ds|) == ValueOf(ds, base) { DigitsOfValue(v, ds, base); }
  }

  /** Keeping the low part of a value loses nothing exactly when the value is small enough. */
  lemma UnsignedKeeps(d: nat, m: nat, full: nat)
    requires 0 < m <= full && d < full
    ensures (d % m) % full == d <==> d < m
  {
    SmallMod(d % m, full);
    if d < m { SmallMod(d, m); }
  }

  /** The same for a signed reading, in a field with room for four times the modulus. */
  lemma SignedKeeps(d: nat, m: nat, full: nat)
    requires m > 0 && m % 2 == 0 && full == 4 * m && d < full
    ensures AsSigned(d % m, m) % full == d <==> d < m / 2 || d >= full - m / 2
  {
    var u := d % m;
    FourParts(d, m);
    var s := AsSigned(u, m);
    if s < 0 { DivModUnique(s, full, -1, s + full); } else { SmallMod(s, full); }
  }

  lemma FourParts(d: nat, m: nat)
    requires 0 < m && d < 4 * m
    ensures var u := d % m; d == u || d == m + u || d == 2 * m + u || d == 3 * m + u
  {
    if d < m { SmallMod(d, m); }
    else if d < 2 * m { DivModUnique(d, m, 1, d - m); }
    else if d < 3 * m { DivModUnique(d, m, 2, d - 2 * m); }
    else { DivModUnique(d, m, 3, d - 3 * m); }
  }

  /** A digit in front counts for the power of its place. */
  lemma {:induction false} PrependDigit(d: nat, ds: seq<nat>, base: nat)
    requires base > 0
    ensures ValueOf([d] + ds, base) == d * Pow(base, |ds|) + ValueOf(ds, base)
  {
    var all := [d] + ds;
    if ds == [] {
      assert all[..0] == [];
    } else {
      var front, p := ds[..|ds| - 1], Pow(base, |ds| - 1);
      assert all[..|all| - 1] == [d] + front;
      PrependDigit(d, front, base);
      MulAssoc(d, p, base);
      assert p * base == Pow(base, |ds|);
      assert (d * p + ValueOf(front, base)) * base == (d * p) * base + ValueOf(front, base) * base;
    }
  }
}
