/** Integer powers and the bitwise operators on naturals. */
module Powers {

  function Pow(base: nat, n: nat): (p: nat)
    requires base > 0
    ensures p > 0
  {
    if n == 0 then 1 else base * Pow(base, n - 1)
  }

  lemma {:induction false} PowAdd(base: nat, m: nat, n: nat)
    requires base > 0
    ensures Pow(base, m + n) == Pow(base, m) * Pow(base, n)
  {
    if m > 0 {
      PowAdd(base, m - 1, n);
      assert Pow(base, m + n) == base * Pow(base, m - 1 + n);
      MulAssoc(base, Pow(base, m - 1), Pow(base, n));
    }
  }

  lemma {:induction false} PowMonotone(base: nat, m: nat, n: nat)
    requires base > 0 && m <= n
    ensures Pow(base, m) <= Pow(base, n)
  {
    if m < n {
      PowMonotone(base, m, n - 1);
      MulLe(1, base, Pow(base, n - 1));
    }
  }

  lemma MulAssoc(x: int, y: int, z: int)
    ensures x * (y * z) == (x * y) * z
  {
  }

  lemma MulLe(x: int, y: int, z: int)
    requires x <= y && z >= 0
    ensures x * z <= y * z
  {
  }

  /** One more on the left fits under a strictly larger right. */
  lemma MulStep(x: int, y: int, z: int)
    requires x < y && z >= 0
    ensures x * z + z <= y * z
  {
    MulLe(x + 1, y, z);
  }

  lemma {:induction false} HundredIsTenSquared(k: nat)
    ensures Pow(100, k) == Pow(10, 2 * k)
  {
    if k > 0 {
      HundredIsTenSquared(k - 1);
      assert Pow(10, 2 * k) == 10 * (10 * Pow(10, 2 * k - 2));
    }
  }

  /** Bitwise OR of two naturals. */
  function BitOr(a: nat, b: nat): nat
  {
    if a == 0 then b
    else if b == 0 then a
    else 2 * BitOr(a / 2, b / 2) + (if a % 2 == 1 || b % 2 == 1 then 1 else 0)
  }

  /** OR of a value shifted left by k bits with a value below 2^k is their sum. */
  lemma {:induction false} BitOrDisjoint(a: nat, b: nat, k: nat)
    requires b < Pow(2, k)
    ensures BitOr(a * Pow(2, k), b) == a * Pow(2, k) + b
  {
    if k == 0 {
    } else if a * Pow(2, k) == 0 || b == 0 {
    } else {
      var p := Pow(2, k - 1);
      assert a * Pow(2, k) == 2 * (a * p) by { MulAssoc(a, 2, p); MulAssoc(2, a, p); }
      BitOrDisjoint(a, b / 2, k - 1);
      assert (2 * (a * p)) / 2 == a * p && (2 * (a * p)) % 2 == 0;
    }
  }

  /** Bitwise AND of two naturals. */
  function BitAnd(a: nat, b: nat): nat
  {
    if a == 0 || b == 0 then 0
    else 2 * BitAnd(a / 2, b / 2) + (if a % 2 == 1 && b % 2 == 1 then 1 else 0)
  }

  /** Masking with 2^k - 1 keeps the remainder modulo 2^k. */
  lemma {:induction false} BitAndMask(a: nat, k: nat)
    ensures BitAnd(a, Pow(2, k) - 1) == a % Pow(2, k)
  {
    if k == 0 {
    } else {
      var p := Pow(2, k - 1);
      BitAndMask(a / 2, k - 1);
      assert Pow(2, k) == 2 * p;
      assert (2 * p - 1) / 2 == p - 1 && (2 * p - 1) % 2 == 1;
      NestedMod(a, 2, p);
      if a == 0 {
      }
    }
  }

  lemma NestedMod(v: int, base: nat, p: nat)
    requires base > 0 && p > 0
    ensures base * p > 0 && v % (base * p) == ((v / base) % p) * base + v % base
  {
    var q, r, d := v / base / p, (v / base) % p, v % base;
    MulLe(1, base, p);
    assert v == base * (v / base) + d;
    assert v / base == p * q + r;
    MulAssoc(base, p, q);
    assert v == (base * p) * q + (base * r + d);
    MulStep(r, p, base);
    DivModUnique(v, base * p, q, base * r + d);
  }

  /** Quotient and remainder are the only pair with the defining property. */
  lemma DivModUnique(a: int, d: int, q: int, r: int)
    requires d > 0 && a == d * q + r && 0 <= r < d
    ensures a / d == q && a % d == r
  {
    var q2, r2 := a / d, a % d;
    assert a == d * q2 + r2;
    assert d * (q - q2) == r2 - r;
    if q > q2 { MulLe(1, q - q2, d); }
    if q < q2 { MulLe(1, q2 - q, d); }
  }

  lemma DivTwice(v: int, base: nat, p: nat)
    requires base > 0 && p > 0
    ensures base * p > 0 && v / (base * p) == v / base / p
  {
    var q, r, d := v / base / p, (v / base) % p, v % base;
    MulLe(1, base, p);
    assert v == base * (v / base) + d;
    assert v / base == p * q + r;
    MulAssoc(base, p, q);
    assert v == (base * p) * q + (base * r + d);
    MulStep(r, p, base);
    DivModUnique(v, base * p, q, base * r + d);
  }

  lemma SevenBits(k: nat)
    requires k == 7
    ensures Pow(2, k) == 128
  {
    assert Pow(2, k - 6) == 2 && Pow(2, k - 5) == 4;
    assert Pow(2, k - 4) == 8 && Pow(2, k - 3) == 16;
    assert Pow(2, k - 2) == 32 && Pow(2, k - 1) == 64;
  }

  /** AND with a single bit 2^k picks that bit. */
  lemma {:induction false} SingleBit(a: nat, k: nat)
    ensures BitAnd(a, Pow(2, k)) == if a / Pow(2, k) % 2 == 1 then Pow(2, k) else 0
  {
    if a == 0 {
      assert 0 / Pow(2, k) == 0;
    } else if k == 0 {
      assert BitAnd(a / 2, 0) == 0;
      assert BitAnd(a, 1) == 2 * BitAnd(a / 2, 1 / 2) + a % 2;
    } else {
      var p := Pow(2, k - 1);
      SingleBit(a / 2, k - 1);
      assert Pow(2, k) == 2 * p && (2 * p) / 2 == p && (2 * p) % 2 == 0;
      DivTwice(a, 2, p);
    }
  }
}
