/** The C operators the model needs on bounded integers. */
module CArithmetic {

  type byte = x: int | 0 <= x < 256

  const INT32_MAX := 0x7FFF_FFFF
  const INT64_MAX := 0x7FFF_FFFF_FFFF_FFFF

  /** Division of C, which truncates toward zero. */
  function CDiv(a: int, b: int): int
    requires b > 0
  {
    if a >= 0 then a / b else -(-a / b)
  }

  function Abs(x: int): nat { if x < 0 then -x else x }

  function Min(x: int, y: int): int { if x < y then x else y }

  function Max(x: int, y: int): int { if x > y then x else y }

  predicate FitsInt32(x: int)
  {
    -INT32_MAX - 1 <= x <= INT32_MAX
  }

  predicate FitsInt64(x: int)
  {
    -INT64_MAX - 1 <= x <= INT64_MAX
  }

  /** Reduction to a signed 32-bit integer. */
  function Wrap32(x: int): (r: int)
    ensures FitsInt32(r) && (FitsInt32(x) ==> r == x)
  {
    (x + 0x8000_0000) % 0x1_0000_0000 - 0x8000_0000
  }

  /** Reduction to a signed 64-bit integer. */
  function Wrap64(x: int): (r: int)
    ensures FitsInt64(r) && (FitsInt64(x) ==> r == x)
  {
    (x + 0x8000_0000_0000_0000) % 0x1_0000_0000_0000_0000 - 0x8000_0000_0000_0000
  }

  /** Whole turns make no difference. */
  lemma Turns32(x: int, k: int, y: int)
    requires y == x - 0x1_0000_0000 * k
    ensures Wrap32(y) == Wrap32(x)
  {
    var m, z := 0x1_0000_0000, x + 0x8000_0000;
    assert z == m * (z / m) + z % m;
    assert y + 0x8000_0000 == m * (z / m - k) + z % m;
  }

  lemma Turns64(x: int, k: int, y: int)
    requires y == x - 0x1_0000_0000_0000_0000 * k
    ensures Wrap64(y) == Wrap64(x)
  {
    var m, z := 0x1_0000_0000_0000_0000, x + 0x8000_0000_0000_0000;
    assert z == m * (z / m) + z % m;
    assert y + 0x8000_0000_0000_0000 == m * (z / m - k) + z % m;
  }

  /** The turns taken off by a reduction. */
  lemma TurnsOf32(x: int) returns (k: int)
    ensures Wrap32(x) == x - 0x1_0000_0000 * k
  {
    k := (x + 0x8000_0000) / 0x1_0000_0000;
  }

  lemma TurnsOf64(x: int) returns (k: int)
    ensures Wrap64(x) == x - 0x1_0000_0000_0000_0000 * k
  {
    k := (x + 0x8000_0000_0000_0000) / 0x1_0000_0000_0000_0000;
  }

  /** Reducing before an addition changes nothing after the next reduction. */
  lemma WrapAdd32(x: int, y: int)
    ensures Wrap32(Wrap32(x) + y) == Wrap32(x + y)
  {
    var k := TurnsOf32(x);
    Turns32(x + y, k, Wrap32(x) + y);
  }

  lemma WrapAdd64(x: int, y: int)
    ensures Wrap64(Wrap64(x) + y) == Wrap64(x + y)
  {
    var k := TurnsOf64(x);
    Turns64(x + y, k, Wrap64(x) + y);
  }
}
