/** Decoding of an ODBC numeric structure in the sample program: sixteen little-endian bytes and a scale. */
module OdbcNumeric {
  import opened CArithmetic
  import opened Powers

  const VALUE_LENGTH := 16

  function LittleEndian(val: seq<byte>): nat
  {
    if val == [] then 0 else val[0] + 256 * LittleEndian(val[1..])
  }

  /** The first four bytes as a signed 32-bit integer. */
  function LowWord(val: seq<byte>): int
    requires |val| == VALUE_LENGTH
  {
    Wrap32(LittleEndian(val[..4]))
  }

  lemma {:induction false} LittleEndianAppend(val: seq<byte>, b: byte)
    ensures LittleEndian(val + [b]) == LittleEndian(val) + Pow(256, |val|) * b
  {
    if val == [] {
      assert [b][1..] == [] && val + [b] == [b];
    } else {
      assert (val + [b])[1..] == val[1..] + [b];
      LittleEndianAppend(val[1..], b);
      MulAssoc(256, Pow(256, |val| - 1), b);
    }
  }

  /** The place value after so many bytes, in 32-bit arithmetic: zero from the fourth byte on. */
  function Place(i: nat): int
  {
    if i == 0 then 1 else if i == 1 then 0x100 else if i == 2 then 0x1_0000 else if i == 3 then 0x100_0000 else 0
  }

  lemma PlaceIsPower(i: nat)
    ensures i < 4 ==> Place(i) == Pow(256, i)
  {
    assert i > 1 ==> Pow(256, i) == 256 * (256 * Pow(256, i - 2));
    assert i == 3 ==> Pow(256, i - 2) == 256;
  }

  /** What the wrapping loop has accumulated from the bytes read. */
  function Gathered(read: seq<byte>): int
  {
    if |read| < 4 then LittleEndian(read) else Wrap32(LittleEndian(read[..4]))
  }

  /** One byte: two nibbles in 32-bit places. */
  lemma PlaceStep(read: seq<byte>, x: byte)
    ensures var p, a, b := Place(|read|), x % 16, x / 16;
            && Gathered(read + [x]) == Gathered(read) + Wrap32(p * a) + Wrap32(Wrap32(p * 16) * b)
            && Wrap32(Wrap32(p * 16) * 16) == Place(|read| + 1)
  {
    var i := |read|;
    if i < 4 {
      LittleEndianAppend(read, x);
      PlaceIsPower(i);
      PlaceIsPower(3);
      LowBytesBound(read);
      assert (read + [x])[..i + 1] == read + [x];
      assert LittleEndian(read + [x]) == LittleEndian(read) + Place(i) * x;
      assert x == 16 * (x / 16) + x % 16;
      SmallPlaces(i, x, LittleEndian(read));
    } else {
      assert (read + [x])[..4] == read[..4];
      assert 0 * (x % 16) == 0 && 0 * (x / 16) == 0;
    }
  }

  lemma SmallPlaces(i: nat, x: byte, low: nat)
    requires i < 4 && low < Place(i)
    ensures var p, a, b := Place(i), x % 16, x / 16;
            && (if i == 3 then Wrap32(low + p * x) else low + p * x) == low + Wrap32(p * a) + Wrap32(Wrap32(p * 16) * b)
            && Wrap32(Wrap32(p * 16) * 16) == Place(i + 1)
  {
    if i < 3 { LowPlace(Place(i), x); } else { TopPlace(x, low); }
  }

  /** The first three bytes stay far below the sign bit. */
  lemma LowPlace(p: int, x: byte)
    requires p == 1 || p == 0x100 || p == 0x1_0000
    ensures Wrap32(p * (x % 16)) + Wrap32(Wrap32(p * 16) * (x / 16)) == p * x
    ensures Wrap32(Wrap32(p * 16) * 16) == p * 256
  {
    if p == 1 {} else if p == 0x100 {} else {}
  }

  /** The fourth byte reaches the sign bit. */
  lemma TopPlace(x: byte, low: nat)
    requires low < 0x100_0000
    ensures Wrap32(low + 0x100_0000 * x) ==
            low + Wrap32(0x100_0000 * (x % 16)) + Wrap32(Wrap32(0x100_0000 * 16) * (x / 16))
    ensures Wrap32(Wrap32(0x100_0000 * 16) * 16) == 0
  {
    var a, b := x % 16, x / 16;
    assert x == 16 * b + a;
    assert Wrap32(0x1000_0000 * b) == if b < 8 then 0x1000_0000 * b else 0x1000_0000 * b - 0x1_0000_0000;
  }

  lemma {:induction false} LowBytesBound(val: seq<byte>)
    ensures LittleEndian(val) < Pow(256, |val|)
  {
    if val != [] { LowBytesBound(val[1..]); }
  }

  /**
   The loop, nibble by nibble: the place is a 32-bit integer that wraps, the value a 64-bit one.
   Beside it runs the same loop on unbounded integers.
   */
  method StrToHexToVal(val: seq<byte>) returns (value: int, ghost ideal: nat)
    requires |val| == VALUE_LENGTH
    ensures value == LowWord(val) && FitsInt64(value)
    ensures ideal == LittleEndian(val)
  {
    value, ideal := 0, 0;
    var last := 1;
    ghost var idealLast: nat := 1;
    for i := 0 to VALUE_LENGTH
      invariant last == Place(i) && idealLast == Pow(256, i)
      invariant ideal == LittleEndian(val[..i]) && value == Gathered(val[..i])
    {
      var a, b := val[i] % 16, val[i] / 16;
      assert val[..i + 1] == val[..i] + [val[i]];
      PlaceStep(val[..i], val[i]);
      LittleEndianAppend(val[..i], val[i]);
      NibblesMakeByte(idealLast, a, b, val[i]);
      value := value + Wrap32(last * a);
      last := Wrap32(last * 16);
      value := value + Wrap32(last * b);
      last := Wrap32(last * 16);
      ideal := ideal + (idealLast * a + idealLast * 16 * b);
      idealLast := idealLast * 16 * 16;
    }
    assert val[..VALUE_LENGTH] == val;
  }

  lemma NibblesMakeByte(place: nat, a: nat, b: nat, x: byte)
    requires a == x % 16 && b == x / 16
    ensures place * a + (place * 16) * b == place * x && (place * 16) * 16 == 256 * place
  {
    MulAssoc(place, 16, b);
    assert x == 16 * b + a;
    assert place * (16 * b + a) == place * (16 * b) + place * a;
  }

  // ---------- when the sample decodes correctly ----------

  lemma {:induction false} ZeroBytes(val: seq<byte>)
    ensures LittleEndian(val) == 0 <==> forall i :: 0 <= i < |val| ==> val[i] == 0
  {
    if val != [] {
      ZeroBytes(val[1..]);
      if LittleEndian(val) == 0 {
        forall i | 0 <= i < |val|
          ensures val[i] == 0
        {
          if i > 0 { assert val[1..][i - 1] == 0; }
        }
      }
    }
  }

  lemma {:induction false} LittleEndianSplit(val: seq<byte>, k: nat)
    requires k <= |val|
    ensures LittleEndian(val) == LittleEndian(val[..k]) + Pow(256, k) * LittleEndian(val[k..])
  {
    if k == 0 {
      assert val[0..] == val;
    } else {
      LittleEndianSplit(val[1..], k - 1);
      assert val[..k][1..] == val[1..][..k - 1] && val[1..][k - 1..] == val[k..];
      MulAssoc(256, Pow(256, k - 1), LittleEndian(val[k..]));
    }
  }

  /** The decoded value is the stored one exactly when bytes 4 to 15 are zero and the value is below 2^31. */
  lemma DecodesCorrectlyIff(val: seq<byte>)
    requires |val| == 16
    ensures LowWord(val) == LittleEndian(val) <==>
            (forall i :: 4 <= i < 16 ==> val[i] == 0) && LittleEndian(val) < 0x8000_0000
  {
    var low, high := LittleEndian(val[..4]), LittleEndian(val[4..]);
    LittleEndianSplit(val, 4);
    ZeroBytes(val[4..]);
    LowBytesBound(val[..4]);
    FourBytes(4);
    assert (forall i :: 4 <= i < VALUE_LENGTH ==> val[i] == 0) <==>
           forall i :: 0 <= i < |val[4..]| ==> val[4..][i] == 0 by {
      if forall i :: 0 <= i < |val[4..]| ==> val[4..][i] == 0 {
        forall i | 4 <= i < VALUE_LENGTH ensures val[i] == 0 { assert val[4..][i - 4] == 0; }
      }
    }
  }

  lemma FourBytes(n: nat)
    requires n == 4
    ensures Pow(256, n) == 0x1_0000_0000
  {
    assert Pow(256, n - 3) == 0x100 && Pow(256, n - 2) == 0x1_0000 && Pow(256, n - 1) == 0x100_0000;
  }

  // ---------- the scale ----------

  /** The divisor (or multiplier) built in a 64-bit integer. */
  method ScaleDivisor(scale: int) returns (divisor: int)
    requires -128 <= scale <= 127
    ensures divisor == Wrap64(Pow(10, if scale < 0 then -scale else scale))
  {
    divisor := 1;
    assert Pow(10, 0) == 1;
    if scale > 0 {
      for j := 0 to scale
        invariant divisor == Wrap64(Pow(10, j))
      {
        WrapTimesTen(Pow(10, j));
        divisor := Wrap64(divisor * 10);
      }
    } else {
      for j := scale to 0
        invariant divisor == Wrap64(Pow(10, j - scale))
      {
        WrapTimesTen(Pow(10, j - scale));
        divisor := Wrap64(divisor * 10);
      }
    }
  }

  lemma WrapTimesTen(x: nat)
    ensures Wrap64(Wrap64(x) * 10) == Wrap64(10 * x)
  {
    var q := TurnsOf64(x);
    Turns64(10 * x, 10 * q, Wrap64(x) * 10);
  }

  /** The divisor is the power of ten exactly up to a scale of 18 in either direction. */
  lemma DivisorIsPowerIff(n: nat)
    ensures Wrap64(Pow(10, n)) == Pow(10, n) <==> n <= 18
  {
    var k := 18;
    TenToEighteen(k);
    if n <= 18 { PowMonotone(10, n, k); } else { PowMonotone(10, k + 1, n); }
  }

  lemma TenToEighteen(k: nat)
    requires k == 18
    ensures Pow(10, k) == 1000000000000000000 && Pow(10, k + 1) == 10000000000000000000
  {
    assert Pow(10, k - 17) == 10 && Pow(10, k - 16) == 100 && Pow(10, k - 15) == 1000;
    PowAdd(10, k - 15, k - 15);
    PowAdd(10, k - 12, k - 12);
    PowAdd(10, k - 6, k - 12);
  }

  /** 2^32 is decoded as zero. */
  lemma FifthByteExample(val: seq<byte>)
    requires |val| == 16 && val[4] == 1
    requires forall i :: 0 <= i < 16 && i != 4 ==> val[i] == 0
    ensures LittleEndian(val) == 0x1_0000_0000 && LowWord(val) == 0
  {
    LittleEndianSplit(val, 4);
    ZeroBytes(val[..4]);
    ZeroBytes(val[5..]);
    assert val[4..][1..] == val[5..];
    assert Pow(256, 4) == 0x1_0000_0000;
  }

  /** The first four bytes count 1, 256, 65536 and 16777216. */
  lemma FirstFourBytes(val: seq<byte>)
    requires |val| == 16
    ensures var a: int, b: int, c: int, d: int := val[0], val[1], val[2], val[3];
            var word := a + 256 * b + 65536 * c + 16777216 * d;
            LowWord(val) == if d < 128 then word else word - 0x1_0000_0000
  {
    var four, three, two, one := val[..4], val[1..4], val[2..4], val[3..4];
    assert four[1..] == three && three[1..] == two && two[1..] == one && one[1..] == [];
    assert LittleEndian(one) == val[3] && LittleEndian(two) == val[2] + 256 * LittleEndian(one);
    assert LittleEndian(three) == val[1] + 256 * LittleEndian(two);
    assert LittleEndian(four) == val[0] + 256 * LittleEndian(three);
  }
}
