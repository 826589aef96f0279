/** Copying values between data-value structures, byte by byte or eight bytes at a time. */
module CopyValue {
  import opened CArithmetic

  function RoundUp8(n: nat): nat
  {
    (n + 7) / 8 * 8
  }

  /** Bytes the copy touches: all of them in steps of eight when the buffer size is a multiple of eight. */
  function Touched(bufferSize: nat, valueLen: nat): nat
  {
    if bufferSize % 8 == 0 then RoundUp8(valueLen) else valueLen
  }

  /** Stepping by eight never leaves a buffer whose size is a multiple of eight. */
  lemma TouchedFits(bufferSize: nat, valueLen: nat)
    requires valueLen <= bufferSize
    ensures valueLen <= Touched(bufferSize, valueLen) <= bufferSize
    ensures Touched(bufferSize, valueLen) < valueLen + 8
  {
  }

  method CopySingly(dst: array<byte>, src: array<byte>, valueLen: nat)
    requires valueLen <= dst.Length && valueLen <= src.Length && src != dst
    modifies dst
    ensures dst[..valueLen] == src[..valueLen]
    ensures dst[valueLen..] == old(dst[valueLen..])
  {
    var n := 0;
    while n < valueLen
      invariant n <= valueLen && dst[..n] == src[..n]
      invariant dst[valueLen..] == old(dst[valueLen..])
    {
      dst[n] := src[n];
      n := n + 1;
    }
  }

  method CopyByEights(dst: array<byte>, src: array<byte>, valueLen: nat)
    requires RoundUp8(valueLen) <= dst.Length && RoundUp8(valueLen) <= src.Length && src != dst
    modifies dst
    ensures dst[..RoundUp8(valueLen)] == src[..RoundUp8(valueLen)]
    ensures dst[RoundUp8(valueLen)..] == old(dst[RoundUp8(valueLen)..])
  {
    var n := 0;
    ghost var end := RoundUp8(valueLen);
    while n < valueLen
      invariant n <= end && n % 8 == 0 && dst[..n] == src[..n]
      invariant dst[end..] == old(dst[end..])
      decreases end - n
    {
      forall k | n <= k < n + 8 { dst[k] := src[k]; }
      n := n + 8;
    }
  }

  /**
   The copy. The source must be readable up to the bytes the copy touches; the destination ends with
   those bytes and is otherwise unchanged.
   */
  method CopyBytes(dst: array<byte>, bufferSize: nat, src: array?<byte>, valueLen: nat)
    requires valueLen <= bufferSize <= dst.Length && src != dst
    requires valueLen > 0 ==> src != null && Touched(bufferSize, valueLen) <= src.Length
    modifies dst
    ensures valueLen > 0 ==> dst[..Touched(bufferSize, valueLen)] == src[..Touched(bufferSize, valueLen)]
    ensures dst[Touched(bufferSize, valueLen)..] == old(dst[Touched(bufferSize, valueLen)..])
  {
    TouchedFits(bufferSize, valueLen);
    if valueLen == 0 { return; }
    if bufferSize % 8 != 0 {
      CopySingly(dst, src, valueLen);
    } else {
      CopyByEights(dst, src, valueLen);
    }
  }

  /** A data value: a buffer with its size, and the length of the value in it. */
  class DataValue {
    var value: array?<byte>
    var bufferSize: nat
    var length: nat

    ghost predicate Valid()
      reads this, value
    {
      length <= bufferSize && (value == null ==> bufferSize == 0) && (value != null ==> bufferSize <= value.Length)
    }

    /** A value at the start of a buffer, of which a first part may be used. */
    constructor (buffer: array<byte>, size: nat, valueLen: nat)
      requires valueLen <= size <= buffer.Length
      ensures Valid() && value == buffer && bufferSize == size && length == valueLen
      ensures Content() == buffer[..valueLen]
    {
      value := buffer;
      bufferSize := size;
      length := valueLen;
    }

    /** No buffer, and so no value. */
    constructor Null()
      ensures Valid() && value == null && bufferSize == 0 && Content() == []
    {
      value := null;
      bufferSize := 0;
      length := 0;
    }

    ghost function Content(): seq<byte>
      reads this, value
      requires Valid()
    {
      if value == null then [] else value[..length]
    }
  }

  /**
   Copying one data value to another: the same structure, two structures on one buffer, or disjoint
   buffers. The destination ends with the content of the source, and the source keeps it.
   */
  method CopyDataValue(src: DataValue, dst: DataValue)
    requires src.Valid() && dst.Valid() && dst.value != null && src.length <= dst.bufferSize
    requires src.value != null && src.value != dst.value ==> Touched(dst.bufferSize, src.length) <= src.value.Length
    modifies dst`length, dst.value
    ensures src.Valid() && dst.Valid()
    ensures dst.Content() == src.Content() == old(src.Content())
    ensures dst.value == old(dst.value)
    ensures src == dst || src.value == dst.value ==> dst.value[..] == old(dst.value[..])
    ensures src != dst ==> dst.value[Touched(dst.bufferSize, src.length)..] ==
                           old(dst.value[Touched(dst.bufferSize, src.length)..])
  {
    if src == dst { return; }
    TouchedFits(dst.bufferSize, src.length);
    dst.length := src.length;
    if dst.value == src.value { return; }
    CopyBytes(dst.value, dst.bufferSize, src.value, src.length);
    if src.length > 0 {
      var end := Touched(dst.bufferSize, src.length);
      assert dst.value[..src.length] == dst.value[..end][..src.length] == src.value[..end][..src.length];
    }
  }
}
