/** Packets of the client/server protocol and the eight header bytes in front of each. */
module PacketHeader {
  import opened CArithmetic
  import opened Digits
  import opened Powers

  const HEADER_SIZE := 8
  const MTU_SIZE := 32
  const PERIOD_CONTINUE := 0
  const PERIOD_END := 0x80
  const SEQUENCE_COUNT := 128

  /** A packet: its payload, whether it ends its sentence, and its 7-bit sequence. */
  datatype Packet = Packet(payload: seq<byte>, end: bool, sequence: nat)

  predicate WellFormed(p: Packet)
  {
    p.payload != [] && |p.payload| + HEADER_SIZE <= INT32_MAX && p.sequence < SEQUENCE_COUNT
  }

  function Period(end: bool): nat
  {
    if end then PERIOD_END else PERIOD_CONTINUE
  }

  /** The period byte as the sender forms it: period and sequence put together with OR. */
  function PeriodByte(end: bool, sequence: nat): nat
  {
    BitOr(Period(end), sequence)
  }

  /** One bit above k low bits: OR is addition, and masking gives each part back. */
  lemma {:induction false} HighAndLow(high: nat, low: nat, k: nat)
    requires high <= 1 && low < Pow(2, k)
    ensures var b := high * Pow(2, k) + low;
            BitOr(high * Pow(2, k), low) == b && BitAnd(b, Pow(2, k) - 1) == low &&
            BitAnd(b, Pow(2, k)) == high * Pow(2, k)
  {
    var p := Pow(2, k);
    var b := high * p + low;
    BitOrDisjoint(high, low, k);
    BitAndMask(b, k);
    SingleBit(b, k);
    assert b == p * high + low;
    DivModUnique(b, p, high, low);
  }

  /** Period and sequence share a byte without disturbing each other. */
  lemma PeriodByteParts(end: bool, sequence: nat)
    requires sequence < SEQUENCE_COUNT
    ensures PeriodByte(end, sequence) == Period(end) + sequence < 256
    ensures BitAnd(PeriodByte(end, sequence), 0x7F) == sequence
    ensures BitAnd(PeriodByte(end, sequence), 0x80) == Period(end)
  {
    var k, high := 7, if end then 1 else 0;
    SevenBits(k);
    HighAndLow(high, sequence, k);
    assert high * Pow(2, k) == Period(end);
  }

  // ---------- the header ----------

  /** A 32-bit size in the byte order agreed for the session. */
  function SizeBytes(n: nat, big: bool): (r: seq<byte>)
    requires n <= INT32_MAX
    ensures |r| == 4
  {
    var bytes := [n % 256, n / 256 % 256, n / 65536 % 256, n / 16777216];
    if big then [bytes[3], bytes[2], bytes[1], bytes[0]] else bytes
  }

  function SizeOf(s: seq<byte>, big: bool): nat
    requires |s| >= 4
  {
    var bytes: seq<int> := if big then [s[3], s[2], s[1], s[0]] else s[..4];
    bytes[0] + 256 * bytes[1] + 65536 * bytes[2] + 16777216 * bytes[3]
  }

  lemma SizeRoundTrip(n: nat, big: bool, rest: seq<byte>)
    requires n <= INT32_MAX
    ensures SizeOf(SizeBytes(n, big) + rest, big) == n
  {
    var a, b, c := n / 256, n / 65536, n / 16777216;
    assert b == a / 256 && c == b / 256;
  }

  /** Bytes 5 to 7 carry nothing. */
  function Header(p: Packet, big: bool, unused: seq<byte>): (h: seq<byte>)
    requires WellFormed(p) && |unused| == 3
    ensures |h| == HEADER_SIZE
  {
    PeriodByteParts(p.end, p.sequence);
    SizeBytes(|p.payload|, big) + [PeriodByte(p.end, p.sequence)] + unused
  }

  /** Whatever follows it, a header tells the size, the period and the sequence of its packet. */
  lemma HeaderTells(p: Packet, big: bool, unused: seq<byte>, rest: seq<byte>)
    requires WellFormed(p) && |unused| == 3
    ensures var s := Header(p, big, unused) + rest;
            && SizeOf(s, big) == |p.payload|
            && BitAnd(s[4], 0x80) == Period(p.end) && BitAnd(s[4], 0x7F) == p.sequence
  {
    PeriodByteParts(p.end, p.sequence);
    var s := Header(p, big, unused) + rest;
    SizeRoundTrip(|p.payload|, big, s[4..]);
    assert s == SizeBytes(|p.payload|, big) + s[4..];
  }

  /** The bytes that start a packet: the size in the session's byte order, then period and sequence. */
  ghost predicate StartsWith(s: seq<byte>, size: nat, end: bool, sequence: nat, big: bool)
  {
    |s| >= 8 && s[4] == (if end then 128 else 0) + sequence &&
    var a: int, b: int, c: int, d: int := s[0], s[1], s[2], s[3];
    if big then ValueOf(s[..4], 256) == size == 16777216 * a + 65536 * b + 256 * c + d
    else a + 256 * b + 65536 * c + 16777216 * d == size
  }

  lemma {:induction false} LastDigit(ds: seq<nat>, front: seq<nat>)
    requires ds != [] && front == ds[..|ds| - 1]
    ensures ValueOf(ds, 256) == ValueOf(front, 256) * 256 + ds[|ds| - 1]
  {
  }

  lemma {:induction false} FourDigits(ds: seq<nat>)
    requires |ds| == 4
    ensures ValueOf(ds, 256) == 16777216 * ds[0] + 65536 * ds[1] + 256 * ds[2] + ds[3]
  {
    var three, two, one := ds[..3], ds[..2], ds[..1];
    LastDigit(ds, three);
    LastDigit(three, two);
    LastDigit(two, one);
    LastDigit(one, []);
  }

  lemma {:induction false} SizeWritten(n: nat, big: bool, s: seq<byte>)
    requires n <= INT32_MAX && s == SizeBytes(n, big)
    ensures var a: int, b: int, c: int, d: int := s[0], s[1], s[2], s[3];
            n == if big then 16777216 * a + 65536 * b + 256 * c + d else a + 256 * b + 65536 * c + 16777216 * d
  {
    var a, b, c := n / 256, n / 65536, n / 16777216;
    assert b == a / 256 && c == b / 256;
  }

  /** A header starts with these bytes, whatever follows it. */
  lemma {:induction false} HeaderBytes(p: Packet, big: bool, unused: seq<byte>, rest: seq<byte>)
    requires WellFormed(p) && |unused| == 3
    ensures |Header(p, big, unused)| == 8
    ensures StartsWith(Header(p, big, unused) + rest, |p.payload|, p.end, p.sequence, big)
  {
    var s, size := Header(p, big, unused) + rest, SizeBytes(|p.payload|, big);
    PeriodByteParts(p.end, p.sequence);
    SizeWritten(|p.payload|, big, size);
    assert s[..4] == size && s[4] == PeriodByte(p.end, p.sequence);
    FourDigits(s[..4]);
  }

  /** What the socket carries for a packet: header, payload, and padding up to the minimum size. */
  ghost predicate IsFrame(frame: seq<byte>, p: Packet, big: bool)
  {
    WellFormed(p) &&
    exists unused, padding: seq<byte> :: |unused| == 3 && frame == Header(p, big, unused) + p.payload + padding &&
      |padding| == if HEADER_SIZE + |p.payload| < MTU_SIZE then MTU_SIZE - HEADER_SIZE - |p.payload| else 0
  }
}
