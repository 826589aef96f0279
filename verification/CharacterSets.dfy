/** The four database character sets: how long a character is, and which may be searched byte by byte. */
module CharacterSets {
  import opened CArithmetic
  import opened Wrappers
  import opened LikeMeaning
  import opened LikeCharset

  datatype CharacterSet = Ascii | Utf8 | Uhc | Gb18030

  predicate Between(b: byte, low: byte, high: byte)
  {
    low <= b <= high
  }

  /** Length of the character that starts the bytes; none when they start no character. */
  function MbLength(cs: CharacterSet, s: seq<byte>): Option<nat>
    requires s != []
  {
    match cs
    case Ascii => Some(1)
    case Utf8 =>
      if s[0] < 0x80 then Some(1)
      else if Between(s[0], 0xC0, 0xDF) then Some(2)
      else if Between(s[0], 0xE0, 0xEF) then Some(3)
      else if Between(s[0], 0xF0, 0xF7) then Some(4)
      else None
    case Uhc => if Between(s[0], 0x81, 0xFE) then Some(2) else Some(1)
    case Gb18030 =>
      if s[0] < 0x80 then Some(1)
      else if Between(s[0], 0x81, 0xFE) && |s| >= 2 && (Between(s[1], 0x40, 0x7E) || Between(s[1], 0x80, 0xFE)) then
        Some(2)
      else if Between(s[0], 0x81, 0xFE) && |s| >= 4 && Between(s[1], 0x30, 0x39) && Between(s[2], 0x81, 0xFE) &&
              Between(s[3], 0x30, 0x39) then Some(4)
      else None
  }

  /** A well-formed character. */
  predicate IsChar(cs: CharacterSet, c: Char)
  {
    MbLength(cs, c) == Some(|c|) &&
    match cs
    case Ascii => true
    case Utf8 => forall i :: 0 < i < |c| ==> Between(c[i], 0x80, 0xBF)
    case Uhc =>
      if |c| == 1 then c[0] < 0x80
      else Between(c[1], 0x41, 0x5A) || Between(c[1], 0x61, 0x7A) || Between(c[1], 0x81, 0xFE)
    case Gb18030 => true
  }

  ghost function Repertoire(cs: CharacterSet): iset<Char>
  {
    iset c: Char | IsChar(cs, c)
  }

  /** The length is read off the bytes whatever follows the character. */
  lemma LengthFindsCharacter(cs: CharacterSet, c: Char, rest: seq<byte>)
    requires IsChar(cs, c)
    ensures MbLength(cs, c + rest) == Some(|c|)
  {
    var s := c + rest;
    assert forall i :: 0 <= i < |c| ==> s[i] == c[i];
  }

  /** No character begins another, in any of the sets. */
  lemma RepertoireIsPrefixFree(cs: CharacterSet)
    ensures PrefixFree(Repertoire(cs))
  {
    forall c, d | c in Repertoire(cs) && d in Repertoire(cs) && c <= d
      ensures c == d
    {
      LengthFindsCharacter(cs, c, d[|c|..]);
      assert c + d[|c|..] == d;
    }
  }

  predicate BinaryComparable(cs: CharacterSet)
  {
    cs.Ascii? || cs.Utf8?
  }

  /** The table of sets that may be searched byte by byte lists exactly the self-synchronising ones. */
  lemma BinaryComparableIff(cs: CharacterSet)
    ensures BinaryComparable(cs) <==> SelfSynchronising(Repertoire(cs))
  {
    RepertoireIsPrefixFree(cs);
    var r := Repertoire(cs);
    if BinaryComparable(cs) {
      forall c, d, i | c in r && d in r && 0 < i < |d|
        ensures d[i] != c[0]
      {
        assert cs.Utf8? && Between(d[i], 0x80, 0xBF);
      }
    } else {
      var c, d: Char := if cs.Uhc? then [0x41] else [0x40], if cs.Uhc? then [0x81, 0x41] else [0x81, 0x40];
      assert c in r && d in r && d[1] == c[0];
    }
  }

  /** Why it matters: by bytes, `%A%` finds an `A` inside the second byte of a Korean character. */
  lemma BytesMisleadOutsideTable(info: Info<Char>, s: seq<Char>)
    requires info == Info(None, [[Lit([0x41])]], None, false) && s == [[0x81, 0x41]]
    ensures InfoFrom(Repertoire(Uhc), info) && From(Repertoire(Uhc), s)
    ensures InfoLike(ByteInfo(info), Flat(s)) && !InfoLike(info, s)
  {
    var part: seq<Elem<Char>> := [Lit([0x41])];
    var bytes: seq<byte> := [0x41];
    var text := Lits(bytes);
    assert Chars(part) == [[0x41]] && Flat([[0x41]]) == bytes + Flat([]) == bytes;
    assert info.middles[0] == part && info.middles[1..] == [] && ByteLits(part) == text;
    assert ByteParts(info.middles) == [text] + ByteParts([]) == [text];
    assert Flat(s) == [0x81, 0x41] + Flat([]) == [0x81, 0x41];
    assert ElemFits(text[0], Flat(s)[1 + 0]) && FitsAt(text, Flat(s), 1);
    PlaceFirst(text, [], Flat(s), 0, 2, 1);
    assert [text] + [] == [text];
  }

  // ---------- the sets written out ----------

  /** The encoding of a code point (RFC 3629, section 3). */
  function Utf8Encoding(n: nat): Char
    requires n < 0x11_0000
  {
    if n < 0x80 then [n]
    else if n < 0x800 then [0xC0 + n / 64, 0x80 + n % 64]
    else if n < 0x1_0000 then [0xE0 + n / 4096, 0x80 + n / 64 % 64, 0x80 + n % 64]
    else [0xF0 + n / 262144, 0x80 + n / 4096 % 64, 0x80 + n / 64 % 64, 0x80 + n % 64]
  }

  /** The bits of the bytes behind their markers. */
  function CodePoint(c: Char): int
  {
    var b: seq<int> := c;
    if |b| == 1 then b[0]
    else if |b| == 2 then b[0] % 32 * 64 + b[1] % 64
    else if |b| == 3 then (b[0] % 16 * 64 + b[1] % 64) * 64 + b[2] % 64
    else if |b| == 4 then ((b[0] % 8 * 64 + b[1] % 64) * 64 + b[2] % 64) * 64 + b[3] % 64
    else -1
  }

  /** Every code point is a character of the UTF-8 set, as long as the first byte says. */
  lemma Utf8HasEveryCodePoint(n: nat, rest: seq<byte>)
    requires n < 0x11_0000
    ensures Utf8Encoding(n) in Repertoire(Utf8)
    ensures MbLength(Utf8, Utf8Encoding(n) + rest) ==
            Some(if n < 0x80 then 1 else if n < 0x800 then 2 else if n < 0x1_0000 then 3 else 4)
  {
    var c := Utf8Encoding(n);
    assert forall i :: 0 < i < |c| ==> Between(c[i], 0x80, 0xBF);
    LengthFindsCharacter(Utf8, c, rest);
  }

  /** The encoding carries the bits of the code point. */
  lemma Utf8KeepsCodePoint(n: nat)
    requires n < 0x11_0000
    ensures CodePoint(Utf8Encoding(n)) == n
  {
    var x, y, z := n / 64, n / 4096, n / 262144;
    Quotients(n, x, y, z);
    if 0x80 <= n < 0x800 { Lead(0xC0, 32, x); }
    if 0x800 <= n < 0x1_0000 { Lead(0xE0, 16, y); }
    if 0x1_0000 <= n { Lead(0xF0, 8, z); }
    Marked(n % 64);
    Marked(x % 64);
    Marked(y % 64);
  }

  lemma Lead(marker: nat, room: nat, d: nat)
    requires d < room && (marker, room) in {(0xC0, 32), (0xE0, 16), (0xF0, 8)}
    ensures (marker + d) % room == d
  {
  }

  lemma Quotients(n: nat, x: nat, y: nat, z: nat)
    requires x == n / 64 && y == n / 4096 && z == n / 262144
    ensures n == 64 * x + n % 64 && x == 64 * y + x % 64 && y == 64 * z + y % 64
  {
    assert y == x / 64 && z == y / 64;
  }

  lemma Marked(d: nat)
    requires d < 64
    ensures (0x80 + d) % 64 == d
  {
  }

  /** The bits of the first byte that the masks of the source look at decide the length. */
  lemma Utf8LengthByBits(s: seq<byte>)
    requires s != []
    ensures var b: int := s[0];
            MbLength(Utf8, s) == if b / 128 == 0 then Some(1) else if b / 32 == 6 then Some(2)
                                 else if b / 16 == 14 then Some(3) else if b / 8 == 30 then Some(4) else None
  {
  }

  /** The characters of the other sets, byte by byte. */
  lemma RepertoireIs(c: Char)
    ensures c in Repertoire(Ascii) <==> |c| == 1
    ensures c in Repertoire(Uhc) <==>
            || (|c| == 1 && c[0] < 128)
            || (|c| == 2 && 129 <= c[0] <= 254 && (65 <= c[1] <= 90 || 97 <= c[1] <= 122 || 129 <= c[1] <= 254))
    ensures c in Repertoire(Gb18030) <==>
            || (|c| == 1 && c[0] < 128)
            || (|c| == 2 && 129 <= c[0] <= 254 && 64 <= c[1] <= 254 && c[1] != 127)
            || (|c| == 4 && 129 <= c[0] <= 254 && 48 <= c[1] <= 57 && 129 <= c[2] <= 254 && 48 <= c[3] <= 57)
  {
  }
}
