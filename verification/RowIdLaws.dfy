/** Row identifiers byte by byte and character by character, against the alphabet and the layout written out. */
module RowIdLaws {
  import opened CArithmetic
  import opened Wrappers
  import opened Powers
  import opened Digits
  import opened RowId

  const CAPITALS := "ABCDEFGHIJKLMNOPQRSTUVWXYZ"
  const SMALL := "abcdefghijklmnopqrstuvwxyz"
  const ALPHABET := CAPITALS + SMALL + "0123456789+/"

  // ---------- the alphabet ----------

  lemma CapitalLetters(d: nat)
    requires d < 26
    ensures |CAPITALS| == 26 && CAPITALS[d] == Letter(d)
  {
  }

  lemma SmallLetters(d: nat)
    requires 26 <= d < 52
    ensures |SMALL| == 26 && SMALL[d - 26] == Letter(d)
  {
  }

  lemma DigitsAndSigns(d: nat)
    requires 52 <= d < 64
    ensures "0123456789+/"[d - 52] == Letter(d)
  {
  }

  /** Letters are written and read by their places in the alphabet. */
  lemma AlphabetIs(d: nat)
    requires d < 64
    ensures |ALPHABET| == 64 && Letter(d) == ALPHABET[d] && Lookup(ALPHABET[d]) == d
  {
    assert |CAPITALS| == 26 && |SMALL| == 26 && |"0123456789+/"| == 12;
    if d < 26 { CapitalLetters(d); } else if d < 52 { SmallLetters(d); } else { DigitsAndSigns(d); }
    LookupOfLetter(d);
  }

  /** Any other character is rejected. */
  lemma OutsideAlphabet(c: char)
    ensures Lookup(c) == -1 <==> c !in ALPHABET
  {
    LetterOfLookup(c);
    if Lookup(c) != -1 { AlphabetIs(Lookup(c)); }
    if c in ALPHABET {
      var d :| 0 <= d < |ALPHABET| && ALPHABET[d] == c;
      AlphabetIs(d);
    }
  }

  // ---------- bytes ----------

  /** The sixteen bytes: table, tablespace, page and row, each with its high byte first. */
  lemma {:induction false} PackedLayout(x: Info)
    requires FitsFields(x)
    ensures var b := Pack(x);
            && |b| == 16 && ValueOf(b[0..8], 256) == x.table % 0x1_0000_0000_0000_0000
            && ValueOf(b[8..10], 256) == x.tablespace && ValueOf(b[10..14], 256) == x.page
            && ValueOf(b[14..16], 256) == x.row % 0x1_0000
  {
    var b := Pack(x);
    assert b[0..8] == Bytes(x.table, 8) && b[8..10] == Bytes(x.tablespace, 2);
    assert b[10..14] == Bytes(x.page, 4) && b[14..16] == Bytes(x.row, 2);
    PowersOf256(8);
    PowersOf256(4);
    PowersOf256(2);
    WordOfBytes(x.table, 8);
    UnsignedWord(x.tablespace, 2);
    UnsignedWord(x.page, 4);
    WordOfBytes(x.row, 2);
  }

  lemma {:induction false} TwoDigits(ds: seq<nat>, base: nat)
    requires |ds| == 2
    ensures ValueOf(ds, base) == ds[0] * base + ds[1]
  {
    var one := ds[..1];
    assert one[..0] == [];
    assert ValueOf(one, base) == ds[0];
  }

  /** The two-byte fields as numbers. */
  lemma PackedPairs(x: Info)
    requires FitsFields(x)
    ensures var b := Pack(x);
            var c: int, d: int, e: int, f: int := b[8], b[9], b[14], b[15];
            256 * c + d == x.tablespace && 256 * e + f == x.row % 0x1_0000
  {
    var b := Pack(x);
    PackedLayout(x);
    TwoDigits(b[8..10], 256);
    TwoDigits(b[14..16], 256);
  }

  // ---------- text ----------

  /** A field and the bytes that hold it in two's complement. */
  predicate Holds(bytes: seq<byte>, v: int, modulus: nat)
  {
    0 <= 2 * v + modulus < 2 * modulus && v % modulus == ValueOf(bytes, 256)
  }

  lemma SignedIs(bytes: seq<byte>, v: int, modulus: nat)
    requires Holds(bytes, v, modulus) && modulus % 2 == 0
    ensures AsSigned(Word(bytes), modulus) == v
  {
    SignedOfCongruent(v, modulus);
  }

  /** The group of six bits that a character of the text shows. */
  function Group(table: int, tablespace: nat, page: nat, row: int, i: nat): nat
    requires i < 23
  {
    if i < 11 then table / Pow(64, 10 - i) % 64
    else if i < 14 then tablespace / Pow(64, 13 - i) % 64
    else if i < 20 then page / Pow(64, 19 - i) % 64
    else row / Pow(64, 22 - i) % 64
  }

  lemma {:induction false} RenderedLetter(x: Info, text: string, i: nat)
    requires i < 23
    requires text == FieldText(x.table, 11) + FieldText(x.tablespace, 3) + FieldText(x.page, 6) + FieldText(x.row, 3)
    requires x.tablespace >= 0 && x.page >= 0
    ensures |text| == 23 && text[i] == Letter(Group(x.table, x.tablespace, x.page, x.row, i))
  {
    var a, b, c, d := FieldText(x.table, 11), FieldText(x.tablespace, 3), FieldText(x.page, 6), FieldText(x.row, 3);
    FourPieces(a, b, c, d, text, i);
    if i < 11 {
      assert text[i] == a[i] == Letter(DigitAt(x.table, 64, 10 - i));
    } else if i < 14 {
      assert text[i] == b[i - 11] == Letter(DigitAt(x.tablespace, 64, 13 - i));
    } else if i < 20 {
      assert text[i] == c[i - 14] == Letter(DigitAt(x.page, 64, 19 - i));
    } else {
      assert text[i] == d[i - 20] == Letter(DigitAt(x.row, 64, 22 - i));
    }
  }

  lemma FourPieces(a: string, b: string, c: string, d: string, text: string, i: nat)
    requires |a| == 11 && |b| == 3 && |c| == 6 && |d| == 3 && text == a + b + c + d && i < 23
    ensures |text| == 23
    ensures text[i] == if i < 11 then a[i] else if i < 14 then b[i - 11] else if i < 20 then c[i - 14] else d[i - 20]
  {
  }

  /** Each character of the text is the letter of the alphabet at the field's 6-bit group in its place. */
  lemma {:induction false} RenderedCharacters(b: seq<byte>, table: int, row: int, i: nat)
    requires |b| == 16 && i < 23
    requires Holds(b[0..8], table, 0x1_0000_0000_0000_0000) && Holds(b[14..16], row, 0x1_0000)
    ensures |Render(b)| == 23 && |ALPHABET| == 64
    ensures Render(b)[i] == ALPHABET[Group(table, ValueOf(b[8..10], 256), ValueOf(b[10..14], 256), row, i)]
  {
    SignedIs(b[0..8], table, TWO_64);
    SignedIs(b[14..16], row, TWO_16);
    RenderedLetter(Unpack(b), Render(b), i);
    AlphabetIs(Group(table, ValueOf(b[8..10], 256), ValueOf(b[10..14], 256), row, i));
  }

  /** The places in the alphabet of the characters of a text. */
  predicate Places(text: string, v: seq<nat>)
  {
    |v| == |text| && forall i :: 0 <= i < |v| ==> v[i] < |ALPHABET| && ALPHABET[v[i]] == text[i]
  }

  lemma {:induction false} PlacesAreSextets(text: string, v: seq<nat>)
    requires Places(text, v)
    ensures InAlphabet(text) && Sextets(text) == v
  {
    forall i | 0 <= i < |v|
      ensures Lookup(text[i]) == v[i]
    {
      AlphabetIs(0);
      AlphabetIs(v[i]);
    }
  }

  lemma {:induction false} ThreeDigits(ds: seq<nat>, base: nat)
    requires |ds| == 3
    ensures ValueOf(ds, base) == (ds[0] * base + ds[1]) * base + ds[2]
  {
    TwoDigits(ds[..2], base);
  }

  /** A text is rejected exactly when it has not 23 characters or one of them is not in the alphabet. */
  lemma {:induction false} RejectedIff(text: string)
    ensures Parse(text).None? <==> |text| != 23 || exists i :: 0 <= i < |text| && text[i] !in ALPHABET
  {
    forall i | 0 <= i < |text|
      ensures Lookup(text[i]) == -1 <==> text[i] !in ALPHABET
    {
      OutsideAlphabet(text[i]);
    }
  }

  function ThreePlaces(x: nat, y: nat, z: nat): nat
  {
    4096 * x + 64 * y + z
  }

  lemma {:induction false} ShortPiece(ds: seq<nat>)
    requires |ds| == 3
    ensures ValueOf(ds, 64) == ThreePlaces(ds[0], ds[1], ds[2])
  {
    ThreeDigits(ds, 64);
  }

  lemma {:induction false} PieceValue(text: string, v: seq<nat>, b: seq<byte>, from: nat, to: nat, modulus: nat)
    requires from <= to <= |text| && Places(text, v) && InAlphabet(text) && Sextets(text) == v
    requires b == Bytes(ValueOf(Sextets(text[from..to]), 64), |b|) && modulus == Pow(256, |b|) > 0
    ensures ValueOf(b, 256) == ValueOf(v[from..to], 64) % modulus
  {
    assert Sextets(text[from..to]) == v[from..to];
    WordOfBytes(ValueOf(v[from..to], 64), |b|);
  }

  lemma {:induction false} PieceValues(text: string, v: seq<nat>, b: seq<byte>)
    requires |text| == 23 && Places(text, v) && Parse(text) == Some(b)
    ensures |b| == 16
    ensures ValueOf(b[0..8], 256) == ValueOf(v[0..11], 64) % TWO_64
    ensures ValueOf(b[8..10], 256) == ValueOf(v[11..14], 64) % TWO_16
    ensures ValueOf(b[10..14], 256) == ValueOf(v[14..20], 64) % TWO_32
    ensures ValueOf(b[14..16], 256) == ValueOf(v[20..23], 64) % TWO_16
  {
    PlacesAreSextets(text, v);
    ParsedPieces(text, b);
    PowersOf256(8);
    PowersOf256(4);
    PowersOf256(2);
    PieceValue(text, v, b[0..8], 0, 11, TWO_64);
    PieceValue(text, v, b[8..10], 11, 14, TWO_16);
    PieceValue(text, v, b[10..14], 14, 20, TWO_32);
    PieceValue(text, v, b[14..16], 20, 23, TWO_16);
  }

  /** The fields of an accepted text are the places of its characters, taken base 64 and cut to the field's width. */
  lemma {:induction false} ParsedFields(text: string, v: seq<nat>, b: seq<byte>)
    requires |text| == 23 && Places(text, v) && Parse(text) == Some(b)
    ensures |b| == 16
    ensures ValueOf(b[0..8], 256) == ValueOf(v[0..11], 64) % 0x1_0000_0000_0000_0000
    ensures ValueOf(b[8..10], 256) == ThreePlaces(v[11], v[12], v[13]) % 0x1_0000
    ensures ValueOf(b[10..14], 256) == ValueOf(v[14..20], 64) % 0x1_0000_0000
    ensures ValueOf(b[14..16], 256) == ThreePlaces(v[20], v[21], v[22]) % 0x1_0000
  {
    PieceValues(text, v, b);
    ShortPiece(v[11..14]);
    ShortPiece(v[20..23]);
  }
}
