/** Row identifiers: sixteen big-endian bytes, and the text of 23 base-64 characters shown to users. */
module RowId {
  import opened CArithmetic
  import opened Wrappers
  import opened Powers
  import opened Digits

  /** Table, tablespace, page and row offset. */
  datatype Info = Info(table: int, tablespace: int, page: int, row: int)

  const TWO_16 := 0x1_0000
  const TWO_32 := 0x1_0000_0000
  const TWO_64 := 0x1_0000_0000_0000_0000
  const SIZE := 16
  const TEXT_LENGTH := 23

  predicate FitsFields(x: Info)
  {
    FitsInt64(x.table) && 0 <= x.tablespace < TWO_16 && 0 <= x.page < TWO_32 && -0x8000 <= x.row < 0x8000
  }

  // ---------- bytes ----------

  /** The n low bytes of a field, each cut out with a shift and a mask. */
  function Bytes(v: int, n: nat): (r: seq<byte>)
    ensures |r| == n && r == DigitsOf(v, 256, n)
  {
    ShiftsAreDigits(v, 256, n);
    seq(n, i requires 0 <= i < n => DigitAt(v, 256, n - 1 - i))
  }

  lemma ShiftsAreDigits(v: int, base: nat, n: nat)
    requires base > 0
    ensures forall i :: 0 <= i < n ==> DigitAt(v, base, n - 1 - i) == DigitsOf(v, base, n)[i]
  {
    forall i | 0 <= i < n
      ensures DigitAt(v, base, n - 1 - i) == DigitsOf(v, base, n)[i]
    {
      DigitIsShift(v, base, n, i);
    }
  }

  /** Bytes put together with shifts and OR. */
  function Word(bytes: seq<byte>): (r: nat)
    ensures r == ValueOf(bytes, 256)
  {
    EightBits(8);
    OrIsValue(bytes, 8);
    OrOf(bytes, 8)
  }

  lemma EightBits(k: nat)
    ensures k == 8 ==> Pow(2, k) == 256
    ensures k == 6 ==> Pow(2, k) == 64
  {
    var seven := 7;
    SevenBits(seven);
    assert Pow(2, seven) == 2 * Pow(2, seven - 1) && Pow(2, seven + 1) == 2 * Pow(2, seven);
  }

  function Pack(x: Info): (r: seq<byte>)
    ensures |r| == SIZE
  {
    Bytes(x.table, 8) + Bytes(x.tablespace, 2) + Bytes(x.page, 4) + Bytes(x.row, 2)
  }

  function Unpack(b: seq<byte>): Info
    requires |b| == SIZE
  {
    Info(AsSigned(Word(b[0..8]), TWO_64), Word(b[8..10]), Word(b[10..14]), AsSigned(Word(b[14..16]), TWO_16))
  }

  lemma PowersOf256(n: nat)
    ensures n == 2 ==> Pow(256, n) == TWO_16
    ensures n == 4 ==> Pow(256, n) == TWO_32
    ensures n == 8 ==> Pow(256, n) == TWO_64
  {
    assert n >= 2 ==> Pow(256, n) == 256 * (256 * Pow(256, n - 2));
    assert n == 2 ==> Pow(256, n - 2) == 1;
    if n == 4 || n == 8 {
      assert Pow(256, n - 2) == 256 * (256 * Pow(256, n - 4));
      assert n == 4 ==> Pow(256, n - 4) == 1;
      if n == 8 {
        assert Pow(256, n - 4) == 256 * (256 * Pow(256, n - 6));
        assert Pow(256, n - 6) == 256 * (256 * Pow(256, n - 8)) && Pow(256, n - 8) == 1;
      }
    }
  }

  lemma WordOfBytes(v: int, n: nat)
    ensures Word(Bytes(v, n)) == v % Pow(256, n)
  {
    ValueOfDigits(v, 256, n);
  }

  lemma {:induction false} BytesOfWord(b: seq<byte>, v: int)
    requires v % Pow(256, |b|) == Word(b)
    ensures Bytes(v, |b|) == b && Word(b) < Pow(256, |b|)
  {
    DigitsOfValue(v, b, 256);
    ValueBound(b, 256);
  }

  lemma SignedWord(v: int, n: nat, modulus: nat)
    requires modulus == Pow(256, n) && modulus % 2 == 0 && -(modulus / 2) <= v < modulus / 2
    ensures AsSigned(Word(Bytes(v, n)), modulus) == v
  {
    WordOfBytes(v, n);
    SignedOfCongruent(v, modulus);
  }

  lemma UnsignedWord(v: int, n: nat)
    requires 0 <= v < Pow(256, n)
    ensures Word(Bytes(v, n)) == v
  {
    WordOfBytes(v, n);
    SmallMod(v, Pow(256, n));
  }

  /** Packing keeps every field. */
  lemma PackThenUnpack(x: Info)
    requires FitsFields(x)
    ensures Unpack(Pack(x)) == x
  {
    var b := Pack(x);
    assert b[0..8] == Bytes(x.table, 8) && b[8..10] == Bytes(x.tablespace, 2);
    assert b[10..14] == Bytes(x.page, 4) && b[14..16] == Bytes(x.row, 2);
    PowersOf256(8);
    PowersOf256(4);
    PowersOf256(2);
    SignedWord(x.table, 8, TWO_64);
    UnsignedWord(x.tablespace, 2);
    UnsignedWord(x.page, 4);
    SignedWord(x.row, 2, TWO_16);
  }

  lemma UnsignedBytes(b: seq<byte>)
    ensures Word(b) < Pow(256, |b|) && Bytes(Word(b), |b|) == b
  {
    ValueBound(b, 256);
    SmallMod(Word(b), Pow(256, |b|));
    BytesOfWord(b, Word(b));
  }

  lemma {:induction false} SignedBytes(b: seq<byte>, modulus: nat)
    requires modulus == Pow(256, |b|)
    ensures Bytes(AsSigned(Word(b), modulus), |b|) == b
    ensures Word(b) < modulus
  {
    ValueBound(b, 256);
    SignedIsCongruent(Word(b), modulus);
    BytesOfWord(b, AsSigned(Word(b), modulus));
  }

  /** Every sixteen bytes are the packing of the fields read from them. */
  lemma UnpackThenPack(b: seq<byte>)
    requires |b| == SIZE
    ensures FitsFields(Unpack(b)) && Pack(Unpack(b)) == b
  {
    PowersOf256(8);
    PowersOf256(4);
    PowersOf256(2);
    var table, tablespace, page, row := b[0..8], b[8..10], b[10..14], b[14..16];
    SignedBytes(table, TWO_64);
    UnsignedBytes(tablespace);
    UnsignedBytes(page);
    SignedBytes(row, TWO_16);
    FourSlices(b);
    SignedRange(Word(table), TWO_64);
    SignedRange(Word(row), TWO_16);
  }

  lemma FourSlices(b: seq<byte>)
    requires |b| == SIZE
    ensures b == b[0..8] + b[8..10] + b[10..14] + b[14..16]
  {
  }

  lemma SignedRange(u: nat, modulus: nat)
    requires u < modulus && modulus % 2 == 0
    ensures -(modulus / 2) <= AsSigned(u, modulus) < modulus / 2
  {
  }

  // ---------- text ----------

  /** The base-64 alphabet: letters, digits, plus and slash. */
  function Letter(d: nat): char
    requires d < 64
  {
    if d < 26 then 'A' + d as char
    else if d < 52 then 'a' + (d - 26) as char
    else if d < 62 then '0' + (d - 52) as char
    else if d == 62 then '+' else '/'
  }

  /** The lookup table; -1 for characters outside the alphabet. */
  function Lookup(c: char): int
  {
    if 'A' <= c <= 'Z' then c as int - 'A' as int
    else if 'a' <= c <= 'z' then c as int - 'a' as int + 26
    else if '0' <= c <= '9' then c as int - '0' as int + 52
    else if c == '+' then 62
    else if c == '/' then 63
    else -1
  }

  lemma LookupOfLetter(d: nat)
    requires d < 64
    ensures Lookup(Letter(d)) == d
  {
  }

  lemma LetterOfLookup(c: char)
    ensures -1 <= Lookup(c) < 64
    ensures Lookup(c) != -1 ==> Letter(Lookup(c)) == c
  {
  }

  predicate InAlphabet(s: string)
  {
    forall i :: 0 <= i < |s| ==> Lookup(s[i]) != -1
  }

  function Letters(ds: seq<nat>): (r: string)
    requires InBase(ds, 64)
    ensures |r| == |ds|
  {
    seq(|ds|, i requires 0 <= i < |ds| => Letter(ds[i]))
  }

  function Sextets(s: string): (r: seq<nat>)
    requires InAlphabet(s)
    ensures |r| == |s| && InBase(r, 64) && forall i :: 0 <= i < |s| ==> r[i] == Lookup(s[i])
  {
    seq(|s|, i requires 0 <= i < |s| => (LetterOfLookup(s[i]); Lookup(s[i]) as nat))
  }

  lemma SextetsOfLetters(ds: seq<nat>)
    requires InBase(ds, 64)
    ensures InAlphabet(Letters(ds)) && Sextets(Letters(ds)) == ds
  {
    forall i | 0 <= i < |ds|
      ensures Lookup(Letters(ds)[i]) == ds[i]
    {
      LookupOfLetter(ds[i]);
    }
  }

  lemma LettersOfSextets(s: string)
    requires InAlphabet(s)
    ensures Letters(Sextets(s)) == s
  {
    forall i | 0 <= i < |s|
      ensures Letters(Sextets(s))[i] == s[i]
    {
      LetterOfLookup(s[i]);
    }
  }

  /** A field as right-aligned 6-bit groups, each cut out with a shift and a mask. */
  function FieldText(v: int, groups: nat): (text: string)
    ensures |text| == groups
  {
    seq(groups, i requires 0 <= i < groups => Letter(DigitAt(v, 64, groups - 1 - i)))
  }

  lemma {:induction false} FieldLetters(v: int, groups: nat)
    ensures FieldText(v, groups) == Letters(DigitsOf(v, 64, groups))
  {
    var text, ds := FieldText(v, groups), DigitsOf(v, 64, groups);
    ShiftsAreDigits(v, 64, groups);
    forall i | 0 <= i < groups
      ensures text[i] == Letters(ds)[i]
    {
    }
  }

  /** Each field as right-aligned 6-bit groups; a negative field is shifted arithmetically. */
  function Render(b: seq<byte>): (text: string)
    requires |b| == SIZE
    ensures |text| == TEXT_LENGTH
  {
    var x := Unpack(b);
    FieldText(x.table, 11) + FieldText(x.tablespace, 3) + FieldText(x.page, 6) +
    FieldText(x.row, 3)
  }

  /** Length and alphabet are checked; bits beyond a field's width are dropped. */
  function Parse(text: string): (r: Option<seq<byte>>)
    ensures r.Some? <==> |text| == TEXT_LENGTH && InAlphabet(text)
    ensures r.Some? ==> |r.value| == SIZE
  {
    if |text| == TEXT_LENGTH && InAlphabet(text) then
      Some(Bytes(ValueOf(Sextets(text[0..11]), 64), 8) + Bytes(ValueOf(Sextets(text[11..14]), 64), 2) +
           Bytes(ValueOf(Sextets(text[14..20]), 64), 4) + Bytes(ValueOf(Sextets(text[20..23]), 64), 2))
    else None
  }

  /** 6-bit groups put together with shifts and OR. */
  function Grouped(s: string): (r: nat)
    requires InAlphabet(s)
    ensures r == ValueOf(Sextets(s), 64)
  {
    EightBits(6);
    OrIsValue(Sextets(s), 6);
    OrOf(Sextets(s), 6)
  }

  method FromText(text: string) returns (r: Option<seq<byte>>)
    ensures r == Parse(text)
  {
    if |text| != TEXT_LENGTH { return None; }
    for i := 0 to TEXT_LENGTH
      invariant forall k :: 0 <= k < i ==> Lookup(text[k]) != -1
    {
      if Lookup(text[i]) == -1 { return None; }
    }
    var table := Grouped(text[0..11]) % TWO_64;
    var tablespace := Grouped(text[11..14]) % TWO_16;
    var page := Grouped(text[14..20]) % TWO_32;
    var row := Grouped(text[20..23]) % TWO_16;
    r := Some(Bytes(table, 8) + Bytes(tablespace, 2) + Bytes(page, 4) + Bytes(row, 2));
    PowersOf256(8);
    PowersOf256(4);
    PowersOf256(2);
    BytesOfReduced(ValueOf(Sextets(text[0..11]), 64), 8);
    BytesOfReduced(ValueOf(Sextets(text[11..14]), 64), 2);
    BytesOfReduced(ValueOf(Sextets(text[14..20]), 64), 4);
    BytesOfReduced(ValueOf(Sextets(text[20..23]), 64), 2);
  }

  lemma {:induction false} BytesOfReduced(v: int, n: nat)
    ensures Bytes(v % Pow(256, n), n) == Bytes(v, n)
  {
    WordOfBytes(v, n);
    ModOfMultiple(v, Pow(256, n), 1);
    BytesOfWord(Bytes(v, n), v % Pow(256, n));
  }

  lemma PowersOf64(n: nat)
    ensures n == 3 ==> Pow(64, n) == 4 * TWO_16 && Pow(64, n - 1) == 4096
    ensures n == 6 ==> Pow(64, n) == 16 * TWO_32 && Pow(64, n - 1) == 0x4000_0000
    ensures n == 11 ==> Pow(64, n) == 4 * TWO_64 && Pow(64, n - 1) == 0x1000_0000_0000_0000
  {
    var k := 2;
    assert Pow(64, k - 1) == 64 && Pow(64, k) == 4096;
    PowAdd(64, k, k);
    PowAdd(64, k + k, k - 1);
    PowAdd(64, k + k, k + k);
    PowAdd(64, k + k + k + k, k);
    assert n > 0 ==> Pow(64, n) == 64 * Pow(64, n - 1);
  }

  lemma ReduceTwice(v: int, m: nat, c: nat, full: nat)
    requires m > 0 && c > 0 && full == c * m
    ensures full > 0 && (v % full) % m == v % m
  {
    ModOfMultiple(v, m, c);
  }

  lemma {:induction false} BytesOfCongruent(u: int, v: int, n: nat)
    requires u % Pow(256, n) == v % Pow(256, n)
    ensures Bytes(u, n) == Bytes(v, n)
  {
    WordOfBytes(v, n);
    BytesOfWord(Bytes(v, n), u);
  }

  /** Rendering a field and reading it back keeps its bytes. */
  lemma FieldRoundTrip(v: int, groups: nat, width: nat, room: nat)
    requires room > 0 && Pow(64, groups) == room * Pow(256, width)
    ensures var s := FieldText(v, groups); InAlphabet(s) && Bytes(ValueOf(Sextets(s), 64), width) == Bytes(v, width)
  {
    FieldLetters(v, groups);
    SextetsOfLetters(DigitsOf(v, 64, groups));
    ValueOfDigits(v, 64, groups);
    ReduceTwice(v, Pow(256, width), room, Pow(64, groups));
    BytesOfCongruent(v % Pow(64, groups), v, width);
  }

  /** The text of a row identifier parses back to its bytes. */
  lemma {:induction false} RenderThenParse(b: seq<byte>)
    requires |b| == SIZE
    ensures Parse(Render(b)) == Some(b)
  {
    var x, text := Unpack(b), Render(b);
    assert text[0..11] == FieldText(x.table, 11) && text[11..14] == FieldText(x.tablespace, 3);
    assert text[14..20] == FieldText(x.page, 6) && text[20..23] == FieldText(x.row, 3);
    PowersOf256(8);
    PowersOf256(4);
    PowersOf256(2);
    PowersOf64(11);
    PowersOf64(6);
    PowersOf64(3);
    FieldRoundTrip(x.table, 11, 8, 4);
    FieldRoundTrip(x.tablespace, 3, 2, 4);
    FieldRoundTrip(x.page, 6, 4, 16);
    FieldRoundTrip(x.row, 3, 2, 4);
    assert text == text[0..11] + text[11..14] + text[14..20] + text[20..23];
    AlphabetConcat(text[0..11], text[11..14], text[14..20], text[20..23]);
    UnpackThenPack(b);
  }

  lemma AlphabetConcat(s: string, t: string, u: string, v: string)
    requires InAlphabet(s) && InAlphabet(t) && InAlphabet(u) && InAlphabet(v)
    ensures InAlphabet(s + t + u + v)
  {
  }

  /** A text that some row identifier renders to: no bit lies beyond a field's width, up to sign extension. */
  predicate CanonicalText(text: string)
    requires |text| == TEXT_LENGTH
  {
    (Lookup(text[0]) < 8 || Lookup(text[0]) >= 56) && Lookup(text[11]) < 16 && Lookup(text[14]) < 4 &&
    (Lookup(text[20]) < 8 || Lookup(text[20]) >= 56)
  }

  lemma SignedLead(lead: nat, d: nat, p: nat)
    requires lead * p <= d < (lead + 1) * p
    ensures d < 8 * p <==> lead < 8
    ensures d >= 56 * p <==> lead >= 56
  {
    if lead < 8 { MulLe(lead + 1, 8, p); } else { MulLe(8, lead, p); }
    if lead < 56 { MulLe(lead + 1, 56, p); } else { MulLe(56, lead, p); }
  }

  lemma {:induction false} SignedField(s: string, width: nat)
    requires |s| > 0 && InAlphabet(s) && Pow(256, width) == 16 * Pow(64, |s| - 1)
    ensures var b := Bytes(ValueOf(Sextets(s), 64), width);
            FieldText(AsSigned(Word(b), Pow(256, width)), |s|) == s <==> Lookup(s[0]) < 8 || Lookup(s[0]) >= 56
  {
    var ds, d := Sextets(s), ValueOf(Sextets(s), 64);
    WordOfBytes(d, width);
    SignedDigits(ds, d, Pow(256, width), Pow(64, |s| - 1));
    LettersAre(AsSigned(d % Pow(256, width), Pow(256, width)), s);
  }

  lemma {:induction false} SignedDigits(ds: seq<nat>, d: nat, m: nat, p: nat)
    requires ds != [] && InBase(ds, 64) && d == ValueOf(ds, 64) && p == Pow(64, |ds| - 1) && m == 16 * p
    ensures AsSigned(d % m, m) % Pow(64, |ds|) == d <==> ds[0] < 8 || ds[0] >= 56
  {
    ValueBound(ds, 64);
    LeadingDigit(ds, 64);
    SignedLead(ds[0], d, p);
    assert Pow(64, |ds|) == 64 * p;
    SignedKeeps(d, m, 64 * p);
  }

  lemma {:induction false} UnsignedField(s: string, width: nat, room: nat)
    requires |s| > 0 && InAlphabet(s) && 0 < room < 64 && Pow(64, |s|) == 64 / room * room * Pow(64, |s| - 1)
    requires Pow(256, width) == room * Pow(64, |s| - 1)
    ensures var b := Bytes(ValueOf(Sextets(s), 64), width);
            FieldText(Word(b), |s|) == s <==> Lookup(s[0]) < room
  {
    var ds, m := Sextets(s), Pow(256, width);
    var d := ValueOf(ds, 64);
    WordOfBytes(d, width);
    ValueBound(ds, 64);
    MulLe(room, 64, Pow(64, |s| - 1));
    UnsignedKeeps(d, m, Pow(64, |s|));
    LeadingDigit(ds, 64);
    if ds[0] < room { MulLe(ds[0] + 1, room, Pow(64, |s| - 1)); } else { MulLe(room, ds[0], Pow(64, |s| - 1)); }
    LettersAre(d % m, s);
  }

  lemma {:induction false} LettersAre(v: int, s: string)
    requires InAlphabet(s)
    ensures FieldText(v, |s|) == s <==> v % Pow(64, |s|) == ValueOf(Sextets(s), 64)
  {
    FieldLetters(v, |s|);
    DigitsIff(v, Sextets(s), 64);
    LettersOfSextets(s);
    SextetsOfLetters(DigitsOf(v, 64, |s|));
  }

  /** The fields of a parsed text are its four pieces. */
  lemma ParsedPieces(text: string, b: seq<byte>)
    requires Parse(text) == Some(b)
    ensures |text| == TEXT_LENGTH && InAlphabet(text) && |b| == SIZE
    ensures b[0..8] == Bytes(ValueOf(Sextets(text[0..11]), 64), 8)
    ensures b[8..10] == Bytes(ValueOf(Sextets(text[11..14]), 64), 2)
    ensures b[10..14] == Bytes(ValueOf(Sextets(text[14..20]), 64), 4)
    ensures b[14..16] == Bytes(ValueOf(Sextets(text[20..23]), 64), 2)
  {
  }

  /** Each piece is rendered back exactly when its leading character fits the field. */
  lemma PiecesFit(s: string, t: string, u: string, v: string)
    requires |s| == 11 && |t| == 3 && |u| == 6 && |v| == 3
    requires InAlphabet(s) && InAlphabet(t) && InAlphabet(u) && InAlphabet(v)
    ensures FieldText(AsSigned(Word(Bytes(ValueOf(Sextets(s), 64), 8)), TWO_64), 11) == s <==>
            Lookup(s[0]) < 8 || Lookup(s[0]) >= 56
    ensures FieldText(Word(Bytes(ValueOf(Sextets(t), 64), 2)), 3) == t <==> Lookup(t[0]) < 16
    ensures FieldText(Word(Bytes(ValueOf(Sextets(u), 64), 4)), 6) == u <==> Lookup(u[0]) < 4
    ensures FieldText(AsSigned(Word(Bytes(ValueOf(Sextets(v), 64), 2)), TWO_16), 3) == v <==>
            Lookup(v[0]) < 8 || Lookup(v[0]) >= 56
  {
    PowersOf256(8);
    PowersOf256(4);
    PowersOf256(2);
    PowersOf64(11);
    PowersOf64(6);
    PowersOf64(3);
    SignedField(s, 8);
    UnsignedField(t, 2, 16);
    UnsignedField(u, 4, 4);
    SignedField(v, 2);
  }

  /** The same, for the fields of sixteen bytes read from the pieces. */
  lemma FieldsFit(b: seq<byte>, s: string, t: string, u: string, v: string)
    requires |b| == SIZE && |s| == 11 && |t| == 3 && |u| == 6 && |v| == 3
    requires InAlphabet(s) && InAlphabet(t) && InAlphabet(u) && InAlphabet(v)
    requires b[0..8] == Bytes(ValueOf(Sextets(s), 64), 8) && b[8..10] == Bytes(ValueOf(Sextets(t), 64), 2)
    requires b[10..14] == Bytes(ValueOf(Sextets(u), 64), 4) && b[14..16] == Bytes(ValueOf(Sextets(v), 64), 2)
    ensures Render(b) == s + t + u + v <==>
            (Lookup(s[0]) < 8 || Lookup(s[0]) >= 56) && Lookup(t[0]) < 16 && Lookup(u[0]) < 4 &&
            (Lookup(v[0]) < 8 || Lookup(v[0]) >= 56)
  {
    PiecesFit(s, t, u, v);
    var x := Unpack(b);
    ConcatEqual(FieldText(x.table, 11), FieldText(x.tablespace, 3), FieldText(x.page, 6), FieldText(x.row, 3),
                s, t, u, v);
  }

  /** A valid text is rendered back exactly when it is canonical; other texts name the same row differently. */
  lemma {:induction false} ParseThenRenderIff(text: string)
    requires Parse(text).Some?
    ensures Render(Parse(text).value) == text <==> CanonicalText(text)
  {
    var b := Parse(text).value;
    var s, t, u, v := text[0..11], text[11..14], text[14..20], text[20..23];
    ParsedPieces(text, b);
    assert text == s + t + u + v;
    FieldsFit(b, s, t, u, v);
  }

  lemma ConcatEqual(a: string, b: string, c: string, d: string, s: string, t: string, u: string, v: string)
    requires |a| == |s| && |b| == |t| && |c| == |u| && |d| == |v|
    ensures a + b + c + d == s + t + u + v <==> a == s && b == t && c == u && d == v
  {
    var x, y := a + b + c + d, s + t + u + v;
    if x == y {
      assert a == x[..|a|] && s == y[..|s|];
      assert b == x[|a|..|a| + |b|] && t == y[|s|..|s| + |t|];
      assert c == x[|a| + |b|..|a| + |b| + |c|] && u == y[|s| + |t|..|s| + |t| + |u|];
      assert d == x[|a| + |b| + |c|..] && v == y[|s| + |t| + |u|..];
    }
  }

  /** A first character of 8 loses its top bit, and the text comes back with A in its place. */
  lemma SecondNameExample(text: string)
    requires text == "IAAAAAAAAAAAAAAAAAAAAAA"
    ensures Parse(text).Some? && Render(Parse(text).value) != text
  {
    assert |text| == TEXT_LENGTH && InAlphabet(text);
    ParseThenRenderIff(text);
  }
}
