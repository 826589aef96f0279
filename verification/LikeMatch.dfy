/** The LIKE operator: analysis of the pattern, choice of a matcher, and the matchers. */
module LikeMatch {
  import opened CArithmetic
  import opened Wrappers
  import opened LikeMeaning
  import opened LikeCharset
  import opened CharacterSets
  import opened LikeCompile
  import opened LikeAtoms
  import opened LikeSearch

  datatype Matcher = MatchAll | MatchConst | BinaryMatch | CharMatch

  datatype PatternInfo = PatternInfo(leading: Option<Pattern>, middles: seq<Pattern>, following: Option<Pattern>,
                                     isConst: bool, matcher: Matcher)

  // ---------- analysis ----------

  ghost predicate RendersOption(p: Option<Pattern>, part: Option<seq<Elem<Char>>>)
  {
    p.Some? == part.Some? && (p.Some? ==> Renders(p.value, part.value))
  }

  ghost predicate RendersAll(ps: seq<Pattern>, parts: seq<seq<Elem<Char>>>)
  {
    |ps| == |parts| && forall k :: 0 <= k < |ps| ==> Renders(ps[k], parts[k])
  }

  ghost predicate RendersInfo(info: PatternInfo, d: Info<Char>)
  {
    RendersOption(info.leading, d.leading) && RendersAll(info.middles, d.middles) &&
    RendersOption(info.following, d.following) && info.isConst == d.isConst
  }

  predicate Cut(d: Info<Char>)
  {
    (d.leading.Some? ==> Free(d.leading.value)) &&
    (forall k :: 0 <= k < |d.middles| ==> d.middles[k] != [] && Free(d.middles[k])) &&
    (d.following.Some? ==> d.following.value != [] && Free(d.following.value)) &&
    (d.isConst ==> d.leading.Some? && d.middles == [] && d.following == None)
  }

  lemma DecomposedIsCut(p: seq<Elem<Char>>)
    ensures Cut(Decomposed(p))
  {
    assert NextAny(p, 0) == |p| || p[NextAny(p, 0)] == Any;
  }

  method MakeOption(part: Option<seq<Elem<Char>>>) returns (p: Option<Pattern>)
    requires part.Some? ==> Free(part.value)
    ensures RendersOption(p, part)
  {
    if part.None? { return None; }
    var made := MakePattern(part.value);
    return Some(made);
  }

  /** Literals only, in every part. */
  predicate NoUnderscore(d: Info<Char>)
  {
    (d.leading.Some? ==> One !in d.leading.value) && (forall k :: 0 <= k < |d.middles| ==> One !in d.middles[k]) &&
    (d.following.Some? ==> One !in d.following.value)
  }

  /** When a matcher may be used: comparing bytes is only for parts without underscores. */
  predicate Suits(matcher: Matcher, d: Info<Char>, binComparable: bool)
  {
    var leadingOnly := d.middles == [] && d.following == None;
    match matcher
    case MatchAll => leadingOnly && d.leading == None
    case MatchConst => d.isConst && NoUnderscore(d)
    case BinaryMatch => !d.isConst && NoUnderscore(d) && (leadingOnly || binComparable)
    case CharMatch => true
  }

  /** Step 5: the kind of pattern. */
  method SelectMatcher(leading: Option<Pattern>, middles: seq<Pattern>, following: Option<Pattern>, isConst: bool,
                       hasUnderscore: bool, binComparable: bool, ghost d: Info<Char>) returns (matcher: Matcher)
    requires Cut(d) && RendersOption(leading, d.leading) && RendersAll(middles, d.middles)
    requires RendersOption(following, d.following) && isConst == d.isConst && hasUnderscore == !NoUnderscore(d)
    ensures Suits(matcher, d, binComparable)
  {
    if leading == None && following == None && middles == [] {
      matcher := MatchAll;
    } else if leading.Some? && following == None && middles == [] {
      if isConst {
        matcher := if !hasUnderscore then MatchConst else CharMatch;
      } else {
        matcher := if !hasUnderscore then BinaryMatch else CharMatch;
      }
    } else {
      matcher := if binComparable && !hasUnderscore then BinaryMatch else CharMatch;
    }
  }

  method Compile(elems: seq<Elem<Char>>, binComparable: bool) returns (info: PatternInfo)
    ensures RendersInfo(info, Decomposed(elems)) && Suits(info.matcher, Decomposed(elems), binComparable)
  {
    var d := Decompose(elems);
    DecomposedIsCut(elems);
    var leading := MakeOption(d.leading);
    var hasUnderscore := false;
    if leading.Some? {
      UnderscoreTest(leading.value, d.leading.value);
      hasUnderscore := HasUnderscore(leading.value);
    }
    var middles, inMiddle := CompileMiddles(d.middles);
    var following := MakeOption(d.following);
    var inFollowing := false;
    if following.Some? {
      UnderscoreTest(following.value, d.following.value);
      inFollowing := HasUnderscore(following.value);
    }
    var matcher := SelectMatcher(leading, middles, following, d.isConst, hasUnderscore || inMiddle || inFollowing,
                                 binComparable, d);
    info := PatternInfo(leading, middles, following, d.isConst, matcher);
  }

  method CompileMiddles(parts: seq<seq<Elem<Char>>>) returns (patterns: seq<Pattern>, hasUnderscore: bool)
    requires forall k :: 0 <= k < |parts| ==> Free(parts[k])
    ensures RendersAll(patterns, parts)
    ensures !hasUnderscore <==> forall k :: 0 <= k < |parts| ==> One !in parts[k]
  {
    patterns, hasUnderscore := [], false;
    for i := 0 to |parts|
      invariant RendersAll(patterns, parts[..i])
      invariant !hasUnderscore <==> forall k :: 0 <= k < i ==> One !in parts[k]
    {
      var made := MakePattern(parts[i]);
      UnderscoreTest(made, parts[i]);
      patterns := patterns + [made];
      if HasUnderscore(made) { hasUnderscore := true; }
    }
    assert parts[..|parts|] == parts;
  }

  // ---------- by character ----------

  ghost predicate PartFrom(cs: iset<Char>, part: seq<Elem<Char>>)
  {
    forall i :: 0 <= i < |part| && part[i].Lit? ==> part[i].c in cs
  }

  ghost predicate CutFrom(cs: iset<Char>, d: Info<Char>)
  {
    (d.leading.Some? ==> PartFrom(cs, d.leading.value)) &&
    (forall k :: 0 <= k < |d.middles| ==> PartFrom(cs, d.middles[k])) &&
    (d.following.Some? ==> PartFrom(cs, d.following.value))
  }

  lemma {:induction false} AtomsFromPart(cs: iset<Char>, atoms: seq<Atom>)
    requires PartFrom(cs, Rejoin(atoms))
    ensures AtomsFrom(cs, atoms)
  {
    if atoms != [] {
      var a, r, rest := atoms[0], Rejoin(atoms), Rejoin(atoms[1..]);
      var n := |AtomElems(a)|;
      forall i | 0 <= i < |rest| && rest[i].Lit?
        ensures rest[i].c in cs
      {
        assert r[n + i] == rest[i];
      }
      AtomsFromPart(cs, atoms[1..]);
      forall i | 0 <= i < |a.text|
        ensures a.text[i] in cs
      {
        assert r[a.underscores + i] == Lit(a.text[i]);
      }
      assert forall i :: 0 < i < |atoms| ==> atoms[i] == atoms[1..][i - 1];
    }
  }

  /** The first part at its leftmost place, then the others. */
  lemma LeftmostFirst<T>(parts: seq<seq<Elem<T>>>, s: seq<T>, from: nat, to: int)
    requires parts != []
    ensures var at := Leftmost(parts[0], s, from);
            Placeable(parts, s, from, to) <==>
            at.Some? && Placeable(parts[1..], s, at.value + |parts[0]|, to)
  {
    var at := Leftmost(parts[0], s, from);
    GreedyIsComplete(parts, s, from, to);
    if at.Some? { GreedyIsComplete(parts[1..], s, at.value + |parts[0]|, to); }
  }

  method GeneralCharMatch(ghost cs: iset<Char>, info: PatternInfo, ghost d: Info<Char>, s: seq<Char>)
    returns (matched: bool)
    requires PrefixFree(cs) && From(cs, s) && Cut(d) && CutFrom(cs, d) && RendersInfo(info, d)
    ensures matched <==> InfoLike(d, s)
  {
    var pos := 0;
    if info.leading.Some? {
      AtomsFromPart(cs, info.leading.value.atoms);
      var end := MatchLeading(cs, info.leading.value, s);
      if end.None? { return false; }
      pos := end.value;
      if info.isConst { return pos == |s|; }
    }
    ghost var to := if d.following.Some? then |s| - |d.following.value| else |s|;
    var end := SearchMiddles(cs, info.middles, d.middles, s, pos, to);
    if end.None? { return false; }
    if info.following.None? { return true; }
    AtomsFromPart(cs, info.following.value.atoms);
    matched := SearchFollowing(cs, info.following.value, s, end.value, to);
  }

  method SearchMiddles(ghost cs: iset<Char>, patterns: seq<Pattern>, ghost parts: seq<seq<Elem<Char>>>, s: seq<Char>,
                       from: nat, ghost to: int) returns (end: Option<nat>)
    requires PrefixFree(cs) && From(cs, s) && from <= |s| && to <= |s| && RendersAll(patterns, parts)
    requires forall k :: 0 <= k < |parts| ==> parts[k] != [] && PartFrom(cs, parts[k])
    ensures Placeable(parts, s, from, to) <==> end.Some? && end.value <= to
    ensures end.Some? ==> end.value <= |s|
  {
    var pos: nat := from;
    assert parts[0..] == parts;
    for k := 0 to |patterns|
      invariant pos <= |s|
      invariant Placeable(parts, s, from, to) <==> Placeable(parts[k..], s, pos, to)
    {
      assert parts[k..][0] == parts[k] && parts[k..][1..] == parts[k + 1..];
      LeftmostFirst(parts[k..], s, pos, to);
      AtomsFromPart(cs, patterns[k].atoms);
      var found := SearchMiddle(cs, patterns[k], s, pos);
      if found.None? { return None; }
      pos := found.value;
    }
    end := Some(pos);
  }

  // ---------- by byte ----------

  /** The leftmost occurrence that ends in time. */
  method SearchBytes(text: seq<byte>, s: seq<byte>, from: nat, to: nat) returns (end: Option<nat>)
    requires text != [] && from <= to <= |s|
    ensures var at := Leftmost(Lits(text), s, from);
            end == if at.Some? && at.value + |text| <= to then Some(at.value + |text|) else None
  {
    var a := from;
    ghost var part := Lits(text);
    while to - a >= |text|
      invariant from <= a <= to
      invariant forall b :: from <= b < a ==> !FitsAt(part, s, b)
    {
      FitsIsSlice(text, s, a);
      if s[a] == text[0] {
        var same := SameBytes(s[a..a + |text|], text);
        if same {
          return Some(a + |text|);
        }
      }
      a := a + 1;
    }
    end := None;
  }

  /** The bytes of a part without underscores. */
  lemma TextBytes(p: Pattern, part: seq<Elem<Char>>)
    requires Free(part) && Renders(p, part) && One !in part
    ensures Literal(part) && |p.atoms| == 1 && Lits(Flat(p.atoms[0].text)) == ByteLits(part)
    ensures part != [] ==> Flat(p.atoms[0].text) != []
  {
    UnderscoreTest(p, part);
    FlatLength(p.atoms[0].text);
  }

  lemma CutIsLiteral(cs: iset<Char>, d: Info<Char>)
    requires Cut(d) && NoUnderscore(d) && CutFrom(cs, d)
    ensures LiteralInfo(d) && InfoFrom(cs, d)
  {
  }

  lemma PlaceableRange<T>(parts: seq<seq<Elem<T>>>, s: seq<T>, from: nat, to: int)
    requires Placeable(parts, s, from, to)
    ensures from <= to
  {
    GreedyIsComplete(parts, s, from, to);
  }

  method TextAtByte(text: seq<byte>, s: seq<byte>, x: nat) returns (same: bool)
    requires x + |text| <= |s|
    ensures same <==> FitsAt(Lits(text), s, x)
  {
    FitsIsSlice(text, s, x);
    SliceIsPrefix(text, s, x);
    same := SameBytes(s[x..], text);
  }

  ghost predicate RendersBytes(p: Pattern, part: seq<Elem<byte>>)
  {
    |p.atoms| == 1 && part == Lits(Flat(p.atoms[0].text))
  }

  ghost predicate RendersByteInfo(info: PatternInfo, b: Info<byte>)
  {
    info.leading.Some? == b.leading.Some? && (b.leading.Some? ==> RendersBytes(info.leading.value, b.leading.value)) &&
    |info.middles| == |b.middles| &&
    (forall k :: 0 <= k < |b.middles| ==> b.middles[k] != [] && RendersBytes(info.middles[k], b.middles[k])) &&
    info.following.Some? == b.following.Some? &&
    (b.following.Some? ==> RendersBytes(info.following.value, b.following.value))
  }

  method SearchByteMiddles(patterns: seq<Pattern>, ghost parts: seq<seq<Elem<byte>>>, s: seq<byte>, from: nat, to: nat)
    returns (found: bool)
    requires |patterns| == |parts| && from <= to <= |s|
    requires forall k :: 0 <= k < |parts| ==> parts[k] != [] && RendersBytes(patterns[k], parts[k])
    ensures found <==> Placeable(parts, s, from, to)
  {
    var pos: nat := from;
    assert parts[0..] == parts;
    for k := 0 to |patterns|
      invariant from <= pos <= to
      invariant Placeable(parts, s, from, to) <==> Placeable(parts[k..], s, pos, to)
    {
      assert parts[k..][0] == parts[k] && parts[k..][1..] == parts[k + 1..];
      LeftmostFirst(parts[k..], s, pos, to);
      var end := SearchBytes(Flat(patterns[k].atoms[0].text), s, pos, to);
      if end.None? {
        var at := Leftmost(parts[k], s, pos);
        if at.Some? && Placeable(parts[k + 1..], s, at.value + |parts[k]|, to) {
          PlaceableRange(parts[k + 1..], s, at.value + |parts[k]|, to);
        }
        return false;
      }
      pos := end.value;
    }
    found := true;
  }

  /** Leading part, then the following part cut off the end, then the middle parts in what is left. */
  method MatchBytes(info: PatternInfo, ghost b: Info<byte>, bytes: seq<byte>) returns (matched: bool)
    requires RendersByteInfo(info, b) && !b.isConst
    ensures matched <==> InfoLike(b, bytes)
  {
    var pos, end := 0, |bytes|;
    if info.leading.Some? {
      var text := Flat(info.leading.value.atoms[0].text);
      if end - pos < |text| { return false; }
      var same := TextAtByte(text, bytes, pos);
      if !same { return false; }
      pos := |text|;
    }
    if info.following.Some? {
      var text := Flat(info.following.value.atoms[0].text);
      if end - pos < |text| {
        if TailLike(b.middles, b.following, bytes, pos) { PlaceableRange(b.middles, bytes, pos, end - |text|); }
        return false;
      }
      end := end - |text|;
      var same := TextAtByte(text, bytes, end);
      if !same { return false; }
    }
    matched := SearchByteMiddles(info.middles, b.middles, bytes, pos, end);
  }

  lemma ByteInfoRenders(info: PatternInfo, d: Info<Char>)
    requires Cut(d) && NoUnderscore(d) && LiteralInfo(d) && RendersInfo(info, d)
    ensures RendersByteInfo(info, ByteInfo(d))
  {
    if d.leading.Some? { TextBytes(info.leading.value, d.leading.value); }
    if d.following.Some? { TextBytes(info.following.value, d.following.value); }
    forall k | 0 <= k < |d.middles|
      ensures ByteParts(d.middles)[k] != [] && RendersBytes(info.middles[k], ByteParts(d.middles)[k])
    {
      TextBytes(info.middles[k], d.middles[k]);
      BytePartsAt(d.middles, k);
    }
  }

  lemma {:induction false} BytePartsAt(parts: seq<seq<Elem<Char>>>, k: nat)
    requires AllLiteral(parts) && k < |parts|
    ensures ByteParts(parts)[k] == ByteLits(parts[k])
  {
    if k > 0 { BytePartsAt(parts[1..], k - 1); }
  }

  method GeneralBinaryMatch(ghost cs: iset<Char>, info: PatternInfo, ghost d: Info<Char>, s: seq<Char>)
    returns (matched: bool)
    requires PrefixFree(cs) && From(cs, s) && Cut(d) && CutFrom(cs, d) && RendersInfo(info, d)
    requires !d.isConst && NoUnderscore(d)
    requires (d.middles == [] && d.following == None) || SelfSynchronising(cs)
    ensures matched <==> InfoLike(d, s)
  {
    CutIsLiteral(cs, d);
    ByteInfoLike(cs, d, s);
    ByteInfoRenders(info, d);
    matched := MatchBytes(info, ByteInfo(d), Flat(s));
  }

  /** A constant: same length, same bytes. */
  method ConstMatch(ghost cs: iset<Char>, info: PatternInfo, ghost d: Info<Char>, s: seq<Char>) returns (matched: bool)
    requires PrefixFree(cs) && From(cs, s) && Cut(d) && CutFrom(cs, d) && RendersInfo(info, d)
    requires d.isConst && NoUnderscore(d)
    ensures matched <==> InfoLike(d, s)
  {
    CutIsLiteral(cs, d);
    ByteInfoLike(cs, d, s);
    TextBytes(info.leading.value, d.leading.value);
    var text, bytes := Flat(info.leading.value.atoms[0].text), Flat(s);
    if |bytes| != |text| {
      matched := false;
    } else {
      matched := TextAtByte(text, bytes, 0);
    }
  }

  // ---------- the operator ----------

  lemma PartsFromElems(cs: iset<Char>, p: seq<Elem<Char>>, i: nat)
    requires i <= |p| && PartFrom(cs, p)
    ensures forall k :: 0 <= k < |Parts(p, i)| ==> PartFrom(cs, Parts(p, i)[k])
    decreases |p| - i
  {
    var j := SkipAny(p, i);
    if j < |p| { PartsFromElems(cs, p, NextAny(p, j)); }
  }

  lemma DecomposedFrom(cs: iset<Char>, p: seq<Elem<Char>>)
    requires PartFrom(cs, p)
    ensures CutFrom(cs, Decomposed(p))
  {
    PartsFromElems(cs, p, NextAny(p, 0));
  }

  /** A compiled pattern accepts exactly the strings the pattern means. */
  method Match(ghost cs: iset<Char>, info: PatternInfo, ghost elems: seq<Elem<Char>>, ghost binComparable: bool,
               s: seq<Char>) returns (matched: bool)
    requires PrefixFree(cs) && From(cs, s) && PartFrom(cs, elems) && (binComparable ==> SelfSynchronising(cs))
    requires RendersInfo(info, Decomposed(elems)) && Suits(info.matcher, Decomposed(elems), binComparable)
    ensures matched <==> Like(elems, s)
  {
    ghost var d := Decomposed(elems);
    DecomposedIsCut(elems);
    DecomposedFrom(cs, elems);
    DecompositionMeaning(elems, s);
    match info.matcher {
      case MatchAll => matched := true;
      case MatchConst => matched := ConstMatch(cs, info, d, s);
      case BinaryMatch => matched := GeneralBinaryMatch(cs, info, d, s);
      case CharMatch => matched := GeneralCharMatch(cs, info, d, s);
    }
  }

  datatype Verdict = Accepted | Rejected | BadPattern | BadEscape

  /** What LIKE means, with its two errors. */
  function Meaning(pattern: seq<Char>, escape: Option<seq<Char>>, s: seq<Char>): Verdict
  {
    match Parse(pattern, escape)
    case InvalidPattern => BadPattern
    case InvalidEscape => BadEscape
    case Parsed(elems) => if Like(elems, s) then Accepted else Rejected
  }

  /** Comparing the bytes of the escape with those of the pattern tells whether the next character is the escape. */
  lemma EscapeByBytes(charset: CharacterSet, escape: Char, text: seq<Char>)
    requires escape in Repertoire(charset) && From(Repertoire(charset), text) && text != []
    ensures Flat([escape]) == escape && (escape <= Flat(text) <==> text[0] == escape)
  {
    var one := [escape];
    RepertoireIsPrefixFree(charset);
    assert one[1..] == [];
    BytePrefixIsCharPrefix(Repertoire(charset), one, text);
    assert one <= text <==> text[0] == escape;
  }

  /** The operator from end to end, for every pattern, escape and string over a database character set. */
  method LikeOperator(charset: CharacterSet, pattern: seq<Char>, escape: Option<seq<Char>>, s: seq<Char>)
    returns (verdict: Verdict)
    requires From(Repertoire(charset), pattern) && From(Repertoire(charset), s)
    requires escape.Some? ==> From(Repertoire(charset), escape.value)
    ensures verdict == Meaning(pattern, escape, s)
  {
    ghost var cs := Repertoire(charset);
    RepertoireIsPrefixFree(charset);
    BinaryComparableIff(charset);
    var parsed := ParsePattern(pattern, escape);
    match parsed {
      case InvalidPattern => verdict := BadPattern;
      case InvalidEscape => verdict := BadEscape;
      case Parsed(elems) =>
        ParsedFrom(cs, pattern, escape);
        var info := Compile(elems, BinaryComparable(charset));
        var matched := Match(cs, info, elems, BinaryComparable(charset), s);
        verdict := if matched then Accepted else Rejected;
    }
  }

  lemma {:induction false} UnescapedFrom(cs: iset<Char>, text: seq<Char>, escape: Char)
    requires From(cs, text) && Unescaped(text, escape).Some?
    ensures PartFrom(cs, Unescaped(text, escape).value)
  {
    if text != [] {
      UnescapedFrom(cs, if text[0] == escape then text[2..] else text[1..], escape);
    }
  }

  lemma ParsedFrom(cs: iset<Char>, pattern: seq<Char>, escape: Option<seq<Char>>)
    requires From(cs, pattern) && Parse(pattern, escape).Parsed?
    ensures PartFrom(cs, Parse(pattern, escape).elems)
  {
    if escape.Some? { UnescapedFrom(cs, pattern, escape.value[0]); }
  }
}
