/** The searches of the matchers: by character, atom by atom, and by byte. */
module LikeSearch {
  import opened CArithmetic
  import opened Wrappers
  import opened LikeMeaning
  import opened LikeCharset
  import opened LikeAtoms

  // ---------- a part, atom by atom ----------

  lemma FitsSplit<T>(p: seq<Elem<T>>, q: seq<Elem<T>>, s: seq<T>, x: nat)
    ensures FitsAt(p + q, s, x) <==> FitsAt(p, s, x) && FitsAt(q, s, x + |p|)
  {
    if FitsAt(p + q, s, x) {
      forall j | 0 <= j < |p|
        ensures ElemFits(p[j], s[x + j])
      {
        assert ElemFits((p + q)[j], s[x + j]);
      }
      forall j | 0 <= j < |q|
        ensures ElemFits(q[j], s[x + |p| + j])
      {
        assert ElemFits((p + q)[|p| + j], s[x + (|p| + j)]);
      }
    }
    if FitsAt(p, s, x) && FitsAt(q, s, x + |p|) {
      forall j | 0 <= j < |p + q|
        ensures ElemFits((p + q)[j], s[x + j])
      {
        if j >= |p| { assert ElemFits(q[j - |p|], s[x + |p| + (j - |p|)]); }
      }
    }
  }

  lemma LitsFit<T>(t: seq<T>, s: seq<T>, x: nat)
    requires x <= |s|
    ensures FitsAt(Lits(t), s, x) <==> t <= s[x..]
  {
    if FitsAt(Lits(t), s, x) {
      forall j | 0 <= j < |t|
        ensures t[j] == s[x..][j]
      {
        assert ElemFits(Lits(t)[j], s[x + j]);
      }
    }
  }

  lemma AtomFits(atoms: seq<Atom>, i: nat, s: seq<Char>, x: nat)
    requires i < |atoms|
    ensures |Rejoin(atoms[i..])| == atoms[i].underscores + |atoms[i].text| + |Rejoin(atoms[i + 1..])|
    ensures var y := x + atoms[i].underscores;
            FitsAt(Rejoin(atoms[i..]), s, x) <==>
            y <= |s| && atoms[i].text <= s[y..] && FitsAt(Rejoin(atoms[i + 1..]), s, y + |atoms[i].text|)
  {
    var a, tail := atoms[i], Rejoin(atoms[i + 1..]);
    var y := x + a.underscores;
    assert atoms[i..][0] == a && atoms[i..][1..] == atoms[i + 1..];
    FitsSplit(AtomElems(a), tail, s, x);
    FitsSplit(Ones(a.underscores), Lits(a.text), s, x);
    if y <= |s| { LitsFit(a.text, s, y); }
  }

  lemma {:induction false} RejoinSuffix(atoms: seq<Atom>, i: nat)
    requires i <= |atoms|
    ensures |Rejoin(atoms[i..])| <= |Rejoin(atoms)|
    ensures Rejoin(atoms)[|Rejoin(atoms)| - |Rejoin(atoms[i..])|..] == Rejoin(atoms[i..])
  {
    if i > 0 {
      RejoinSuffix(atoms[1..], i - 1);
      assert atoms[1..][i - 1..] == atoms[i..];
    } else {
      assert atoms[0..] == atoms;
    }
  }

  /** Characters of the part before atom i. */
  function Before(atoms: seq<Atom>, i: nat): (n: nat)
    requires i <= |atoms|
  {
    RejoinSuffix(atoms, i);
    |Rejoin(atoms)| - |Rejoin(atoms[i..])|
  }

  lemma TailFits(atoms: seq<Atom>, i: nat, s: seq<Char>, b: nat, z: nat)
    requires i <= |atoms| && z == b + Before(atoms, i) && FitsAt(Rejoin(atoms), s, b)
    ensures FitsAt(Rejoin(atoms[i..]), s, z)
  {
    RejoinSuffix(atoms, i);
    var n := Before(atoms, i);
    assert Rejoin(atoms) == Rejoin(atoms)[..n] + Rejoin(atoms[i..]);
    FitsSplit(Rejoin(atoms)[..n], Rejoin(atoms[i..]), s, b);
  }

  lemma PrefixBytes(t: seq<Char>, s: seq<Char>)
    requires t <= s
    ensures ByteLen(t) <= ByteLen(s)
  {
    assert s == t + s[|t|..];
    FlatConcat(t, s[|t|..]);
  }

  /**
   Wherever the part still fits at or after a start, there is room for its i-th atom at the place
   that atom has for this start: running out of room rules out every later start as well.
   */
  lemma {:induction false} RoomForAtom(atoms: seq<Atom>, i: nat, s: seq<Char>, a: nat, x: nat, y: nat, b: nat)
    requires i < |atoms| && x == a + Before(atoms, i) && y == x + atoms[i].underscores
    requires a <= b && FitsAt(Rejoin(atoms), s, b)
    ensures y <= |s| && ByteLen(atoms[i].text) <= ByteLen(s[y..]) <= ByteLen(s[x..])
  {
    AtomThere(atoms, i, s, b, b + Before(atoms, i));
    RoomEarlier(atoms[i].text, s, x, y, y + b - a);
  }

  lemma {:induction false} AtomThere(atoms: seq<Atom>, i: nat, s: seq<Char>, b: nat, z: nat)
    requires i < |atoms| && z == b + Before(atoms, i) && FitsAt(Rejoin(atoms), s, b)
    ensures z + atoms[i].underscores <= |s| && atoms[i].text <= s[z + atoms[i].underscores..]
  {
    TailFits(atoms, i, s, b, z);
    NextAtomThere(atoms, i, s, z);
  }

  lemma NextAtomThere(atoms: seq<Atom>, i: nat, s: seq<Char>, z: nat)
    requires i < |atoms| && FitsAt(Rejoin(atoms[i..]), s, z)
    ensures z + atoms[i].underscores <= |s| && atoms[i].text <= s[z + atoms[i].underscores..]
  {
    AtomFits(atoms, i, s, z);
  }

  lemma RoomEarlier(t: seq<Char>, s: seq<Char>, x: nat, y: nat, z: nat)
    requires x <= y <= z <= |s| && t <= s[z..]
    ensures ByteLen(t) <= ByteLen(s[y..]) <= ByteLen(s[x..])
  {
    PrefixBytes(t, s[z..]);
    RestLength(s, x, y);
    RestLength(s, y, z);
  }

  /** A part never fits in fewer bytes than its own length. */
  lemma {:induction false} RoomForPart(part: seq<Elem<Char>>, s: seq<Char>, b: nat)
    requires FitsAt(part, s, b)
    ensures PartBytes(part) <= ByteLen(s[b..])
  {
    if part != [] {
      assert ElemFits(part[0], s[b + 0]);
      FitsShift(part, s, b);
      FitsStep(part, s[b..]);
      assert s[b..][1..] == s[b + 1..];
      FitsShift(part[1..], s, b + 1);
      RoomForPart(part[1..], s, b + 1);
      RestLength(s, b, b + 1);
      assert s[b..b + 1] == [s[b]] && Flat([s[b]]) == s[b] + Flat([]);
    }
  }

  lemma NonEmptyRest(s: seq<Char>, y: nat)
    requires y <= |s| && ByteLen(s[y..]) > 0
    ensures y < |s|
  {
    assert s[|s|..] == [];
  }

  // ---------- comparisons ----------

  /** First byte, then the rest. */
  method SameBytes(a: seq<byte>, b: seq<byte>) returns (same: bool)
    requires |b| <= |a|
    ensures same <==> b <= a
  {
    if b == [] { return true; }
    if a[0] != b[0] { return false; }
    same := a[1..|b|] == b[1..];
    assert a[..|b|] == [a[0]] + a[1..|b|] && b == [b[0]] + b[1..];
  }

  ghost predicate AtomsFrom(cs: iset<Char>, atoms: seq<Atom>)
  {
    forall i :: 0 <= i < |atoms| ==> From(cs, atoms[i].text)
  }

  /** Comparing bytes at a character boundary compares characters. */
  method TextAt(ghost cs: iset<Char>, s: seq<Char>, x: nat, t: seq<Char>) returns (same: bool)
    requires PrefixFree(cs) && From(cs, s) && From(cs, t)
    requires x <= |s| && ByteLen(t) <= ByteLen(s[x..])
    ensures same <==> t <= s[x..]
  {
    same := SameBytes(Flat(s[x..]), Flat(t));
    BytePrefixIsCharPrefix(cs, t, s[x..]);
  }

  method SkipOnes(s: seq<Char>, x: nat, count: nat) returns (y: Option<nat>)
    requires x <= |s|
    ensures y == if x + count <= |s| then Some(x + count) else None
  {
    var at := x;
    for j := 0 to count
      invariant at == x + j <= |s|
    {
      if at >= |s| { return None; }
      at := at + 1;
    }
    y := Some(at);
  }

  // ---------- by character ----------

  datatype Attempt = Hit(next: nat) | Miss | Exhausted

  /** The string ends before the i-th atom does. */
  ghost predicate OutOfRoom(atom: Atom, s: seq<Char>, x: nat)
    requires x <= |s|
  {
    x + atom.underscores > |s| || ByteLen(s[x + atom.underscores..]) < ByteLen(atom.text)
  }

  /** One atom: skip its underscores, check that its bytes are there, compare them. */
  method MatchAtom(ghost cs: iset<Char>, atoms: seq<Atom>, i: nat, s: seq<Char>, x: nat) returns (outcome: Attempt)
    requires PrefixFree(cs) && From(cs, s) && AtomsFrom(cs, atoms)
    requires i < |atoms| && x <= |s|
    ensures outcome.Exhausted? <==> OutOfRoom(atoms[i], s, x)
    ensures outcome.Hit? ==> outcome.next + |Rejoin(atoms[i + 1..])| == x + |Rejoin(atoms[i..])| && outcome.next <= |s|
    ensures outcome.Hit? ==> (FitsAt(Rejoin(atoms[i..]), s, x) <==> FitsAt(Rejoin(atoms[i + 1..]), s, outcome.next))
    ensures !outcome.Hit? ==> !FitsAt(Rejoin(atoms[i..]), s, x)
    ensures outcome.Miss? ==> x < |s|
  {
    AtomFits(atoms, i, s, x);
    var atom := atoms[i];
    var skipped := SkipOnes(s, x, atom.underscores);
    if skipped.None? { return Exhausted; }
    outcome := MatchText(cs, s, skipped.value, atom.text);
  }

  /** The bytes of an atom: are they there, and are they the same. */
  method MatchText(ghost cs: iset<Char>, s: seq<Char>, y: nat, text: seq<Char>) returns (outcome: Attempt)
    requires PrefixFree(cs) && From(cs, s) && From(cs, text) && y <= |s|
    ensures outcome.Exhausted? <==> ByteLen(s[y..]) < ByteLen(text)
    ensures outcome.Hit? <==> text <= s[y..]
    ensures outcome.Hit? ==> outcome.next == y + |text| <= |s|
    ensures outcome.Miss? ==> y < |s|
  {
    if text == [] { return Hit(y); }
    if text <= s[y..] { PrefixBytes(text, s[y..]); }
    if ByteLen(s[y..]) < ByteLen(text) { return Exhausted; }
    var same := TextAt(cs, s, y, text);
    if same { return Hit(y + |text|); }
    FlatLength(text);
    NonEmptyRest(s, y);
    return Miss;
  }

  /** The leading part, at the start. */
  method MatchLeading(ghost cs: iset<Char>, p: Pattern, s: seq<Char>) returns (end: Option<nat>)
    requires PrefixFree(cs) && From(cs, s) && AtomsFrom(cs, p.atoms)
    ensures end == if FitsAt(Rejoin(p.atoms), s, 0) then Some(|Rejoin(p.atoms)|) else None
  {
    var x: nat, i := 0, 0;
    assert p.atoms[0..] == p.atoms;
    while i < |p.atoms|
      invariant i <= |p.atoms| && x <= |s|
      invariant x + |Rejoin(p.atoms[i..])| == |Rejoin(p.atoms)|
      invariant FitsAt(Rejoin(p.atoms), s, 0) <==> FitsAt(Rejoin(p.atoms[i..]), s, x)
    {
      var outcome := MatchAtom(cs, p.atoms, i, s, x);
      if !outcome.Hit? { return None; }
      x := outcome.next;
      i := i + 1;
    }
    end := Some(x);
  }

  /** No start in a range is a place for the part. */
  ghost predicate NoneBefore(part: seq<Elem<Char>>, s: seq<Char>, from: nat, a: nat)
  {
    forall b :: from <= b < a ==> !FitsAt(part, s, b)
  }

  /** Standing at atom i for a start a: the atoms before it fit. */
  ghost predicate Standing(atoms: seq<Atom>, i: nat, s: seq<Char>, a: nat, x: nat)
  {
    i <= |atoms| && a <= x <= |s| && x + |Rejoin(atoms[i..])| == a + |Rejoin(atoms)| &&
    (FitsAt(Rejoin(atoms), s, a) <==> FitsAt(Rejoin(atoms[i..]), s, x))
  }

  lemma StandingAtStart(atoms: seq<Atom>, s: seq<Char>, a: nat)
    requires a <= |s|
    ensures Standing(atoms, 0, s, a, a)
  {
    assert atoms[0..] == atoms;
  }

  lemma StandingAtEnd(atoms: seq<Atom>, s: seq<Char>, a: nat, x: nat)
    requires Standing(atoms, |atoms|, s, a, x)
    ensures FitsAt(Rejoin(atoms), s, a) && x == a + |Rejoin(atoms)|
  {
    assert atoms[|atoms|..] == [];
  }

  /** The search stands at atom i for the start a, and no start before a is a place for the part. */
  ghost predicate Searching(atoms: seq<Atom>, i: nat, s: seq<Char>, from: nat, a: nat, x: nat)
  {
    i < |atoms| && from <= a && Standing(atoms, i, s, a, x) && NoneBefore(Rejoin(atoms), s, from, a)
  }

  ghost function Found(part: seq<Elem<Char>>, s: seq<Char>, from: nat): Option<nat>
  {
    var at := Leftmost(part, s, from);
    if at.Some? then Some(at.value + |part|) else None
  }

  /** Over with a result, or on to the next atom, or to the first atom one character later. */
  datatype Progress = Over(end: Option<nat>) | Next(start: nat, at: nat, atom: nat)

  method SearchStep(ghost cs: iset<Char>, atoms: seq<Atom>, s: seq<Char>, ghost from: nat, a: nat, x: nat, i: nat)
    returns (step: Progress)
    requires PrefixFree(cs) && From(cs, s) && AtomsFrom(cs, atoms) && Searching(atoms, i, s, from, a, x)
    ensures step.Over? ==> step.end == Found(Rejoin(atoms), s, from)
    ensures step.Next? ==> Searching(atoms, step.atom, s, from, step.start, step.at)
    ensures step.Next? ==> step.start > a || (step.start == a && step.atom > i)
  {
    var outcome := MatchAtom(cs, atoms, i, s, x);
    match outcome {
      case Exhausted =>
        NoLater(atoms, i, s, from, a, x);
        step := Over(None);
      case Hit(next) =>
        if i + 1 == |atoms| {
          StandingAtEnd(atoms, s, a, next);
          FoundLeftmost(Rejoin(atoms), s, from, a);
          step := Over(Some(next));
        } else {
          step := Next(a, next, i + 1);
        }
      case Miss =>
        NotHere(atoms, i, s, from, a, x);
        StandingAtStart(atoms, s, a + 1);
        step := Next(a + 1, a + 1, 0);
    }
  }

  /** A middle part: the leftmost place, restarting one character later after a mismatch. */
  method SearchMiddle(ghost cs: iset<Char>, p: Pattern, s: seq<Char>, from: nat) returns (end: Option<nat>)
    requires PrefixFree(cs) && From(cs, s) && AtomsFrom(cs, p.atoms)
    requires p.atoms != [] && from <= |s|
    ensures end == Found(Rejoin(p.atoms), s, from)
  {
    var a: nat, x: nat, i: nat := from, from, 0;
    StandingAtStart(p.atoms, s, from);
    while ByteLen(s[x..]) >= ByteLen(p.atoms[i].text)
      invariant Searching(p.atoms, i, s, from, a, x)
      decreases |s| - a, |p.atoms| - i
    {
      var step := SearchStep(cs, p.atoms, s, from, a, x, i);
      if step.Over? { return step.end; }
      a, x, i := step.start, step.at, step.atom;
    }
    NoLater(p.atoms, i, s, from, a, x);
    end := None;
  }

  lemma NotHere(atoms: seq<Atom>, i: nat, s: seq<Char>, from: nat, a: nat, x: nat)
    requires Standing(atoms, i, s, a, x) && !FitsAt(Rejoin(atoms[i..]), s, x)
    requires NoneBefore(Rejoin(atoms), s, from, a)
    ensures NoneBefore(Rejoin(atoms), s, from, a + 1)
  {
    assert !FitsAt(Rejoin(atoms), s, a);
  }

  lemma FoundLeftmost(part: seq<Elem<Char>>, s: seq<Char>, from: nat, a: nat)
    requires from <= a && NoneBefore(part, s, from, a) && FitsAt(part, s, a)
    ensures Leftmost(part, s, from) == Some(a)
  {
  }

  lemma NoLater(atoms: seq<Atom>, i: nat, s: seq<Char>, from: nat, a: nat, x: nat)
    requires i < |atoms| && from <= a && Standing(atoms, i, s, a, x) && NoneBefore(Rejoin(atoms), s, from, a)
    requires OutOfRoom(atoms[i], s, x) || ByteLen(s[x..]) < ByteLen(atoms[i].text)
    ensures Leftmost(Rejoin(atoms), s, from) == None
  {
    var at := Leftmost(Rejoin(atoms), s, from);
    if at.Some? { RoomForAtom(atoms, i, s, a, x, x + atoms[i].underscores, at.value); }
  }

  lemma {:induction false} NowhereLater(atoms: seq<Atom>, i: nat, s: seq<Char>, a: nat, x: nat, b: nat)
    requires i < |atoms| && x == a + Before(atoms, i) <= |s| && OutOfRoom(atoms[i], s, x) && a <= b
    ensures !FitsAt(Rejoin(atoms), s, b)
  {
    if FitsAt(Rejoin(atoms), s, b) { RoomForAtom(atoms, i, s, a, x, x + atoms[i].underscores, b); }
  }

  /** All atoms of a part, from one start. */
  method MatchFrom(ghost cs: iset<Char>, p: Pattern, s: seq<Char>, a: nat) returns (outcome: Attempt)
    requires PrefixFree(cs) && From(cs, s) && AtomsFrom(cs, p.atoms) && a <= |s|
    ensures outcome.Hit? ==> FitsAt(Rejoin(p.atoms), s, a) && outcome.next == a + |Rejoin(p.atoms)|
    ensures outcome.Miss? ==> !FitsAt(Rejoin(p.atoms), s, a)
    ensures outcome.Exhausted? ==> forall b :: a <= b ==> !FitsAt(Rejoin(p.atoms), s, b)
  {
    var x, i := a, 0;
    StandingAtStart(p.atoms, s, a);
    while i < |p.atoms|
      invariant i <= |p.atoms| && Standing(p.atoms, i, s, a, x)
    {
      outcome := MatchAtom(cs, p.atoms, i, s, x);
      match outcome {
        case Exhausted =>
          forall b | a <= b ensures !FitsAt(Rejoin(p.atoms), s, b) { NowhereLater(p.atoms, i, s, a, x, b); }
          return;
        case Miss =>
          return;
        case Hit(next) =>
          x := next;
          i := i + 1;
      }
    }
    StandingAtEnd(p.atoms, s, a, x);
    return Hit(x);
  }

  /** The following part: each start in turn, until one fits and ends where the string ends. */
  method SearchFollowing(ghost cs: iset<Char>, p: Pattern, s: seq<Char>, from: nat, ghost at: int) returns (found: bool)
    requires PrefixFree(cs) && From(cs, s) && AtomsFrom(cs, p.atoms) && at + |Rejoin(p.atoms)| == |s|
    requires p.length == PartBytes(Rejoin(p.atoms)) > 0 && from <= |s|
    ensures found <==> EndPlace(Rejoin(p.atoms), s, from, at)
  {
    ghost var part := Rejoin(p.atoms);
    var a := from;
    while ByteLen(s[a..]) >= p.length
      invariant from <= a <= |s| && (EndPlace(part, s, from, at) ==> a <= at)
    {
      var outcome := MatchFrom(cs, p, s, a);
      if outcome.Exhausted? { return false; }
      if outcome.Hit? && outcome.next == |s| { return true; }
      NonEmptyRest(s, a);
      a := a + 1;
    }
    NoRoomAtEnd(part, s, a, at);
    found := false;
  }

  /** The part fits at the given place, not before the search starts. */
  ghost predicate EndPlace(part: seq<Elem<Char>>, s: seq<Char>, from: nat, at: int)
  {
    from <= at && FitsAt(part, s, at)
  }

  lemma NoRoomAtEnd(part: seq<Elem<Char>>, s: seq<Char>, a: nat, at: int)
    requires a <= |s| && ByteLen(s[a..]) < PartBytes(part) && at <= |s|
    ensures at >= a ==> !FitsAt(part, s, at)
  {
    if at >= a && FitsAt(part, s, at) {
      RoomForPart(part, s, at);
      RestLength(s, a, at);
    }
  }
}
