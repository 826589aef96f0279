/** The cut of a part at `_` into atoms, each with the number of underscores before it. */
module LikeAtoms {
  import opened LikeMeaning
  import opened LikeCharset

  datatype Atom = Atom(underscores: nat, text: seq<Char>)

  /** A part as the matchers see it: its atoms and its length in bytes. */
  datatype Pattern = Pattern(atoms: seq<Atom>, length: nat)

  function Ones(n: nat): (r: seq<Elem<Char>>)
    ensures |r| == n && forall i :: 0 <= i < n ==> r[i] == One
  {
    seq(n, _ => One)
  }

  function AtomElems(a: Atom): seq<Elem<Char>>
  {
    Ones(a.underscores) + Lits(a.text)
  }

  /** The part that a list of atoms stands for. */
  function Rejoin(atoms: seq<Atom>): seq<Elem<Char>>
  {
    if atoms == [] then [] else AtomElems(atoms[0]) + Rejoin(atoms[1..])
  }

  /** Later atoms follow an underscore; only a last atom after an underscore may be empty. */
  predicate Shaped(atoms: seq<Atom>)
  {
    forall i :: 0 <= i < |atoms| ==>
      (i > 0 ==> atoms[i].underscores > 0) &&
      (atoms[i].text == [] ==> i == |atoms| - 1 && atoms[i].underscores > 0)
  }

  function PartBytes(part: seq<Elem<Char>>): nat
  {
    if part == [] then 0 else (if part[0].Lit? then |part[0].c| else 1) + PartBytes(part[1..])
  }

  /** The pattern of a part: its atoms rejoin to the part, and no other list of atoms does. */
  ghost predicate Renders(pattern: Pattern, part: seq<Elem<Char>>)
  {
    pattern.length == PartBytes(part) && pattern.atoms != [] && Rejoin(pattern.atoms) == part &&
    if part == [] then pattern.atoms == [Atom(0, [])] else Shaped(pattern.atoms)
  }

  lemma {:induction false} RejoinAppend(atoms: seq<Atom>, a: Atom)
    ensures Rejoin(atoms + [a]) == Rejoin(atoms) + AtomElems(a)
  {
    if atoms == [] {
      assert [a][1..] == [] && atoms + [a] == [a];
    } else {
      assert (atoms + [a])[1..] == atoms[1..] + [a];
      RejoinAppend(atoms[1..], a);
    }
  }

  /** Giving the last atom one more character. */
  lemma RejoinExtend(atoms: seq<Atom>, a: Atom, c: Char)
    ensures Rejoin(atoms + [a.(text := a.text + [c])]) == Rejoin(atoms + [a]) + [Lit(c)]
  {
    RejoinAppend(atoms, a);
    RejoinAppend(atoms, a.(text := a.text + [c]));
    assert Lits(a.text + [c]) == Lits(a.text) + [Lit(c)];
  }

  /** Atoms begun in the first n elements. */
  function AtomsBegun(part: seq<Elem<Char>>, n: nat): nat
    requires n <= |part|
  {
    if n == 0 then 0
    else AtomsBegun(part, n - 1) + if part[n - 1] != One && (n == 1 || part[n - 2] == One) then 1 else 0
  }

  method CountAtoms(part: seq<Elem<Char>>) returns (count: nat, started: bool)
    ensures started == (part != [] && part[|part| - 1] != One)
    ensures count == AtomsBegun(part, |part|) + if started then 0 else 1
  {
    count, started := 0, false;
    for i := 0 to |part|
      invariant count == AtomsBegun(part, i) && started == (i > 0 && part[i - 1] != One)
    {
      if part[i] == One {
        started := false;
      } else if !started {
        count := count + 1;
        started := true;
      }
    }
    if !started { count := count + 1; }
  }

  /** What the fill loop has done: full atoms, then pending underscores. */
  ghost predicate Filled(atoms: seq<Atom>, pending: nat, started: bool, done: seq<Elem<Char>>)
  {
    Shaped(atoms) && (started ==> atoms != []) && (started || atoms == [] || pending > 0) &&
    (forall i :: 0 <= i < |atoms| ==> atoms[i].text != []) &&
    done == Rejoin(atoms) + if started then [] else Ones(pending)
  }

  lemma FillOne(atoms: seq<Atom>, pending: nat, started: bool, done: seq<Elem<Char>>)
    requires Filled(atoms, pending, started, done)
    ensures Filled(atoms, if started then 1 else pending + 1, false, done + [One])
  {
    if !started { assert Ones(pending + 1) == Ones(pending) + [One]; }
  }

  lemma FillBegin(atoms: seq<Atom>, pending: nat, done: seq<Elem<Char>>, c: Char)
    requires Filled(atoms, pending, false, done)
    ensures Filled(atoms + [Atom(pending, [c])], pending, true, done + [Lit(c)])
  {
    RejoinAppend(atoms, Atom(pending, [c]));
    assert AtomElems(Atom(pending, [c])) == Ones(pending) + [Lit(c)];
  }

  function Extended(atoms: seq<Atom>, c: Char): seq<Atom>
    requires atoms != []
  {
    var a := atoms[|atoms| - 1];
    atoms[|atoms| - 1 := a.(text := a.text + [c])]
  }

  lemma FillExtend(atoms: seq<Atom>, pending: nat, done: seq<Elem<Char>>, c: Char)
    requires Filled(atoms, pending, true, done)
    ensures Filled(Extended(atoms, c), pending, true, done + [Lit(c)])
  {
    var init, a := atoms[..|atoms| - 1], atoms[|atoms| - 1];
    RejoinExtend(init, a, c);
    assert init + [a] == atoms && init + [a.(text := a.text + [c])] == Extended(atoms, c);
  }

  lemma FillEnd(atoms: seq<Atom>, pending: nat, part: seq<Elem<Char>>)
    requires Filled(atoms, pending, false, part)
    ensures Rejoin(atoms + [Atom(pending, [])]) == part
    ensures part == [] ==> atoms == [] && pending == 0
    ensures part != [] ==> Shaped(atoms + [Atom(pending, [])])
  {
    RejoinAppend(atoms, Atom(pending, []));
    if atoms != [] { assert Rejoin(atoms) == AtomElems(atoms[0]) + Rejoin(atoms[1..]); }
  }

  /** The second pass: atoms begin and grow; there are as many as were counted. */
  method FillAtoms(part: seq<Elem<Char>>) returns (atoms: seq<Atom>, pending: nat)
    requires Free(part)
    ensures |atoms| == AtomsBegun(part, |part|)
    ensures Filled(atoms, pending, part != [] && part[|part| - 1] != One, part)
  {
    var started := false;
    atoms, pending := [], 0;
    for i := 0 to |part|
      invariant |atoms| == AtomsBegun(part, i) && started == (i > 0 && part[i - 1] != One)
      invariant Filled(atoms, pending, started, part[..i])
    {
      ghost var done := part[..i];
      assert part[..i + 1] == done + [part[i]];
      if part[i] == One {
        FillOne(atoms, pending, started, done);
        pending := if started then 1 else pending + 1;
        started := false;
      } else if !started {
        FillBegin(atoms, pending, done, part[i].c);
        atoms := atoms + [Atom(pending, [part[i].c])];
        started := true;
      } else {
        FillExtend(atoms, pending, done, part[i].c);
        atoms := Extended(atoms, part[i].c);
      }
    }
    assert part[..|part|] == part;
  }

  /** Two passes over the part: count the atoms, then fill that many. */
  method MakePattern(part: seq<Elem<Char>>) returns (pattern: Pattern)
    requires Free(part)
    ensures Renders(pattern, part)
  {
    var count, started := CountAtoms(part);
    var atoms, pending := FillAtoms(part);
    if !started {
      FillEnd(atoms, pending, part);
      atoms := atoms + [Atom(pending, [])];
    }
    assert |atoms| == count;
    pattern := Pattern(atoms, PartBytes(part));
  }

  // ---------- no other atoms stand for the part ----------

  /** The first atom, read off the part: underscores, then literals, then an underscore or the end. */
  ghost predicate Begins(a: Atom, r: seq<Elem<Char>>)
  {
    var u, n := a.underscores, a.underscores + |a.text|;
    0 < n <= |r| && (forall i :: 0 <= i < u ==> r[i] == One) &&
    (forall i :: 0 <= i < |a.text| ==> r[u + i] == Lit(a.text[i])) &&
    (n < |r| ==> r[n] == One && a.text != [])
  }

  lemma FirstAtom(atoms: seq<Atom>)
    requires atoms != [] && Shaped(atoms)
    ensures Begins(atoms[0], Rejoin(atoms))
    ensures Rejoin(atoms)[atoms[0].underscores + |atoms[0].text|..] == Rejoin(atoms[1..])
  {
    var first, rest := AtomElems(atoms[0]), Rejoin(atoms[1..]);
    assert Rejoin(atoms) == first + rest;
    assert |atoms| == 1 ==> rest == [];
    if |atoms| > 1 { NextBegins(atoms); }
  }

  lemma NextBegins(atoms: seq<Atom>)
    requires |atoms| > 1 && Shaped(atoms)
    ensures Rejoin(atoms[1..]) != [] && Rejoin(atoms[1..])[0] == One && atoms[0].text != []
  {
    assert Rejoin(atoms[1..]) == AtomElems(atoms[1]) + Rejoin(atoms[1..][1..]);
  }

  lemma NoFewerUnderscores(a: Atom, b: Atom, r: seq<Elem<Char>>)
    requires Begins(a, r) && Begins(b, r)
    ensures a.underscores >= b.underscores
  {
    if a.text != [] { assert r[a.underscores + 0] == Lit(a.text[0]); }
  }

  lemma TextElement(a: Atom, r: seq<Elem<Char>>, i: nat)
    requires Begins(a, r) && i < |a.text|
    ensures r[a.underscores + i] == Lit(a.text[i])
  {
  }

  lemma NoShorterText(a: Atom, b: Atom, r: seq<Elem<Char>>)
    requires Begins(a, r) && Begins(b, r) && a.underscores == b.underscores
    ensures |a.text| >= |b.text|
  {
    if |a.text| < |b.text| { TextElement(b, r, |a.text|); }
  }

  lemma BeginsUnique(a: Atom, b: Atom, r: seq<Elem<Char>>)
    requires Begins(a, r) && Begins(b, r)
    ensures a == b
  {
    NoFewerUnderscores(a, b, r);
    NoFewerUnderscores(b, a, r);
    NoShorterText(a, b, r);
    NoShorterText(b, a, r);
    forall i | 0 <= i < |a.text|
      ensures a.text[i] == b.text[i]
    {
      assert r[a.underscores + i] == Lit(a.text[i]);
      assert r[b.underscores + i] == Lit(b.text[i]);
    }
    assert a.text == b.text;
  }

  lemma {:induction false} RejoinInjective(a: seq<Atom>, b: seq<Atom>)
    requires Shaped(a) && Shaped(b) && Rejoin(a) == Rejoin(b)
    ensures a == b
  {
    if a == [] {
      if b != [] { FirstAtom(b); }
    } else if b == [] {
      FirstAtom(a);
    } else {
      FirstAtom(a);
      FirstAtom(b);
      BeginsUnique(a[0], b[0], Rejoin(a));
      RejoinInjective(a[1..], b[1..]);
      assert a == [a[0]] + a[1..] && b == [b[0]] + b[1..];
    }
  }

  /** A part has exactly one pattern. */
  lemma PatternIsUnique(p: Pattern, q: Pattern, part: seq<Elem<Char>>)
    requires Renders(p, part) && Renders(q, part)
    ensures p == q
  {
    if part != [] { RejoinInjective(p.atoms, q.atoms); }
  }

  predicate HasUnderscore(p: Pattern)
    requires p.atoms != []
  {
    |p.atoms| > 1 || p.atoms[0].underscores > 0
  }

  /** The underscore test on the atoms tells whether the part has an underscore. */
  lemma UnderscoreTest(p: Pattern, part: seq<Elem<Char>>)
    requires Free(part) && Renders(p, part)
    ensures HasUnderscore(p) <==> One in part
    ensures !HasUnderscore(p) ==> Literal(part) && p.atoms == [Atom(0, Chars(part))]
  {
    if HasUnderscore(p) {
      UnderscoreFound(p.atoms, part);
    } else {
      assert p.atoms == [p.atoms[0]];
      OneAtom(p.atoms[0]);
      assert part == Lits(p.atoms[0].text);
      assert Chars(part) == p.atoms[0].text;
    }
  }

  lemma OneAtom(a: Atom)
    ensures Rejoin([a]) == Ones(a.underscores) + Lits(a.text)
  {
    assert Rejoin([a]) == AtomElems(a) + Rejoin([a][1..]);
  }

  lemma {:induction false} UnderscoreFound(atoms: seq<Atom>, part: seq<Elem<Char>>)
    requires part != [] && Shaped(atoms) && atoms != [] && Rejoin(atoms) == part
    requires |atoms| > 1 || atoms[0].underscores > 0
    ensures One in part
  {
    FirstAtom(atoms);
    if atoms[0].underscores > 0 {
      assert part[0] == One;
    } else {
      NextBegins(atoms);
      var n := |atoms[0].text|;
      assert part[n..] == Rejoin(atoms[1..]) && part[n] == One;
    }
  }
}
