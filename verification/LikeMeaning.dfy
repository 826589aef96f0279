/**
 The meaning of LIKE patterns (ISO/IEC 9075-2, section 8.5) and of their decomposition into a
 leading part, middle parts and a following part, over any element type.
 */
module LikeMeaning {
  import opened Wrappers

  /** A pattern element: `%`, `_`, or a literal. */
  datatype Elem<+T> = Any | One | Lit(c: T)

  /** The recursive meaning of a pattern. */
  predicate Like<T(==)>(p: seq<Elem<T>>, s: seq<T>)
    decreases |p|, |s|
  {
    if p == [] then s == []
    else match p[0]
      case Any => Like(p[1..], s) || (s != [] && Like(p, s[1..]))
      case One => s != [] && Like(p[1..], s[1..])
      case Lit(c) => s != [] && s[0] == c && Like(p[1..], s[1..])
  }

  predicate Free<T(==)>(part: seq<Elem<T>>)
  {
    forall i :: 0 <= i < |part| ==> part[i] != Any
  }

  predicate ElemFits<T(==)>(e: Elem<T>, x: T)
  {
    e.One? || (e.Lit? && e.c == x)
  }

  /** A wildcard-free part matches element by element at position i. */
  predicate FitsAt<T(==)>(part: seq<Elem<T>>, s: seq<T>, i: int)
  {
    0 <= i && i + |part| <= |s| && forall j :: 0 <= j < |part| ==> ElemFits(part[j], s[i + j])
  }

  /** The parts can be placed in order, without overlap, between two positions. */
  ghost predicate Placeable<T>(parts: seq<seq<Elem<T>>>, s: seq<T>, from: nat, to: int)
  {
    if parts == [] then from <= to
    else exists i :: from <= i && FitsAt(parts[0], s, i) && Placeable(parts[1..], s, i + |parts[0]|, to)
  }

  // ---------- decomposition ----------

  datatype Info<+T> = Info(leading: Option<seq<Elem<T>>>, middles: seq<seq<Elem<T>>>,
                           following: Option<seq<Elem<T>>>, isConst: bool)

  function NextAny<T(==)>(p: seq<Elem<T>>, i: nat): (k: nat)
    requires i <= |p|
    ensures i <= k <= |p| && (k < |p| ==> p[k] == Any)
    ensures forall j :: i <= j < k ==> p[j] != Any
    decreases |p| - i
  {
    if i == |p| || p[i] == Any then i else NextAny(p, i + 1)
  }

  function SkipAny<T(==)>(p: seq<Elem<T>>, i: nat): (k: nat)
    requires i <= |p|
    ensures i <= k <= |p| && (k < |p| ==> p[k] != Any)
    ensures forall j :: i <= j < k ==> p[j] == Any
    decreases |p| - i
  {
    if i == |p| || p[i] != Any then i else SkipAny(p, i + 1)
  }

  /** The maximal wildcard-free parts at or after position i. */
  function Parts<T(==)>(p: seq<Elem<T>>, i: nat): (r: seq<seq<Elem<T>>>)
    requires i <= |p|
    ensures forall k :: 0 <= k < |r| ==> r[k] != [] && Free(r[k])
    decreases |p| - i
  {
    var j := SkipAny(p, i);
    if j == |p| then []
    else
      var k := NextAny(p, j);
      [p[j..k]] + Parts(p, k)
  }

  function Decomposed<T(==)>(p: seq<Elem<T>>): Info<T>
  {
    var start := NextAny(p, 0);
    var parts := Parts(p, start);
    var leading := if p == [] || start > 0 then Some(p[..start]) else None;
    if p != [] && p[|p| - 1] == Any then Info(leading, parts, None, false)
    else if parts == [] then Info(leading, [], None, true)
    else Info(leading, parts[..|parts| - 1], Some(parts[|parts| - 1]), false)
  }

  /** What a decomposition accepts. */
  ghost predicate InfoLike<T>(info: Info<T>, s: seq<T>)
  {
    var head := if info.leading.Some? then |info.leading.value| else 0;
    (info.leading.Some? ==> FitsAt(info.leading.value, s, 0)) &&
    if info.isConst then |s| == head
    else TailLike(info.middles, info.following, s, head)
  }

  ghost predicate TailLike<T>(middles: seq<seq<Elem<T>>>, following: Option<seq<Elem<T>>>, s: seq<T>, from: nat)
  {
    var to := if following.Some? then |s| - |following.value| else |s|;
    Placeable(middles, s, from, to) && (following.Some? ==> FitsAt(following.value, s, to))
  }

  // ---------- the recursive meaning, part by part ----------

  /** A wildcard-free part at the front consumes exactly its length. */
  lemma {:induction false} LikePart<T>(part: seq<Elem<T>>, rest: seq<Elem<T>>, s: seq<T>)
    requires Free(part)
    ensures Like(part + rest, s) <==> FitsAt(part, s, 0) && Like(rest, s[|part|..])
  {
    if part == [] {
      assert part + rest == rest && s[0..] == s;
    } else {
      assert (part + rest)[1..] == part[1..] + rest;
      if |part| <= |s| {
        LikePart(part[1..], rest, s[1..]);
        assert s[1..][|part| - 1..] == s[|part|..];
        FitsStep(part, s);
      } else if s != [] {
        LikePart(part[1..], rest, s[1..]);
      }
    }
  }

  lemma FitsStep<T>(part: seq<Elem<T>>, s: seq<T>)
    requires part != [] && s != []
    ensures FitsAt(part, s, 0) <==> ElemFits(part[0], s[0]) && FitsAt(part[1..], s[1..], 0)
  {
    if ElemFits(part[0], s[0]) && FitsAt(part[1..], s[1..], 0) {
      forall j | 0 <= j < |part|
        ensures ElemFits(part[j], s[0 + j])
      {
        if j > 0 { assert ElemFits(part[1..][j - 1], s[1..][0 + (j - 1)]); }
      }
    }
    if FitsAt(part, s, 0) {
      assert ElemFits(part[0], s[0 + 0]);
      forall j | 0 <= j < |part| - 1
        ensures ElemFits(part[1..][j], s[1..][0 + j])
      {
        assert ElemFits(part[j + 1], s[0 + (j + 1)]);
      }
    }
  }

  /** `%` skips any number of elements. */
  lemma {:induction false} LikeAny<T>(rest: seq<Elem<T>>, s: seq<T>)
    ensures Like([Any] + rest, s) <==> exists k :: 0 <= k <= |s| && Like(rest, s[k..])
  {
    var p := [Any] + rest;
    assert p[1..] == rest && s[0..] == s;
    if s != [] {
      LikeAny(rest, s[1..]);
      if Like(p, s[1..]) {
        var k :| 0 <= k <= |s[1..]| && Like(rest, s[1..][k..]);
        assert s[1..][k..] == s[k + 1..];
      }
      if k :| 0 < k <= |s| && Like(rest, s[k..]) {
        assert s[1..][k - 1..] == s[k..];
      }
    }
  }

  lemma {:induction false} LikeAnyAny<T>(rest: seq<Elem<T>>, s: seq<T>)
    ensures Like([Any, Any] + rest, s) <==> Like([Any] + rest, s)
  {
    assert [Any, Any] + rest == [Any] + ([Any] + rest);
    LikeAny([Any] + rest, s);
    LikeAny(rest, s);
    assert s[0..] == s;
    if k :| 0 <= k <= |s| && Like([Any] + rest, s[k..]) {
      LikeAny(rest, s[k..]);
      var m :| 0 <= m <= |s[k..]| && Like(rest, s[k..][m..]);
      assert s[k..][m..] == s[k + m..];
    }
  }

  /** Runs of `%` mean the same as one. */
  lemma {:induction false} LikeRun<T>(p: seq<Elem<T>>, i: nat, s: seq<T>)
    requires i < |p| && p[i] == Any
    ensures Like(p[i..], s) <==> Like([Any] + p[SkipAny(p, i)..], s)
    decreases |p| - i
  {
    if i + 1 < |p| && p[i + 1] == Any {
      LikeRun(p, i + 1, s);
      assert p[i..] == [Any, Any] + p[i + 2..];
      assert p[i + 1..] == [Any] + p[i + 2..];
      LikeAnyAny(p[i + 2..], s);
    } else {
      assert SkipAny(p, i) == i + 1;
      assert p[i..] == [Any] + p[i + 1..];
    }
  }

  lemma FitsShift<T>(part: seq<Elem<T>>, s: seq<T>, k: nat)
    requires k <= |s|
    ensures FitsAt(part, s[k..], 0) <==> FitsAt(part, s, k)
  {
    if FitsAt(part, s[k..], 0) {
      forall j | 0 <= j < |part|
        ensures ElemFits(part[j], s[k + j])
      {
        assert ElemFits(part[j], s[k..][0 + j]);
      }
    }
  }

  /** Some later occurrence of the part, then the rest. */
  ghost predicate ThenLike<T>(part: seq<Elem<T>>, rest: seq<Elem<T>>, s: seq<T>, from: nat)
  {
    exists i :: from <= i && FitsAt(part, s, i) && Like(rest, s[i + |part|..])
  }

  lemma LikeAnyPart<T>(part: seq<Elem<T>>, rest: seq<Elem<T>>, s: seq<T>, from: nat)
    requires Free(part) && from <= |s|
    ensures Like([Any] + (part + rest), s[from..]) <==> ThenLike(part, rest, s, from)
  {
    LikeAny(part + rest, s[from..]);
    if Like([Any] + (part + rest), s[from..]) {
      var k :| 0 <= k <= |s[from..]| && Like(part + rest, s[from..][k..]);
      assert s[from..][k..] == s[from + k..];
      LikePart(part, rest, s[from + k..]);
      FitsShift(part, s, from + k);
      assert s[from + k..][|part|..] == s[from + k + |part|..];
    }
    if ThenLike(part, rest, s, from) {
      var i :| from <= i && FitsAt(part, s, i) && Like(rest, s[i + |part|..]);
      LikePart(part, rest, s[i..]);
      FitsShift(part, s, i);
      assert s[i..][|part|..] == s[i + |part|..];
      assert s[from..][i - from..] == s[i..];
    }
  }

  /** A final part must sit at the very end. */
  lemma LastPart<T>(part: seq<Elem<T>>, s: seq<T>, from: nat)
    ensures ThenLike(part, [], s, from) <==> TailLike([], Some(part), s, from)
  {
    var to := |s| - |part|;
    if ThenLike(part, [], s, from) {
      var x :| from <= x && FitsAt(part, s, x) && Like<T>([], s[x + |part|..]);
      assert x == to;
    }
    if from <= to && FitsAt(part, s, to) {
      assert s[to + |part|..] == [];
    }
  }

  lemma PlaceFirst<T>(part: seq<Elem<T>>, middles: seq<seq<Elem<T>>>, s: seq<T>, from: nat, to: int, x: nat)
    requires from <= x && FitsAt(part, s, x) && Placeable(middles, s, x + |part|, to)
    ensures Placeable([part] + middles, s, from, to)
  {
    var all := [part] + middles;
    assert all[0] == part && all[1..] == middles;
    assert FitsAt(all[0], s, x) && Placeable(all[1..], s, x + |all[0]|, to);
  }

  lemma SplitFirst<T>(part: seq<Elem<T>>, middles: seq<seq<Elem<T>>>, s: seq<T>, from: nat, to: int) returns (x: nat)
    requires Placeable([part] + middles, s, from, to)
    ensures from <= x && FitsAt(part, s, x) && Placeable(middles, s, x + |part|, to)
  {
    var all := [part] + middles;
    assert all[0] == part && all[1..] == middles;
    x :| from <= x && FitsAt(all[0], s, x) && Placeable(all[1..], s, x + |all[0]|, to);
  }

  lemma InnerPart<T>(part: seq<Elem<T>>, rest: seq<Elem<T>>, middles: seq<seq<Elem<T>>>,
                     following: Option<seq<Elem<T>>>, s: seq<T>, from: nat)
    requires forall x :: 0 <= x <= |s| ==> (Like(rest, s[x..]) <==> TailLike(middles, following, s, x))
    ensures ThenLike(part, rest, s, from) <==> TailLike([part] + middles, following, s, from)
  {
    var to := if following.Some? then |s| - |following.value| else |s|;
    if ThenLike(part, rest, s, from) {
      var x :| from <= x && FitsAt(part, s, x) && Like(rest, s[x + |part|..]);
      PlaceFirst(part, middles, s, from, to, x);
    }
    if TailLike([part] + middles, following, s, from) {
      var x := SplitFirst(part, middles, s, from, to);
      assert Like(rest, s[x + |part|..]);
    }
  }

  // ---------- a decomposition accepts what the pattern means ----------

  /** Middles and following part of the pattern from position i on. */
  function TailMiddles<T(==)>(p: seq<Elem<T>>, i: nat): seq<seq<Elem<T>>>
    requires i <= |p| && p != []
  {
    var parts := Parts(p, i);
    if p[|p| - 1] == Any || parts == [] then parts else parts[..|parts| - 1]
  }

  function TailFollowing<T(==)>(p: seq<Elem<T>>, i: nat): Option<seq<Elem<T>>>
    requires i <= |p| && p != []
  {
    var parts := Parts(p, i);
    if p[|p| - 1] == Any || parts == [] then None else Some(parts[|parts| - 1])
  }

  /** From a `%` on, the pattern means: place the middles in order and fit the following part at the end. */
  lemma {:induction false} TailMeaning<T>(p: seq<Elem<T>>, i: nat, s: seq<T>, from: nat)
    requires i < |p| && p[i] == Any && from <= |s|
    ensures Like(p[i..], s[from..]) <==> TailLike(TailMiddles(p, i), TailFollowing(p, i), s, from)
    decreases |p| - i
  {
    var j := SkipAny(p, i);
    LikeRun(p, i, s[from..]);
    if j == |p| {
      LikeAny<T>([], s[from..]);
      assert p[j..] == [] && s[from..][|s| - from..] == [];
      assert p[|p| - 1] == Any;
    } else {
      var k := NextAny(p, j);
      var part := p[j..k];
      assert p[j..] == part + p[k..];
      LikeAnyPart(part, p[k..], s, from);
      if k == |p| {
        LastShape(p, i);
        LastPart(part, s, from);
        assert p[k..] == [];
      } else {
        forall x | 0 <= x <= |s|
          ensures Like(p[k..], s[x..]) <==> TailLike(TailMiddles(p, k), TailFollowing(p, k), s, x)
        {
          TailMeaning(p, k, s, x);
        }
        InnerShape(p, i);
        InnerPart(part, p[k..], TailMiddles(p, k), TailFollowing(p, k), s, from);
      }
    }
  }

  lemma LastShape<T>(p: seq<Elem<T>>, i: nat)
    requires i < |p| && SkipAny(p, i) < |p| && NextAny(p, SkipAny(p, i)) == |p|
    ensures TailMiddles(p, i) == [] && TailFollowing(p, i) == Some(p[SkipAny(p, i)..|p|])
  {
    assert Parts(p, |p|) == [];
    assert Parts(p, i) == [p[SkipAny(p, i)..|p|]];
    assert p[|p| - 1] != Any;
  }

  lemma InnerShape<T>(p: seq<Elem<T>>, i: nat)
    requires i < |p| && SkipAny(p, i) < |p| && NextAny(p, SkipAny(p, i)) < |p|
    ensures var j := SkipAny(p, i); var k := NextAny(p, j);
            && TailMiddles(p, i) == [p[j..k]] + TailMiddles(p, k)
            && TailFollowing(p, i) == TailFollowing(p, k)
  {
    var j := SkipAny(p, i);
    var k := NextAny(p, j);
    assert Parts(p, i) == [p[j..k]] + Parts(p, k);
    if p[|p| - 1] != Any {
      PartsNonEmpty(p, k);
      assert ([p[j..k]] + Parts(p, k))[..|Parts(p, k)|] == [p[j..k]] + Parts(p, k)[..|Parts(p, k)| - 1];
    }
  }

  lemma PartsNonEmpty<T>(p: seq<Elem<T>>, k: nat)
    requires k <= |p| && p != [] && p[|p| - 1] != Any
    ensures k < |p| ==> Parts(p, k) != []
  {
  }

  lemma DecomposedShape<T>(p: seq<Elem<T>>)
    requires p != []
    ensures var start, info := NextAny(p, 0), Decomposed(p);
            && info.leading == (if start > 0 then Some(p[..start]) else None)
            && info.isConst == (start == |p|)
            && (start < |p| ==> info.middles == TailMiddles(p, start) && info.following == TailFollowing(p, start))
  {
    var start := NextAny(p, 0);
    if start == |p| {
      assert p[|p| - 1] != Any && Parts(p, start) == [];
    } else if p[|p| - 1] != Any {
      PartsNonEmpty(p, start);
    }
  }

  /** A pattern and its decomposition accept the same strings. */
  lemma DecompositionMeaning<T>(p: seq<Elem<T>>, s: seq<T>)
    ensures Like(p, s) <==> InfoLike(Decomposed(p), s)
  {
    var start := NextAny(p, 0);
    assert p == p[..start] + p[start..];
    LikePart(p[..start], p[start..], s);
    if p != [] { DecomposedShape(p); }
    if start == |p| {
      assert p[start..] == [] && p[..start] == p;
      if FitsAt(p, s, 0) { assert s[start..] == [] <==> |s| == start; }
    } else if start <= |s| {
      TailMeaning(p, start, s, start);
    }
  }

  // ---------- leftmost search ----------

  /** Leftmost occurrence of a part at or after a position. */
  function Leftmost<T(==)>(part: seq<Elem<T>>, s: seq<T>, from: nat): (r: Option<nat>)
    ensures r.Some? ==> from <= r.value && FitsAt(part, s, r.value)
    ensures r.Some? ==> forall i :: from <= i < r.value ==> !FitsAt(part, s, i)
    ensures r.None? ==> forall i :: from <= i ==> !FitsAt(part, s, i)
    decreases if from <= |s| then |s| - from + 1 else 0
  {
    if FitsAt(part, s, from) then Some(from)
    else if from >= |s| then None
    else Leftmost(part, s, from + 1)
  }

  /** Where the middles end when each is placed leftmost. */
  function Greedy<T(==)>(parts: seq<seq<Elem<T>>>, s: seq<T>, from: nat): (r: Option<nat>)
    ensures r.Some? ==> r.value >= from
  {
    if parts == [] then Some(from)
    else
      var at := Leftmost(parts[0], s, from);
      if at.None? then None else Greedy(parts[1..], s, at.value + |parts[0]|)
  }

  /** Starting the search earlier never hurts. */
  lemma {:induction false} PlaceableEarlier<T>(parts: seq<seq<Elem<T>>>, s: seq<T>, from: nat, later: nat, to: int)
    requires from <= later && Placeable(parts, s, later, to)
    ensures Placeable(parts, s, from, to)
  {
    if parts != [] {
      var i :| later <= i && FitsAt(parts[0], s, i) && Placeable(parts[1..], s, i + |parts[0]|, to);
    }
  }

  /** Leftmost placement succeeds whenever any placement does, and ends no later. */
  lemma {:induction false} GreedyIsComplete<T>(parts: seq<seq<Elem<T>>>, s: seq<T>, from: nat, to: int)
    ensures Placeable(parts, s, from, to) <==>
            Greedy(parts, s, from).Some? && Greedy(parts, s, from).value <= to
  {
    if parts != [] {
      var at := Leftmost(parts[0], s, from);
      if at.Some? {
        GreedyIsComplete(parts[1..], s, at.value + |parts[0]|, to);
        if i :| from <= i && FitsAt(parts[0], s, i) && Placeable(parts[1..], s, i + |parts[0]|, to) {
          PlaceableEarlier(parts[1..], s, at.value + |parts[0]|, i + |parts[0]|, to);
        }
      }
    }
  }
}
