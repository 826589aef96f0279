/** Analysis of a LIKE pattern: escapes, and the cut into parts at `%`. */
module LikeCompile {
  import opened Wrappers
  import opened LikeMeaning
  import opened LikeCharset

  // ---------- escapes ----------

  datatype Parsed = Parsed(elems: seq<Elem<Char>>) | InvalidPattern | InvalidEscape

  function Classified(c: Char, escaped: bool): Elem<Char>
  {
    if !escaped && c == PERCENT() then Any
    else if !escaped && c == UNDERSCORE() then One
    else Lit(c)
  }

  function Elems(text: seq<Char>, flags: seq<bool>): (r: seq<Elem<Char>>)
    requires |flags| == |text|
    ensures |r| == |text| && forall i :: 0 <= i < |text| ==> r[i] == Classified(text[i], flags[i])
  {
    seq(|text|, i requires 0 <= i < |text| => Classified(text[i], flags[i]))
  }

  /** What a pattern with an escape character stands for; an escape must precede `%`, `_` or itself. */
  function Unescaped(text: seq<Char>, escape: Char): Option<seq<Elem<Char>>>
  {
    if text == [] then Some([])
    else if text[0] == escape then
      if |text| == 1 || (text[1] != PERCENT() && text[1] != UNDERSCORE() && text[1] != escape) then None
      else
        var rest := Unescaped(text[2..], escape);
        if rest.None? then None else Some([Lit(text[1])] + rest.value)
    else
      var rest := Unescaped(text[1..], escape);
      if rest.None? then None else Some([Classified(text[0], false)] + rest.value)
  }

  function Parse(text: seq<Char>, escape: Option<seq<Char>>): Parsed
  {
    if escape.None? then Parsed(Elems(text, seq(|text|, _ => false)))
    else if |escape.value| != 1 then InvalidEscape
    else
      var r := Unescaped(text, escape.value[0]);
      if r.None? then InvalidPattern else Parsed(r.value)
  }

  ghost predicate Joins(head: seq<Elem<Char>>, rest: Option<seq<Elem<Char>>>, whole: Option<seq<Elem<Char>>>)
  {
    whole == if rest.None? then None else Some(head + rest.value)
  }

  /**
   The escape pass: the buffer is compacted over each escape character and the character that
   follows is flagged as literal.
   */
  method ParsePattern(pattern: seq<Char>, escape: Option<seq<Char>>) returns (parsed: Parsed)
    ensures parsed == Parse(pattern, escape)
  {
    var text := pattern;
    var flags := seq(|text|, _ => false);
    if escape.Some? {
      if |escape.value| != 1 { return InvalidEscape; }
      var e := escape.value[0];
      var i := 0;
      assert text[0..] == pattern && Elems(text[..0], flags[..0]) == [];
      assert Joins([], Unescaped(pattern, e), Unescaped(pattern, e)) by { NothingBefore(Unescaped(pattern, e)); }
      while i < |text|
        invariant 0 <= i <= |text| && |flags| == |text|
        invariant forall k :: i <= k < |flags| ==> !flags[k]
        invariant Joins(Elems(text[..i], flags[..i]), Unescaped(text[i..], e), Unescaped(pattern, e))
        decreases |text| - i
      {
        ghost var before, rest := Elems(text[..i], flags[..i]), text[i..];
        if text[i] == e {
          if i + 1 == |text| { return InvalidPattern; }
          if text[i + 1] != PERCENT() && text[i + 1] != UNDERSCORE() {
            if text[i + 1] != e { return InvalidPattern; }
          }
          text := text[..i] + text[i + 1..];
          flags := flags[..i] + [true] + flags[i + 2..];
          assert rest[1] == text[i] && rest[2..] == text[i + 1..];
          assert Elems(text[..i + 1], flags[..i + 1]) == before + [Lit(text[i])];
          EscapeStep(before, [Lit(text[i])], Unescaped(rest[2..], e), Unescaped(rest, e), Unescaped(pattern, e));
        } else {
          assert rest[1..] == text[i + 1..];
          assert Elems(text[..i + 1], flags[..i + 1]) == before + [Classified(text[i], false)];
          EscapeStep(before, [Classified(text[i], false)], Unescaped(rest[1..], e), Unescaped(rest, e),
                     Unescaped(pattern, e));
        }
        i := i + 1;
      }
      assert text[..i] == text && flags[..i] == flags && text[i..] == [];
    }
    parsed := Parsed(Elems(text, flags));
  }

  lemma NothingBefore(rest: Option<seq<Elem<Char>>>)
    ensures Joins([], rest, rest)
  {
    if rest.Some? { assert [] + rest.value == rest.value; }
  }

  lemma EscapeStep(head: seq<Elem<Char>>, one: seq<Elem<Char>>, rest: Option<seq<Elem<Char>>>,
                   here: Option<seq<Elem<Char>>>, whole: Option<seq<Elem<Char>>>)
    requires Joins(head, here, whole) && Joins(one, rest, here)
    ensures Joins(head + one, rest, whole)
  {
    if rest.Some? { assert head + (one + rest.value) == (head + one) + rest.value; }
  }

  /** A string written with every special character escaped. */
  function EscapeAll(s: seq<Char>, escape: Char): seq<Char>
  {
    if s == [] then []
    else
      (if s[0] == PERCENT() || s[0] == UNDERSCORE() || s[0] == escape then [escape, s[0]] else [s[0]]) +
      EscapeAll(s[1..], escape)
  }

  /** Escaping and parsing give back the string itself, whatever the escape character. */
  lemma {:induction false} EscapeRoundTrip(s: seq<Char>, escape: Char)
    ensures Parse(EscapeAll(s, escape), Some([escape])) == Parsed(Lits(s))
    ensures Unescaped(EscapeAll(s, escape), escape) == Some(Lits(s))
  {
    if s != [] {
      EscapeRoundTrip(s[1..], escape);
      var rest := EscapeAll(s[1..], escape);
      if s[0] == PERCENT() || s[0] == UNDERSCORE() || s[0] == escape {
        assert EscapeAll(s, escape) == [escape, s[0]] + rest;
        assert ([escape, s[0]] + rest)[2..] == rest;
      } else {
        assert EscapeAll(s, escape) == [s[0]] + rest;
        assert ([s[0]] + rest)[1..] == rest;
      }
      assert Lits(s) == [Lit(s[0])] + Lits(s[1..]);
    }
  }

  /** A string of literals matches itself only. */
  lemma {:induction false} LiteralsMatchThemselves(s: seq<Char>, t: seq<Char>)
    ensures Like(Lits(s), t) <==> t == s
  {
    if s != [] && t != [] {
      assert Lits(s)[1..] == Lits(s[1..]);
      LiteralsMatchThemselves(s[1..], t[1..]);
      assert s == [s[0]] + s[1..] && t == [t[0]] + t[1..];
    }
  }

  // ---------- the cut at `%` ----------

  /** Parts that a scan begins from position i on, knowing whether the element before was a wildcard. */
  function PartsBegun(p: seq<Elem<Char>>, i: nat, wild: bool): nat
    requires i <= |p|
    decreases |p| - i
  {
    if i == |p| then 0
    else if p[i] == Any then PartsBegun(p, i + 1, true)
    else (if wild then 1 else 0) + PartsBegun(p, i + 1, false)
  }

  /** The scan begins every part once. */
  lemma {:induction false} BegunIsParts(p: seq<Elem<Char>>, i: nat)
    requires i <= |p|
    ensures PartsBegun(p, i, true) == |Parts(p, i)|
    ensures PartsBegun(p, i, false) == |Parts(p, NextAny(p, i))|
    decreases |p| - i
  {
    if i < |p| { BegunIsParts(p, i + 1); }
  }

  method CountParts(p: seq<Elem<Char>>, start: nat) returns (count: nat, wildStart: bool)
    requires start <= |p| && (start < |p| ==> p[start] == Any)
    ensures count == |Parts(p, start)|
    ensures wildStart == (start < |p| && p[|p| - 1] == Any)
  {
    count, wildStart := 0, false;
    var i := start;
    BegunIsParts(p, start);
    while i < |p|
      invariant start <= i <= |p| && wildStart == (i > start && p[i - 1] == Any)
      invariant count + PartsBegun(p, i, wildStart) == PartsBegun(p, start, false)
    {
      if p[i] == Any {
        wildStart := true;
      } else if wildStart {
        count := count + 1;
        wildStart := false;
      }
      i := i + 1;
    }
  }

  /** The next part, past its wildcards. */
  method NextPart(p: seq<Elem<Char>>, start: nat) returns (first: nat, end: nat)
    requires start < |p| && p[start] == Any && SkipAny(p, start) < |p|
    ensures first == SkipAny(p, start) && end == NextAny(p, first)
  {
    first := start;
    while p[first] == Any
      invariant start <= first < |p| && SkipAny(p, start) == SkipAny(p, first)
      decreases |p| - first
    {
      first := first + 1;
    }
    end := first;
    while end < |p| && p[end] != Any
      invariant first <= end <= |p| && NextAny(p, first) == NextAny(p, end)
    {
      end := end + 1;
    }
  }

  lemma MorePartsLeft(p: seq<Elem<Char>>, i: nat)
    requires i <= |p| && Parts(p, i) != []
    ensures SkipAny(p, i) < |p|
    ensures var first := SkipAny(p, i); Parts(p, i) == [p[first..NextAny(p, first)]] + Parts(p, NextAny(p, first))
  {
  }

  lemma InnerPartLeft(p: seq<Elem<Char>>, i: nat)
    requires i < |p| && Parts(p, i) != [] && (p[|p| - 1] == Any || |Parts(p, i)| > 1)
    ensures SkipAny(p, i) < |p| && NextAny(p, SkipAny(p, i)) < |p|
    ensures var first := SkipAny(p, i); Parts(p, i) == [p[first..NextAny(p, first)]] + Parts(p, NextAny(p, first))
  {
    MorePartsLeft(p, i);
    assert Parts(p, |p|) == [];
  }

  /** Step 3: the given number of parts, each followed by a wildcard. */
  method TakeParts(p: seq<Elem<Char>>, start: nat, n: nat) returns (taken: seq<seq<Elem<Char>>>, i: nat)
    requires start < |p| && p[start] == Any && n <= |Parts(p, start)|
    requires p[|p| - 1] == Any || n < |Parts(p, start)|
    ensures |taken| == n && start <= i < |p| && p[i] == Any
    ensures taken + Parts(p, i) == Parts(p, start)
  {
    i := start;
    ghost var parts := Parts(p, start);
    taken := [];
    while |taken| < n
      invariant |taken| <= n && start <= i < |p| && p[i] == Any
      invariant taken + Parts(p, i) == parts
    {
      InnerPartLeft(p, i);
      var first, end := NextPart(p, i);
      ghost var rest := Parts(p, end);
      assert taken + ([p[first..end]] + rest) == (taken + [p[first..end]]) + rest;
      taken := taken + [p[first..end]];
      i := end;
    }
  }

  lemma LastPartLeft(p: seq<Elem<Char>>, i: nat)
    requires i < |p| && p[|p| - 1] != Any && |Parts(p, i)| == 1
    ensures SkipAny(p, i) < |p| && NextAny(p, SkipAny(p, i)) == |p|
    ensures Parts(p, i) == [p[SkipAny(p, i)..]]
  {
    MorePartsLeft(p, i);
    var first := SkipAny(p, i);
    var end := NextAny(p, first);
    PartsNonEmpty(p, end);
    assert p[first..end] == p[first..];
  }

  /** Steps 1 to 4 of the analysis: leading part, number of parts, middle parts, following part. */
  method Decompose(p: seq<Elem<Char>>) returns (info: Info<Char>)
    ensures info == Decomposed(p)
  {
    var i := 0;
    var leading := None;
    if p == [] || p[0] != Any {
      i := 1;
      while i < |p| && p[i] != Any
        invariant 1 <= i && (p != [] ==> i <= |p| && NextAny(p, 0) == NextAny(p, i))
      {
        i := i + 1;
      }
      if i > |p| { i := |p|; }
      leading := Some(p[..i]);
    }
    var count, wildStart := CountParts(p, i);
    if !wildStart && count == 0 {
      return Info(leading, [], None, true);
    }
    var middles, end := TakeParts(p, i, if wildStart then count else count - 1);
    if wildStart {
      return Info(leading, middles, None, false);
    }
    LastPartLeft(p, end);
    var first, last := NextPart(p, end);
    return Info(leading, middles, Some(p[first..]), false);
  }
}
