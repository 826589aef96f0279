/**
 What LIKE accepts, read off the text of the pattern: one law for each way a pattern can begin. Together the
 laws determine the verdict for every pattern, escape and string.
 */
module LikeLaws {
  import opened Wrappers
  import opened LikeMeaning
  import opened LikeCharset
  import opened LikeCompile
  import opened LikeMatch

  /** There is no escape, or it is a single character and not this one. */
  predicate Plain(c: Char, escape: Option<seq<Char>>)
  {
    escape.None? || (|escape.value| == 1 && escape.value[0] != c)
  }

  // ---------- the analysis of a text that begins with a character ----------

  /** A first element in front of the analysis of the rest. */
  function Behind(first: Elem<Char>, rest: Parsed): Parsed
  {
    if rest.Parsed? then Parsed([first] + rest.elems) else rest
  }

  lemma {:induction false} PlainFirst(c: Char, rest: seq<Char>, escape: Option<seq<Char>>)
    requires Plain(c, escape)
    ensures Parse([c] + rest, escape) == Behind(Classified(c, false), Parse(rest, escape))
    ensures Parse(rest, escape) != InvalidEscape
  {
    var text := [c] + rest;
    assert text[1..] == rest;
    if escape.None? {
      assert Elems(text, seq(|text|, _ => false)) == [Classified(c, false)] + Elems(rest, seq(|rest|, _ => false));
    }
  }

  lemma {:induction false} EscapedFirst(e: Char, c: Char, rest: seq<Char>)
    ensures Parse([e, c] + rest, Some([e])) ==
            if c == [0x25] || c == [0x5F] || c == e then Behind(Lit(c), Parse(rest, Some([e]))) else InvalidPattern
  {
    var text := [e, c] + rest;
    assert text[2..] == rest;
  }

  // ---------- the laws ----------

  /** The empty pattern accepts the empty string only. */
  lemma EmptyPattern(escape: Option<seq<Char>>, s: seq<Char>)
    requires escape.None? || |escape.value| == 1
    ensures Meaning([], escape, s) == if s == [] then Accepted else Rejected
  {
    assert seq(0, _ => false) == [];
  }

  /** The byte 0x25 stands for any number of characters. */
  lemma {:induction false} PercentAccepts(rest: seq<Char>, escape: Option<seq<Char>>, s: seq<Char>)
    requires Plain([0x25], escape)
    ensures Meaning([[0x25]] + rest, escape, s) == Accepted <==>
            exists k :: 0 <= k <= |s| && Meaning(rest, escape, s[k..]) == Accepted
  {
    PlainFirst([0x25], rest, escape);
    if Parse(rest, escape).Parsed? {
      var elems := Parse(rest, escape).elems;
      LikeAny(elems, s);
      assert forall k :: 0 <= k <= |s| ==> (Meaning(rest, escape, s[k..]) == Accepted <==> Like(elems, s[k..]));
    }
  }

  /** The byte 0x5F stands for any one character. */
  lemma {:induction false} UnderscoreAccepts(rest: seq<Char>, escape: Option<seq<Char>>, s: seq<Char>)
    requires Plain([0x5F], escape)
    ensures Meaning([[0x5F]] + rest, escape, s) == Accepted <==> s != [] && Meaning(rest, escape, s[1..]) == Accepted
  {
    PlainFirst([0x5F], rest, escape);
    FirstIs(One, Parse(rest, escape), s);
  }

  /** Any other character stands for itself. */
  lemma {:induction false} CharacterAccepts(c: Char, rest: seq<Char>, escape: Option<seq<Char>>, s: seq<Char>)
    requires Plain(c, escape) && c != [0x25] && c != [0x5F]
    ensures Meaning([c] + rest, escape, s) == Accepted <==>
            s != [] && s[0] == c && Meaning(rest, escape, s[1..]) == Accepted
  {
    PlainFirst(c, rest, escape);
    FirstIs(Lit(c), Parse(rest, escape), s);
  }

  /** An escaped `%`, `_` or escape stands for itself; nothing else may be escaped. */
  lemma {:induction false} EscapeAccepts(e: Char, c: Char, rest: seq<Char>, s: seq<Char>)
    ensures c == [0x25] || c == [0x5F] || c == e ==>
              (Meaning([e, c] + rest, Some([e]), s) == Accepted <==>
               s != [] && s[0] == c && Meaning(rest, Some([e]), s[1..]) == Accepted)
    ensures c != [0x25] && c != [0x5F] && c != e ==> Meaning([e, c] + rest, Some([e]), s) == BadPattern
  {
    EscapedFirst(e, c, rest);
    FirstIs(Lit(c), Parse(rest, Some([e])), s);
  }

  /** An element for one character. */
  lemma {:induction false} FirstIs(first: Elem<Char>, rest: Parsed, s: seq<Char>)
    requires first != Any
    ensures rest.Parsed? ==>
              (Like([first] + rest.elems, s) <==> s != [] && ElemFits(first, s[0]) && Like(rest.elems, s[1..]))
  {
    if rest.Parsed? { assert ([first] + rest.elems)[1..] == rest.elems; }
  }

  /** The error of a pattern is that of what follows its first character; a lone escape is one. */
  lemma {:induction false} BadPatternIff(c: Char, rest: seq<Char>, escape: Option<seq<Char>>, s: seq<Char>,
                                         t: seq<Char>)
    requires Plain(c, escape)
    ensures Meaning([c] + rest, escape, s) == BadPattern <==> Meaning(rest, escape, t) == BadPattern
  {
    PlainFirst(c, rest, escape);
  }

  lemma {:induction false} BadEscapedIff(e: Char, c: Char, rest: seq<Char>, s: seq<Char>, t: seq<Char>)
    requires c == [0x25] || c == [0x5F] || c == e
    ensures Meaning([e, c] + rest, Some([e]), s) == BadPattern <==> Meaning(rest, Some([e]), t) == BadPattern
  {
    EscapedFirst(e, c, rest);
  }

  lemma LoneEscape(e: Char, s: seq<Char>)
    ensures Meaning([e], Some([e]), s) == BadPattern
  {
  }

  /** An escape that is not one character is an error whatever the pattern, and no other is. */
  lemma BadEscapeIff(pattern: seq<Char>, escape: Option<seq<Char>>, s: seq<Char>)
    ensures Meaning(pattern, escape, s) == BadEscape <==> escape.Some? && |escape.value| != 1
  {
  }
}
