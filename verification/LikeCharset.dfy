/**
 Characters as byte strings, and why comparing the bytes of a LIKE pattern compares its characters.
 A character set is prefix-free when no character's bytes begin another's; it is self-synchronising
 when, besides, no character's first byte occurs inside a character.
 */
module LikeCharset {
  import opened CArithmetic
  import opened Wrappers
  import opened LikeMeaning

  type Char = c: seq<byte> | c != [] witness [0]

  function PERCENT(): Char { [0x25] }

  function UNDERSCORE(): Char { [0x5F] }

  function Flat(s: seq<Char>): seq<byte>
  {
    if s == [] then [] else s[0] + Flat(s[1..])
  }

  function ByteLen(s: seq<Char>): nat { |Flat(s)| }

  ghost predicate From(cs: iset<Char>, s: seq<Char>)
  {
    forall i :: 0 <= i < |s| ==> s[i] in cs
  }

  ghost predicate PrefixFree(cs: iset<Char>)
  {
    forall c, d :: c in cs && d in cs && c <= d ==> c == d
  }

  ghost predicate SelfSynchronising(cs: iset<Char>)
  {
    PrefixFree(cs) && forall c, d, i :: c in cs && d in cs && 0 < i < |d| ==> d[i] != c[0]
  }

  lemma {:induction false} FlatConcat(u: seq<Char>, v: seq<Char>)
    ensures Flat(u + v) == Flat(u) + Flat(v)
  {
    if u == [] {
      assert u + v == v;
    } else {
      assert (u + v)[1..] == u[1..] + v;
      FlatConcat(u[1..], v);
    }
  }

  lemma {:induction false} FlatLength(s: seq<Char>)
    ensures |s| <= ByteLen(s)
  {
    if s != [] { FlatLength(s[1..]); }
  }

  /** Bytes that remain after position i. */
  lemma RestLength(s: seq<Char>, i: nat, j: nat)
    requires i <= j <= |s|
    ensures ByteLen(s[i..]) == ByteLen(s[i..j]) + ByteLen(s[j..])
    ensures j - i <= ByteLen(s[i..j])
  {
    assert s[i..] == s[i..j] + s[j..];
    FlatConcat(s[i..j], s[j..]);
    FlatLength(s[i..j]);
  }

  /** In a prefix-free character set a byte prefix is a character prefix. */
  lemma {:induction false} BytePrefixIsCharPrefix(cs: iset<Char>, u: seq<Char>, v: seq<Char>)
    requires PrefixFree(cs) && From(cs, u) && From(cs, v)
    ensures Flat(u) <= Flat(v) <==> u <= v
  {
    if u == [] {
    } else if v == [] {
    } else {
      if u <= v {
        FlatConcat(u, v[|u|..]);
        assert v == u + v[|u|..];
      }
      if Flat(u) <= Flat(v) {
        SameFirst(cs, u, v);
        BytePrefixIsCharPrefix(cs, u[1..], v[1..]);
        assert u == [u[0]] + u[1..] && v == [v[0]] + v[1..];
      }
    }
  }

  /** A byte prefix begins with the same character, and its rest is a byte prefix of the rest. */
  lemma {:induction false} SameFirst(cs: iset<Char>, u: seq<Char>, v: seq<Char>)
    requires PrefixFree(cs) && From(cs, u) && From(cs, v) && u != [] && v != [] && Flat(u) <= Flat(v)
    ensures u[0] == v[0] && Flat(u[1..]) <= Flat(v[1..])
  {
    var c, d, fu, fv := u[0], v[0], Flat(u), Flat(v);
    var m := if |c| <= |d| then |c| else |d|;
    assert c[..m] == fu[..m] == fv[..m] == d[..m];
    assert c == d;
    assert fu[|c|..] == Flat(u[1..]) && fv[|c|..] == Flat(v[1..]);
  }

  // ---------- literal parts as bytes ----------

  predicate Literal(part: seq<Elem<Char>>)
  {
    forall i :: 0 <= i < |part| ==> part[i].Lit?
  }

  function Chars(part: seq<Elem<Char>>): (r: seq<Char>)
    requires Literal(part)
    ensures |r| == |part| && forall i :: 0 <= i < |part| ==> r[i] == part[i].c
  {
    seq(|part|, i requires 0 <= i < |part| => part[i].c)
  }

  function Lits<T>(xs: seq<T>): (r: seq<Elem<T>>)
    ensures |r| == |xs| && forall i :: 0 <= i < |xs| ==> r[i] == Lit(xs[i])
  {
    seq(|xs|, i requires 0 <= i < |xs| => Lit(xs[i]))
  }

  function ByteLits(part: seq<Elem<Char>>): seq<Elem<byte>>
    requires Literal(part)
  {
    Lits(Flat(Chars(part)))
  }

  predicate AllLiteral(parts: seq<seq<Elem<Char>>>)
  {
    forall k :: 0 <= k < |parts| ==> parts[k] != [] && Literal(parts[k])
  }

  function ByteParts(parts: seq<seq<Elem<Char>>>): (r: seq<seq<Elem<byte>>>)
    requires AllLiteral(parts)
    ensures |r| == |parts|
  {
    if parts == [] then [] else [ByteLits(parts[0])] + ByteParts(parts[1..])
  }

  lemma FitsIsSlice(bs: seq<byte>, t: seq<byte>, o: nat)
    ensures FitsAt(Lits(bs), t, o) <==> o + |bs| <= |t| && t[o..o + |bs|] == bs
  {
    if FitsAt(Lits(bs), t, o) {
      forall j | 0 <= j < |bs|
        ensures t[o..o + |bs|][j] == bs[j]
      {
        assert ElemFits(Lits(bs)[j], t[o + j]);
      }
    }
  }

  lemma FitsIsPrefix(part: seq<Elem<Char>>, s: seq<Char>, i: nat)
    requires Literal(part) && i <= |s|
    ensures FitsAt(part, s, i) <==> Chars(part) <= s[i..]
  {
    if FitsAt(part, s, i) {
      forall j | 0 <= j < |part|
        ensures Chars(part)[j] == s[i..][j]
      {
        assert ElemFits(part[j], s[i + j]);
      }
    }
  }

  function Offset(s: seq<Char>, i: nat): nat
    requires i <= |s|
  {
    ByteLen(s[..i])
  }

  /** At a character boundary the bytes of a literal part fit exactly when its characters do. */
  lemma {:induction false} BoundaryFits(cs: iset<Char>, part: seq<Elem<Char>>, s: seq<Char>, i: nat)
    requires PrefixFree(cs) && Literal(part) && From(cs, Chars(part)) && From(cs, s) && i <= |s|
    ensures FitsAt(ByteLits(part), Flat(s), Offset(s, i)) <==> FitsAt(part, s, i)
  {
    RestBytes(s, i);
    FitsIsSlice(Flat(Chars(part)), Flat(s), Offset(s, i));
    SliceIsPrefix(Flat(Chars(part)), Flat(s), Offset(s, i));
    FitsIsPrefix(part, s, i);
    BytePrefixIsCharPrefix(cs, Chars(part), s[i..]);
  }

  lemma {:induction false} RestBytes(s: seq<Char>, i: nat)
    requires i <= |s|
    ensures Offset(s, i) <= ByteLen(s) && Flat(s)[Offset(s, i)..] == Flat(s[i..])
  {
    assert s == s[..i] + s[i..];
    FlatConcat(s[..i], s[i..]);
  }

  lemma SliceIsPrefix(bs: seq<byte>, t: seq<byte>, o: nat)
    requires o <= |t|
    ensures (o + |bs| <= |t| && t[o..o + |bs|] == bs) <==> bs <= t[o..]
  {
    if o + |bs| <= |t| { assert t[o..][..|bs|] == t[o..o + |bs|]; }
  }

  /** The character that covers a byte offset. */
  lemma {:induction false} Covering(s: seq<Char>, o: nat) returns (i: nat)
    requires o < ByteLen(s)
    ensures i < |s| && Offset(s, i) <= o < Offset(s, i) + |s[i]|
    ensures Flat(s)[o] == s[i][o - Offset(s, i)]
  {
    if o < |s[0]| {
      i := 0;
    } else {
      var k := Covering(s[1..], o - |s[0]|);
      i := k + 1;
      assert s[..i] == [s[0]] + s[1..][..k];
      FlatConcat([s[0]], s[1..][..k]);
      assert Flat([s[0]]) == s[0] + Flat([]);
    }
  }

  /** In a self-synchronising set the bytes of a literal part occur only at character boundaries. */
  lemma OccurrenceAtBoundary(cs: iset<Char>, part: seq<Elem<Char>>, s: seq<Char>, o: nat) returns (i: nat)
    requires SelfSynchronising(cs) && part != [] && Literal(part) && From(cs, Chars(part)) && From(cs, s)
    requires FitsAt(ByteLits(part), Flat(s), o)
    ensures i <= |s| && o == Offset(s, i) && FitsAt(part, s, i)
  {
    var chars := Chars(part);
    var bs := Flat(chars);
    FlatLength(chars);
    assert bs[0] == chars[0][0];
    assert ElemFits(Lits(bs)[0], Flat(s)[o + 0]);
    i := Covering(s, o);
    assert chars[0] in cs && s[i] in cs;
    BoundaryFits(cs, part, s, i);
  }

  lemma {:induction false} OffsetMonotone(s: seq<Char>, i: nat, j: nat)
    requires i <= |s| && j <= |s|
    ensures Offset(s, i) <= Offset(s, j) <==> i <= j
  {
    if i <= j { OffsetStep(s, i, j); } else { OffsetStep(s, j, i); }
  }

  lemma OffsetStep(s: seq<Char>, i: nat, j: nat)
    requires i <= j <= |s|
    ensures Offset(s, j) == Offset(s, i) + ByteLen(s[i..j])
    ensures j - i <= ByteLen(s[i..j])
  {
    assert s[..j] == s[..i] + s[i..j];
    FlatConcat(s[..i], s[i..j]);
    FlatLength(s[i..j]);
  }

  lemma OffsetAfter(part: seq<Elem<Char>>, s: seq<Char>, i: nat)
    requires Literal(part) && FitsAt(part, s, i)
    ensures Offset(s, i + |part|) == Offset(s, i) + |ByteLits(part)|
  {
    OffsetStep(s, i, i + |part|);
    assert s[i..i + |part|] == Chars(part) by {
      forall j | 0 <= j < |part|
        ensures s[i..i + |part|][j] == Chars(part)[j]
      {
        assert ElemFits(part[j], s[i + j]);
      }
    }
  }

  ghost predicate PartsFrom(cs: iset<Char>, parts: seq<seq<Elem<Char>>>)
    requires AllLiteral(parts)
  {
    forall k :: 0 <= k < |parts| ==> From(cs, Chars(parts[k]))
  }

  /** Placing literal parts in the bytes is placing them in the characters. */
  lemma {:induction false} BytePlaceable(cs: iset<Char>, parts: seq<seq<Elem<Char>>>, s: seq<Char>, from: nat, to: nat)
    requires SelfSynchronising(cs) && AllLiteral(parts) && PartsFrom(cs, parts) && From(cs, s)
    requires from <= |s| && to <= |s|
    ensures Placeable(ByteParts(parts), Flat(s), Offset(s, from), Offset(s, to)) <==> Placeable(parts, s, from, to)
    decreases |parts|, 1
  {
    if parts == [] {
      OffsetMonotone(s, from, to);
    } else {
      if Placeable(parts, s, from, to) { CharsToBytes(cs, parts, s, from, to); }
      if Placeable(ByteParts(parts), Flat(s), Offset(s, from), Offset(s, to)) { BytesToChars(cs, parts, s, from, to); }
    }
  }

  lemma {:induction false} CharsToBytes(cs: iset<Char>, parts: seq<seq<Elem<Char>>>, s: seq<Char>, from: nat, to: nat)
    requires SelfSynchronising(cs) && parts != [] && AllLiteral(parts) && PartsFrom(cs, parts) && From(cs, s)
    requires from <= |s| && to <= |s| && Placeable(parts, s, from, to)
    ensures Placeable(ByteParts(parts), Flat(s), Offset(s, from), Offset(s, to))
    decreases |parts|, 0, 1
  {
    assert [parts[0]] + parts[1..] == parts;
    var i := SplitFirst(parts[0], parts[1..], s, from, to);
    RestParts(cs, parts);
    MiddleOffsets(cs, parts[0], s, from, i);
    NextMiddle(cs, parts, s, i + |parts[0]|, to, Offset(s, i) + |ByteLits(parts[0])|);
    PlaceFirst(ByteLits(parts[0]), ByteParts(parts[1..]), Flat(s), Offset(s, from), Offset(s, to), Offset(s, i));
  }

  /** A first part found among the bytes is at a character, and the rest is still to be placed behind it. */
  lemma {:induction false} FirstAtBoundary(cs: iset<Char>, parts: seq<seq<Elem<Char>>>, s: seq<Char>, from: nat,
                                           to: nat)
    returns (i: nat)
    requires SelfSynchronising(cs) && parts != [] && AllLiteral(parts) && PartsFrom(cs, parts) && From(cs, s)
    requires from <= |s| && to <= |s|
    requires Placeable(ByteParts(parts), Flat(s), Offset(s, from), Offset(s, to))
    ensures Literal(parts[0]) && From(cs, Chars(parts[0])) && AllLiteral(parts[1..])
    ensures from <= i && FitsAt(parts[0], s, i)
    ensures Placeable(ByteParts(parts[1..]), Flat(s), Offset(s, i) + |ByteLits(parts[0])|, Offset(s, to))
  {
    RestParts(cs, parts);
    assert ByteParts(parts) == [ByteLits(parts[0])] + ByteParts(parts[1..]);
    var o := SplitFirst(ByteLits(parts[0]), ByteParts(parts[1..]), Flat(s), Offset(s, from), Offset(s, to));
    i := OccurrenceAtBoundary(cs, parts[0], s, o);
    OffsetMonotone(s, from, i);
  }

  lemma {:induction false} BytesToChars(cs: iset<Char>, parts: seq<seq<Elem<Char>>>, s: seq<Char>, from: nat, to: nat)
    requires SelfSynchronising(cs) && parts != [] && AllLiteral(parts) && PartsFrom(cs, parts) && From(cs, s)
    requires from <= |s| && to <= |s|
    requires Placeable(ByteParts(parts), Flat(s), Offset(s, from), Offset(s, to))
    ensures Placeable(parts, s, from, to)
    decreases |parts|, 0, 1
  {
    var i := FirstAtBoundary(cs, parts, s, from, to);
    MiddleOffsets(cs, parts[0], s, from, i);
    NextMiddle(cs, parts, s, i + |parts[0]|, to, Offset(s, i) + |ByteLits(parts[0])|);
    assert [parts[0]] + parts[1..] == parts;
    PlaceFirst(parts[0], parts[1..], s, from, to, i);
  }

  /** The parts after the first, from where the first ends. */
  lemma {:induction false} NextMiddle(cs: iset<Char>, parts: seq<seq<Elem<Char>>>, s: seq<Char>, end: nat, to: nat,
                                      o: nat)
    requires SelfSynchronising(cs) && parts != [] && AllLiteral(parts) && PartsFrom(cs, parts) && From(cs, s)
    requires end <= |s| && to <= |s| && o == Offset(s, end)
    ensures Placeable(ByteParts(parts[1..]), Flat(s), o, Offset(s, to)) <==> Placeable(parts[1..], s, end, to)
    decreases |parts|, 0, 0
  {
    RestParts(cs, parts);
    BytePlaceable(cs, parts[1..], s, end, to);
  }

  lemma RestParts(cs: iset<Char>, parts: seq<seq<Elem<Char>>>)
    requires parts != [] && AllLiteral(parts) && PartsFrom(cs, parts)
    ensures Literal(parts[0]) && From(cs, Chars(parts[0])) && AllLiteral(parts[1..]) && PartsFrom(cs, parts[1..])
  {
  }

  /** A part in place is in place at its byte offset, and ends where the byte offset of its end is. */
  lemma {:induction false} MiddleOffsets(cs: iset<Char>, part: seq<Elem<Char>>, s: seq<Char>, from: nat, i: nat)
    requires PrefixFree(cs) && Literal(part) && From(cs, Chars(part)) && From(cs, s) && from <= i && FitsAt(part, s, i)
    ensures Offset(s, from) <= Offset(s, i) && FitsAt(ByteLits(part), Flat(s), Offset(s, i))
    ensures Offset(s, i) + |ByteLits(part)| == Offset(s, i + |part|)
  {
    BoundaryFits(cs, part, s, i);
    OffsetAfter(part, s, i);
    OffsetMonotone(s, from, i);
  }

  // ---------- a literal decomposition as bytes ----------

  predicate LiteralInfo(info: Info<Char>)
  {
    (info.leading.Some? ==> Literal(info.leading.value)) && AllLiteral(info.middles) &&
    (info.following.Some? ==> info.following.value != [] && Literal(info.following.value))
  }

  ghost predicate InfoFrom(cs: iset<Char>, info: Info<Char>)
    requires LiteralInfo(info)
  {
    (info.leading.Some? ==> From(cs, Chars(info.leading.value))) && PartsFrom(cs, info.middles) &&
    (info.following.Some? ==> From(cs, Chars(info.following.value)))
  }

  function ByteInfo(info: Info<Char>): Info<byte>
    requires LiteralInfo(info)
  {
    Info(if info.leading.Some? then Some(ByteLits(info.leading.value)) else None,
         ByteParts(info.middles),
         if info.following.Some? then Some(ByteLits(info.following.value)) else None,
         info.isConst)
  }

  lemma WholeOffset(s: seq<Char>, i: nat)
    requires i <= |s|
    ensures Offset(s, 0) == 0 && Offset(s, |s|) == ByteLen(s)
    ensures Offset(s, i) == ByteLen(s) <==> i == |s|
  {
    assert s[..|s|] == s;
    OffsetMonotone(s, |s|, i);
  }

  /** A part that ends where the string ends, in characters and in bytes. */
  lemma EndOffset(part: seq<Elem<Char>>, s: seq<Char>, i: nat)
    requires Literal(part) && FitsAt(part, s, i)
    ensures Offset(s, i) + |ByteLits(part)| == ByteLen(s) <==> i + |part| == |s|
  {
    var end := i + |part|;
    OffsetAfter(part, s, i);
    WholeOffset(s, end);
  }

  /** The byte position where a final part would sit is a place where it fits exactly when its characters do. */
  lemma {:induction false} FollowingFits(cs: iset<Char>, part: seq<Elem<Char>>, s: seq<Char>, i: int, o: int)
    requires SelfSynchronising(cs) && part != [] && Literal(part) && From(cs, Chars(part)) && From(cs, s)
    requires i + |part| == |s| && o + |ByteLits(part)| == ByteLen(s)
    ensures FitsAt(ByteLits(part), Flat(s), o) <==> FitsAt(part, s, i)
    ensures FitsAt(part, s, i) ==> o == Offset(s, i)
  {
    if FitsAt(part, s, i) {
      EndOffset(part, s, i);
      BoundaryFits(cs, part, s, i);
    }
    if FitsAt(ByteLits(part), Flat(s), o) {
      var k := OccurrenceAtBoundary(cs, part, s, o);
      EndOffset(part, s, k);
    }
  }

  lemma {:induction false} ByteTailOpen(cs: iset<Char>, middles: seq<seq<Elem<Char>>>, s: seq<Char>, head: nat)
    requires SelfSynchronising(cs) && AllLiteral(middles) && PartsFrom(cs, middles) && From(cs, s) && head <= |s|
    ensures TailLike(ByteParts(middles), None, Flat(s), Offset(s, head)) <==> TailLike(middles, None, s, head)
  {
    WholeOffset(s, |s|);
    BytePlaceable(cs, middles, s, head, |s|);
  }

  lemma {:induction false} ByteTailAt(cs: iset<Char>, middles: seq<seq<Elem<Char>>>, last: seq<Elem<Char>>,
                                      s: seq<Char>, head: nat, i: int, o: int)
    requires SelfSynchronising(cs) && AllLiteral(middles) && PartsFrom(cs, middles) && From(cs, s) && head <= |s|
    requires last != [] && Literal(last) && From(cs, Chars(last))
    requires i == |s| - |last| && o == ByteLen(s) - |ByteLits(last)|
    ensures Placeable(ByteParts(middles), Flat(s), Offset(s, head), o) && FitsAt(ByteLits(last), Flat(s), o) <==>
            Placeable(middles, s, head, i) && FitsAt(last, s, i)
  {
    FollowingFits(cs, last, s, i, o);
    if FitsAt(last, s, i) { BytePlaceable(cs, middles, s, head, i); }
  }

  lemma {:induction false} ByteTailClosed(cs: iset<Char>, middles: seq<seq<Elem<Char>>>, last: seq<Elem<Char>>,
                                          s: seq<Char>, head: nat)
    requires SelfSynchronising(cs) && AllLiteral(middles) && PartsFrom(cs, middles) && From(cs, s) && head <= |s|
    requires last != [] && Literal(last) && From(cs, Chars(last))
    ensures TailLike(ByteParts(middles), Some(ByteLits(last)), Flat(s), Offset(s, head)) <==>
            TailLike(middles, Some(last), s, head)
  {
    ByteTailAt(cs, middles, last, s, head, |s| - |last|, ByteLen(s) - |ByteLits(last)|);
  }

  lemma {:induction false} ByteTail(cs: iset<Char>, info: Info<Char>, s: seq<Char>, head: nat)
    requires SelfSynchronising(cs) && LiteralInfo(info) && InfoFrom(cs, info) && From(cs, s) && head <= |s|
    ensures TailLike(ByteInfo(info).middles, ByteInfo(info).following, Flat(s), Offset(s, head)) <==>
            TailLike(info.middles, info.following, s, head)
  {
    if info.following.None? {
      ByteTailOpen(cs, info.middles, s, head);
    } else {
      ByteTailClosed(cs, info.middles, info.following.value, s, head);
    }
  }

  /** A decomposition without underscores accepts the same strings by bytes and by characters. */
  lemma ByteInfoLike(cs: iset<Char>, info: Info<Char>, s: seq<Char>)
    requires PrefixFree(cs) && LiteralInfo(info) && InfoFrom(cs, info) && From(cs, s)
    requires info.isConst || (info.middles == [] && info.following == None) || SelfSynchronising(cs)
    ensures InfoLike(ByteInfo(info), Flat(s)) <==> InfoLike(info, s)
  {
    ByteHead(cs, info, s);
    var head := if info.leading.Some? then |info.leading.value| else 0;
    if info.leading.Some? ==> FitsAt(info.leading.value, s, 0) {
      WholeOffset(s, head);
      if !info.isConst { ByteRest(cs, info, s, head); }
    }
  }

  /** The leading part: it fits alike, and what follows begins at the byte offset of its end. */
  lemma {:induction false} ByteHead(cs: iset<Char>, info: Info<Char>, s: seq<Char>)
    requires PrefixFree(cs) && LiteralInfo(info) && InfoFrom(cs, info) && From(cs, s)
    ensures var head := if info.leading.Some? then |info.leading.value| else 0;
            && (info.leading.Some? ==>
                  (FitsAt(ByteLits(info.leading.value), Flat(s), 0) <==> FitsAt(info.leading.value, s, 0)))
            && ((info.leading.Some? ==> FitsAt(info.leading.value, s, 0)) ==>
                  head <= |s| && Offset(s, head) == if info.leading.Some? then |ByteLits(info.leading.value)| else 0)
  {
    WholeOffset(s, 0);
    if info.leading.Some? {
      var part := info.leading.value;
      BoundaryFits(cs, part, s, 0);
      if FitsAt(part, s, 0) { OffsetAfter(part, s, 0); }
    }
  }

  /** Everything after the leading part. */
  lemma {:induction false} ByteRest(cs: iset<Char>, info: Info<Char>, s: seq<Char>, head: nat)
    requires PrefixFree(cs) && LiteralInfo(info) && InfoFrom(cs, info) && From(cs, s) && head <= |s|
    requires (info.middles == [] && info.following == None) || SelfSynchronising(cs)
    ensures TailLike(ByteInfo(info).middles, ByteInfo(info).following, Flat(s), Offset(s, head)) <==>
            TailLike(info.middles, info.following, s, head)
  {
    if info.middles == [] && info.following == None {
      WholeOffset(s, head);
      OffsetMonotone(s, head, |s|);
    } else {
      ByteTail(cs, info, s, head);
    }
  }
}
