/**
 Sentences over an in-order link: the sender cuts a sentence into packets and marks the last one,
 the receiver puts them together again. The state machine below has one step per packet sent and
 per packet received.
 */
module PacketLink {
  import opened CArithmetic
  import opened PacketHeader
  import opened Sequences

  /** What a side has of the conversation: finished sentences and the bytes of the open one. */
  datatype Assembly = Assembly(done: seq<seq<byte>>, open: seq<byte>)

  const NOTHING := Assembly([], [])

  function Absorb(a: Assembly, payload: seq<byte>, end: bool): Assembly
  {
    if end then Assembly(a.done + [a.open + payload], []) else Assembly(a.done, a.open + payload)
  }

  function Assemble(a: Assembly, packets: seq<Packet>): Assembly
    decreases |packets|
  {
    if packets == [] then a else Assemble(Absorb(a, packets[0].payload, packets[0].end), packets[1..])
  }

  /** The sequence advances after a period, within seven bits. */
  function Next(sequence: nat, end: bool): nat
  {
    if end then (sequence + 1) % SEQUENCE_COUNT else sequence
  }

  function Ends(packets: seq<Packet>): nat
  {
    if packets == [] then 0 else (if packets[0].end then 1 else 0) + Ends(packets[1..])
  }

  datatype Link = Link(sendSequence: nat, sent: Assembly, inFlight: seq<Packet>, recvSequence: nat, received: Assembly)

  const INITIAL := Link(0, NOTHING, [], 0, NOTHING)

  datatype Action = Send(payload: seq<byte>, end: bool) | Deliver

  /** Sending an empty buffer sends nothing, not even the period. */
  function Step(l: Link, action: Action): Link
  {
    match action
    case Send(payload, end) =>
      if payload == [] then l
      else l.(sendSequence := Next(l.sendSequence, end), sent := Absorb(l.sent, payload, end),
              inFlight := l.inFlight + [Packet(payload, end, l.sendSequence)])
    case Deliver =>
      if l.inFlight == [] then l
      else
        var p := l.inFlight[0];
        l.(inFlight := l.inFlight[1..], recvSequence := Next(l.recvSequence, p.end),
           received := Absorb(l.received, p.payload, p.end))
  }

  function Run(l: Link, actions: seq<Action>): Link
    decreases |actions|
  {
    if actions == [] then l else Run(Step(l, actions[0]), actions[1..])
  }

  // ---------- what every step keeps ----------

  /** Packets carry the receiver's sequence, advanced at each period before them. */
  predicate Labelled(packets: seq<Packet>, sequence: nat)
  {
    packets != [] ==>
      packets[0].sequence == sequence && packets[0].payload != [] &&
      Labelled(packets[1..], Next(sequence, packets[0].end))
  }

  /** The state of a link that has lost nothing. */
  predicate Sound(l: Link)
  {
    l.sendSequence == |l.sent.done| % SEQUENCE_COUNT && l.recvSequence == |l.received.done| % SEQUENCE_COUNT &&
    l.sendSequence == (l.recvSequence + Ends(l.inFlight)) % SEQUENCE_COUNT &&
    Labelled(l.inFlight, l.recvSequence) && l.sent == Assemble(l.received, l.inFlight)
  }

  lemma {:induction false} EndsAppend(packets: seq<Packet>, p: Packet)
    ensures Ends(packets + [p]) == Ends(packets) + if p.end then 1 else 0
  {
    if packets == [] {
      assert [p][1..] == [] && packets + [p] == [p];
    } else {
      assert (packets + [p])[1..] == packets[1..] + [p];
      EndsAppend(packets[1..], p);
    }
  }

  lemma {:induction false} AssembleAppend(a: Assembly, packets: seq<Packet>, p: Packet)
    ensures Assemble(a, packets + [p]) == Absorb(Assemble(a, packets), p.payload, p.end)
    decreases |packets|
  {
    if packets == [] {
      assert [p][1..] == [] && packets + [p] == [p];
    } else {
      assert (packets + [p])[1..] == packets[1..] + [p];
      AssembleAppend(Absorb(a, packets[0].payload, packets[0].end), packets[1..], p);
    }
  }

  lemma {:induction false} LabelledAppend(packets: seq<Packet>, sequence: nat, p: Packet)
    requires sequence < SEQUENCE_COUNT && Labelled(packets, sequence) && p.payload != []
    requires p.sequence == (sequence + Ends(packets)) % SEQUENCE_COUNT
    ensures Labelled(packets + [p], sequence)
  {
    if packets == [] {
      assert [p][1..] == [] && packets + [p] == [p];
    } else {
      assert (packets + [p])[1..] == packets[1..] + [p];
      NextAdds(sequence, packets[0].end, Ends(packets[1..]), if packets[0].end then 1 else 0);
      LabelledAppend(packets[1..], Next(sequence, packets[0].end), p);
    }
  }

  /** Counting a period before or after going to the next sequence is the same. */
  lemma NextAdds(sequence: nat, end: bool, k: nat, one: nat)
    requires sequence < SEQUENCE_COUNT && one == if end then 1 else 0
    ensures (Next(sequence, end) + k) % SEQUENCE_COUNT == (sequence + (one + k)) % SEQUENCE_COUNT
  {
    if end && sequence == SEQUENCE_COUNT - 1 { OneTurn(k, sequence + (one + k)); }
  }

  lemma OneTurn(k: nat, m: nat)
    requires m == k + SEQUENCE_COUNT
    ensures k % SEQUENCE_COUNT == m % SEQUENCE_COUNT
  {
  }

  lemma NextCounts(n: nat, end: bool)
    ensures Next(n % SEQUENCE_COUNT, end) == (n + if end then 1 else 0) % SEQUENCE_COUNT
  {
  }

  lemma SendKeepsSound(l: Link, payload: seq<byte>, end: bool)
    requires Sound(l) && payload != []
    ensures Sound(Step(l, Send(payload, end)))
  {
    var p := Packet(payload, end, l.sendSequence);
    EndsAppend(l.inFlight, p);
    AssembleAppend(l.received, l.inFlight, p);
    LabelledAppend(l.inFlight, l.recvSequence, p);
    NextCounts(|l.sent.done|, end);
    NextCounts(l.recvSequence + Ends(l.inFlight), end);
  }

  lemma DeliverKeepsSound(l: Link)
    requires Sound(l) && l.inFlight != []
    ensures Sound(Step(l, Deliver))
  {
    var p := l.inFlight[0];
    NextCounts(|l.received.done|, p.end);
    NextCounts(l.recvSequence, p.end);
    assert (Next(l.recvSequence, p.end) + Ends(l.inFlight[1..])) % SEQUENCE_COUNT == l.sendSequence;
  }

  lemma StepKeepsSound(l: Link, action: Action)
    requires Sound(l)
    ensures Sound(Step(l, action))
  {
    match action
    case Send(payload, end) => if payload != [] { SendKeepsSound(l, payload, end); }
    case Deliver => if l.inFlight != [] { DeliverKeepsSound(l); }
  }

  /** Every reachable state is sound. */
  lemma {:induction false} RunKeepsSound(l: Link, actions: seq<Action>)
    requires Sound(l)
    ensures Sound(Run(l, actions))
    decreases |actions|
  {
    if actions != [] {
      StepKeepsSound(l, actions[0]);
      RunKeepsSound(Step(l, actions[0]), actions[1..]);
    }
  }

  // ---------- reassembly ----------

  lemma {:induction false} AssembleExtends(a: Assembly, packets: seq<Packet>)
    ensures a.done <= Assemble(a, packets).done
    decreases |packets|
  {
    if packets != [] {
      var b := Absorb(a, packets[0].payload, packets[0].end);
      assert a.done <= b.done;
      AssembleExtends(b, packets[1..]);
    }
  }

  /** Sentences as cut by the caller: every piece is sent, the last one with the period. */
  function SendAll(cuts: seq<seq<seq<byte>>>): seq<Action>
  {
    if cuts == [] then [] else SendOne(cuts[0]) + SendAll(cuts[1..])
  }

  function SendOne(pieces: seq<seq<byte>>): seq<Action>
  {
    if pieces == [] then [] else [Send(pieces[0], |pieces| == 1)] + SendOne(pieces[1..])
  }

  function Sentences(cuts: seq<seq<seq<byte>>>): (r: seq<seq<byte>>)
    ensures |r| == |cuts| && forall i :: 0 <= i < |cuts| ==> r[i] == Joined(cuts[i])
  {
    seq(|cuts|, i requires 0 <= i < |cuts| => Joined(cuts[i]))
  }

  /** A cut whose last piece holds bytes; pieces before it may be empty. */
  predicate ProperCut(pieces: seq<seq<byte>>)
  {
    pieces != [] && pieces[|pieces| - 1] != []
  }

  /** Send actions in order, whatever deliveries happen in between. */
  function Sends(actions: seq<Action>): seq<Action>
  {
    if actions == [] then [] else (if actions[0].Send? then [actions[0]] else []) + Sends(actions[1..])
  }

  function SentBy(a: Assembly, sends: seq<Action>): Assembly
    decreases |sends|
  {
    if sends == [] then a else SentBy(Sent(a, sends[0]), sends[1..])
  }

  /** An empty payload is not sent. */
  function Sent(a: Assembly, send: Action): Assembly
  {
    if send.Send? && send.payload != [] then Absorb(a, send.payload, send.end) else a
  }

  lemma {:induction false} RunSends(l: Link, actions: seq<Action>)
    ensures Run(l, actions).sent == SentBy(l.sent, Sends(actions))
    decreases |actions|
  {
    if actions != [] {
      RunSends(Step(l, actions[0]), actions[1..]);
      var rest := Sends(actions[1..]);
      if actions[0].Send? {
        assert Sends(actions) == [actions[0]] + rest && ([actions[0]] + rest)[1..] == rest;
      } else {
        assert Sends(actions) == [] + rest == rest;
      }
    }
  }

  lemma {:induction false} SentByConcat(a: Assembly, first: seq<Action>, rest: seq<Action>)
    ensures SentBy(a, first + rest) == SentBy(SentBy(a, first), rest)
    decreases |first|
  {
    if first == [] {
      assert first + rest == rest;
    } else {
      assert (first + rest)[1..] == first[1..] + rest;
      SentByConcat(Sent(a, first[0]), first[1..], rest);
    }
  }

  lemma {:induction false} OneSentence(a: Assembly, pieces: seq<seq<byte>>)
    requires ProperCut(pieces)
    ensures SentBy(a, SendOne(pieces)) == Assembly(a.done + [a.open + Joined(pieces)], [])
    decreases |pieces|
  {
    var b := Sent(a, Send(pieces[0], |pieces| == 1));
    FirstPiece(a, pieces, b);
    if |pieces| == 1 {
      assert SendOne(pieces[1..]) == [];
      assert Joined(pieces) == pieces[0] + [] == pieces[0];
    } else {
      OneSentence(b, pieces[1..]);
      OpenGrows(a, pieces, b);
    }
  }

  lemma {:induction false} OpenGrows(a: Assembly, pieces: seq<seq<byte>>, b: Assembly)
    requires |pieces| > 1 && b == Sent(a, Send(pieces[0], false))
    ensures b.done == a.done && a.open + Joined(pieces) == b.open + Joined(pieces[1..])
  {
    SentOpen(a, pieces[0], b);
    Regrouped(a.open, pieces[0], Joined(pieces[1..]));
  }

  lemma {:induction false} SentOpen(a: Assembly, piece: seq<byte>, b: Assembly)
    requires b == Sent(a, Send(piece, false))
    ensures b.done == a.done && b.open == a.open + piece
  {
  }

  lemma Regrouped(x: seq<byte>, y: seq<byte>, z: seq<byte>)
    ensures x + (y + z) == (x + y) + z
  {
  }

  lemma {:induction false} FirstPiece(a: Assembly, pieces: seq<seq<byte>>, b: Assembly)
    requires pieces != [] && b == Sent(a, Send(pieces[0], |pieces| == 1))
    ensures SentBy(a, SendOne(pieces)) == SentBy(b, SendOne(pieces[1..]))
  {
    var first := Send(pieces[0], |pieces| == 1);
    assert SendOne(pieces) == [first] + SendOne(pieces[1..]);
    assert SendOne(pieces)[1..] == SendOne(pieces[1..]);
  }

  /** A cut finishes a sentence exactly when its last piece holds bytes. */
  lemma {:induction false} OneCount(a: Assembly, pieces: seq<seq<byte>>)
    ensures |SentBy(a, SendOne(pieces)).done| == |a.done| + if ProperCut(pieces) then 1 else 0
    decreases |pieces|
  {
    if pieces != [] {
      var b := Sent(a, Send(pieces[0], |pieces| == 1));
      FirstPiece(a, pieces, b);
      if |pieces| == 1 { assert SendOne(pieces[1..]) == []; } else { OneCount(b, pieces[1..]); }
    }
  }

  function ProperCuts(cuts: seq<seq<seq<byte>>>): (n: nat)
    ensures n <= |cuts|
    ensures n == |cuts| <==> forall i :: 0 <= i < |cuts| ==> ProperCut(cuts[i])
  {
    if cuts == [] then 0 else (if ProperCut(cuts[0]) then 1 else 0) + ProperCuts(cuts[1..])
  }

  lemma {:induction false} AllCount(a: Assembly, cuts: seq<seq<seq<byte>>>)
    ensures |SentBy(a, SendAll(cuts)).done| == |a.done| + ProperCuts(cuts)
    decreases |cuts|
  {
    if cuts != [] {
      var b := SentBy(a, SendOne(cuts[0]));
      SentByConcat(a, SendOne(cuts[0]), SendAll(cuts[1..]));
      OneCount(a, cuts[0]);
      AllCount(b, cuts[1..]);
    }
  }

  lemma OneMoreSentence(done: seq<seq<byte>>, cuts: seq<seq<seq<byte>>>)
    requires cuts != []
    ensures done + Sentences(cuts) == (done + [Joined(cuts[0])]) + Sentences(cuts[1..])
  {
    assert Sentences(cuts) == [Joined(cuts[0])] + Sentences(cuts[1..]);
  }

  lemma {:induction false} AllSentences(a: Assembly, cuts: seq<seq<seq<byte>>>)
    requires a.open == [] && forall i :: 0 <= i < |cuts| ==> ProperCut(cuts[i])
    ensures SentBy(a, SendAll(cuts)) == Assembly(a.done + Sentences(cuts), [])
    decreases |cuts|
  {
    if cuts != [] {
      SentByConcat(a, SendOne(cuts[0]), SendAll(cuts[1..]));
      OneSentence(a, cuts[0]);
      assert a.open + Joined(cuts[0]) == Joined(cuts[0]);
      AllSentences(Assembly(a.done + [Joined(cuts[0])], []), cuts[1..]);
      OneMoreSentence(a.done, cuts);
    } else {
      assert a.done + Sentences(cuts) == a.done;
    }
  }

  /**
   However the sentences are cut and however deliveries interleave, what has been received is at any
   moment a prefix of the sentences, and all of them once nothing is in flight.
   */
  lemma {:induction false} ReassemblyIsExact(cuts: seq<seq<seq<byte>>>, actions: seq<Action>)
    requires forall i :: 0 <= i < |cuts| ==> ProperCut(cuts[i])
    requires Sends(actions) == SendAll(cuts)
    ensures var l := Run(INITIAL, actions);
            && l.received.done <= Sentences(cuts)
            && (l.inFlight == [] ==> l.received == Assembly(Sentences(cuts), []))
  {
    var l := Run(INITIAL, actions);
    RunKeepsSound(INITIAL, actions);
    RunSends(INITIAL, actions);
    AllSentences(NOTHING, cuts);
    assert NOTHING.done + Sentences(cuts) == Sentences(cuts);
    AssembleExtends(l.received, l.inFlight);
  }

  /**
   For any cuts at all, empty pieces included: once everything is delivered the receiver has exactly
   the sentences if and only if the last piece of every sentence holds bytes.
   */
  lemma {:induction false} ReassemblyIsExactIff(cuts: seq<seq<seq<byte>>>, actions: seq<Action>)
    requires Sends(actions) == SendAll(cuts) && Run(INITIAL, actions).inFlight == []
    ensures Run(INITIAL, actions).received == Assembly(Sentences(cuts), []) <==>
            forall i :: 0 <= i < |cuts| ==> ProperCut(cuts[i])
  {
    if forall i :: 0 <= i < |cuts| ==> ProperCut(cuts[i]) {
      ReassemblyIsExact(cuts, actions);
    } else {
      RunKeepsSound(INITIAL, actions);
      RunSends(INITIAL, actions);
      AllCount(NOTHING, cuts);
    }
  }

  // ---------- sequences ----------

  /** The receiver's check: the packet that arrives carries the sequence it expects, the number of its sentence. */
  lemma ArrivalIsExpected(actions: seq<Action>)
    ensures var l := Run(INITIAL, actions);
            l.inFlight != [] ==>
              l.inFlight[0].sequence == l.recvSequence == |l.received.done| % SEQUENCE_COUNT
  {
    RunKeepsSound(INITIAL, actions);
  }

  lemma {:induction false} LabelAt(packets: seq<Packet>, sequence: nat, n: nat)
    requires sequence < SEQUENCE_COUNT && Labelled(packets, sequence) && n < |packets|
    ensures packets[n].sequence == (sequence + Ends(packets[..n])) % SEQUENCE_COUNT
  {
    if n > 0 {
      LabelAt(packets[1..], Next(sequence, packets[0].end), n - 1);
      assert packets[..n][1..] == packets[1..][..n - 1];
    }
  }

  /**
   When the first n packets in flight are lost, the next one is out of sequence exactly when the
   number of periods among them is not a multiple of 128.
   */
  lemma LossIsNoticedIff(actions: seq<Action>, n: nat)
    requires n < |Run(INITIAL, actions).inFlight|
    ensures var l := Run(INITIAL, actions);
            l.inFlight[n].sequence != l.recvSequence <==> Ends(l.inFlight[..n]) % SEQUENCE_COUNT != 0
  {
    var l := Run(INITIAL, actions);
    RunKeepsSound(INITIAL, actions);
    LabelAt(l.inFlight, l.recvSequence, n);
    var k := Ends(l.inFlight[..n]);
    assert (l.recvSequence + k) % SEQUENCE_COUNT == l.recvSequence <==> k % SEQUENCE_COUNT == 0;
  }

  // ---------- the missing period ----------

  /**
   Finishing a sentence with an empty buffer: no period goes out, and the next sentence runs into it.
   Finishing keeps the sentences apart exactly when bytes are left to send.
   */
  lemma FinishingNeedsBytes(l: Link, tail: seq<byte>, following: seq<byte>)
    requires following != []
    ensures var after := Run(l, [Send(tail, true), Send(following, true)]);
            && (tail != [] ==> after.sent.done == l.sent.done + [l.sent.open + tail, following])
            && (tail == [] ==> after.sent.done == l.sent.done + [l.sent.open + following])
  {
    var first := Step(l, Send(tail, true));
    var actions := [Send(tail, true), Send(following, true)];
    assert actions[1..] == [Send(following, true)] && actions[1..][1..] == [];
    assert Run(l, actions) == Run(first, actions[1..]) == Step(first, Send(following, true));
    if tail != [] { assert first.sent.open + following == following; }
  }

  /** Two sentences, the first finished with an empty piece: they arrive as one. */
  lemma {:induction false} MergedExample(first: byte, second: byte, cuts: seq<seq<seq<byte>>>, actions: seq<Action>)
    requires cuts == [[[first], []], [[second]]]
    requires actions == [Send([first], false), Send([], true), Send([second], true), Deliver, Deliver]
    ensures Sentences(cuts) == [[first], [second]]
    ensures Run(INITIAL, actions).received == Assembly([[first, second]], [])
  {
    var one: seq<byte>, two: seq<byte> := [first], [second];
    JoinedTwo(one, []);
    JoinedOne(two);
    assert one + [] == one && one + two == [first, second];
    var p, q := Packet(one, false, 0), Packet(two, true, 0);
    var sent := Link(1, Assembly([one + two], []), [p, q], 0, NOTHING);
    assert Step(INITIAL, actions[0]) == Link(0, Assembly([], one), [p], 0, NOTHING);
    assert Step(Step(INITIAL, actions[0]), actions[2]) == sent;
    RunFive(INITIAL, actions[0], actions[1], actions[2], actions[3], actions[4], actions);
    assert sent.inFlight[1..] == [q] && [q][1..] == [];
    assert Step(Step(sent, Deliver), Deliver).received == Assembly([one + two], []);
  }

  lemma {:induction false} RunFive(l: Link, a: Action, b: Action, c: Action, d: Action, e: Action, actions: seq<Action>)
    requires actions == [a, b, c, d, e]
    ensures Run(l, actions) == Step(Step(Step(Step(Step(l, a), b), c), d), e)
  {
    var four, three, two, one := [b, c, d, e], [c, d, e], [d, e], [e];
    var l1 := Step(l, a);
    var l2 := Step(l1, b);
    var l3 := Step(l2, c);
    var l4 := Step(l3, d);
    RunOne(l, a, four, actions);
    RunOne(l1, b, three, four);
    RunOne(l2, c, two, three);
    RunOne(l3, d, one, two);
    RunOne(l4, e, [], one);
  }

  lemma {:induction false} RunOne(l: Link, action: Action, rest: seq<Action>, actions: seq<Action>)
    requires actions == [action] + rest
    ensures Run(l, actions) == Run(Step(l, action), rest)
  {
    assert actions[1..] == rest;
  }

  lemma JoinedOne(piece: seq<byte>)
    ensures Joined([piece]) == piece
  {
    var pieces := [piece];
    assert pieces[1..] == [];
  }

  lemma JoinedTwo(piece: seq<byte>, other: seq<byte>)
    ensures Joined([piece, other]) == piece + other
  {
    var pieces := [piece, other];
    assert pieces[1..] == [other];
    JoinedOne(other);
  }
}
