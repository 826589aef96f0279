/** The two ends of a connection: the buffers, positions and sequences that turn fields into packets and back. */
module Framing {
  import opened CArithmetic
  import opened Powers
  import opened Sequences
  import opened Wrappers
  import opened PacketHeader
  import opened PacketLink
  import opened FieldStream

  function Payloads(packets: seq<Packet>): (r: seq<seq<byte>>)
    ensures |r| == |packets| && forall i :: 0 <= i < |packets| ==> r[i] == packets[i].payload
  {
    seq(|packets|, i requires 0 <= i < |packets| => packets[i].payload)
  }

  /** The socket carries one frame per packet, in order. */
  ghost predicate Carries(wire: seq<seq<byte>>, packets: seq<Packet>, big: bool)
  {
    |wire| == |packets| && forall i :: 0 <= i < |packets| ==> IsFrame(wire[i], packets[i], big)
  }

  lemma {:induction false} RunAppend(l: Link, actions: seq<Action>, action: Action)
    ensures Run(l, actions + [action]) == Step(Run(l, actions), action)
    decreases |actions|
  {
    if actions == [] {
      assert [action][1..] == [] && actions + [action] == [action];
      assert Run(Step(l, action), []) == Step(l, action);
    } else {
      assert (actions + [action])[1..] == actions[1..] + [action];
      RunAppend(Step(l, actions[0]), actions[1..], action);
    }
  }

  lemma SequenceInRange(log: seq<Action>)
    ensures Run(INITIAL, log).sendSequence < SEQUENCE_COUNT
  {
    RunKeepsSound(INITIAL, log);
  }

  lemma NextIsMasked(sequence: nat)
    requires sequence < SEQUENCE_COUNT
    ensures BitAnd(sequence + 1, 0x7F) == Next(sequence, true)
  {
    var k := 7;
    SevenBits(k);
    BitAndMask(sequence + 1, k);
  }

  lemma FrameOf(p: Packet, big: bool, frame: seq<byte>, unused: seq<byte>, padding: seq<byte>)
    requires WellFormed(p) && |unused| == 3
    requires frame == SizeBytes(|p.payload|, big) + [PeriodByte(p.end, p.sequence)] + (unused + p.payload + padding)
    requires |padding| == if HEADER_SIZE + |p.payload| < MTU_SIZE then MTU_SIZE - HEADER_SIZE - |p.payload| else 0
    ensures IsFrame(frame, p, big)
  {
    assert frame == Header(p, big, unused) + p.payload + padding;
  }

  lemma PayloadBehind(cells: seq<byte>, pos: nat)
    requires HEADER_SIZE <= pos <= |cells|
    ensures cells[HEADER_SIZE..pos] == cells[5..][3..pos - 5]
  {
  }

  /** A frame is at least 32 bytes long: eight of header, the payload, and what fills it up. */
  lemma FrameBytes(frame: seq<byte>, p: Packet, big: bool)
    requires IsFrame(frame, p, big)
    ensures StartsWith(frame, |p.payload|, p.end, p.sequence, big)
    ensures |frame| == Max(32, 8 + |p.payload|) && frame[8..8 + |p.payload|] == p.payload
  {
    var unused, padding: seq<byte> :| |unused| == 3 && frame == Header(p, big, unused) + p.payload + padding &&
      |padding| == if HEADER_SIZE + |p.payload| < MTU_SIZE then MTU_SIZE - HEADER_SIZE - |p.payload| else 0;
    var h := Header(p, big, unused);
    HeaderBytes(p, big, unused, p.payload + padding);
    assert frame == h + (p.payload + padding);
  }

  class Sender {
    const big: bool
    const data: array<byte>
    var pos: nat
    var sequence: nat
    var wire: seq<seq<byte>>
    ghost var log: seq<Action>

    /** Everything sent so far, as a run of the link in which nothing has been delivered yet. */
    ghost function Sent(): Link
      reads this
    {
      Run(INITIAL, log)
    }

    ghost predicate Valid()
      reads this, data
    {
      MTU_SIZE <= data.Length <= INT32_MAX && HEADER_SIZE <= pos <= data.Length &&
      sequence == Sent().sendSequence && Carries(wire, Sent().inFlight, big) &&
      forall i :: 0 <= i < |log| ==> log[i].Send?
    }

    ghost function Buffer(): seq<byte>
      reads this, data
      requires Valid()
    {
      data[HEADER_SIZE..pos]
    }

    ghost function State(): (w: Writer)
      reads this, data
      requires Valid()
      ensures |w.buffer| <= data.Length - HEADER_SIZE
    {
      Writer(Payloads(Sent().inFlight), Buffer())
    }

    /** The bytes of the sentence being written, sent or not. */
    ghost function Open(): seq<byte>
      reads this, data
      requires Valid()
    {
      Sent().sent.open + Buffer()
    }

    constructor (packetBufferSize: nat, bigEndian: bool)
      requires MTU_SIZE <= packetBufferSize <= INT32_MAX
      ensures Valid() && fresh(data) && log == [] && State() == Writer([], [])
      ensures data.Length == packetBufferSize && big == bigEndian
    {
      big := bigEndian;
      data := new byte[packetBufferSize](_ => 0);
      pos := HEADER_SIZE;
      sequence := 0;
      wire := [];
      log := [];
    }

    /** A packet goes out when there is a payload; its header is written in front of it. */
    method SendPacketInternal(end: bool)
      requires Valid()
      modifies this`pos, this`sequence, this`wire, this`log, data
      ensures Valid() && Buffer() == []
      ensures log == old(log) + [Send(old(Buffer()), end)]
    {
      ghost var payload := Buffer();
      RunAppend(INITIAL, log, Send(payload, end));
      SequenceInRange(log);
      log := log + [Send(payload, end)];
      if pos - HEADER_SIZE > 0 {
        var frame := MakeFrame(end, payload);
        wire := wire + [frame];
        pos := HEADER_SIZE;
      }
    }

    /** The frame the socket is given: never shorter than the minimum size, padded with what the buffer holds. */
    method MakeFrame(end: bool, ghost payload: seq<byte>) returns (frame: seq<byte>)
      requires MTU_SIZE <= data.Length <= INT32_MAX && HEADER_SIZE < pos <= data.Length && sequence < SEQUENCE_COUNT
      requires payload == data[HEADER_SIZE..pos]
      modifies this`sequence, data
      ensures IsFrame(frame, Packet(payload, end, old(sequence)), big) && sequence == Next(old(sequence), end)
      ensures StartsWith(frame, |payload|, end, old(sequence), big)
      ensures |frame| == Max(32, 8 + |payload|) && frame[8..8 + |payload|] == payload
    {
      ghost var p := Packet(payload, end, sequence);
      ghost var behind := data[5..];
      PayloadBehind(data[..], pos);
      WriteHeader(pos - HEADER_SIZE, end);
      ghost var unused := behind[..3];
      var size := if pos < MTU_SIZE then MTU_SIZE else pos;
      ghost var padding := behind[pos - 5..size - 5];
      frame := data[..size];
      assert data[5..] == behind;
      assert frame == data[..4] + [data[4]] + data[5..][..size - 5];
      assert behind[..size - 5] == unused + payload + padding;
      FrameOf(p, big, frame, unused, padding);
      FrameBytes(frame, p, big);
    }

    method WriteHeader(payloadSize: nat, end: bool)
      requires data.Length >= MTU_SIZE && payloadSize <= INT32_MAX && sequence < SEQUENCE_COUNT
      modifies this`sequence, data
      ensures data[..4] == SizeBytes(payloadSize, big)
      ensures data[4] == PeriodByte(end, old(sequence)) && sequence == Next(old(sequence), end)
      ensures data[5..] == old(data[5..])
    {
      PeriodByteParts(end, sequence);
      NextIsMasked(sequence);
      var size := SizeBytes(payloadSize, big);
      data[0], data[1], data[2], data[3] := size[0], size[1], size[2], size[3];
      data[4] := PeriodByte(end, sequence);
      if end { sequence := BitAnd(sequence + 1, 0x7F); }
    }

    /** Flushing closes the packet but not the sentence. */
    method FlushPacket()
      requires Valid()
      modifies this`pos, this`sequence, this`wire, this`log, data
      ensures Valid() && State() == Flush(old(State()))
      ensures Open() == old(Open()) && Sent().sent.done == old(Sent().sent.done)
    {
      ghost var l, payload := Sent(), Buffer();
      SendPacketInternal(false);
      RunAppend(INITIAL, old(log), Send(payload, false));
      FlushedPayloads(l, payload);
    }

    /** Sending closes the sentence, provided the buffer holds something. */
    method SendPacket()
      requires Valid()
      modifies this`pos, this`sequence, this`wire, this`log, data
      ensures Valid() && State() == Flush(old(State()))
      ensures old(Buffer()) != [] ==> Sent().sent == Assembly(old(Sent().sent.done) + [old(Open())], [])
      ensures old(Buffer()) == [] ==> Sent() == old(Sent())
    {
      ghost var l, payload := Sent(), Buffer();
      SendPacketInternal(true);
      RunAppend(INITIAL, old(log), Send(payload, true));
      FlushedPayloads(l, payload);
    }

    method Put(value: seq<byte>)
      requires Valid() && pos + |value| <= data.Length
      modifies this`pos, data
      ensures Valid() && Buffer() == old(Buffer()) + value
    {
      ghost var before := data[..pos];
      for i := 0 to |value|
        invariant pos == old(pos) && data[..pos + i] == before + value[..i]
      {
        data[pos + i] := value[i];
        assert data[..pos + i + 1] == data[..pos + i] + [value[i]];
      }
      pos := pos + |value|;
      assert data[..pos] == before + value;
      assert data[HEADER_SIZE..pos] == data[..pos][HEADER_SIZE..] == before[HEADER_SIZE..] + value;
    }

    /** A fixed-size field goes into a new packet when it does not fit in this one. */
    method WriteFixed(value: seq<byte>)
      requires Valid() && Writable(Fixed(value), data.Length - HEADER_SIZE)
      modifies this`pos, this`sequence, this`wire, this`log, data
      ensures Valid() && State() == Write(old(State()), Fixed(value), data.Length - HEADER_SIZE)
      ensures Open() == old(Open()) + value && Sent().sent.done == old(Sent().sent.done)
    {
      if data.Length - pos < |value| {
        FlushPacket();
      }
      ghost var open, buffer := Sent().sent.open, Buffer();
      Put(value);
      assert open + (buffer + value) == (open + buffer) + value;
    }

    /** As many of the remaining bytes as fit in the packet. */
    method FillPacket(value: seq<byte>, i: nat) returns (n: nat)
      requires Valid() && i <= |value|
      modifies this`pos, data
      ensures Valid() && n == Min(data.Length - HEADER_SIZE - |old(Buffer())|, |value| - i)
      ensures State() == Writer(old(State().packets), old(State().buffer) + value[i..][..n])
      ensures Open() == old(Open()) + value[i..][..n]
    {
      n := Min(data.Length - pos, |value| - i);
      ghost var open, buffer := Sent().sent.open, Buffer();
      Put(value[i..i + n]);
      assert value[i..][..n] == value[i..i + n];
      assert open + (buffer + value[i..i + n]) == (open + buffer) + value[i..i + n];
    }

    /** As many bytes as fit; a full packet is sent when bytes are left over. */
    method PutPart(value: seq<byte>, i: nat, ghost w: Writer, ghost open: seq<byte>)
      returns (n: nat, ghost filled: Writer)
      requires Valid() && i < |value| && w == State() && open == Open()
      modifies this`pos, this`sequence, this`wire, this`log, data
      ensures Valid() && n == Min(data.Length - HEADER_SIZE - |w.buffer|, |value| - i)
      ensures filled == Writer(w.packets, w.buffer + value[i..][..n])
      ensures State() == if i + n < |value| then Flush(filled) else filled
      ensures Open() == open + value[i..][..n] && Sent().sent.done == old(Sent().sent.done)
      ensures n > 0 || pos < old(pos)
    {
      n := FillPacket(value, i);
      filled := State();
      if i + n < |value| {
        FlushPacket();
      }
    }

    method WritePart(value: seq<byte>, i: nat, ghost before: seq<byte>, ghost target: Writer) returns (next: nat)
      requires Valid() && i < |value| && Written(State(), Open(), value, i, before, target, data.Length - HEADER_SIZE)
      modifies this`pos, this`sequence, this`wire, this`log, data
      ensures Valid() && Written(State(), Open(), value, next, before, target, data.Length - HEADER_SIZE)
      ensures Sent().sent.done == old(Sent().sent.done)
      ensures next > i || (next == i && pos < old(pos))
    {
      ghost var w, open := State(), Open();
      var n, filled := PutPart(value, i, w, open);
      PartWritten(w, open, value, i, before, target, data.Length - HEADER_SIZE, n, filled, Open(), State());
      next := i + n;
    }

    /** A byte string fills packet after packet. */
    method WriteNBytes(value: seq<byte>)
      requires Valid()
      modifies this`pos, this`sequence, this`wire, this`log, data
      ensures Valid() && State() == WriteBytes(old(State()), value, data.Length - HEADER_SIZE)
      ensures Open() == old(Open()) + value && Sent().sent.done == old(Sent().sent.done)
    {
      var i := 0;
      ghost var target := WriteBytes(State(), value, data.Length - HEADER_SIZE);
      ghost var before, done := Open(), Sent().sent.done;
      WholeValue(before, value);
      while i < |value|
        invariant Valid() && Written(State(), Open(), value, i, before, target, data.Length - HEADER_SIZE)
        invariant Sent().sent.done == done
        decreases |value| - i, pos
      {
        i := WritePart(value, i, before, target);
      }
      WriteNothing(State(), data.Length - HEADER_SIZE);
    }
  }

  /** The first i bytes are written, and writing the rest leads to the target. */
  ghost predicate Written(w: Writer, open: seq<byte>, value: seq<byte>, i: nat, before: seq<byte>, target: Writer,
                          capacity: nat)
  {
    i <= |value| && |w.buffer| <= capacity && capacity > 0 && WriteBytes(w, value[i..], capacity) == target &&
    open == before + value[..i]
  }

  /** After filling a packet, writing on from the rest leads to the same writer. */
  lemma {:induction false} PartWritten(w: Writer, open: seq<byte>, value: seq<byte>, i: nat, before: seq<byte>,
                                      target: Writer, capacity: nat, n: nat, filled: Writer, grown: seq<byte>,
                                      after: Writer)
    requires i < |value| && Written(w, open, value, i, before, target, capacity)
    requires n == Min(capacity - |w.buffer|, |value| - i) && grown == open + value[i..][..n]
    requires filled == Writer(w.packets, w.buffer + value[i..][..n])
    requires after == if i + n < |value| then Flush(filled) else filled
    ensures Written(after, grown, value, i + n, before, target, capacity)
  {
    WriteStep(w, value[i..], n, capacity);
    OneMorePart(before, value, i, n);
    if i + n == |value| {
      assert value[i + n..] == [];
      WriteNothing(filled, capacity);
    }
  }

  lemma WriteNothing(w: Writer, capacity: nat)
    requires |w.buffer| <= capacity && capacity > 0
    ensures WriteBytes(w, [], capacity) == w
  {
  }

  lemma WholeValue(before: seq<byte>, value: seq<byte>)
    ensures value[0..] == value && before + value[..0] == before && value[..|value|] == value
  {
  }

  lemma OneMorePart(before: seq<byte>, value: seq<byte>, i: nat, n: nat)
    requires i + n <= |value|
    ensures (before + value[..i]) + value[i..][..n] == before + value[..i + n]
    ensures value[i..][n..] == value[i + n..]
  {
  }

  lemma FlushedPayloads(l: Link, payload: seq<byte>)
    ensures forall end :: Writer(Payloads(Step(l, Send(payload, end)).inFlight), []) ==
                          Flush(Writer(Payloads(l.inFlight), payload))
  {
    forall end
      ensures Payloads(Step(l, Send(payload, end)).inFlight) == Flush(Writer(Payloads(l.inFlight), payload)).packets
    {
    }
  }

  lemma WriteStep(w: Writer, value: seq<byte>, n: nat, capacity: nat)
    requires |w.buffer| <= capacity && capacity > 0 && n == Min(capacity - |w.buffer|, |value|)
    ensures var filled := Writer(w.packets, w.buffer + value[..n]);
            WriteBytes(w, value, capacity) ==
            if n == |value| then filled else WriteBytes(Flush(filled), value[n..], capacity)
  {
  }

  /** What a sender has put on the wire is what a receiver that starts at sequence 0 expects. */
  lemma SenderFeedsReceiver(sender: Sender)
    requires sender.Valid()
    ensures Labelled(sender.Sent().inFlight, 0)
    ensures Payloads(sender.Sent().inFlight) == sender.State().packets
  {
    RunKeepsSound(INITIAL, sender.log);
    NothingDelivered(INITIAL, sender.log);
  }

  lemma {:induction false} NothingDelivered(l: Link, log: seq<Action>)
    requires forall i :: 0 <= i < |log| ==> log[i].Send?
    ensures Run(l, log).recvSequence == l.recvSequence
    decreases |log|
  {
    if log != [] { NothingDelivered(Step(l, log[0]), log[1..]); }
  }

  // ---------- the receiving end ----------

  /** The first packet of a byte stream: its header tells where its payload and the next packet are. */
  lemma FrameTells(frame: seq<byte>, p: Packet, big: bool, stream: seq<byte>)
    requires IsFrame(frame, p, big) && frame <= stream
    ensures |stream| >= MTU_SIZE && SizeOf(stream, big) == |p.payload|
    ensures BitAnd(stream[4], 0x80) == Period(p.end) && BitAnd(stream[4], 0x7F) == p.sequence
    ensures |frame| == if HEADER_SIZE + |p.payload| < MTU_SIZE then MTU_SIZE else HEADER_SIZE + |p.payload|
    ensures stream[HEADER_SIZE..HEADER_SIZE + |p.payload|] == p.payload
  {
    var unused, padding: seq<byte> :| |unused| == 3 && frame == Header(p, big, unused) + p.payload + padding &&
      |padding| == if HEADER_SIZE + |p.payload| < MTU_SIZE then MTU_SIZE - HEADER_SIZE - |p.payload| else 0;
    var h := Header(p, big, unused);
    var rest := stream[HEADER_SIZE..];
    assert h == frame[..HEADER_SIZE] == stream[..HEADER_SIZE];
    assert stream == h + rest;
    HeaderTells(p, big, unused, rest);
    assert stream[HEADER_SIZE..HEADER_SIZE + |p.payload|] == frame[HEADER_SIZE..HEADER_SIZE + |p.payload|] == p.payload;
  }

  /** Payload, bytes read in all, period, whether the sequence is the expected one, and the next sequence. */
  method ReadPacket(stream: seq<byte>, big: bool, sequence: nat, ghost p: Packet, ghost frame: seq<byte>)
    returns (payload: seq<byte>, total: nat, end: bool, expected: bool, next: nat)
    requires IsFrame(frame, p, big) && frame <= stream && sequence < SEQUENCE_COUNT
    ensures payload == p.payload && total == |frame| && end == p.end
    ensures expected == (p.sequence == sequence) && next == Next(sequence, end)
  {
    FrameTells(frame, p, big, stream);
    NextIsMasked(sequence);
    var size := SizeOf(stream, big);
    expected := BitAnd(stream[4], 0x7F) == sequence;
    end := BitAnd(stream[4], 0x80) == PERIOD_END;
    next := if end then BitAnd(sequence + 1, 0x7F) else sequence;
    total := MTU_SIZE;
    if total < HEADER_SIZE + size { total := HEADER_SIZE + size; }
    payload := stream[HEADER_SIZE..HEADER_SIZE + size];
  }

  lemma NextFrame(input: seq<byte>, at: nat, frames: seq<seq<byte>>, packets: seq<Packet>, big: bool)
    requires at <= |input| && input[at..] == Joined(frames) && Carries(frames, packets, big) && packets != []
    ensures IsFrame(frames[0], packets[0], big) && frames[0] <= input[at..]
    ensures input[at + |frames[0]|..] == Joined(frames[1..]) && Carries(frames[1..], packets[1..], big)
  {
    assert input[at..][|frames[0]|..] == input[at + |frames[0]|..];
    assert (frames[0] + Joined(frames[1..]))[|frames[0]|..] == Joined(frames[1..]);
    forall i | 0 <= i < |packets[1..]|
      ensures IsFrame(frames[1..][i], packets[1..][i], big)
    {
      assert IsFrame(frames[i + 1], packets[i + 1], big);
    }
  }

  class Receiver {
    const big: bool
    const input: seq<byte>
    var at: nat
    var sequence: nat
    var unread: seq<byte>
    var ended: bool
    ghost var frames: seq<seq<byte>>
    ghost var coming: seq<Packet>

    ghost predicate Valid()
      reads this
    {
      sequence < SEQUENCE_COUNT && at <= |input| && input[at..] == Joined(frames) && Carries(frames, coming, big) &&
      Labelled(coming, sequence)
    }

    ghost function State(): Reader
      reads this
    {
      Reader(Payloads(coming), unread)
    }

    constructor (stream: seq<byte>, bigEndian: bool, ghost carried: seq<seq<byte>>, ghost packets: seq<Packet>)
      requires stream == Joined(carried) && Carries(carried, packets, bigEndian) && Labelled(packets, 0)
      ensures Valid() && State() == Reader(Payloads(packets), []) && coming == packets
    {
      big := bigEndian;
      input := stream;
      at := 0;
      sequence := 0;
      unread := [];
      ended := false;
      frames := carried;
      coming := packets;
    }

    /** At least the minimum size is read, then the rest of the payload; the check on the sequence holds. */
    method RecvPacket() returns (expected: bool)
      requires Valid() && coming != []
      modifies this
      ensures Valid() && expected
      ensures coming == old(coming[1..]) && unread == old(coming[0].payload) && ended == old(coming[0].end)
      ensures sequence == Next(old(sequence), ended)
    {
      NextFrame(input, at, frames, coming, big);
      var total;
      unread, total, ended, expected, sequence := ReadPacket(input[at..], big, sequence, coming[0], frames[0]);
      at := at + total;
      frames := frames[1..];
      coming := coming[1..];
    }

    /** The next packet replaces what was unread. */
    method ReceiveNext()
      requires Valid() && Receive(State()).Some?
      modifies this
      ensures Valid() && Some(State()) == Receive(old(State())) && |coming| == old(|coming|) - 1
    {
      ReceivedPayloads(coming);
      var expected := RecvPacket();
    }

    method TakeUnread(n: nat) returns (part: seq<byte>)
      requires Valid() && n <= |unread|
      modifies this`unread
      ensures Valid() && part == old(unread[..n])
      ensures State() == Reader(old(State()).coming, old(unread[n..])) && coming == old(coming)
    {
      part := unread[..n];
      unread := unread[n..];
    }

    method ReadFixed(size: nat) returns (value: seq<byte>)
      requires Valid() && Read(State(), FixedOf(size)).Some?
      modifies this
      ensures Valid() && Some((value, State())) == Read(old(State()), FixedOf(size))
    {
      if |unread| < size {
        ReceiveNext();
      }
      value := TakeUnread(size);
    }

    /** What is unread of the packet, then the next packet unless that was enough. */
    method ReadPart(value: seq<byte>, left: nat, ghost target: Option<(seq<byte>, Reader)>)
      returns (longer: seq<byte>, rest: nat)
      requires Valid() && left > 0 && Remaining(State(), value, left, target)
      modifies this
      ensures Valid() && Remaining(State(), longer, rest, target)
      ensures rest < left || (rest == left && |coming| < old(|coming|))
    {
      RemainingStep(State(), value, left, target);
      if left <= |unread| {
        var part := TakeUnread(left);
        return value + part, 0;
      }
      longer := value + unread;
      rest := left - |unread|;
      ReceiveNext();
    }

    method ReadNBytes(size: nat) returns (value: seq<byte>)
      requires Valid() && ReadBytes(State(), size).Some?
      modifies this
      ensures Valid() && Some((value, State())) == ReadBytes(old(State()), size)
    {
      value := [];
      var left: nat := size;
      ghost var target := ReadBytes(State(), size);
      assert [] + target.value.0 == target.value.0;
      while left > 0
        invariant Valid() && Remaining(State(), value, left, target)
        decreases left, |coming|
      {
        value, left := ReadPart(value, left, target);
      }
      ReadNothing(State(), value);
    }
  }

  /** With these bytes read and so many left, reading on leads to the target. */
  ghost predicate Remaining(r: Reader, value: seq<byte>, left: nat, target: Option<(seq<byte>, Reader)>)
  {
    target.Some? && Prefixed(value, ReadBytes(r, left)) == target
  }

  lemma {:induction false} RemainingStep(r: Reader, value: seq<byte>, left: nat, target: Option<(seq<byte>, Reader)>)
    requires Remaining(r, value, left, target)
    ensures left <= |r.unread| ==> Remaining(Reader(r.coming, r.unread[left..]), value + r.unread[..left], 0, target)
    ensures left > |r.unread| ==>
              Receive(r).Some? && Remaining(Receive(r).value, value + r.unread, left - |r.unread|, target)
  {
    ReadBytesStep(r, value, left, Min(|r.unread|, left));
    assert r.unread[..|r.unread|] == r.unread;
  }

  lemma ReadNothing(r: Reader, value: seq<byte>)
    ensures Prefixed(value, ReadBytes(r, 0)) == Some((value, r))
  {
    assert r.unread[0..] == r.unread && value + [] == value;
  }

  lemma ReceivedPayloads(packets: seq<Packet>)
    ensures packets != [] ==> Payloads(packets)[1..] == Payloads(packets[1..])
  {
  }

  function Prefixed(head: seq<byte>, got: Option<(seq<byte>, Reader)>): Option<(seq<byte>, Reader)>
  {
    if got.None? then None else Some((head + got.value.0, got.value.1))
  }

  lemma ReadBytesStep(r: Reader, value: seq<byte>, size: nat, n: nat)
    requires n == Min(|r.unread|, size) && ReadBytes(r, size).Some?
    ensures var rest, longer := Reader(r.coming, r.unread[n..]), value + r.unread[..n];
            && (n == size ==> Prefixed(value, ReadBytes(r, size)) == Prefixed(longer, ReadBytes(rest, 0)))
            && (n < size ==> Receive(rest).Some?)
            && (n < size ==>
                  Prefixed(value, ReadBytes(r, size)) == Prefixed(longer, ReadBytes(Receive(rest).value, size - n)))
  {
    var rest, longer := Reader(r.coming, r.unread[n..]), value + r.unread[..n];
    if n == size {
      ReadNothing(rest, longer);
    } else {
      var tail := ReadBytes(Receive(rest).value, size - n);
      assert value + (r.unread[..n] + tail.value.0) == longer + tail.value.0;
    }
  }

  // ---------- both ends ----------

  /** Every field, then the end of the sentence. */
  method SendSentence(sender: Sender, fields: seq<Field>)
    requires sender.Valid() && AllWritable(fields, sender.data.Length - HEADER_SIZE)
    modifies sender, sender.data
    ensures sender.Valid()
    ensures sender.State() == Flush(WriteAll(old(sender.State()), fields, sender.data.Length - HEADER_SIZE))
  {
    ghost var capacity := sender.data.Length - HEADER_SIZE;
    ghost var target := WriteAll(sender.State(), fields, capacity);
    assert fields[0..] == fields;
    for i := 0 to |fields|
      invariant sender.Valid() && WriteAll(sender.State(), fields[i..], capacity) == target
    {
      NextField(sender.State(), fields, i, capacity);
      WriteField(sender, fields[i]);
    }
    assert fields[|fields|..] == [];
    sender.SendPacket();
  }

  method WriteField(sender: Sender, field: Field)
    requires sender.Valid() && Writable(field, sender.data.Length - HEADER_SIZE)
    modifies sender, sender.data
    ensures sender.Valid() && sender.State() == Write(old(sender.State()), field, sender.data.Length - HEADER_SIZE)
  {
    match field
    case Fixed(value) => sender.WriteFixed(value);
    case Bytes(value) => sender.WriteNBytes(value);
  }

  lemma NextField(w: Writer, fields: seq<Field>, i: nat, capacity: nat)
    requires i < |fields| && |w.buffer| <= capacity && capacity > 0 && AllWritable(fields, capacity)
    ensures AllWritable(fields[i..], capacity) && AllWritable(fields[i + 1..], capacity)
    ensures Writable(fields[i], capacity)
    ensures WriteAll(w, fields[i..], capacity) == WriteAll(Write(w, fields[i], capacity), fields[i + 1..], capacity)
  {
    assert fields[i..][0] == fields[i] && fields[i..][1..] == fields[i + 1..];
  }

  lemma NextSentence(w: Writer, sentences: seq<seq<Field>>, i: nat, capacity: nat)
    requires i < |sentences| && |w.buffer| <= capacity && capacity > 0
    requires forall k :: 0 <= k < |sentences| ==> AllWritable(sentences[k], capacity)
    ensures AllWritable(sentences[i], capacity)
    ensures WriteSentences(w, sentences[i..], capacity) ==
            WriteSentences(Flush(WriteAll(w, sentences[i], capacity)), sentences[i + 1..], capacity)
  {
    assert sentences[i..][0] == sentences[i] && sentences[i..][1..] == sentences[i + 1..];
  }

  method ReadSentence(receiver: Receiver, shapes: seq<Shape>) returns (values: seq<seq<byte>>)
    requires receiver.Valid() && ReadAll(receiver.State(), shapes).Some?
    modifies receiver
    ensures receiver.Valid() && Some((values, receiver.State())) == ReadAll(old(receiver.State()), shapes)
  {
    values := [];
    ghost var target := ReadAll(receiver.State(), shapes);
    assert shapes[0..] == shapes && [] + target.value.0 == target.value.0;
    for i := 0 to |shapes|
      invariant receiver.Valid() && Continued(values, ReadAll(receiver.State(), shapes[i..])) == target
    {
      assert shapes[i..][0] == shapes[i] && shapes[i..][1..] == shapes[i + 1..];
      ghost var before := receiver.State();
      var value;
      match shapes[i] {
        case FixedOf(size) => value := receiver.ReadFixed(size);
        case BytesOf(size) => value := receiver.ReadNBytes(size);
      }
      ContinuedStep(values, value, before, receiver.State(), shapes[i..]);
      values := values + [value];
    }
    assert values + [] == values;
  }

  function Continued<T>(head: seq<T>, got: Option<(seq<T>, Reader)>): Option<(seq<T>, Reader)>
  {
    if got.None? then None else Some((head + got.value.0, got.value.1))
  }

  lemma ContinuedStep(values: seq<seq<byte>>, value: seq<byte>, r: Reader, next: Reader, shapes: seq<Shape>)
    requires shapes != [] && Read(r, shapes[0]) == Some((value, next))
    ensures Continued(values, ReadAll(r, shapes)) == Continued(values + [value], ReadAll(next, shapes[1..]))
  {
    var rest := ReadAll(next, shapes[1..]);
    if rest.Some? {
      assert values + ([value] + rest.value.0) == (values + [value]) + rest.value.0;
    }
  }

  lemma ContinuedSentence(values: seq<seq<seq<byte>>>, value: seq<seq<byte>>, r: Reader, next: Reader,
                          sentences: seq<seq<Shape>>)
    requires sentences != [] && ReadAll(r, sentences[0]) == Some((value, next))
    ensures Continued(values, ReadSentences(r, sentences)) ==
            Continued(values + [value], ReadSentences(next, sentences[1..]))
  {
    var rest := ReadSentences(next, sentences[1..]);
    if rest.Some? {
      assert values + ([value] + rest.value.0) == (values + [value]) + rest.value.0;
    }
  }

  method SendAllSentences(sender: Sender, sentences: seq<seq<Field>>)
    requires sender.Valid()
    requires forall i :: 0 <= i < |sentences| ==> AllWritable(sentences[i], sender.data.Length - HEADER_SIZE)
    modifies sender, sender.data
    ensures sender.Valid()
    ensures sender.State() == WriteSentences(old(sender.State()), sentences, sender.data.Length - HEADER_SIZE)
  {
    ghost var capacity := sender.data.Length - HEADER_SIZE;
    ghost var target := WriteSentences(sender.State(), sentences, capacity);
    assert sentences[0..] == sentences;
    for i := 0 to |sentences|
      invariant sender.Valid() && WriteSentences(sender.State(), sentences[i..], capacity) == target
    {
      NextSentence(sender.State(), sentences, i, capacity);
      SendSentence(sender, sentences[i]);
    }
  }

  method ReadAllSentences(receiver: Receiver, shapes: seq<seq<Shape>>) returns (values: seq<seq<seq<byte>>>)
    requires receiver.Valid() && ReadSentences(receiver.State(), shapes).Some?
    modifies receiver
    ensures receiver.Valid() && Some((values, receiver.State())) == ReadSentences(old(receiver.State()), shapes)
  {
    values := [];
    ghost var target := ReadSentences(receiver.State(), shapes);
    assert shapes[0..] == shapes && [] + target.value.0 == target.value.0;
    for i := 0 to |shapes|
      invariant receiver.Valid() && Continued(values, ReadSentences(receiver.State(), shapes[i..])) == target
    {
      assert shapes[i..][0] == shapes[i] && shapes[i..][1..] == shapes[i + 1..];
      ghost var before := receiver.State();
      var value := ReadSentence(receiver, shapes[i]);
      ContinuedSentence(values, value, before, receiver.State(), shapes[i..]);
      values := values + [value];
    }
    assert values + [] == values;
  }

  /**
   Fields written into one end of a fresh connection, sentence by sentence, come out of the other with
   their values, for every packet size and either byte order, and the stream is used up.
   */
  method Exchange(sentences: seq<seq<Field>>, packetBufferSize: nat, big: bool)
    returns (values: seq<seq<seq<byte>>>, unread: nat)
    requires MTU_SIZE <= packetBufferSize <= INT32_MAX
    requires forall i :: 0 <= i < |sentences| ==> AllWritable(sentences[i], packetBufferSize - HEADER_SIZE)
    ensures values == ValuesOf(sentences) && unread == 0
  {
    SentencesRoundTrip(sentences, packetBufferSize - HEADER_SIZE);
    var receiver := Connect(sentences, packetBufferSize, big);
    values := ReadAllSentences(receiver, ShapesOf(sentences));
    unread := |receiver.unread| + (|receiver.input| - receiver.at);
    NothingComing(receiver);
  }

  /** One end writes and sends; the other is given the bytes that went over the wire. */
  method Connect(sentences: seq<seq<Field>>, packetBufferSize: nat, big: bool) returns (receiver: Receiver)
    requires MTU_SIZE <= packetBufferSize <= INT32_MAX
    requires forall i :: 0 <= i < |sentences| ==> AllWritable(sentences[i], packetBufferSize - HEADER_SIZE)
    ensures fresh(receiver) && receiver.Valid()
    ensures receiver.State() ==
            Reader(WriteSentences(Writer([], []), sentences, packetBufferSize - HEADER_SIZE).packets, [])
  {
    var sender := new Sender(packetBufferSize, big);
    ghost var start := Writer([], []);
    assert sender.data.Length == packetBufferSize && sender.State() == start;
    SendAllSentences(sender, sentences);
    assert sender.State().packets == WriteSentences(start, sentences, packetBufferSize - HEADER_SIZE).packets;
    receiver := Attach(sender);
  }

  /** A fresh receiver on everything a sender has put on the wire. */
  method Attach(sender: Sender) returns (receiver: Receiver)
    requires sender.Valid()
    ensures fresh(receiver) && receiver.Valid() && receiver.State() == Reader(sender.State().packets, [])
  {
    SenderFeedsReceiver(sender);
    receiver := new Receiver(Joined(sender.wire), sender.big, sender.wire, sender.Sent().inFlight);
  }

  lemma NothingComing(receiver: Receiver)
    requires receiver.Valid() && receiver.State() == Reader([], [])
    ensures receiver.unread == [] && receiver.at == |receiver.input|
  {
    assert |receiver.coming| == |Payloads(receiver.coming)| == 0;
    assert receiver.input[receiver.at..] == [];
  }
}
