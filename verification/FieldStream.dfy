/**
 Fields written into packets and read back. A fixed-size field never straddles packets: the writer
 starts a new packet when it does not fit, and the reader, finding too few bytes left, drops them
 and receives the next packet. A byte string is cut wherever a packet is full.
 */
module FieldStream {
  import opened CArithmetic
  import opened Sequences
  import opened Wrappers

  datatype Field = Fixed(value: seq<byte>) | Bytes(value: seq<byte>)

  datatype Shape = FixedOf(size: nat) | BytesOf(size: nat)

  datatype Writer = Writer(packets: seq<seq<byte>>, buffer: seq<byte>)

  datatype Reader = Reader(coming: seq<seq<byte>>, unread: seq<byte>)

  function ShapeOf(f: Field): Shape
  {
    if f.Fixed? then FixedOf(|f.value|) else BytesOf(|f.value|)
  }

  /** The fields the protocol writes: a fixed-size field is not empty and fits in a packet. */
  predicate Writable(f: Field, capacity: nat)
  {
    f.Fixed? ==> 0 < |f.value| <= capacity
  }

  predicate AllWritable(fields: seq<Field>, capacity: nat)
  {
    forall i :: 0 <= i < |fields| ==> Writable(fields[i], capacity)
  }

  // ---------- writing ----------

  function Flush(w: Writer): Writer
  {
    if w.buffer == [] then w else Writer(w.packets + [w.buffer], [])
  }

  function WriteBytes(w: Writer, value: seq<byte>, capacity: nat): (r: Writer)
    requires |w.buffer| <= capacity && capacity > 0
    ensures |r.buffer| <= capacity
    decreases |value|, |w.buffer|
  {
    var n := Min(capacity - |w.buffer|, |value|);
    var filled := Writer(w.packets, w.buffer + value[..n]);
    if n == |value| then filled else WriteBytes(Flush(filled), value[n..], capacity)
  }

  function Write(w: Writer, f: Field, capacity: nat): (r: Writer)
    requires |w.buffer| <= capacity && capacity > 0 && Writable(f, capacity)
    ensures |r.buffer| <= capacity
  {
    match f
    case Fixed(value) =>
      var w' := if capacity - |w.buffer| < |value| then Flush(w) else w;
      Writer(w'.packets, w'.buffer + value)
    case Bytes(value) => WriteBytes(w, value, capacity)
  }

  function WriteAll(w: Writer, fields: seq<Field>, capacity: nat): Writer
    requires |w.buffer| <= capacity && capacity > 0 && AllWritable(fields, capacity)
    decreases |fields|
  {
    if fields == [] then w else WriteAll(Write(w, fields[0], capacity), fields[1..], capacity)
  }

  /** Whatever was written last leaves bytes in the buffer, so the packet that ends the sentence is not empty. */
  lemma {:induction false} WriteLeavesBytes(w: Writer, f: Field, capacity: nat)
    requires |w.buffer| <= capacity && capacity > 0 && Writable(f, capacity) && f.value != []
    ensures Write(w, f, capacity).buffer != []
    decreases |f.value|, |w.buffer|
  {
    if f.Bytes? {
      var n := Min(capacity - |w.buffer|, |f.value|);
      var filled := Writer(w.packets, w.buffer + f.value[..n]);
      if n < |f.value| { WriteLeavesBytes(Flush(filled), Bytes(f.value[n..]), capacity); }
    }
  }

  // ---------- reading ----------

  /** The next packet replaces whatever was unread; none when the reader would wait. */
  function Receive(r: Reader): Option<Reader>
  {
    if r.coming == [] then None else Some(Reader(r.coming[1..], r.coming[0]))
  }

  function ReadBytes(r: Reader, size: nat): Option<(seq<byte>, Reader)>
    decreases |r.coming|
  {
    var n := Min(|r.unread|, size);
    var (head, rest) := (r.unread[..n], Reader(r.coming, r.unread[n..]));
    if n == size then Some((head, rest))
    else
      var next := Receive(rest);
      if next.None? then None
      else
        var tail := ReadBytes(next.value, size - n);
        if tail.None? then None else Some((head + tail.value.0, tail.value.1))
  }

  function Read(r: Reader, shape: Shape): Option<(seq<byte>, Reader)>
  {
    match shape
    case FixedOf(size) =>
      var r' := if |r.unread| < size then Receive(r) else Some(r);
      if r'.None? || |r'.value.unread| < size then None
      else Some((r'.value.unread[..size], Reader(r'.value.coming, r'.value.unread[size..])))
    case BytesOf(size) => ReadBytes(r, size)
  }

  function ReadAll(r: Reader, shapes: seq<Shape>): Option<(seq<seq<byte>>, Reader)>
    decreases |shapes|
  {
    if shapes == [] then Some(([], r))
    else
      var first := Read(r, shapes[0]);
      if first.None? then None
      else
        var rest := ReadAll(first.value.1, shapes[1..]);
        if rest.None? then None else Some(([first.value.0] + rest.value.0, rest.value.1))
  }

  // ---------- what is written is read back ----------

  /** The packets that finally go out agree with what has been written so far. */
  ghost predicate GoesOut(w: Writer, packets: seq<seq<byte>>)
  {
    w.packets <= packets &&
    (w.buffer != [] ==> |packets| > |w.packets| && w.buffer <= packets[|w.packets|])
  }

  /** The reader stands where the writer stood. */
  ghost predicate InStep(r: Reader, w: Writer, packets: seq<seq<byte>>)
  {
    GoesOut(w, packets) &&
    if w.buffer == [] then r == Reader(packets[|w.packets|..], [])
    else r == Reader(packets[|w.packets| + 1..], packets[|w.packets|][|w.buffer|..])
  }

  lemma FlushGoesOut(w: Writer, packets: seq<seq<byte>>)
    requires GoesOut(Flush(w), packets)
    ensures GoesOut(w, packets)
    ensures w.buffer != [] ==> packets[|w.packets|] == w.buffer
  {
    if w.buffer != [] {
      assert packets[|w.packets|] == (w.packets + [w.buffer])[|w.packets|];
      assert w.packets == packets[..|w.packets|];
    }
  }

  lemma FlushInStep(r: Reader, w: Writer, packets: seq<seq<byte>>)
    requires InStep(r, w, packets) && GoesOut(Flush(w), packets)
    ensures InStep(r, Flush(w), packets)
    ensures r.unread == []
  {
    FlushGoesOut(w, packets);
  }

  lemma FillGoesOut(w: Writer, more: seq<byte>, packets: seq<seq<byte>>)
    requires GoesOut(Writer(w.packets, w.buffer + more), packets)
    ensures GoesOut(w, packets)
  {
    if w.buffer != [] { assert w.buffer <= w.buffer + more; }
  }

  /** Reading bytes that the writer put into the packet it was filling. */
  lemma FillInStep(r: Reader, w: Writer, more: seq<byte>, packets: seq<seq<byte>>)
    requires InStep(r, w, packets) && GoesOut(Writer(w.packets, w.buffer + more), packets) && more != []
    ensures var r' := if w.buffer == [] then Receive(r) else Some(r);
            && r'.Some? && more <= r'.value.unread
            && InStep(Reader(r'.value.coming, r'.value.unread[|more|..]), Writer(w.packets, w.buffer + more), packets)
  {
    var k := |w.packets|;
    assert w.buffer + more <= packets[k];
    assert packets[k][|w.buffer|..][..|more|] == more;
    assert packets[k][|w.buffer|..][|more|..] == packets[k][|w.buffer + more|..];
    if w.buffer == [] { assert packets[k..][1..] == packets[k + 1..] && packets[k..][0] == packets[k]; }
  }

  lemma {:induction false} BytesGoOut(w: Writer, value: seq<byte>, capacity: nat, packets: seq<seq<byte>>)
    requires |w.buffer| <= capacity && capacity > 0 && GoesOut(WriteBytes(w, value, capacity), packets)
    ensures GoesOut(w, packets)
    decreases |value|, |w.buffer|
  {
    var n := Min(capacity - |w.buffer|, |value|);
    var filled := Writer(w.packets, w.buffer + value[..n]);
    if n < |value| {
      BytesGoOut(Flush(filled), value[n..], capacity, packets);
      FlushGoesOut(filled, packets);
    }
    FillGoesOut(w, value[..n], packets);
  }

  lemma FieldGoesOut(w: Writer, f: Field, capacity: nat, packets: seq<seq<byte>>)
    requires |w.buffer| <= capacity && capacity > 0 && Writable(f, capacity) && GoesOut(Write(w, f, capacity), packets)
    ensures GoesOut(w, packets)
  {
    match f
    case Fixed(value) =>
      var w' := if capacity - |w.buffer| < |value| then Flush(w) else w;
      FillGoesOut(w', value, packets);
      if w' != w { FlushGoesOut(w, packets); }
    case Bytes(value) => BytesGoOut(w, value, capacity, packets);
  }

  lemma FixedReadBack(r: Reader, w: Writer, value: seq<byte>, capacity: nat, packets: seq<seq<byte>>)
    requires |w.buffer| <= capacity && 0 < |value| <= capacity
    requires InStep(r, w, packets) && GoesOut(Write(w, Fixed(value), capacity), packets)
    ensures var got := Read(r, FixedOf(|value|));
            got.Some? && got.value.0 == value && InStep(got.value.1, Write(w, Fixed(value), capacity), packets)
  {
    var w' := if capacity - |w.buffer| < |value| then Flush(w) else w;
    FillGoesOut(w', value, packets);
    if w' != w { FlushInStep(r, w, packets); }
    FillInStep(r, w', value, packets);
  }

  /** With nothing unread, reading bytes starts by receiving a packet. */
  lemma ReadBytesReceives(r: Reader, size: nat)
    requires r.unread == [] && size > 0 && Receive(r).Some?
    ensures ReadBytes(r, size) == ReadBytes(Receive(r).value, size)
  {
    var tail := ReadBytes(Receive(r).value, size);
    assert Reader(r.coming, r.unread[0..]) == r;
    if tail.Some? { assert [] + tail.value.0 == tail.value.0; }
  }

  /** Reading bytes is reading the first of them and then the rest. */
  lemma ReadBytesSplit(r: Reader, more: seq<byte>, size: nat)
    requires more <= r.unread && |more| <= size
    requires ReadBytes(Reader(r.coming, r.unread[|more|..]), size - |more|).Some?
    ensures var rest := ReadBytes(Reader(r.coming, r.unread[|more|..]), size - |more|).value;
            ReadBytes(r, size) == Some((more + rest.0, rest.1))
  {
    var m := |more|;
    var n := Min(|r.unread|, size);
    var after := r.unread[m..];
    assert r.unread[..n] == more + after[..n - m];
    assert after[n - m..] == r.unread[n..];
    if n < size {
      var tail := ReadBytes(Receive(Reader(r.coming, r.unread[n..])).value, size - n);
      assert more + (after[..n - m] + tail.value.0) == r.unread[..n] + tail.value.0;
    }
  }

  /** Reading so many bytes gives these, and leaves the reader in step with the writer. */
  ghost predicate ReadsBack(r: Reader, value: seq<byte>, after: Writer, packets: seq<seq<byte>>)
  {
    var got := ReadBytes(r, |value|);
    got.Some? && got.value.0 == value && InStep(got.value.1, after, packets)
  }

  lemma {:induction false} BytesReadBack(r: Reader, w: Writer, value: seq<byte>, capacity: nat, packets: seq<seq<byte>>)
    requires |w.buffer| <= capacity && capacity > 0
    requires InStep(r, w, packets) && GoesOut(WriteBytes(w, value, capacity), packets)
    ensures ReadsBack(r, value, WriteBytes(w, value, capacity), packets)
    decreases |value|, |w.buffer|, 1
  {
    var n := Min(capacity - |w.buffer|, |value|);
    var filled := Writer(w.packets, w.buffer + value[..n]);
    if value == [] {
      assert filled == w && r.unread[0..] == r.unread;
    } else if n == 0 {
      assert filled == w && value[n..] == value;
      BytesGoOut(Flush(w), value, capacity, packets);
      FlushInStep(r, w, packets);
      BytesReadBack(r, Flush(w), value, capacity, packets);
    } else {
      var more, later := value[..n], value[n..];
      WriteIsRest(w, value, n, capacity);
      PartReadBack(r, w, more, later, capacity, packets);
      assert more + later == value;
    }
  }

  lemma WriteIsRest(w: Writer, value: seq<byte>, n: nat, capacity: nat)
    requires |w.buffer| <= capacity && capacity > 0 && n == Min(capacity - |w.buffer|, |value|)
    ensures WriteBytes(w, value, capacity) == Rest(Writer(w.packets, w.buffer + value[..n]), value[n..], capacity)
  {
  }

  /** The writer after filling a packet, with the bytes that did not fit. */
  function Rest(filled: Writer, later: seq<byte>, capacity: nat): Writer
    requires |filled.buffer| <= capacity && capacity > 0
  {
    if later == [] then filled else WriteBytes(Flush(filled), later, capacity)
  }

  lemma RestGoesOut(filled: Writer, later: seq<byte>, capacity: nat, packets: seq<seq<byte>>)
    requires |filled.buffer| <= capacity && capacity > 0 && GoesOut(Rest(filled, later, capacity), packets)
    ensures GoesOut(filled, packets)
  {
    if later != [] {
      BytesGoOut(Flush(filled), later, capacity, packets);
      FlushGoesOut(filled, packets);
    }
  }

  /** Bytes of which some fit in the packet being filled. */
  lemma {:induction false} PartReadBack(r: Reader, w: Writer, more: seq<byte>, later: seq<byte>, capacity: nat,
                                        packets: seq<seq<byte>>)
    requires |w.buffer| + |more| <= capacity && capacity > 0 && more != [] && InStep(r, w, packets)
    requires GoesOut(Rest(Writer(w.packets, w.buffer + more), later, capacity), packets)
    ensures ReadsBack(r, more + later, Rest(Writer(w.packets, w.buffer + more), later, capacity), packets)
    decreases |more| + |later|, |w.buffer|, 0
  {
    var filled, size := Writer(w.packets, w.buffer + more), |more| + |later|;
    RestGoesOut(filled, later, capacity, packets);
    FillInStep(r, w, more, packets);
    var received := if w.buffer == [] then Receive(r).value else r;
    var next := Reader(received.coming, received.unread[|more|..]);
    RestReadBack(next, filled, later, capacity, packets);
    assert ReadBytes(received, size) == Some((more + later, ReadBytes(next, |later|).value.1)) by {
      ReadBytesSplit(received, more, size);
    }
    assert ReadBytes(r, size) == ReadBytes(received, size) by {
      if w.buffer == [] { ReadBytesReceives(r, size); }
    }
  }

  /** The bytes that did not fit, after the packet just filled. */
  lemma {:induction false} RestReadBack(r: Reader, w: Writer, later: seq<byte>, capacity: nat, packets: seq<seq<byte>>)
    requires |w.buffer| <= capacity && capacity > 0 && w.buffer != [] && InStep(r, w, packets)
    requires GoesOut(Rest(w, later, capacity), packets)
    ensures ReadsBack(r, later, Rest(w, later, capacity), packets)
    decreases |later|, capacity + 1, 0
  {
    if later == [] {
      assert r.unread[0..] == r.unread;
    } else {
      BytesGoOut(Flush(w), later, capacity, packets);
      FlushInStep(r, w, packets);
      BytesReadBack(r, Flush(w), later, capacity, packets);
    }
  }

  lemma FieldReadBack(r: Reader, w: Writer, f: Field, capacity: nat, packets: seq<seq<byte>>)
    requires |w.buffer| <= capacity && capacity > 0 && Writable(f, capacity)
    requires InStep(r, w, packets) && GoesOut(Write(w, f, capacity), packets)
    ensures var got := Read(r, ShapeOf(f));
            got.Some? && got.value.0 == f.value && InStep(got.value.1, Write(w, f, capacity), packets)
  {
    match f
    case Fixed(value) => FixedReadBack(r, w, value, capacity, packets);
    case Bytes(value) => BytesReadBack(r, w, value, capacity, packets);
  }

  lemma {:induction false} AllGoOut(w: Writer, fields: seq<Field>, capacity: nat, packets: seq<seq<byte>>)
    requires |w.buffer| <= capacity && capacity > 0 && AllWritable(fields, capacity)
    requires GoesOut(WriteAll(w, fields, capacity), packets)
    ensures GoesOut(w, packets)
    decreases |fields|
  {
    if fields != [] {
      AllGoOut(Write(w, fields[0], capacity), fields[1..], capacity, packets);
      FieldGoesOut(w, fields[0], capacity, packets);
    }
  }

  lemma {:induction false} AllReadBack(r: Reader, w: Writer, fields: seq<Field>, capacity: nat, packets: seq<seq<byte>>)
    requires |w.buffer| <= capacity && capacity > 0 && AllWritable(fields, capacity)
    requires InStep(r, w, packets) && GoesOut(WriteAll(w, fields, capacity), packets)
    ensures var got := ReadAll(r, Shapes(fields));
            got.Some? && got.value.0 == Values(fields) && InStep(got.value.1, WriteAll(w, fields, capacity), packets)
    decreases |fields|
  {
    if fields != [] {
      var w' := Write(w, fields[0], capacity);
      AllGoOut(w', fields[1..], capacity, packets);
      FieldReadBack(r, w, fields[0], capacity, packets);
      var first := Read(r, ShapeOf(fields[0]));
      AllReadBack(first.value.1, w', fields[1..], capacity, packets);
      assert Shapes(fields)[1..] == Shapes(fields[1..]);
      assert Values(fields) == [fields[0].value] + Values(fields[1..]);
    }
  }

  function Shapes(fields: seq<Field>): (r: seq<Shape>)
    ensures |r| == |fields| && forall i :: 0 <= i < |fields| ==> r[i] == ShapeOf(fields[i])
  {
    seq(|fields|, i requires 0 <= i < |fields| => ShapeOf(fields[i]))
  }

  function Values(fields: seq<Field>): (r: seq<seq<byte>>)
    ensures |r| == |fields| && forall i :: 0 <= i < |fields| ==> r[i] == fields[i].value
  {
    seq(|fields|, i requires 0 <= i < |fields| => fields[i].value)
  }

  /**
   Reading fields of the shapes that were written gives their values, for every packet size; the
   reader never drops a byte and ends with nothing left to read.
   */
  lemma FieldsRoundTrip(fields: seq<Field>, capacity: nat)
    requires capacity > 0 && AllWritable(fields, capacity)
    ensures var packets := Flush(WriteAll(Writer([], []), fields, capacity)).packets;
            ReadAll(Reader(packets, []), Shapes(fields)) == Some((Values(fields), Reader([], [])))
  {
    var start := Writer([], []);
    var end := WriteAll(start, fields, capacity);
    var packets := Flush(end).packets;
    FlushGoesOut(end, packets);
    AllGoOut(start, fields, capacity, packets);
    assert packets[0..] == packets;
    AllReadBack(Reader(packets, []), start, fields, capacity, packets);
    assert packets[|packets|..] == [] && end.buffer[|end.buffer|..] == [];
  }

  // ---------- one sentence after another ----------

  function WriteSentences(w: Writer, sentences: seq<seq<Field>>, capacity: nat): Writer
    requires |w.buffer| <= capacity && capacity > 0
    requires forall i :: 0 <= i < |sentences| ==> AllWritable(sentences[i], capacity)
    decreases |sentences|
  {
    if sentences == [] then w
    else WriteSentences(Flush(WriteAll(w, sentences[0], capacity)), sentences[1..], capacity)
  }

  function ReadSentences(r: Reader, sentences: seq<seq<Shape>>): Option<(seq<seq<seq<byte>>>, Reader)>
    decreases |sentences|
  {
    if sentences == [] then Some(([], r))
    else
      var first := ReadAll(r, sentences[0]);
      if first.None? then None
      else
        var rest := ReadSentences(first.value.1, sentences[1..]);
        if rest.None? then None else Some(([first.value.0] + rest.value.0, rest.value.1))
  }

  function ShapesOf(sentences: seq<seq<Field>>): (r: seq<seq<Shape>>)
    ensures |r| == |sentences| && forall i :: 0 <= i < |sentences| ==> r[i] == Shapes(sentences[i])
  {
    seq(|sentences|, i requires 0 <= i < |sentences| => Shapes(sentences[i]))
  }

  function ValuesOf(sentences: seq<seq<Field>>): (r: seq<seq<seq<byte>>>)
    ensures |r| == |sentences| && forall i :: 0 <= i < |sentences| ==> r[i] == Values(sentences[i])
  {
    seq(|sentences|, i requires 0 <= i < |sentences| => Values(sentences[i]))
  }

  lemma {:induction false} SentencesGoOut(w: Writer, sentences: seq<seq<Field>>, capacity: nat, packets: seq<seq<byte>>)
    requires |w.buffer| <= capacity && capacity > 0
    requires forall i :: 0 <= i < |sentences| ==> AllWritable(sentences[i], capacity)
    requires GoesOut(WriteSentences(w, sentences, capacity), packets)
    ensures GoesOut(w, packets)
    decreases |sentences|
  {
    if sentences != [] {
      var end := WriteAll(w, sentences[0], capacity);
      SentencesGoOut(Flush(end), sentences[1..], capacity, packets);
      FlushGoesOut(end, packets);
      AllGoOut(w, sentences[0], capacity, packets);
    }
  }

  lemma {:induction false} SentencesReadBack(r: Reader, w: Writer, sentences: seq<seq<Field>>, capacity: nat,
                                             packets: seq<seq<byte>>)
    requires |w.buffer| <= capacity && capacity > 0
    requires forall i :: 0 <= i < |sentences| ==> AllWritable(sentences[i], capacity)
    requires InStep(r, w, packets) && GoesOut(WriteSentences(w, sentences, capacity), packets)
    ensures var got := ReadSentences(r, ShapesOf(sentences));
            && got.Some? && got.value.0 == ValuesOf(sentences)
            && InStep(got.value.1, WriteSentences(w, sentences, capacity), packets)
    decreases |sentences|
  {
    if sentences != [] {
      var end := WriteAll(w, sentences[0], capacity);
      SentencesGoOut(Flush(end), sentences[1..], capacity, packets);
      FlushGoesOut(end, packets);
      AllReadBack(r, w, sentences[0], capacity, packets);
      var next := ReadAll(r, Shapes(sentences[0])).value.1;
      FlushInStep(next, end, packets);
      SentencesReadBack(next, Flush(end), sentences[1..], capacity, packets);
      assert ShapesOf(sentences)[1..] == ShapesOf(sentences[1..]);
      assert ValuesOf(sentences) == [Values(sentences[0])] + ValuesOf(sentences[1..]);
    }
  }

  /** Sentences of any fields are read back one after another, and nothing is left to read. */
  lemma {:induction false} SentencesRoundTrip(sentences: seq<seq<Field>>, capacity: nat)
    requires capacity > 0 && forall i :: 0 <= i < |sentences| ==> AllWritable(sentences[i], capacity)
    ensures var w := WriteSentences(Writer([], []), sentences, capacity);
            && w.buffer == []
            && ReadSentences(Reader(w.packets, []), ShapesOf(sentences)) == Some((ValuesOf(sentences), Reader([], [])))
  {
    var start := Writer([], []);
    var w := WriteSentences(start, sentences, capacity);
    SentencesEndFlushed(start, sentences, capacity);
    SentencesGoOut(start, sentences, capacity, w.packets);
    assert w.packets[0..] == w.packets && w.packets[|w.packets|..] == [];
    SentencesReadBack(Reader(w.packets, []), start, sentences, capacity, w.packets);
  }

  lemma {:induction false} SentencesEndFlushed(w: Writer, sentences: seq<seq<Field>>, capacity: nat)
    requires |w.buffer| <= capacity && capacity > 0
    requires forall i :: 0 <= i < |sentences| ==> AllWritable(sentences[i], capacity)
    ensures w.buffer == [] ==> WriteSentences(w, sentences, capacity).buffer == []
    decreases |sentences|
  {
    if sentences != [] {
      SentencesEndFlushed(Flush(WriteAll(w, sentences[0], capacity)), sentences[1..], capacity);
    }
  }

  // ---------- reading with other shapes ----------

  /** Everything a reader can still get at. */
  function Left(r: Reader): seq<byte>
  {
    r.unread + Joined(r.coming)
  }

  /** The bytes a read of a fixed field leaves behind. */
  function Dropped(r: Reader, size: nat): seq<byte>
  {
    if |r.unread| < size then r.unread else []
  }

  /**
   Whatever was written, a fixed field takes the bytes after those left of a packet that holds too
   few; so nothing is lost if and only if the field fits in what is left, or nothing is left.
   */
  lemma {:induction false} FixedReadKeepsAllIff(r: Reader, size: nat)
    requires Read(r, FixedOf(size)).Some?
    ensures var (value, after) := Read(r, FixedOf(size)).value;
            && |value| == size && Left(r) == Dropped(r, size) + value + Left(after)
            && (value + Left(after) == Left(r) <==> |r.unread| >= size || r.unread == [])
  {
    var (value, after) := Read(r, FixedOf(size)).value;
    var whole := if |r.unread| < size then Receive(r).value else r;
    TakeKeepsAll(whole, size);
    assert Left(whole) == value + Left(after);
    if |r.unread| < size {
      assert Left(r) == r.unread + Left(whole);
      Regroup(r.unread, value, Left(after));
      if r.unread != [] { assert |value + Left(after)| < |Left(r)|; }
    } else {
      assert [] + value + Left(after) == value + Left(after);
    }
  }

  /** A byte string takes the next bytes whatever packets they are in. */
  lemma {:induction false} BytesReadKeepsAll(r: Reader, size: nat)
    requires ReadBytes(r, size).Some?
    ensures var (value, after) := ReadBytes(r, size).value; |value| == size && value + Left(after) == Left(r)
    decreases |r.coming|
  {
    var n := Min(|r.unread|, size);
    var head, rest := r.unread[..n], Reader(r.coming, r.unread[n..]);
    TakeKeepsAll(r, n);
    if n < size {
      var next := Receive(rest).value;
      ReceiveKeepsAll(rest);
      BytesReadKeepsAll(next, size - n);
      var got := ReadBytes(next, size - n).value;
      Regroup(head, got.0, Left(got.1));
    }
  }

  lemma TakeKeepsAll(r: Reader, n: nat)
    requires n <= |r.unread|
    ensures Left(r) == r.unread[..n] + Left(Reader(r.coming, r.unread[n..]))
  {
    Regroup(r.unread[..n], r.unread[n..], Joined(r.coming));
    assert r.unread == r.unread[..n] + r.unread[n..];
  }

  lemma ReceiveKeepsAll(r: Reader)
    requires r.unread == [] && r.coming != []
    ensures Left(Receive(r).value) == Left(r)
  {
    assert Left(r) == [] + (r.coming[0] + Joined(r.coming[1..]));
  }

  lemma Regroup(a: seq<byte>, b: seq<byte>, c: seq<byte>)
    ensures (a + b) + c == a + (b + c)
  {
  }

  /** A byte left over, then a field of two bytes: the byte is gone. */
  lemma LostByteExample(lost: byte, value: seq<byte>)
    requires |value| == 2
    ensures Read(Reader([value], [lost]), FixedOf(2)) == Some((value, Reader([], [])))
  {
    var coming: seq<seq<byte>> := [value];
    assert coming[1..] == [] && value[..2] == value && value[2..] == [];
  }

  // ---------- how packets are filled ----------

  /** Packets that only go out full. */
  predicate AllFull(packets: seq<seq<byte>>, capacity: nat)
  {
    forall i :: 0 <= i < |packets| ==> |packets[i]| == capacity
  }

  lemma {:induction false} JoinedConcat(u: seq<seq<byte>>, v: seq<seq<byte>>)
    ensures Joined(u + v) == Joined(u) + Joined(v)
  {
    if u == [] {
      assert u + v == v;
    } else {
      assert (u + v)[1..] == u[1..] + v;
      JoinedConcat(u[1..], v);
    }
  }

  lemma JoinedOne(packet: seq<byte>)
    ensures Joined([packet]) == packet
  {
    var packets := [packet];
    assert packets[1..] == [];
  }

  /** A byte string goes out in full packets, and what is left over stays in the buffer. */
  lemma {:induction false} BytesFillPackets(w: Writer, value: seq<byte>, capacity: nat) returns (sent: seq<seq<byte>>)
    requires |w.buffer| <= capacity && capacity > 0
    ensures var after := WriteBytes(w, value, capacity);
            && after.packets == w.packets + sent && AllFull(sent, capacity)
            && Joined(sent) + after.buffer == w.buffer + value
            && |after.buffer| <= capacity && (value != [] ==> after.buffer != [])
    decreases |value|, |w.buffer|
  {
    var n := Min(capacity - |w.buffer|, |value|);
    var filled := Writer(w.packets, w.buffer + value[..n]);
    if n == |value| {
      sent := [];
      assert value[..n] == value && w.packets + [] == w.packets;
    } else {
      var later := BytesFillPackets(Flush(filled), value[n..], capacity);
      sent := [filled.buffer] + later;
      FullFirst(w, filled, value, n, later, WriteBytes(w, value, capacity));
    }
  }

  lemma Regrouped(x: seq<byte>, y: seq<byte>, z: seq<byte>, u: seq<byte>, v: seq<byte>)
    requires u + v == z
    ensures ((x + y) + u) + v == x + (y + z)
  {
    assert ((x + y) + u) + v == (x + y) + (u + v);
  }

  lemma {:induction false} FullFirst(w: Writer, filled: Writer, value: seq<byte>, n: nat, later: seq<seq<byte>>,
                                     after: Writer)
    requires n <= |value| && filled == Writer(w.packets, w.buffer + value[..n]) && filled.buffer != []
    requires after.packets == w.packets + [filled.buffer] + later && Joined(later) + after.buffer == value[n..]
    ensures after.packets == w.packets + ([filled.buffer] + later)
    ensures Joined([filled.buffer] + later) + after.buffer == w.buffer + value
  {
    assert ([filled.buffer] + later)[1..] == later;
    Regrouped(w.buffer, value[..n], value[n..], Joined(later), after.buffer);
    assert value == value[..n] + value[n..];
    assert after.packets == w.packets + ([filled.buffer] + later);
  }

  /** A fixed field starts a new packet exactly when it does not fit behind what the buffer holds. */
  lemma FixedStartsPacketIff(w: Writer, value: seq<byte>, capacity: nat)
    requires |w.buffer| <= capacity && 0 < |value| <= capacity
    ensures var after := Write(w, Fixed(value), capacity);
            && (|w.buffer| + |value| <= capacity ==> after == Writer(w.packets, w.buffer + value))
            && (|w.buffer| + |value| > capacity ==> after == Writer(w.packets + [w.buffer], value))
  {
  }

  /** Reading a byte string waits for more exactly when there are too few bytes in all. */
  lemma {:induction false} BytesReadWaitsIff(r: Reader, size: nat)
    ensures ReadBytes(r, size).None? <==> |Left(r)| < size
    decreases |r.coming|
  {
    var n := Min(|r.unread|, size);
    if n < size && r.coming != [] {
      BytesReadWaitsIff(Reader(r.coming[1..], r.coming[0]), size - n);
    }
  }
}
