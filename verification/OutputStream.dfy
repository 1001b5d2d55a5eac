/** What is buffered and what is sent: the response stream on values, and what every run of it keeps. */
module OutputStream {
  import opened Basics
  import opened Bytes

  // `header` is what the response prints when it is committed; `size` is the buffer size asked for and
  // `capacity` the length of the array that holds the pending bytes.
  datatype Stream = Stream(header: seq<Byte>, committed: bool, wire: seq<Byte>, pending: seq<Byte>,
                           size: nat, capacity: nat)
  {
    // Pending bytes fit.
    ghost predicate Shaped()
    {
      && |pending| <= capacity && 0 < capacity
      && size <= capacity
      && (!committed ==> wire == [])
    }

    // There is room for one more byte.
    predicate HasRoom()
    {
      |pending| < capacity
    }

    /** Everything sent, and everything that a flush would send now. */
    function Sent(): seq<Byte>
    {
      wire + (if committed then [] else header) + pending
    }
  }

  function Initial(header: seq<Byte>): Stream
  {
    Stream(header, false, [], [], 1024, 1024)
  }

  /// Operations
  /// ----------

  function Flushed(s: Stream): Stream
  {
    s.(committed := true, wire := s.Sent(), pending := [],
    capacity := if 0 < s.size < s.capacity then s.size else s.capacity)
  }

  function FlushedIfFull(s: Stream): Stream
  {
    if |s.pending| >= s.size then Flushed(s) else s
  }

  // A stream, and whether the call threw an exception.
  datatype Outcome = Outcome(stream: Stream, threw: bool)

  // A byte that finds the buffer full is out of the bounds of the array.
  function Put(s: Stream, b: int): Outcome
  {
    if s.HasRoom() then Outcome(FlushedIfFull(s.(pending := s.pending + [b % 256])), false) else Outcome(s, true)
  }

  function PutAll(s: Stream, data: seq<Byte>): Stream
  {
    if data == [] then s
    else if |data| >= s.size then
      var f := Flushed(s);
      f.(wire := f.wire + data)
    else if |s.pending| + |data| > s.size then
      var first := if |s.pending| < s.size then s.size - |s.pending| else 0;
      var f := Flushed(s.(pending := s.pending + data[..first]));
      f.(pending := data[first..])
    else FlushedIfFull(s.(pending := s.pending + data))
  }

  function Resized(s: Stream, size: int): Outcome
  {
    if size < 0 then Outcome(s, false)
    else if s.pending == [] then Outcome(s.(capacity := if s.size == 0 then 1 else s.size), false)
    else if size > s.size then
      if |s.pending| > size then Outcome(s, true) else Outcome(s.(capacity := size), false)
    else Outcome(s.(size := size), false)
  }

  function Discarded(s: Stream): Outcome
  {
    if s.committed then Outcome(s, true) else Outcome(s.(pending := []), false)
  }

  /// One operation
  /// -------------

  lemma FlushSendsAll(s: Stream)
    requires s.capacity > 0 && s.size <= s.capacity
    ensures Flushed(s).Shaped() && Flushed(s).HasRoom() && Flushed(s).Sent() == s.Sent() == Flushed(s).wire
  {}

  lemma PutSends(s: Stream, b: int)
    requires s.Shaped() && s.HasRoom()
    ensures var t := Put(s, b).stream; t.Shaped() && t.HasRoom() && t.Sent() == s.Sent() + [b % 256]
  {
    var s1 := s.(pending := s.pending + [b % 256]);
    assert s1.Sent() == s.Sent() + [b % 256];
    FlushSendsAll(s1);
  }

  /** Writing bytes never fails: it adds exactly them, and if there are any it leaves room. */
  lemma PutAllSends(s: Stream, data: seq<Byte>)
    requires s.Shaped()
    ensures var t := PutAll(s, data);
      t.Shaped() && (t.HasRoom() <==> data != [] || s.HasRoom()) && t.Sent() == s.Sent() + data
  {
    hide Flushed;
    if data == [] {
    } else if |data| >= s.size {
      FlushSendsAll(s);
      FlushFields(s);
      SentAfterFlush(Flushed(s), data);
    } else if |s.pending| + |data| > s.size {
      var first := if |s.pending| < s.size then s.size - |s.pending| else 0;
      var s1 := Buffered(s, data[..first]);
      FlushSendsAll(s1);
      FlushFields(s1);
      SentAfterFlush(Flushed(s1), data[first..]);
      SplitData(s.Sent(), data, first);
    } else {
      var s1 := Buffered(s, data);
      FlushSendsAll(s1);
    }
  }

  /** Bytes wait until there are as many as the buffer size asked for; then they are sent, except for those of a
      short write that did not fit in the buffer. */
  lemma SentExactly(s: Stream, data: seq<Byte>)
    requires s.Shaped() && data != []
    ensures var t := PutAll(s, data);
      && (|s.pending| + |data| < s.size ==> t == s.(pending := s.pending + data))
      && (|s.pending| + |data| >= s.size ==>
            && t.committed && t.wire + t.pending == s.Sent() + data
            && |t.pending| == if |data| >= s.size then 0
                              else if |s.pending| >= s.size then |data|
                              else |s.pending| + |data| - s.size)
  {
    PutAllSends(s, data);
  }

  /** A byte is sent with what waits before it as soon as there are as many as the buffer size. */
  lemma ByteSentExactly(s: Stream, b: int)
    requires s.Shaped() && s.HasRoom() && 0 <= b < 256
    ensures var t := Put(s, b).stream;
      if |s.pending| + 1 < s.size then t == s.(pending := s.pending + [b])
      else t.committed && t.pending == [] && t.wire == s.Sent() + [b]
  {
    PutSends(s, b);
  }

  /** A flush gives the array the size asked for, and so does a call that asks for one while nothing waits; a larger
      size asked for while bytes wait is that of the array only. */
  lemma Capacities(s: Stream, n: nat)
    requires s.Shaped()
    ensures s.size > 0 ==> Flushed(s).capacity == s.size
    ensures s.pending == [] && s.size > 0 ==> Resized(s, n).stream == s.(capacity := s.size)
    ensures s.pending != [] && n > s.size && n >= |s.pending| ==> Resized(s, n).stream == s.(capacity := n)
  {}

  lemma Buffered(s: Stream, data: seq<Byte>) returns (t: Stream)
    ensures t == s.(pending := s.pending + data) && t.Sent() == s.Sent() + data
  {
    t := s.(pending := s.pending + data);
  }

  lemma SentAfterFlush(f: Stream, data: seq<Byte>)
    requires f.committed && f.pending == []
    ensures f.(wire := f.wire + data).Sent() == f.(pending := data).Sent() == f.wire + data
  {}

  lemma SplitData(sent: seq<Byte>, data: seq<Byte>, first: nat)
    requires first <= |data|
    ensures sent + data[..first] + data[first..] == sent + data
  {
    assert data == data[..first] + data[first..];
  }

  lemma FlushFields(s: Stream)
    ensures Flushed(s).committed && Flushed(s).pending == []
    ensures Flushed(s).size == s.size && Flushed(s).header == s.header
  {}

  /** Changing the size keeps every byte. It throws exactly where it grows the buffer to less than it holds.
      Where there was room, it leaves none exactly if it grows a shrunken buffer to what it holds. */
  lemma ResizeKeeps(s: Stream, size: int)
    requires s.Shaped()
    ensures var t := Resized(s, size).stream; t.Shaped() && t.Sent() == s.Sent()
    ensures Resized(s, size).threw <==> s.size < size < |s.pending|
    ensures s.HasRoom() ==> (Resized(s, size).stream.HasRoom() <==> !(s.size < size == |s.pending|))
    ensures !s.HasRoom() ==> (Resized(s, size).stream.HasRoom() <==> size > |s.pending|)
  {}

  /** The size becomes the one that is given only if it is that already, or if it is not larger and the buffer
      is in use. */
  lemma ResizeSetsSize(s: Stream, size: int)
    requires s.Shaped()
    ensures Resized(s, size).stream.size == size <==> size == s.size || (s.pending != [] && 0 <= size <= s.size)
  {}

  // An unused buffer keeps its size, whatever is asked for; with three bytes in it, a size of 4096 changes
  // nothing either.
  lemma SizeIsIgnored()
    ensures Resized(Initial([]), 100).stream == Initial([])
    ensures var s := Put(Put(Put(Initial([]), 1).stream, 2).stream, 3).stream;
      Resized(s, 4096).stream.size == 1024
  {}

  /// Every run
  /// ---------

  datatype Call = PutByte(b: int) | PutBytes(data: seq<Byte>) | Flush | Resize(size: int) | Reset

  function Called(s: Stream, c: Call): Outcome
  {
    match c
    case PutByte(b) => Put(s, b)
    case PutBytes(data) => Outcome(PutAll(s, data), false)
    case Flush => Outcome(Flushed(s), false)
    case Resize(size) => Resized(s, size)
    case Reset => Discarded(s)
  }

  predicate IsWrite(c: Call)
  {
    c.PutByte? || c.PutBytes? || c.Flush?
  }

  // A write that throws ends the run; the caller may go on after the other exceptions.
  function Run(s: Stream, calls: seq<Call>): Outcome
    decreases |calls|
  {
    if calls == [] then Outcome(s, false)
    else
      var r := Called(s, calls[0]);
      if IsWrite(calls[0]) && r.threw then r else Run(r.stream, calls[1..])
  }

  function BytesOf(c: Call): seq<Byte>
  {
    match c
    case PutByte(b) => [b % 256]
    case PutBytes(data) => data
    case _ => []
  }

  // The body after a call: a reset that is allowed starts it again, and a write that throws adds nothing.
  function BodyAfter(s: Stream, c: Call, body: seq<Byte>): seq<Byte>
  {
    if Called(s, c).threw then body else if c.Reset? then [] else body + BytesOf(c)
  }

  function Body(s: Stream, calls: seq<Call>, body: seq<Byte>): seq<Byte>
    decreases |calls|
  {
    if calls == [] then body
    else
      var r := Called(s, calls[0]);
      var body' := BodyAfter(s, calls[0], body);
      if IsWrite(calls[0]) && r.threw then body' else Body(r.stream, calls[1..], body')
  }

  lemma CallKeeps(s: Stream, c: Call, body: seq<Byte>)
    requires s.Shaped() && s.Sent() == s.header + body
    ensures var t := Called(s, c).stream;
      t.Shaped() && t.header == s.header && t.Sent() == s.header + BodyAfter(s, c, body)
  {
    hide Put, PutAll, Flushed, Resized;
    ConcatAssoc(s.header, body, BytesOf(c));
    match c
    case PutByte(b) =>
      PutFields(s, b);
      if s.HasRoom() {
        PutSends(s, b);
      }
    case PutBytes(data) =>
      PutAllSends(s, data);
      PutAllFields(s, data);
    case Flush =>
      FlushSendsAll(s);
      FlushFields(s);
    case Resize(size) =>
      ResizeKeeps(s, size);
      ResizeFields(s, size);
    case Reset =>
      if !s.committed {
        assert Discarded(s).stream.Sent() == s.header;
      }
  }

  lemma PutFields(s: Stream, b: int)
    ensures Put(s, b).stream.header == s.header && Put(s, b).stream.size == s.size
    ensures Put(s, b).threw <==> !s.HasRoom()
    ensures Put(s, b).threw ==> Put(s, b).stream == s
  {}

  lemma PutAllFields(s: Stream, data: seq<Byte>)
    ensures PutAll(s, data).header == s.header && PutAll(s, data).size == s.size
  {}

  lemma ResizeFields(s: Stream, size: int)
    ensures Resized(s, size).stream.header == s.header && Resized(s, size).stream.committed == s.committed
  {}

  /** Over every run, also one that ends with an exception: the header, once and first, then the body,
      sent or still pending. */
  lemma {:induction false} Conservation(s: Stream, calls: seq<Call>, body: seq<Byte>)
    requires s.Shaped() && s.Sent() == s.header + body
    ensures var t := Run(s, calls).stream;
      t.Shaped() && t.header == s.header && t.Sent() == s.header + Body(s, calls, body)
    decreases |calls|
  {
    hide Called, BodyAfter, IsWrite, Stream.Sent, Stream.Shaped;
    if calls != [] {
      var c := calls[0];
      CallKeeps(s, c, body);
      var r := Called(s, c);
      if !(IsWrite(c) && r.threw) {
        Conservation(r.stream, calls[1..], BodyAfter(s, c, body));
      }
    }
  }

  /// When a write throws
  /// -------------------

  // Call `n` puts a byte into a full buffer.
  ghost predicate MeetsFull(s: Stream, calls: seq<Call>, n: nat)
  {
    n < |calls| && calls[n].PutByte? && !Run(s, calls[..n]).threw && !Run(s, calls[..n]).stream.HasRoom()
  }

  /** A run ends with an exception if and only if a single byte meets a buffer that is full. */
  lemma {:induction false} ThrowsExactly(s: Stream, calls: seq<Call>)
    ensures Run(s, calls).threw <==> exists n: nat :: MeetsFull(s, calls, n)
    decreases |calls|
  {
    if calls != [] {
      var c, rest := calls[0], calls[1..];
      var r := Called(s, c);
      assert calls[..0] == [];
      forall n: nat | 0 < n <= |calls|
        ensures calls[..n] != [] && calls[..n][0] == c && calls[..n][1..] == rest[..n - 1]
      {}
      PutThrows(s, c);
      if IsWrite(c) && r.threw {
        assert MeetsFull(s, calls, 0);
      } else {
        ThrowsExactly(r.stream, rest);
        if Run(r.stream, rest).threw {
          var n: nat :| MeetsFull(r.stream, rest, n);
          assert MeetsFull(s, calls, n + 1);
        }
        if n: nat :| MeetsFull(s, calls, n) {
          assert n > 0 && MeetsFull(r.stream, rest, n - 1);
        }
      }
    }
  }

  lemma PutThrows(s: Stream, c: Call)
    ensures IsWrite(c) && Called(s, c).threw <==> c.PutByte? && !s.HasRoom()
  {}

  // The one call that takes the last room away.
  predicate Fills(s: Stream, c: Call)
  {
    c.Resize? && s.size < c.size == |s.pending|
  }

  // What leaves a full buffer full.
  predicate LeavesFull(s: Stream, c: Call)
  {
    match c
    case PutByte(_) => true
    case PutBytes(data) => data == []
    case Flush => false
    case Resize(size) => size <= |s.pending|
    case Reset => s.committed
  }

  /** Only a resize to exactly what a shrunken buffer holds makes it full, and a full buffer stays full until
      bytes are written in one call, it is flushed, grown, or discarded. */
  lemma FullAfter(s: Stream, c: Call)
    requires s.Shaped()
    ensures !Called(s, c).stream.HasRoom() <==> if s.HasRoom() then Fills(s, c) else LeavesFull(s, c)
  {
    hide Put, PutAll, Flushed, Resized;
    match c
    case PutByte(b) =>
      PutFields(s, b);
      if s.HasRoom() {
        PutSends(s, b);
      }
    case PutBytes(data) => PutAllSends(s, data);
    case Flush => FlushSendsAll(s);
    case Resize(size) => ResizeKeeps(s, size);
    case Reset =>
  }

  lemma {:induction false} RunConcat(s: Stream, a: seq<Call>, b: seq<Call>)
    ensures Run(s, a + b) == if Run(s, a).threw then Run(s, a) else Run(Run(s, a).stream, b)
    decreases |a|
  {
    hide Called;
    if a == [] {
      assert a + b == b;
    } else {
      assert (a + b)[1..] == a[1..] + b;
      RunConcat(Called(s, a[0]).stream, a[1..], b);
    }
  }

  lemma RunOne(s: Stream, c: Call)
    ensures Run(s, [c]) == Outcome(Called(s, c).stream, IsWrite(c) && Called(s, c).threw)
  {
    assert [c][1..] == [];
  }

  // Three bytes, a smaller buffer, and one of exactly three bytes: a single byte throws, but two bytes
  // in one call or a flush do not.
  lemma FullBuffer()
    ensures var s := Run(Initial([]), [PutByte(1), PutByte(2), PutByte(3), Resize(2), Resize(3)]).stream;
      && Run(s, [PutByte(4)]).threw
      && !Run(s, [PutBytes([4, 5])]).threw
      && Run(s, [Flush]).stream.wire == [1, 2, 3]
  {
    var s0 := Initial([]);
    var s3 := s0.(pending := [1, 2, 3]);
    var s5 := s3.(size := 2, capacity := 3);
    assert Put(s0, 1).stream.pending == [1] && Put(Put(s0, 1).stream, 2).stream.pending == [1, 2];
    assert Put(Put(Put(s0, 1).stream, 2).stream, 3) == Outcome(s3, false);
    assert Resized(Resized(s3, 2).stream, 3) == Outcome(s5, false);
    RunThrough(s0, PutByte(1), [PutByte(2), PutByte(3), Resize(2), Resize(3)]);
    RunThrough(Put(s0, 1).stream, PutByte(2), [PutByte(3), Resize(2), Resize(3)]);
    RunThrough(Put(Put(s0, 1).stream, 2).stream, PutByte(3), [Resize(2), Resize(3)]);
    RunThrough(s3, Resize(2), [Resize(3)]);
    RunOne(Resized(s3, 2).stream, Resize(3));
    RunOne(s5, PutByte(4));
    RunOne(s5, PutBytes([4, 5]));
    RunOne(s5, Flush);
  }

  lemma RunThrough(s: Stream, c: Call, rest: seq<Call>)
    requires !Called(s, c).threw
    ensures Run(s, [c] + rest) == Run(Called(s, c).stream, rest)
  {
    RunOne(s, c);
    RunConcat(s, [c], rest);
  }

  /// What the client sees
  /// --------------------

  /** From a new stream, the wire is a prefix of header and body, nothing before the commit,
      and all of them after a flush. */
  lemma RunOfNewStream(header: seq<Byte>, calls: seq<Call>)
    ensures var s, body := Run(Initial(header), calls).stream, Body(Initial(header), calls, []);
      && (if s.committed then s.wire + s.pending == header + body else s.wire == [] && s.pending == body)
      && (!Run(Initial(header), calls).threw ==> Flushed(s).wire == header + body)
  {
    hide Run, Body;
    var s, body := Run(Initial(header), calls).stream, Body(Initial(header), calls, []);
    Conservation(Initial(header), calls, []);
    FlushSendsAll(s);
    if !s.committed {
      assert s.pending == (header + s.pending)[|header|..];
      assert body == (header + body)[|header|..];
    }
  }

  lemma CallSendsMore(s: Stream, c: Call)
    ensures s.wire <= Called(s, c).stream.wire
  {}

  /** What is sent is never taken back. */
  lemma {:induction false} WireGrows(s: Stream, calls: seq<Call>)
    ensures s.wire <= Run(s, calls).stream.wire
    decreases |calls|
  {
    hide Called;
    if calls != [] {
      CallSendsMore(s, calls[0]);
      if !(IsWrite(calls[0]) && Called(s, calls[0]).threw) {
        WireGrows(Called(s, calls[0]).stream, calls[1..]);
      }
    }
  }

  // Without resets and exceptions of writes the body is all that was written.
  lemma {:induction false} BodyWithoutReset(s: Stream, calls: seq<Call>, body: seq<Byte>)
    requires (forall c <- calls :: !c.Reset?) && !Run(s, calls).threw
    ensures Body(s, calls, body) == body + Written(calls)
    decreases |calls|
  {
    if calls != [] {
      hide Put, PutAll, Flushed, Resized;
      var c := calls[0];
      assert c in calls;
      BodyWithoutReset(Called(s, c).stream, calls[1..], BodyAfter(s, c, body));
      ConcatAssoc(body, BytesOf(c), Written(calls[1..]));
      assert BodyAfter(s, c, body) == body + BytesOf(c);
    }
  }

  function Written(calls: seq<Call>): seq<Byte>
  {
    if calls == [] then [] else BytesOf(calls[0]) + Written(calls[1..])
  }

  /** How the buffer is sized, and where it is flushed, does not show on the wire: whatever is written
      follows what was sent or pending, unless a write throws. */
  lemma BufferingIsInvisible(s: Stream, calls: seq<Call>, body: seq<Byte>)
    requires s.Shaped() && s.Sent() == s.header + body
    requires (forall c <- calls :: !c.Reset?) && !Run(s, calls).threw
    ensures Flushed(Run(s, calls).stream).wire == s.header + (body + Written(calls))
  {
    hide Run, Body;
    Conservation(s, calls, body);
    BodyWithoutReset(s, calls, body);
    FlushSendsAll(Run(s, calls).stream);
  }
}
