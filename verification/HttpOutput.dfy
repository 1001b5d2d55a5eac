/** HTTPOutputStream: a buffer, a lazy commit, and a flush that calls back into the writes. */
module HttpOutput {
  import opened Basics
  import opened Bytes
  import opened Alphabet
  import opened OutputStream

  /// The header of a response
  /// ------------------------

  type Line = seq<Byte>

  // A header by its lower-case name: one line, or several if it was added more than once.
  datatype Field = Field(name: Line, lines: seq<Line>)

  datatype Response = Response(status: Line, statusText: Option<Line>, contentType: Line, contentLength: Option<Line>,
                               headers: seq<Field>, message: Option<Line>)

  const END_OF_LINE: Line := [CR, LF]

  predicate ContainsHeader(r: Response, name: Line)
  {
    exists f <- r.headers :: f.name == name
  }

  function StatusLine(r: Response): Line
  {
    Ascii("HTTP/1.0 ") + r.status + [SPACE] + if r.statusText == None then Ascii("Foo") else r.statusText.value
  }

  function TypeLines(r: Response): seq<Line>
  {
    if ContainsHeader(r, Ascii("content-type")) then [] else [Ascii("Content-Type: ") + r.contentType]
  }

  function LengthLines(r: Response): seq<Line>
  {
    if r.contentLength == None || ContainsHeader(r, Ascii("content-length")) then []
    else [Ascii("Content-Length: ") + r.contentLength.value]
  }

  function StoredLines(headers: seq<Field>): seq<Line>
  {
    if headers == [] then [] else headers[0].lines + StoredLines(headers[1..])
  }

  function Terminated(lines: seq<Line>): seq<Byte>
  {
    if lines == [] then [] else lines[0] + END_OF_LINE + Terminated(lines[1..])
  }

  /** What a response prints when it is committed. */
  function HeaderOf(r: Response): seq<Byte>
  {
    Terminated([StatusLine(r)] + TypeLines(r) + LengthLines(r) + StoredLines(r.headers)) + END_OF_LINE
    + match r.message case None => [] case Some(m) => m
  }

  lemma {:induction false} TerminatedConcat(a: seq<Line>, b: seq<Line>)
    ensures Terminated(a + b) == Terminated(a) + Terminated(b)
  {
    if a == [] {
      assert a + b == b;
    } else {
      assert (a + b)[1..] == a[1..] + b;
      TerminatedConcat(a[1..], b);
    }
  }

  /// The stream
  /// ----------

  class HTTPOutputStream {
    var isCommitted: bool
    var bufused: nat
    var bufsize: nat
    var buf: array<Byte>
    var response: Response
    // What the native methods did.
    var wire: seq<Byte>
    var closed: bool

    ghost predicate Shaped()
      reads this
    {
      bufused <= buf.Length && 0 < buf.Length && bufsize <= buf.Length && (!isCommitted ==> wire == [])
    }

    ghost predicate Valid()
      reads this
    {
      Shaped() && bufused < buf.Length
    }

    ghost function State(): Stream
      reads this, buf
      requires bufused <= buf.Length
    {
      Stream(HeaderOf(response), isCommitted, wire, buf[..bufused], bufsize, buf.Length)
    }

    constructor (response: Response)
      ensures Valid() && fresh(buf) && !closed && State() == Initial(HeaderOf(response)) && this.response == response
    {
      isCommitted, bufused, bufsize, buf := false, 0, 1024, new Byte[1024];
      this.response, wire, closed := response, [], false;
    }

    method LowWrite(bytes: seq<Byte>)
      modifies this`wire
      ensures wire == old(wire) + bytes
    {
      wire := wire + bytes;
    }

    method LowClose()
      modifies this`closed
      ensures closed
    {
      closed := true;
    }

    // System.arraycopy into the buffer.
    method CopyIn(bytes: seq<Byte>, at: nat)
      requires at + |bytes| <= buf.Length
      modifies buf
      ensures buf[..at + |bytes|] == old(buf[..at]) + bytes
    {
      forall i | 0 <= i < |bytes| {
        buf[at + i] := bytes[i];
      }
      assert forall i :: 0 <= i < |bytes| ==> buf[at..at + |bytes|][i] == bytes[i];
      assert buf[..at] == old(buf[..at]);
      assert buf[..at + |bytes|] == buf[..at] + buf[at..at + |bytes|];
    }

    method Buffer(bytes: seq<Byte>)
      requires bufused + |bytes| <= buf.Length
      modifies this`bufused, buf
      ensures bufused == old(bufused) + |bytes| && State() == old(State()).(pending := old(State()).pending + bytes)
    {
      CopyIn(bytes, bufused);
      bufused := bufused + |bytes|;
    }

    /** In a full buffer the index is out of bounds: the call throws, with the count already moved. */
    method WriteByte(b: int) returns (ok: bool)
      requires Shaped()
      modifies this`bufused, this`isCommitted, this`buf, this`wire, buf
      ensures ok == old(bufused < buf.Length) && (buf == old(buf) || fresh(buf)) && response == old(response)
      ensures ok ==> Valid() && Outcome(State(), false) == Put(old(State()), b)
      ensures !ok ==> Put(old(State()), b) == Outcome(old(State()), true)
      ensures !ok ==> bufused == old(bufused) + 1 && buf == old(buf) && buf[..] == old(buf[..])
      ensures !ok ==> wire == old(wire) && isCommitted == old(isCommitted)
      decreases !isCommitted, 3
    {
      hide Flushed, HeaderOf;
      if bufused >= buf.Length {
        bufused := bufused + 1;
        return false;
      }
      ok := true;
      Buffer([b % 256]);
      if bufused >= bufsize {
        Flush();
      }
    }

    // Takes as many bytes as the buffer holds.
    method FillUp(b: seq<Byte>, offs: nat, len: nat) returns (first: nat)
      requires Shaped() && 0 < len < bufsize < bufused + len && offs + len <= |b|
      modifies this`bufused, buf
      ensures first == (if old(bufused) < bufsize then bufsize - old(bufused) else 0) && first <= len
      ensures Shaped() && State() == old(State()).(pending := old(State()).pending + b[offs..offs + len][..first])
    {
      hide HeaderOf;
      var room := bufsize - bufused;
      if room > 0 {
        first := room;
        SplitRange(b, offs, first, len);
        Buffer(b[offs..offs + first]);
      } else {
        first := 0;
      }
    }

    // What does not fit in the buffer waits for the flush.
    method WriteAcross(b: seq<Byte>, offs: nat, len: nat)
      requires Shaped() && 0 < len < bufsize < bufused + len && offs + len <= |b|
      modifies this`bufused, this`isCommitted, this`buf, this`wire, buf
      ensures Valid() && (buf == old(buf) || fresh(buf))
      ensures State() == PutAll(old(State()), b[offs..offs + len]) && response == old(response)
      decreases !isCommitted, 2
    {
      hide Flushed, HeaderOf, PutAll, Put, FlushedIfFull, Stream.Sent;
      ghost var start, data := State(), b[offs..offs + len];
      var first := FillUp(b, offs, len);
      SplitRange(b, offs, first, len);
      AcrossIs(start, data, first);
      Flush();
      Buffer(b[offs + first..offs + len]);
      // The source would flush once more here if the buffer were full again.
      assert bufused < bufsize;
    }

    method Write(b: seq<Byte>, offs: int, len: int)
      requires Shaped() && (len > 0 ==> 0 <= offs && offs + len <= |b|)
      modifies this`bufused, this`isCommitted, this`buf, this`wire, buf
      ensures Shaped() && (len > 0 || old(Valid()) ==> Valid()) && (buf == old(buf) || fresh(buf))
      ensures State() == PutAll(old(State()), if len > 0 then b[offs..offs + len] else []) && response == old(response)
      decreases !isCommitted, 3
    {
      if len <= 0 {
        return;
      }
      hide Flushed, HeaderOf;
      ghost var start, data := State(), b[offs..offs + len];
      if len >= bufsize {
        Flush();
        LowWrite(b[offs..offs + len]);
        assert State() == Flushed(start).(wire := Flushed(start).wire + data);
      } else if bufused + len > bufsize {
        WriteAcross(b, offs, len);
      } else {
        Buffer(b[offs..offs + len]);
        if bufused >= bufsize {
          Flush();
        }
      }
    }

    method Flush()
      requires Shaped()
      modifies this`bufused, this`isCommitted, this`buf, this`wire, buf
      ensures Valid() && bufused == 0 && (buf == old(buf) || fresh(buf))
      ensures State() == Flushed(old(State())) && response == old(response)
      decreases !isCommitted, 1
    {
      hide HeaderOf;
      ghost var start := State();
      var toWrite := bufused;
      bufused := 0;
      if !isCommitted {
        Commit();
      }
      assert buf[..toWrite] == start.pending;
      if toWrite > 0 {
        LowWrite(buf[..toWrite]);
      }
      assert wire == start.Sent();
      if bufsize > 0 && buf.Length > bufsize {
        buf := new Byte[if bufsize == 0 then 1 else bufsize];
      }
    }

    // The first flush: the header goes through a buffer of its own.
    method Commit()
      requires Shaped() && !isCommitted && bufused == 0
      modifies this`bufused, this`isCommitted, this`buf, this`wire
      ensures isCommitted && bufused == 0 && buf == old(buf) && wire == HeaderOf(response)
      decreases !isCommitted, 0
    {
      hide HeaderOf, Flushed;
      isCommitted := true;
      var oldbuf := buf;
      buf := new Byte[if bufsize == 0 then 1 else bufsize];
      assert State().Sent() == [];
      CommitRequest();
      FlushSendsAll(State());
      FlushFields(State());
      Flush();
      buf := oldbuf;
    }

    // What printing keeps: the bytes are sent or pending, and the rest is as it was.
    twostate predicate Printed(text: seq<Byte>)
      reads this, buf
    {
      && old(Valid()) && Valid() && old(isCommitted) && isCommitted
      && State().Sent() == old(State().Sent()) + text
      && response == old(response) && bufsize == old(bufsize)
    }

    // ServletOutputStream.print writes a character at a time.
    method Print(text: seq<Byte>)
      requires Valid() && isCommitted
      modifies this`bufused, this`isCommitted, this`buf, this`wire, buf
      ensures Printed(text) && (buf == old(buf) || fresh(buf))
      decreases !isCommitted, 4
    {
      hide Put;
      ghost var sent := State().Sent();
      var i := 0;
      while i < |text|
        invariant i <= |text| && Valid() && isCommitted && (buf == old(buf) || fresh(buf))
        invariant State().Sent() == sent + text[..i] && response == old(response) && bufsize == old(bufsize)
      {
        PutSends(State(), text[i]);
        PutKeeps(State(), text[i]);
        var ok := WriteByte(text[i]);
        assert ok;
        assert text[..i + 1] == text[..i] + [text[i]];
        i := i + 1;
      }
      assert text[..i] == text;
    }

    method Println(line: Line)
      requires Valid() && isCommitted
      modifies this`bufused, this`isCommitted, this`buf, this`wire, buf
      ensures Printed(line + END_OF_LINE) && (buf == old(buf) || fresh(buf))
      decreases !isCommitted, 5
    {
      ghost var sent := State().Sent();
      Print(line);
      Print(END_OF_LINE);
      ConcatAssoc(sent, line, END_OF_LINE);
    }

    method PrintLines(lines: seq<Line>)
      requires Valid() && isCommitted
      modifies this`bufused, this`isCommitted, this`buf, this`wire, buf
      ensures Printed(Terminated(lines)) && (buf == old(buf) || fresh(buf))
      decreases !isCommitted, 6
    {
      ghost var sent := State().Sent();
      var i := 0;
      while i < |lines|
        invariant i <= |lines| && Valid() && isCommitted && (buf == old(buf) || fresh(buf))
        invariant State().Sent() + Terminated(lines[i..]) == sent + Terminated(lines)
        invariant response == old(response) && bufsize == old(bufsize)
      {
        assert lines[i..][1..] == lines[i + 1..];
        ConcatAssoc(State().Sent(), lines[i] + END_OF_LINE, Terminated(lines[i + 1..]));
        Println(lines[i]);
        i := i + 1;
      }
    }

    /** ServletResponse.commitRequest. */
    method CommitRequest()
      requires Valid() && isCommitted
      modifies this`bufused, this`isCommitted, this`buf, this`wire, buf
      ensures Printed(HeaderOf(response)) && (buf == old(buf) || fresh(buf))
      decreases !isCommitted, 7
    {
      hide Terminated, StoredLines;
      var r := response;
      ghost var sent, done := State().Sent(), [StatusLine(r)] + TypeLines(r) + LengthLines(r);
      PrintFirstLines();
      ghost var all := done + StoredLines(r.headers);
      var i := 0;
      NoMoreLines(r, done);
      while i < |r.headers|
        invariant i <= |r.headers| && Valid() && isCommitted && (buf == old(buf) || fresh(buf))
        invariant State().Sent() == sent + Terminated(done) && done + StoredLines(r.headers[i..]) == all
        invariant response == r && bufsize == old(bufsize)
      {
        var lines := r.headers[i].lines;
        StoredLinesAt(r.headers, i, done);
        PrintLines(lines);
        LinesDone(sent, done, lines);
        done := done + lines;
        i := i + 1;
      }
      NoMoreLines(r, done);
      ConcatAssoc(sent, Terminated(all), END_OF_LINE);
      Print(END_OF_LINE);
      if r.message != None {
        ConcatAssoc(sent, Terminated(all) + END_OF_LINE, r.message.value);
        Print(r.message.value);
      } else {
        assert HeaderOf(r) == Terminated(all) + END_OF_LINE;
      }
    }

    method PrintFirstLines()
      requires Valid() && isCommitted
      modifies this`bufused, this`isCommitted, this`buf, this`wire, buf
      ensures Printed(Terminated([StatusLine(response)] + TypeLines(response) + LengthLines(response)))
      ensures buf == old(buf) || fresh(buf)
      decreases !isCommitted, 6
    {
      hide Terminated, Ascii, StatusLine, Stream.Sent;
      ghost var sent := State().Sent();
      var r := response;
      Println(StatusLine(r));
      ghost var done := [StatusLine(r)];
      LinesDone(sent, [], done);
      OneLine(StatusLine(r));
      if !ContainsHeader(r, Ascii("content-type")) {
        var line := Ascii("Content-Type: ") + r.contentType;
        Println(line);
        OneLine(line);
        LinesDone(sent, done, [line]);
        done := done + [line];
      }
      assert done == [StatusLine(r)] + TypeLines(r);
      if r.contentLength != None && !ContainsHeader(r, Ascii("content-length")) {
        var line := Ascii("Content-Length: ") + r.contentLength.value;
        Println(line);
        OneLine(line);
        LinesDone(sent, done, [line]);
        done := done + [line];
      }
      assert done == [StatusLine(r)] + TypeLines(r) + LengthLines(r);
    }

    method Close()
      requires Shaped()
      modifies this, buf
      ensures Valid() && closed && State() == Flushed(old(State())) && wire == old(State()).Sent()
    {
      Flush();
      LowClose();
    }

    method SetBufferSize(size: int) returns (ok: bool)
      requires Shaped()
      modifies this`buf, this`bufsize
      ensures Shaped() && Outcome(State(), !ok) == Resized(old(State()), size)
    {
      ok := true;
      if size < 0 {
        return;
      }
      if bufused == 0 {
        buf := new Byte[if bufsize == 0 then 1 else bufsize];
        return;
      }
      if size > bufsize {
        var newbuf := new Byte[size];
        if bufused > size {
          return false;
        }
        forall i | 0 <= i < bufused {
          newbuf[i] := buf[i];
        }
        assert newbuf[..bufused] == buf[..bufused];
        buf := newbuf;
      } else {
        bufsize := size;
      }
    }

    /** Also after a write that threw, a reset before the commit leaves an empty buffer. */
    method Reset() returns (ok: bool)
      requires 0 < buf.Length && bufsize <= buf.Length && (!isCommitted ==> wire == [])
      modifies this`bufused
      ensures old(Shaped()) ==> Shaped() && Outcome(State(), !ok) == Discarded(old(State()))
      ensures ok == !isCommitted
      ensures if ok then Valid() && State() == Stream(HeaderOf(response), false, [], [], bufsize, buf.Length)
              else bufused == old(bufused)
    {
      if isCommitted {
        return false;
      }
      bufused := 0;
      ok := true;
    }
  }

  lemma AcrossIs(s: Stream, data: seq<Byte>, first: nat)
    requires 0 < |data| < s.size < |s.pending| + |data|
    requires first == if |s.pending| < s.size then s.size - |s.pending| else 0
    ensures PutAll(s, data) == Flushed(s.(pending := s.pending + data[..first])).(pending := data[first..])
  {}

  lemma SplitRange(b: seq<Byte>, offs: nat, first: nat, len: nat)
    requires first <= len && offs + len <= |b|
    ensures var data := b[offs..offs + len];
      b[offs..offs + first] == data[..first] && b[offs + first..offs + len] == data[first..]
  {}

  lemma PutKeeps(s: Stream, b: int)
    ensures var t := Put(s, b).stream; t.size == s.size && t.header == s.header && (s.committed ==> t.committed)
  {}

  lemma OneLine(line: Line)
    ensures Terminated([]) == [] && Terminated([line]) == line + END_OF_LINE
  {
    assert [line][1..] == [];
  }

  lemma LinesDone(sent: seq<Byte>, done: seq<Line>, lines: seq<Line>)
    ensures sent + Terminated(done) + Terminated(lines) == sent + Terminated(done + lines)
  {
    hide Terminated;
    TerminatedConcat(done, lines);
    ConcatAssoc(sent, Terminated(done), Terminated(lines));
  }

  lemma StoredLinesAt(headers: seq<Field>, i: nat, done: seq<Line>)
    requires i < |headers|
    ensures done + StoredLines(headers[i..]) == done + headers[i].lines + StoredLines(headers[i + 1..])
  {
    assert headers[i..][1..] == headers[i + 1..];
    ConcatAssoc(done, headers[i].lines, StoredLines(headers[i + 1..]));
  }

  lemma NoMoreLines(r: Response, done: seq<Line>)
    ensures r.headers[0..] == r.headers && done + StoredLines(r.headers[|r.headers|..]) == done
  {}
}
