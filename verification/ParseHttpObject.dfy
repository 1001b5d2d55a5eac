/** The request parser as it runs: a buffer of fixed size that is filled, decoded and
    lowered in place, and two maps that it fills. */
module ParseHttpObject {
  import opened Basics
  import opened Bytes
  import opened UrlCodec
  import opened ParseHttp
  import opened HttpRequest

  const BUFSIZE_MIN := 100
  const BUFSIZE_MAX := 1024 * 1024

  /// Work on the buffer
  /// ------------------

  method FindByte(a: array<Byte>, i: nat, end: nat, b: Byte, c: Byte) returns (k: nat)
    requires i <= end <= a.Length
    ensures k == FindEither(a[..end], i, b, c)
  {
    k := i;
    while k < end && a[k] != b && a[k] != c
      invariant i <= k <= end
      invariant forall j :: i <= j < k ==> a[j] != b && a[j] != c
    {
      k := k + 1;
    }
    FindIs(a[..end], i, b, c, k);
  }

  method CharPieceAt(a: array<Byte>, ptr: nat, end: nat) returns (piece: Piece)
    requires ptr < end <= a.Length && a[ptr] != QUESTION
    ensures piece == CharPiece(a[ptr..end])
  {
    if a[ptr] == PERCENT {
      if ptr < end - 2 {
        piece := Piece(HexByte(a[ptr + 1], a[ptr + 2]), 3);
      } else {
        piece := Piece(NUL, 3);
      }
    } else {
      piece := Piece(a[ptr], 1);
    }
  }

  lemma RewriteLast(d: Bytestring, u: nat, done: Bytestring)
    requires u + |done| < |d|
    ensures Rewritten(d, u, done)[u + |done| := NUL] == UrlDecoded(d, u, done)
  {}

  /** Decodes the URL of `len` bytes at `u` in place and puts a NUL after it; `query` is where the query begins. */
  method CharDecodeUrl(a: array<Byte>, u: nat, len: nat) returns (query: Option<nat>)
    requires u + len < a.Length
    modifies a
    ensures var loc := CharDecode(old(a[u..u + len]));
      && a[..] == UrlDecoded(old(a[..]), u, loc.file)
      && query.Some? == loc.query.Some?
      && (query.Some? ==> u <= query.value <= u + len && a[query.value..u + len] == loc.query.value)
  {
    hide CharDecode, CharPiece, Rewritten, UrlDecoded;
    var ptr, end := u, u + len;
    ghost var d, rest, done := a[..], a[u..end], [];
    ghost var loc := CharDecode(rest);
    RewriteNone(d, u);
    DecodeNothing();
    var i := u;
    while ptr < end
      invariant u <= i <= ptr && i <= end && |done| == i - u
      invariant rest == (if ptr < end then d[ptr..end] else [])
      invariant a[..] == Rewritten(d, u, done)
      invariant loc == CharDecode(rest).(file := done + CharDecode(rest).file)
      decreases end - ptr
    {
      RewrittenTail(d, u, done, ptr, end);
      assert a[ptr..end] == a[..][ptr..end] == rest;
      assert a[ptr] == rest[0];
      if a[ptr] == QUESTION {
        DecodeQuestion(rest);
        RewriteLast(d, u, done);
        assert done + [] == done;
        a[i] := NUL;
        assert a[ptr + 1..end] == rest[1..];
        return Some(ptr + 1);
      }
      var piece := CharPieceAt(a, ptr, end);
      DecodePiece(done, rest);
      RewriteNext(d, u, done, piece.byte);
      a[i] := piece.byte;
      done, rest := done + [piece.byte], Drop(rest, piece.used);
      ptr, i := ptr + piece.used, i + 1;
    }
    RewriteLast(d, u, done);
    assert done + [] == done;
    a[i] := NUL;
    query := None;
  }

  lemma DecodeNothing()
    ensures CharDecode([]) == Location([], None)
  {}

  lemma DecodeQuestion(rest: Bytestring)
    requires rest != [] && rest[0] == QUESTION
    ensures CharDecode(rest) == Location([], Some(rest[1..]))
  {}

  lemma DecodePiece(done: Bytestring, rest: Bytestring)
    requires rest != [] && rest[0] != QUESTION
    ensures var p := CharPiece(rest); var tail := CharDecode(Drop(rest, p.used));
      CharDecode(rest).(file := done + CharDecode(rest).file) == tail.(file := done + [p.byte] + tail.file)
  {
    var p := CharPiece(rest);
    ConcatAssoc(done, [p.byte], CharDecode(Drop(rest, p.used)).file);
  }

  // The value after the colon at `i`: where it begins, where it ends, and where the next line begins.
  method HeaderValue(a: array<Byte>, i: nat, e: nat) returns (start: nat, j: nat, next: nat)
    requires i + 1 < e < a.Length && a[e - 1] == LF
    ensures i < start <= j < e
    ensures (forall k :: i < k < start ==> a[k] == SPACE) && a[start] != SPACE
    ensures (forall k :: start <= k < j ==> a[k] != LF && a[k] != CR) && (a[j] == LF || a[j] == CR)
    ensures next == if a[j + 1] == LF then j + 2 else j + 1
  {
    start := i + 1;
    while a[start] == SPACE
      invariant i < start < e
      invariant forall k :: i < k < start ==> a[k] == SPACE
      decreases e - start
    {
      start := start + 1;
    }
    j := start;
    while j < e && a[j] != LF && a[j] != CR
      invariant start <= j < e
      invariant forall k :: start <= k < j ==> a[k] != LF && a[k] != CR
    {
      j := j + 1;
    }
    next := if a[j + 1] == LF then j + 2 else j + 1;
  }

  // The buffer `d` while the names in the section up to `os` and the bytes from there to `i` have been lowered.
  ghost predicate Lowered(a: Bytestring, d: Bytestring, h: nat, os: nat, i: nat, e: nat)
    requires h <= os <= i <= e <= |d| == |a|
  {
    && a[os..i] == Lower(d[os..i])
    && a[i..] == d[i..]
    && (e < |d| ==> a[..os] + HeaderBytes(d[os..e], d[e]) == d[..h] + HeaderBytes(d[h..e], d[e]))
  }

  lemma LowerNext(a: Bytestring, d: Bytestring, h: nat, os: nat, i: nat, e: nat)
    requires h <= os <= i < e <= |d| == |a| && Lowered(a, d, h, os, i, e)
    ensures Lowered(a[i := LowerByte(a[i])], d, h, os, i + 1, e)
  {
    hide HeaderBytes;
    var b := a[i := LowerByte(a[i])];
    assert a[i] == a[i..][0] == d[i..][0];
    assert b[os..i + 1] == a[os..i] + [LowerByte(d[i])] == Lower(d[os..i + 1]);
    assert b[i + 1..] == a[i..][1..] == d[i..][1..];
    assert b[..os] == a[..os];
  }

  lemma TakeSlice(d: Bytestring, n: nat, x: nat, y: nat)
    requires x <= y <= n <= |d|
    ensures d[..n][x..y] == d[x..y]
  {
    SliceOfSlice(d, 0, n, x, y);
    assert d[0..n] == d[..n];
  }

  lemma SliceOfSlice(d: Bytestring, os: nat, e: nat, x: nat, y: nat)
    requires os <= x <= y <= e <= |d|
    ensures d[os..e][x - os..y - os] == d[x..y]
  {
    var t := d[os..e];
    forall k | 0 <= k < y - x ensures t[x - os..y - os][k] == d[x..y][k] {
      assert t[x - os..y - os][k] == t[x - os + k];
    }
  }

  // The buffer up to `k`, past the colon at `i`: what was done before the section, the name in lower case,
  // the rest as it was.
  lemma UpToNext(a: Bytestring, d: Bytestring, h: nat, os: nat, i: nat, e: nat, k: nat)
    requires h <= os <= i < e < |d| == |a| && Lowered(a, d, h, os, i, e) && i <= k <= e
    ensures a[..k] == a[..os] + (Lower(d[os..e][..i - os]) + d[os..e][i - os..k - os]) && a[k..] == d[k..]
  {
    hide HeaderBytes;
    LoweredRest(a, d, h, os, i, e);
    SliceOfSlice(d, os, e, os, i);
    SliceOfSlice(d, os, e, i, k);
    assert a[i..k] == d[i..k];
  }

  // A header whose colon is at `i` is done, and the next line begins at `next`.
  lemma HeaderDone(a: Bytestring, d: Bytestring, h: nat, os: nat, i: nat, e: nat, next: nat)
    requires h <= os <= i < e < |d| == |a| && Lowered(a, d, h, os, i, e) && i < next
    requires FirstColon(d[os..e]) == i - os && NextLine(d[os..e], i - os, d[e]) == next - os
    ensures next <= e ==> Lowered(a, d, h, next, next, e)
    ensures next > e ==> a == d[..h] + HeaderBytes(d[h..e], d[e]) + d[e..]
  {
    if next < e {
      NextHeader(a, d, h, os, i, e, next);
    } else {
      LastHeader(a, d, h, os, i, e);
      assert d[e..e] == [];
      NoHeaderBytes(d[e]);
      LowerNone(a[e..e], d[e..e]);
    }
  }

  lemma HeaderBytesStep(t: Bytestring, after: Byte)
    requires FirstColon(t) < |t| && NextLine(t, FirstColon(t), after) < |t|
    ensures var c := FirstColon(t); var n := NextLine(t, c, after);
      HeaderBytes(t, after) == Lower(t[..c]) + t[c..n] + HeaderBytes(t[n..], after)
  {}

  lemma NextHeader(a: Bytestring, d: Bytestring, h: nat, os: nat, i: nat, e: nat, next: nat)
    requires h <= os <= i < next < e < |d| == |a| && Lowered(a, d, h, os, i, e)
    requires FirstColon(d[os..e]) == i - os && NextLine(d[os..e], i - os, d[e]) == next - os
    ensures Lowered(a, d, h, next, next, e)
  {
    hide FirstColon, NextLine, Lower, HeaderBytes;
    var t, c, n := d[os..e], i - os, next - os;
    HeaderBytesStep(t, d[e]);
    UpToNext(a, d, h, os, i, e, next);
    SliceOfSlice(d, os, e, next, e);
    assert t[n..] == t[n..|t|];
    ConcatAssoc(a[..os], Lower(t[..c]) + t[c..n], HeaderBytes(t[n..], d[e]));
    LowerNone(a[next..next], d[next..next]);
  }

  lemma LastHeader(a: Bytestring, d: Bytestring, h: nat, os: nat, i: nat, e: nat)
    requires h <= os <= i < e < |d| == |a| && Lowered(a, d, h, os, i, e)
    requires FirstColon(d[os..e]) == i - os && NextLine(d[os..e], i - os, d[e]) >= |d[os..e]|
    ensures a[..e] == d[..h] + HeaderBytes(d[h..e], d[e]) && a[e..] == d[e..]
    ensures a == d[..h] + HeaderBytes(d[h..e], d[e]) + d[e..]
  {
    hide FirstColon, NextLine, Lower;
    var t, c := d[os..e], i - os;
    UpToNext(a, d, h, os, i, e, e);
    assert t[c..|t|] == t[c..];
    assert a == a[..e] + a[e..];
  }

  lemma LowerNone(a: Bytestring, d: Bytestring)
    requires |a| == |d| == 0
    ensures a == Lower(d)
  {}

  lemma NoHeaderBytes(after: Byte)
    ensures HeaderBytes([], after) == []
  {}

  // Nothing but names without colons is left.
  lemma HeadersDone(a: Bytestring, d: Bytestring, h: nat, os: nat, e: nat, hs: Headers)
    requires h <= os <= e < |d| == |a| && Lowered(a, d, h, os, e, e)
    requires forall k :: os <= k < e ==> d[k] != COLON
    ensures HeadersOf(d[os..e], d[e], hs) == hs
    ensures a == d[..h] + HeaderBytes(d[h..e], d[e]) + d[e..]
  {
    var t := d[os..e];
    FindIs(t, 0, COLON, COLON, |t|);
    assert a == a[..os] + a[os..e] + a[e..];
  }

  method LowerInPlace(a: array<Byte>, i: nat)
    requires i < a.Length
    modifies a
    ensures a[..] == old(a[..])[i := LowerByte(old(a[i]))]
  {
    if 65 <= a[i] <= 90 {
      a[i] := a[i] + 32;
    }
  }

  // The header whose colon is at `i`: it is added, and the next line begins at `next`.
  method ReadHeader(a: array<Byte>, ghost d: Bytestring, ghost h: nat, os: nat, i: nat, e: nat, hs0: Headers)
    returns (hs: Headers, next: nat)
    requires h <= os <= i < e < a.Length == |d| && a[e - 1] == LF && a[i] == COLON
    requires Lowered(a[..], d, h, os, i, e) && forall k :: os <= k < i ==> d[k] != COLON
    ensures i < next <= e + 1
    ensures if next <= e then
        && Lowered(a[..], d, h, next, next, e)
        && HeadersOf(d[next..e], d[e], hs) == HeadersOf(d[os..e], d[e], hs0)
      else hs == HeadersOf(d[os..e], d[e], hs0) && a[..] == d[..h] + HeaderBytes(d[h..e], d[e]) + d[e..]
  {
    hide HeadersOf, HeaderBytes, AddHeader, Lowered, Lower, FirstColon, ValueStart, ValueEnd, NextLine;
    LoweredRest(a[..], d, h, os, i, e);
    ColonNotLast(a, i, e);
    var start, j;
    start, j, next := HeaderValue(a, i, e);
    HeaderFound(d, os, i, e, start, j, next);
    HeaderRead(d, os, i, e, start, j, next, hs0);
    HeaderDone(a[..], d, h, os, i, e, next);
    assert a[start..j] == d[start..j];
    hs := AddHeader(hs0, a[os..i], a[start..j]);
  }

  method ParseHeaderSection(a: array<Byte>, h: nat, e: nat, hs0: Headers) returns (hs: Headers)
    requires h < e < a.Length && a[e - 1] == LF
    modifies a
    ensures hs == HeadersOf(old(a[h..e]), old(a[e]), hs0)
    ensures a[..] == old(a[..h]) + HeaderBytes(old(a[h..e]), old(a[e])) + old(a[e..])
  {
    hide HeadersOf, HeaderBytes, AddHeader, Lowered, Lower, FirstColon, ValueStart, ValueEnd, NextLine;
    ghost var d := a[..];
    ghost var after := d[e];
    hs := hs0;
    var os, i := h, h;
    LoweredNone(d, h, e);
    while i < e
      invariant h <= os <= i <= e + 1
      invariant i <= e ==> Lowered(a[..], d, h, os, i, e)
      invariant i <= e ==> (forall k :: os <= k < i ==> d[k] != COLON)
      invariant i <= e ==> HeadersOf(d[os..e], after, hs) == HeadersOf(d[h..e], after, hs0)
      invariant i > e ==> hs == HeadersOf(d[h..e], after, hs0)
      invariant i > e ==> a[..] == d[..h] + HeaderBytes(d[h..e], after) + d[e..]
    {
      LoweredRest(a[..], d, h, os, i, e);
      if a[i] != COLON {
        LowerNext(a[..], d, h, os, i, e);
        LowerInPlace(a, i);
      } else {
        hs, os := ReadHeader(a, d, h, os, i, e, hs);
        i := os - 1;
      }
      i := i + 1;
    }
    if i == e {
      HeadersDone(a[..], d, h, os, e, hs);
    }
  }

  lemma ColonNotLast(a: array<Byte>, i: nat, e: nat)
    requires i < e <= a.Length && a[e - 1] == LF && a[i] == COLON
    ensures i + 1 < e
  {}

  lemma HeaderFound(d: Bytestring, os: nat, i: nat, e: nat, start: nat, j: nat, next: nat)
    requires os <= i < start <= j < e < |d| && d[i] == COLON && forall k :: os <= k < i ==> d[k] != COLON
    requires (forall k :: i < k < start ==> d[k] == SPACE) && d[start] != SPACE
    requires (forall k :: start <= k < j ==> d[k] != LF && d[k] != CR) && (d[j] == LF || d[j] == CR)
    requires next == if d[j + 1] == LF then j + 2 else j + 1
    ensures var t, c := d[os..e], i - os;
      && FirstColon(t) == c && ValueStart(t, c) == start - os && ValueEnd(t, c) == j - os
      && NextLine(t, c, d[e]) == next - os
  {
    hide FindEither, SkipSpaces;
    HeaderAt(d[os..e], i - os, start - os, j - os, next - os, d[e]);
  }

  lemma HeaderRead(d: Bytestring, os: nat, i: nat, e: nat, start: nat, j: nat, next: nat, hs: Headers)
    requires os <= i < start <= j < e < |d| && i < next
    requires var t, c := d[os..e], i - os;
      && FirstColon(t) == c && ValueStart(t, c) == start - os && ValueEnd(t, c) == j - os
      && NextLine(t, c, d[e]) == next - os
    ensures HeadersOf(d[os..e], d[e], hs)
         == (var g := AddHeader(hs, Lower(d[os..i]), d[start..j]);
             if next <= e then HeadersOf(d[next..e], d[e], g) else g)
  {
    hide AddHeader, Lower, FirstColon, ValueStart, ValueEnd, NextLine;
    var t := d[os..e];
    SliceOfSlice(d, os, e, os, i);
    SliceOfSlice(d, os, e, start, j);
    if next <= e {
      SliceOfSlice(d, os, e, next, e);
      assert Drop(t, next - os) == t[next - os..e - os];
    } else {
      NoHeaders(d[e], AddHeader(hs, Lower(d[os..i]), d[start..j]));
    }
  }

  lemma NoHeaders(after: Byte, hs: Headers)
    ensures HeadersOf([], after, hs) == hs
  {}

  lemma LoweredNone(d: Bytestring, h: nat, e: nat)
    requires h <= e <= |d|
    ensures Lowered(d, d, h, h, h, e)
  {}

  lemma LoweredRest(a: Bytestring, d: Bytestring, h: nat, os: nat, i: nat, e: nat)
    requires h <= os <= i <= e <= |d| == |a| && Lowered(a, d, h, os, i, e)
    ensures a[os..i] == Lower(d[os..i]) && forall k :: i <= k < |a| ==> a[k] == d[k]
  {
    forall k | i <= k < |a| ensures a[k] == d[k] {
      assert a[i..][k - i] == d[i..][k - i];
    }
  }

  /// The parser
  /// ----------

  class ParseHTTP {
    var data: array<Byte>
    var pos: nat
    var free: nat
    var headers: Headers
    var other: Other

    ghost predicate Valid()
      reads this
    {
      pos + free == data.Length && 0 < free
    }

    // The bytes in the buffer.
    ghost function Contents(): Bytestring
      requires Valid()
      reads this, data
    {
      data[..pos]
    }

    constructor (other: Other, headers: Headers, size: nat)
      requires BUFSIZE_MIN <= size <= BUFSIZE_MAX
      ensures Valid() && fresh(data) && Contents() == [] && data.Length == size
      ensures this.other == other && this.headers == headers
    {
      data := new Byte[size](_ => NUL);
      pos, free := 0, size;
      this.other, this.headers := other, headers;
    }

    // The place after the second of two line feeds with only returns between them; 0 if there is none.
    method FindEnd(start: nat, ep: nat) returns (found: bool, pp: nat)
      requires start <= ep <= data.Length
      ensures found == (ScanFrom(data[..ep], start, 0) >= 0)
      ensures found ==> pp == ScanFrom(data[..ep], start, 0) && 2 <= pp <= ep && data[pp - 1] == LF
    {
      var slashN := 0;
      pp := start;
      while pp < ep && slashN < 2
        invariant start <= pp <= ep && 0 <= slashN <= 2
        invariant ScanFrom(data[..ep], pp, slashN) == ScanFrom(data[..ep], start, 0)
        invariant slashN == 1 ==> 1 <= pp
        invariant slashN == 2 ==> 2 <= pp && data[pp - 1] == LF
      {
        if data[pp] == LF {
          slashN := slashN + 1;
        } else if data[pp] != CR {
          slashN := 0;
        }
        pp := pp + 1;
      }
      found := slashN == 2;
    }

    method AppendBytes(str: Bytestring)
      requires Valid() && |str| < free
      modifies this`pos, this`free, data
      ensures Valid() && Contents() == old(Contents()) + str && data[pos] == NUL
    {
      ghost var before := Contents();
      forall k | 0 <= k < |str| {
        data[pos + k] := str[k];
      }
      free := free - |str|;
      pos := pos + |str|;
      data[pos] := NUL;
      assert data[..pos] == before + str;
    }

    // What has been parsed so far.
    ghost function Result(code: int): Parsed
      requires Valid()
      reads this, data
    {
      Parsed(code, other, headers, Contents())
    }

    method ReadHeaders(e: nat, h: nat)
      requires Valid() && h < e <= pos && data[pos] == NUL && data[e - 1] == LF
      modifies this`headers, data
      ensures Valid() && Result(OK) == ParseHeaders(old(Contents()), e, h, other, old(headers))
    {
      hide HeadersOf, HeaderBytes;
      ghost var d := Contents();
      Sections(data[..], pos, h, e);
      assert data[h..e] == data[..][h..e] && data[..h] == data[..][..h] && data[e..] == data[..][e..];
      assert data[e] == if e < |d| then d[e] else NUL;
      ghost var section, after, tail := data[h..e], data[e], data[e..];
      headers := ParseHeaderSection(data, h, e, headers);
      CutTail(d[..h], HeaderBytes(section, after), tail, pos);
      assert Contents() == data[..][..pos];
    }

    // The header section begins at `h`, which may be past its end.
    method AfterProtocol(e: nat, h: nat)
      requires Valid() && e <= pos && data[pos] == NUL && (h < e ==> data[e - 1] == LF)
      modifies this`headers, data
      ensures Valid() && Result(OK) == if h > e then old(Result(OK))
                                       else ParseHeaders(old(Contents()), e, h, other, old(headers))
    {
      hide ParseHeaders;
      if h < e {
        ReadHeaders(e, h);
      } else if h == e {
        NoSection(Contents(), e, other, headers);
      }
    }

    method ReadProtocol(e: nat, p0: nat) returns (code: int)
      requires Valid() && 0 < p0 < e <= pos && data[pos] == NUL && data[e - 1] == LF && data[p0 - 1] != CR
      modifies this`headers, this`other, data
      ensures Valid() && Result(code) == ParseProtocol(old(Contents()), e, p0, old(other), old(headers))
    {
      hide ParseProtocol, ParseHeaders, FindEither, HeaderStart;
      ghost var d := Contents();
      assert data[..e] == d[..e];
      var p := FindByte(data, p0, e, LF, SPACE);
      ProtocolFound(d, e, p0, p, other, headers);
      if data[p] == SPACE {
        return BAD_REQUEST;
      }
      var i := p - p0;
      if data[p - 1] != CR {
        i := i + 1;
      }
      TakeSlice(data[..], pos, p0, p0 + i - 1);
      assert data[p0..p0 + i - 1] == d[p0..p0 + i - 1];
      other := other["protocol" := data[p0..p0 + i - 1]];
      var h := p0 + i;
      if data[h] == LF {
        h := h + 1;
      }
      StartFound(d, data[..], p0, p, h);
      AfterProtocol(e, h);
      code := OK;
    }

    // Decodes the URL between `u0` and `u` and stores the file and the query.
    method ReadLocation(u0: nat, u: nat)
      requires Valid() && u0 <= u < pos && data[u] == SPACE
      modifies this`other, data
      ensures var loc := CharDecode(old(data[u0..u]));
        && Contents() == UrlDecoded(old(Contents()), u0, loc.file)
        && other == WithLocation(old(other), loc)
      ensures data[u] != CR && forall k :: u < k < data.Length ==> data[k] == old(data[k])
    {
      hide CharDecode, UpToNul, UrlDecoded, FindEither;
      ghost var before, loc := data[..], CharDecode(data[u0..u]);
      var query := CharDecodeUrl(data, u0, u - u0);
      ghost var after := data[..];
      DecodedPart(before, pos, u0, loc.file, u);
      assert data[..pos] == after[..pos] && before[..pos] == old(data[..pos]);
      assert after[u] in {NUL, before[u]} && forall k :: u < k < data.Length ==> after[k] == before[k];
      // The file name is the C string at the start of the URL.
      var k := FindByte(data, u0, u + 1, NUL, NUL);
      assert data[..u + 1] == after[..u + 1] && data[u0..k] == after[u0..k];
      FileInPlace(before, u0, loc.file, u + 1, k);
      other := other["file" := data[u0..k]];
      if query.Some? {
        other := other["query" := data[query.value..u]];
      }
    }

    method ReadUrl(e: nat, u0: nat) returns (code: int)
      requires Valid() && u0 < e <= pos && data[pos] == NUL && data[e - 1] == LF
      modifies this`headers, this`other, data
      ensures Valid() && Result(code) == ParseUrl(old(Contents()), e, u0, old(other), old(headers))
    {
      hide ParseProtocol, FindEither, CharDecode, WithLocation, UrlDecoded;
      ghost var d := Contents();
      assert data[..e] == d[..e];
      var u := FindByte(data, u0, e, SPACE, LF);
      if data[u] == LF {
        return BAD_REQUEST;
      }
      TakeSlice(data[..], pos, u0, u);
      other := other["raw_url" := data[u0..u]];
      ReadLocation(u0, u);
      code := ReadProtocol(e, u + 1);
    }

    // The headers end at `e`.
    method ReadRequest(e: nat) returns (code: int)
      requires Valid() && 0 < e <= pos && data[pos] == NUL && data[e - 1] == LF
      modifies this`headers, this`other, data
      ensures Valid() && Result(code) == ParseRequest(old(Contents()), e, old(other), old(headers))
    {
      hide ParseUrl, FindEither;
      ghost var d := Contents();
      assert data[..e] == d[..e] && data[e..pos] == d[e..];
      other := other["data" := data[e..pos]];
      var m := FindByte(data, 0, e, SPACE, LF);
      if data[m] == LF {
        return BAD_REQUEST;
      }
      assert data[..m] == d[..m];
      other := other["method" := data[..m]];
      code := ReadUrl(e, m + 1);
    }

    /** Appends data to the buffer. Returns 413 if it does not fit, 0 while the headers are not
        complete, and then 1 or 400 with the parts of the request in the maps. */
    method Append(str: Bytestring) returns (code: int)
      requires Valid()
      modifies this`pos, this`free, this`headers, this`other, data
      ensures Valid() && pos + free == old(pos + free)
      ensures Result(code) == Appended(old(pos + free), old(Contents()), str, old(other), old(headers))
    {
      hide ParseRequest;
      if |str| >= free {
        return TOO_LARGE;
      }
      var start := if pos < 3 then 0 else pos - 3;
      AppendBytes(str);
      var found, pp := FindEnd(start, pos);
      if !found {
        return MORE_DATA;
      }
      code := ReadRequest(pp);
    }
  }

  lemma Sections(all: Bytestring, pos: nat, h: nat, e: nat)
    requires h <= e <= pos <= |all|
    ensures var d := all[..pos]; all[h..e] == d[h..e] && all[..h] == d[..h] && all[e..][..pos - e] == d[e..]
  {
    var d := all[..pos];
    TakeSlice(all, pos, h, e);
    TakeSlice(all, pos, 0, h);
    SliceOfSlice(all, e, |all|, e, pos);
    TakeSlice(all, pos, e, pos);
    assert d[e..] == d[e..pos];
  }

  // The two outcomes of the protocol line, once its end is found.
  lemma ProtocolFound(d: Bytestring, e: nat, p0: nat, p: nat, other: Other, headers: Headers)
    requires 0 < p0 <= p < e <= |d| && d[p0 - 1] != CR && p == FindEither(d[..e], p0, LF, SPACE)
    ensures d[p] == SPACE ==> ParseProtocol(d, e, p0, other, headers) == Parsed(BAD_REQUEST, other, headers, d)
    ensures d[p] != SPACE ==>
      var o := other["protocol" := if d[p - 1] == CR then d[p0..p - 1] else d[p0..p]];
      var h := HeaderStart(d, p0, p);
      ParseProtocol(d, e, p0, other, headers)
      == if h > e then Parsed(OK, o, headers, d) else ParseHeaders(d, e, h, o, headers)
  {
    hide FindEither, ParseHeaders, HeaderStart;
  }

  // Where the header section begins, found by looking at one byte past the line, in the buffer `all`.
  lemma StartFound(d: Bytestring, all: Bytestring, p0: nat, p: nat, h: nat)
    requires 0 < p0 <= p < |d| < |all| && d == all[..|d|] && all[|d|] != LF && all[p] == LF && all[p0 - 1] != CR
    requires h == if all[p - 1] == CR then p + 1 else if all[p + 1] == LF then p + 2 else p + 1
    ensures h == HeaderStart(d, p0, p)
  {}

  // Decoding a URL changes nothing outside it.
  lemma DecodedPart(d: Bytestring, n: nat, u0: nat, file: Bytestring, u: nat)
    requires u0 + |file| <= u < n < |d|
    ensures UrlDecoded(d, u0, file)[..n] == UrlDecoded(d[..n], u0, file)
    ensures forall k :: u < k < |d| ==> UrlDecoded(d, u0, file)[k] == d[k]
    ensures UrlDecoded(d, u0, file)[u] in {NUL, d[u]}
  {}

  // The first NUL after the start of a decoded URL ends its file name.
  lemma FileInPlace(d: Bytestring, u0: nat, file: Bytestring, end: nat, k: nat)
    requires u0 + |file| < end <= |d| && k == FindEither(UrlDecoded(d, u0, file)[..end], u0, NUL, NUL)
    ensures k <= end && UrlDecoded(d, u0, file)[u0..k] == UpToNul(file)
  {
    var b := UrlDecoded(d, u0, file);
    assert b[u0 + |file|] == NUL;
    assert k <= u0 + |file| by {
      assert b[..end][u0 + |file|] == NUL;
    }
    assert b[u0..u0 + |file|] == file;
    forall j | 0 <= j < k - u0 ensures file[j] != NUL {
      assert file[j] == b[..end][u0 + j];
    }
    assert k < u0 + |file| ==> file[k - u0] == b[..end][k] == NUL;
    UpToNulIs(file, k - u0);
  }

  lemma CutTail(a: Bytestring, b: Bytestring, c: Bytestring, n: nat)
    requires |a| + |b| <= n <= |a| + |b| + |c|
    ensures (a + b + c)[..n] == a + b + c[..n - |a| - |b|]
  {}

  lemma NoSection(d: Bytestring, e: nat, other: Other, headers: Headers)
    requires e <= |d|
    ensures ParseHeaders(d, e, e, other, headers) == Parsed(OK, other, headers, d)
  {
    assert d[e..e] == [];
    NoHeaders(if e < |d| then d[e] else NUL, headers);
    NoHeaderBytes(if e < |d| then d[e] else NUL);
    assert d[..e] + [] == d[..e] && d == d[..e] + d[e..];
  }
}
