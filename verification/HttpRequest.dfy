/** What the request parser makes of a request whose headers have ended. */
module HttpRequest {
  import opened Basics
  import opened Bytes
  import opened UrlCodec
  import opened ParseHttp

  /// Finding things
  /// --------------

  // The first of two bytes at or after `i`, or the end.
  function FindEither(s: Bytestring, i: nat, b: Byte, c: Byte): (k: nat)
    requires i <= |s|
    ensures i <= k <= |s| && (k < |s| ==> s[k] == b || s[k] == c)
    ensures forall j :: i <= j < k ==> s[j] != b && s[j] != c
    decreases |s| - i
  {
    if i < |s| && s[i] != b && s[i] != c then FindEither(s, i + 1, b, c) else i
  }

  function SkipSpaces(s: Bytestring, i: nat): (k: nat)
    requires i <= |s|
    ensures i <= k <= |s| && (k < |s| ==> s[k] != SPACE)
    ensures forall j :: i <= j < k ==> s[j] == SPACE
    decreases |s| - i
  {
    if i < |s| && s[i] == SPACE then SkipSpaces(s, i + 1) else i
  }

  // The section is followed by `after` in the buffer.
  function ByteAt(s: Bytestring, i: nat, after: Byte): Byte
  {
    if i < |s| then s[i] else after
  }

  lemma FindIs(s: Bytestring, i: nat, b: Byte, c: Byte, k: nat)
    requires i <= k <= |s| && (k < |s| ==> s[k] == b || s[k] == c)
    requires forall j :: i <= j < k ==> s[j] != b && s[j] != c
    ensures FindEither(s, i, b, c) == k
    decreases k - i
  {
    if i < k {
      FindIs(s, i + 1, b, c, k);
    }
  }

  lemma SkipIs(s: Bytestring, i: nat, k: nat)
    requires i <= k <= |s| && (k < |s| ==> s[k] != SPACE)
    requires forall j :: i <= j < k ==> s[j] == SPACE
    ensures SkipSpaces(s, i) == k
    decreases k - i
  {
    if i < k {
      SkipIs(s, i + 1, k);
    }
  }

  /// Headers
  /// -------

  /** A repeated header gets its values joined by commas. */
  function AddHeader(hs: Headers, name: Bytestring, value: Bytestring): Headers
  {
    hs[name := if name in hs then hs[name] + ([COMMA] + value) else value]
  }

  // Where the value of a header whose colon is at `i` begins and ends, and where its line ends.
  function ValueStart(s: Bytestring, i: nat): nat
    requires i < |s|
  {
    SkipSpaces(s, i + 1)
  }

  function ValueEnd(s: Bytestring, i: nat): nat
    requires i < |s|
  {
    FindEither(s, ValueStart(s, i), LF, CR)
  }

  function NextLine(s: Bytestring, i: nat, after: Byte): (n: nat)
    requires i < |s|
    ensures i < n
  {
    var j := ValueEnd(s, i);
    if ByteAt(s, j + 1, after) == LF then j + 2 else j + 1
  }

  function FirstColon(s: Bytestring): nat
  {
    FindEither(s, 0, COLON, COLON)
  }

  /** The headers in `s`: a name is everything up to a colon, from the start or from the end of a value. */
  function HeadersOf(s: Bytestring, after: Byte, hs: Headers): Headers
    decreases |s|
  {
    var c := FirstColon(s);
    if c == |s| then hs
    else
      HeadersOf(Drop(s, NextLine(s, c, after)), after,
                AddHeader(hs, Lower(s[..c]), s[ValueStart(s, c)..ValueEnd(s, c)]))
  }

  /** The buffer afterwards: everything that was looked at as part of a name is in lower case. */
  function HeaderBytes(s: Bytestring, after: Byte): (r: Bytestring)
    ensures |r| == |s|
    decreases |s|
  {
    var c := FirstColon(s);
    if c == |s| then Lower(s)
    else
      var n := NextLine(s, c, after);
      if n >= |s| then Lower(s[..c]) + s[c..] else Lower(s[..c]) + s[c..n] + HeaderBytes(s[n..], after)
  }

  // What a colon at `c` means for the headers in `t`.
  lemma HeaderAt(t: Bytestring, c: nat, start: nat, j: nat, next: nat, after: Byte)
    requires c < start <= j < |t| && t[c] == COLON && forall k :: 0 <= k < c ==> t[k] != COLON
    requires (forall k :: c < k < start ==> t[k] == SPACE) && t[start] != SPACE
    requires (forall k :: start <= k < j ==> t[k] != LF && t[k] != CR) && (t[j] == LF || t[j] == CR)
    requires next == if ByteAt(t, j + 1, after) == LF then j + 2 else j + 1
    ensures FirstColon(t) == c && ValueStart(t, c) == start && ValueEnd(t, c) == j && NextLine(t, c, after) == next
  {
    FindIs(t, 0, COLON, COLON, c);
    SkipIs(t, c + 1, start);
    FindIs(t, start, LF, CR, j);
  }

  /// Requests
  /// --------

  // The code, the entries made, and the contents of the buffer.
  datatype Parsed = Parsed(code: int, other: Other, headers: Headers, data: Bytestring)

  // The buffer `d` with the URL at `u` decoded in place and a NUL after it.
  function UrlDecoded(d: Bytestring, u: nat, file: Bytestring): (r: Bytestring)
    requires u + |file| < |d|
    ensures |r| == |d|
  {
    d[..u] + file + [NUL] + d[u + |file| + 1..]
  }

  function WithLocation(other: Other, loc: Location): Other
  {
    var o := other["file" := UpToNul(loc.file)];
    if loc.query.Some? then o["query" := loc.query.value] else o
  }

  // The header section begins after the line of the protocol, which ends at `p`.
  function HeaderStart(d: Bytestring, p0: nat, p: nat): nat
    requires p0 <= p < |d|
  {
    if p0 < p && d[p - 1] == CR then p + 1
    else if p + 1 < |d| && d[p + 1] == LF then p + 2
    else p + 1
  }

  function ParseHeaders(d: Bytestring, e: nat, h: nat, other: Other, headers: Headers): Parsed
    requires h <= e <= |d|
  {
    var after := if e < |d| then d[e] else NUL;
    Parsed(OK, other, HeadersOf(d[h..e], after, headers), d[..h] + HeaderBytes(d[h..e], after) + d[e..])
  }

  // The protocol begins at `p0`.
  function ParseProtocol(d: Bytestring, e: nat, p0: nat, other: Other, headers: Headers): Parsed
    requires p0 <= e <= |d|
  {
    var p := FindEither(d[..e], p0, LF, SPACE);
    if p == e || d[p] == SPACE then Parsed(BAD_REQUEST, other, headers, d)
    else
      var protocol := if p0 < p && d[p - 1] == CR then d[p0..p - 1] else d[p0..p];
      var h := HeaderStart(d, p0, p);
      if h > e then Parsed(OK, other["protocol" := protocol], headers, d)
      else ParseHeaders(d, e, h, other["protocol" := protocol], headers)
  }

  // The URL begins at `u0`.
  function ParseUrl(d: Bytestring, e: nat, u0: nat, other: Other, headers: Headers): Parsed
    requires u0 <= e <= |d|
  {
    var u := FindEither(d[..e], u0, SPACE, LF);
    if u == e || d[u] == LF then Parsed(BAD_REQUEST, other, headers, d)
    else
      var loc := CharDecode(d[u0..u]);
      ParseProtocol(UrlDecoded(d, u0, loc.file), e, u + 1,
                    WithLocation(other["raw_url" := d[u0..u]], loc), headers)
  }

  /** The headers of the bytes `d` end at `e`; the rest is the body. */
  function ParseRequest(d: Bytestring, e: nat, other: Other, headers: Headers): Parsed
    requires e <= |d|
  {
    var o := other["data" := d[e..]];
    var m := FindEither(d[..e], 0, SPACE, LF);
    if m == e || d[m] == LF then Parsed(BAD_REQUEST, o, headers, d)
    else ParseUrl(d, e, m + 1, o["method" := d[..m]], headers)
  }

  /// Appends
  /// -------

  /** One append to a buffer that holds `data`. */
  function Appended(capacity: nat, data: Bytestring, str: Bytestring, other: Other, headers: Headers): Parsed
  {
    if |str| >= capacity - |data| then Parsed(TOO_LARGE, other, headers, data)
    else
      var d := data + str;
      var e := ScanFrom(d, LookBack(|data|), 0);
      if e < 0 then Parsed(MORE_DATA, other, headers, d) else ParseRequest(d, e, other, headers)
  }

  // Appends one after the other, until one does not ask for more.
  function AppendAll(capacity: nat, data: Bytestring, chunks: seq<Bytestring>, other: Other, headers: Headers): Parsed
    decreases |chunks|
  {
    if chunks == [] then Parsed(MORE_DATA, other, headers, data)
    else
      var p := Appended(capacity, data, chunks[0], other, headers);
      if p.code == MORE_DATA then AppendAll(capacity, p.data, chunks[1..], p.other, p.headers) else p
  }

  lemma ParsedCode(d: Bytestring, e: nat, other: Other, headers: Headers)
    requires e <= |d|
    ensures ParseRequest(d, e, other, headers).code in [OK, BAD_REQUEST]
  {
    hide FindEither, CharDecode, WithLocation;
  }

  /** A run of appends parses the request where the delivery of its chunks is complete. */
  lemma {:induction false} AppendsDeliver(capacity: nat, data: Bytestring, chunks: seq<Bytestring>,
                                          other: Other, headers: Headers)
    ensures var p := AppendAll(capacity, data, chunks, other, headers);
      match Deliver(capacity, data, chunks, true)
      case Waiting(d) => p == Parsed(MORE_DATA, other, headers, d)
      case Complete(d, e) => e <= |d| && p == ParseRequest(d, e, other, headers)
      case Refused => p == Parsed(TOO_LARGE, other, headers, p.data)
    decreases |chunks|
  {
    hide ParseRequest;
    if chunks != [] && |chunks[0]| < capacity - |data| {
      var d := data + chunks[0];
      var e := ScanFrom(d, LookBack(|data|), 0);
      if e < 0 {
        AppendsDeliver(capacity, d, chunks[1..], other, headers);
      } else {
        ParsedCode(d, e, other, headers);
      }
    }
  }

  /** If the first end of the headers at `e` has at most two returns, any run of appends that fit asks for more
      until `e` has arrived, and then does what one append of the bytes received so far does to a fresh parser. */
  lemma AppendsAreOneAppend(capacity: nat, chunks: seq<Bytestring>, e: nat, other: Other, headers: Headers)
    requires |Concat(chunks)| < capacity && IsFirstEnd(Concat(chunks), e) && IsClose(Concat(chunks), e)
    ensures var p := AppendAll(capacity, [], chunks, other, headers);
      && p.code != MORE_DATA
      && exists n: nat :: IsArrival(chunks, n, e) && p == Appended(capacity, [], Concat(chunks[..n]), other, headers)
  {
    hide ParseRequest, IsClose, IsFirstEnd, IsArrival, Appended;
    var d := Concat(chunks);
    assert [] + d == d;
    ChunkIndependence(d);
    FirstEndIsScan(d);
    AppendsDeliver(capacity, [], chunks, other, headers);
    CompleteIsOneAppend(capacity, [], chunks);
    var n := DeliverAt(capacity, [], chunks, d, e);
    var received := Concat(chunks[..n]);
    assert [] + received == received;
    Arrived(chunks, n, e);
    OneAppend(capacity, received, e, other, headers);
  }

  // The first `n` chunks are the fewest that reach `e`.
  ghost predicate IsArrival(chunks: seq<Bytestring>, n: nat, e: nat)
  {
    n <= |chunks| && e <= |Concat(chunks[..n])| && forall m: nat :: m < n ==> |Concat(chunks[..m])| < e
  }

  lemma Arrived(chunks: seq<Bytestring>, n: nat, e: nat)
    requires n <= |chunks| && e <= |Concat(chunks[..n])| && forall m: nat :: m < n ==> |Concat(chunks[..m])| < e
    ensures IsArrival(chunks, n, e)
  {}

  /** Without an end of the headers, a run of appends that fit asks for more. */
  lemma AppendsWait(capacity: nat, chunks: seq<Bytestring>, other: Other, headers: Headers)
    requires |Concat(chunks)| < capacity && !exists e: nat :: IsFirstEnd(Concat(chunks), e)
    ensures AppendAll(capacity, [], chunks, other, headers) == Parsed(MORE_DATA, other, headers, Concat(chunks))
  {
    hide IsFirstEnd;
    var d := Concat(chunks);
    assert [] + d == d;
    FirstEndIsScan(d);
    ChunkIndependence(d);
    AppendsDeliver(capacity, [], chunks, other, headers);
    DeliverNothing(capacity, [], chunks, d);
  }

  lemma NoEndNoScan(data: Bytestring, str: Bytestring, rest: Bytestring)
    requires !exists e: nat :: IsEnd(data + str + rest, e)
    ensures ScanFrom(data + str, LookBack(|data|), 0) < 0
  {
    var d, lo := data + str, LookBack(|data|);
    ScanFinds(d, lo, lo, 0);
    var e := ScanFrom(d, lo, 0);
    if e >= 0 {
      var a: nat :| lo <= a && IsEndFrom(d, a, e);
      assert d + rest == data + str + rest;
      assert forall k :: 0 <= k < |d| ==> (d + rest)[k] == d[k];
      assert IsEndFrom(d + rest, a, e);
      assert IsEnd(d + rest, e);
    }
  }

  /** Without an end of the headers, appends are refused with 413 exactly when the bytes do not leave one byte of the
      buffer free; until then they ask for more. */
  lemma {:induction false} RefusedExactly(capacity: nat, data: Bytestring, chunks: seq<Bytestring>,
                                          other: Other, headers: Headers)
    requires |data| < capacity && !exists e: nat :: IsEnd(data + Concat(chunks), e)
    ensures AppendAll(capacity, data, chunks, other, headers).code
         == if |data| + |Concat(chunks)| < capacity then 0 else 413
    decreases |chunks|
  {
    hide ParseRequest, IsEnd;
    if chunks != [] {
      var d, rest := data + chunks[0], Concat(chunks[1..]);
      ConcatAssoc(data, chunks[0], rest);
      assert data + Concat(chunks) == d + rest;
      if |d| < capacity {
        NoEndNoScan(data, chunks[0], rest);
        RefusedExactly(capacity, d, chunks[1..], other, headers);
      }
    }
  }

  // One append of bytes in which the headers are complete.
  lemma OneAppend(capacity: nat, d: Bytestring, e: nat, other: Other, headers: Headers)
    requires e <= |d| && Deliver(capacity, [], [d], true) == Complete(d, e)
    ensures Appended(capacity, [], d, other, headers) == ParseRequest(d, e, other, headers)
    ensures ParseRequest(d, e, other, headers).code != MORE_DATA
  {
    hide ParseRequest;
    assert [] + d == d && [d][1..] == [];
    ParsedCode(d, e, other, headers);
  }

  // The delivery is complete with the first chunk that reaches the end of the headers.
  lemma {:induction false} DeliverAt(capacity: nat, data: Bytestring, chunks: seq<Bytestring>, d: Bytestring, e: nat)
    returns (n: nat)
    requires d == data + Concat(chunks) && |d| < capacity
    requires ScanFrom(data, 0, 0) < 0 && ScanFrom(d, 0, 0) == e
    ensures n <= |chunks| && Deliver(capacity, data, chunks, false) == Complete(data + Concat(chunks[..n]), e)
    ensures e <= |data| + |Concat(chunks[..n])| && forall m: nat :: m < n ==> |data| + |Concat(chunks[..m])| < e
    decreases |chunks|
  {
    hide Concat, ScanFrom;
    NoChunks(chunks, data, d);
    var next := data + chunks[0];
    ConcatFirst(chunks, data);
    assert next == d[..|next|] && data == d[..|data|];
    ScanPrefix(d, |next|, 0, 0);
    ScanPrefix(d, |data|, 0, 0);
    if ScanFrom(next, 0, 0) < 0 {
      var k := DeliverAt(capacity, next, chunks[1..], d, e);
      n := k + 1;
      ConcatTake(chunks, n);
      ConcatAssoc(data, chunks[0], Concat(chunks[1..][..k]));
      forall m: nat | m < n ensures |data| + |Concat(chunks[..m])| < e {
        TakeNone(chunks);
        if m > 0 {
          ConcatTake(chunks, m);
          assert |next| + |Concat(chunks[1..][..m - 1])| < e;
        }
      }
    } else {
      n := 1;
      ConcatTake(chunks, 1);
      TakeNone(chunks);
      TakeNone(chunks[1..]);
      assert chunks[0] + [] == chunks[0];
    }
  }

  lemma NoChunks(chunks: seq<Bytestring>, data: Bytestring, d: Bytestring)
    requires d == data + Concat(chunks) && d != data
    ensures chunks != []
  {}

  lemma ConcatFirst(chunks: seq<Bytestring>, data: Bytestring)
    requires chunks != []
    ensures data + chunks[0] + Concat(chunks[1..]) == data + Concat(chunks)
  {
    ConcatAssoc(data, chunks[0], Concat(chunks[1..]));
  }

  lemma ConcatTake(chunks: seq<Bytestring>, m: nat)
    requires 0 < m <= |chunks|
    ensures Concat(chunks[..m]) == chunks[0] + Concat(chunks[1..][..m - 1])
  {
    assert chunks[..m][1..] == chunks[1..][..m - 1];
  }

  lemma TakeNone(chunks: seq<Bytestring>)
    ensures Concat(chunks[..0]) == []
  {}

  lemma {:induction false} DeliverNothing(capacity: nat, data: Bytestring, chunks: seq<Bytestring>, d: Bytestring)
    requires d == data + Concat(chunks) && |d| < capacity && ScanFrom(d, 0, 0) < 0
    ensures Deliver(capacity, data, chunks, false) == Waiting(d)
    decreases |chunks|
  {
    assert chunks == [] ==> d == data;
    if chunks != [] {
      var next := data + chunks[0];
      assert next + Concat(chunks[1..]) == d && next == d[..|next|];
      ScanPrefix(d, |next|, 0, 0);
      DeliverNothing(capacity, next, chunks[1..], d);
    }
  }

  /// What is written can be read
  /// ---------------------------

  const CRLF: Bytestring := [CR, LF]

  datatype Header = Header(name: Bytestring, value: Bytestring)
  datatype Request = Request(verb: Bytestring, url: Bytestring, protocol: Bytestring,
                             headers: seq<Header>, body: Bytestring)

  ghost predicate IsWord(s: Bytestring)
  {
    SPACE !in s && LF !in s
  }

  // A value may begin with spaces, which are not part of what is read.
  ghost predicate IsHeader(h: Header)
  {
    COLON !in h.name && LF !in h.name && LF !in h.value && CR !in h.value
  }

  ghost predicate IsRequest(r: Request)
  {
    IsWord(r.verb) && IsWord(r.url) && IsWord(r.protocol) && forall h <- r.headers :: IsHeader(h)
  }

  function HeaderText(h: Header): Bytestring
  {
    h.name + ([COLON] + (h.value + CRLF))
  }

  function HeadersText(hs: seq<Header>): Bytestring
  {
    if hs == [] then [] else HeaderText(hs[0]) + HeadersText(hs[1..])
  }

  function RequestLine(r: Request): Bytestring
  {
    r.verb + ([SPACE] + (r.url + ([SPACE] + (r.protocol + CRLF))))
  }

  function Head(r: Request): Bytestring
  {
    RequestLine(r) + (HeadersText(r.headers) + CRLF)
  }

  function Text(r: Request): Bytestring
  {
    Head(r) + r.body
  }

  function WithoutSpaces(s: Bytestring): Bytestring
  {
    s[SkipSpaces(s, 0)..]
  }

  /** The headers are added in order under their lower-case names, without leading spaces. */
  function AddHeaders(m: Headers, hs: seq<Header>): Headers
    decreases |hs|
  {
    if hs == [] then m else AddHeaders(AddHeader(m, Lower(hs[0].name), WithoutSpaces(hs[0].value)), hs[1..])
  }

  /// The end of the headers
  /// ----------------------

  ghost predicate AllCr(s: Bytestring)
  {
    forall i :: 0 <= i < |s| ==> s[i] == CR
  }

  lemma AllCrFirst(s: Bytestring)
    requires s != []
    ensures AllCr(s) <==> s[0] == CR && AllCr(s[1..])
  {
    assert s == [s[0]] + s[1..];
    assert AllCr(s) ==> forall i :: 0 <= i < |s[1..]| ==> s[1..][i] == s[i + 1];
  }

  // The scan passes bytes that are not line feeds, and forgets a line feed unless they are all returns.
  lemma {:induction false} ScanNoLf(d: Bytestring, i: nat, k: nat, n: nat)
    requires i <= k <= |d| && n <= 1 && LF !in d[i..k]
    ensures ScanFrom(d, i, n) == ScanFrom(d, k, if AllCr(d[i..k]) then n else 0)
    decreases k - i
  {
    if i < k {
      assert d[i..k][0] == d[i] && d[i..k][1..] == d[i + 1..k];
      AllCrFirst(d[i..k]);
      ScanNoLf(d, i + 1, k, Counted(n, d[i]));
    }
  }

  // The text `a + b` at `i` is `a` at `i` and `b` after it.
  lemma SplitAt(d: Bytestring, i: nat, a: Bytestring, b: Bytestring)
    requires i <= |d| && a + b <= d[i..]
    ensures i + |a| <= |d| && a <= d[i..] && b <= d[i + |a|..]
  {
    assert a == (a + b)[..|a|] && b == (a + b)[|a|..];
    assert d[i..][|a|..] == d[i + |a|..];
  }

  // A line with something in it.
  lemma ScanLine(d: Bytestring, i: nat, line: Bytestring, n: nat)
    requires i <= |d| && line + CRLF <= d[i..]
    requires LF !in line && !AllCr(line) && n <= 1
    ensures i + |line| + 2 <= |d| && ScanFrom(d, i, n) == ScanFrom(d, i + |line| + 2, 1)
  {
    var k := i + |line|;
    SplitAt(d, i, line, CRLF);
    assert d[i..k] == line;
    assert d[k] == CRLF[0] && d[k + 1] == CRLF[1];
    ScanNoLf(d, i, k, n);
  }

  lemma {:induction false} ScanHeaders(d: Bytestring, i: nat, hs: seq<Header>)
    requires i <= |d| && HeadersText(hs) + CRLF <= d[i..]
    requires forall h <- hs :: IsHeader(h)
    ensures ScanFrom(d, i, 1) == i + |HeadersText(hs)| + 2
    decreases |hs|
  {
    if hs == [] {
      assert HeadersText(hs) + CRLF == CRLF;
      assert d[i] == CRLF[0] && d[i + 1] == CRLF[1];
      assert ScanFrom(d, i + 1, 1) == ScanFrom(d, i + 2, 2);
    } else {
      hide HeaderText, IsHeader;
      var t, rest := HeaderText(hs[0]), HeadersText(hs[1..]) + CRLF;
      assert hs[0] in hs;
      var line := LineOfHeader(hs[0]);
      assert HeadersText(hs) + CRLF == t + rest;
      SplitAt(d, i, t, rest);
      ScanLine(d, i, line, 1);
      ScanHeaders(d, i + |t|, hs[1..]);
    }
  }

  lemma LineOfHeader(h: Header) returns (line: Bytestring)
    requires IsHeader(h)
    ensures HeaderText(h) == line + CRLF && LF !in line && !AllCr(line)
  {
    line := h.name + [COLON] + h.value;
    assert line[|h.name|] == COLON;
  }

  lemma LineOfRequest(r: Request) returns (line: Bytestring)
    requires IsRequest(r)
    ensures RequestLine(r) == line + CRLF && LF !in line && !AllCr(line)
  {
    line := r.verb + [SPACE] + r.url + [SPACE] + r.protocol;
    assert line[|r.verb|] == SPACE;
  }

  /** The first end of the headers of a written request is where its body begins. */
  lemma EndOfText(r: Request)
    requires IsRequest(r)
    ensures ScanFrom(Text(r), 0, 0) == |Head(r)|
  {
    hide RequestLine;
    var d := Text(r);
    var line := LineOfRequest(r);
    var tail := HeadersText(r.headers) + CRLF;
    assert Text(r) == RequestLine(r) + tail + r.body && d[0..] == d;
    assert RequestLine(r) + tail <= d[0..];
    SplitAt(d, 0, RequestLine(r), tail);
    ScanLine(d, 0, line, 0);
    ScanHeaders(d, |line| + 2, r.headers);
  }

  /// What is read from a written request
  /// -----------------------------------

  lemma HeadersOfText(hs: seq<Header>, after: Byte, m: Headers)
    requires forall h <- hs :: IsHeader(h)
    ensures HeadersOf(HeadersText(hs) + CRLF, after, m) == AddHeaders(m, hs)
    decreases |hs|
  {
    if hs == [] {
      assert HeadersText(hs) + CRLF == CRLF;
      FindIs(CRLF, 0, COLON, COLON, 2);
    } else {
      hide AddHeader, IsHeader, FindEither, SkipSpaces, Lower;
      var h, rest := hs[0], HeadersText(hs[1..]) + CRLF;
      assert h in hs;
      var s := HeaderText(h) + rest;
      assert HeadersText(hs) + CRLF == s;
      OneHeader(h, rest, after);
      HeadersOfText(hs[1..], after, AddHeader(m, Lower(h.name), WithoutSpaces(h.value)));
    }
  }

  // Where the parts of a header are in its text.
  lemma HeaderIndices(h: Header, rest: Bytestring)
    ensures var s, c, v := HeaderText(h) + rest, |h.name|, |h.value|;
      && |s| == c + v + 3 + |rest|
      && s[..c] == h.name && s[c] == COLON
      && s[c + 1..c + 1 + v] == h.value
      && s[c + 1 + v] == CR && s[c + 2 + v] == LF && s[c + 3 + v..] == rest
  {
    hide SkipSpaces, FindEither;
    var s, c, v := HeaderText(h) + rest, |h.name|, |h.value|;
    var line := h.name + [COLON] + h.value;
    assert s == line + (CRLF + rest);
    assert s[..c + 1 + v] == line;
    assert s[c + 1 + v..] == CRLF + rest;
    assert s[c + 1 + v] == (CRLF + rest)[0] && s[c + 2 + v] == (CRLF + rest)[1];
    assert s[c + 3 + v..] == (CRLF + rest)[2..];
  }

  lemma OneHeader(h: Header, rest: Bytestring, after: Byte)
    requires IsHeader(h)
    ensures
      var s, c := HeaderText(h) + rest, |h.name|;
      && FirstColon(s) == c && s[..c] == h.name
      && s[ValueStart(s, c)..ValueEnd(s, c)] == WithoutSpaces(h.value)
      && Drop(s, NextLine(s, c, after)) == rest
  {
    hide Lower, SkipSpaces, FindEither, HeaderText, FirstColon, ValueStart, ValueEnd, NextLine;
    var s, c := HeaderText(h) + rest, |h.name|;
    var first, end, k := c + 1, c + 1 + |h.value|, SkipSpaces(h.value, 0);
    HeaderIndices(h, rest);
    var name, value := s[..c], s[first..end];
    forall j | 0 <= j < c ensures s[j] != COLON {
      assert s[j] == name[j];
    }
    forall j | first <= j < end ensures s[j] == h.value[j - first] {
      assert s[j] == value[j - first];
    }
    HeaderAt(s, c, first + k, end, end + 2, after);
    assert s[first + k..end] == value[k..];
  }

  // The text at `i` begins with `word`, which one of the bytes looked for follows.
  lemma FindWord(d: Bytestring, e: nat, i: nat, word: Bytestring, rest: Bytestring, b: Byte, c: Byte)
    requires i <= e <= |d| && d[i..e] == word + rest
    requires b !in word && c !in word && rest != [] && (rest[0] == b || rest[0] == c)
    ensures FindEither(d[..e], i, b, c) == i + |word| < e
    ensures d[i..i + |word|] == word && d[i + |word|] == rest[0] && d[i + |word| + 1..e] == rest[1..]
  {
    var s, k := d[i..e], i + |word|;
    forall j | i <= j < k ensures d[..e][j] != b && d[..e][j] != c {
      assert d[j] == s[j - i] == word[j - i];
    }
    assert d[k] == s[|word|] == rest[0];
    FindIs(d[..e], i, b, c, k);
    assert d[i..k] == s[..|word|];
    assert d[k + 1..e] == s[|word| + 1..];
  }

  // A line that ends in a return before its line feed is followed by the headers.
  lemma ProtocolLine(d: Bytestring, e: nat, p0: nat, word: Bytestring, rest: Bytestring)
    requires IsWord(word) && p0 <= e <= |d| && d[p0..e] == word + ([CR, LF] + rest)
    ensures var p := p0 + |word| + 1;
      && FindEither(d[..e], p0, LF, SPACE) == p && p + 1 <= e && d[p] == LF
      && d[p - 1] == CR && d[p0..p - 1] == word && d[p + 1..e] == rest
  {
    hide FindEither;
    var line := word + [CR];
    assert d[p0..e] == line + ([LF] + rest);
    FindWord(d, e, p0, line, [LF] + rest, LF, SPACE);
    var read := d[p0..p0 + |line|];
    assert read[|word|] == CR && read[..|word|] == word;
  }

  lemma ProtocolOfText(d: Bytestring, e: nat, p0: nat, r: Request, other: Other, headers: Headers)
    requires IsRequest(r) && p0 <= e <= |d|
    requires d[p0..e] == r.protocol + (CRLF + (HeadersText(r.headers) + CRLF))
    ensures var p := ParseProtocol(d, e, p0, other, headers);
      p.code == OK && p.headers == AddHeaders(headers, r.headers) && p.other == other["protocol" := r.protocol]
  {
    hide HeadersText, AddHeaders, FindEither, HeadersOf, HeaderBytes;
    ProtocolLine(d, e, p0, r.protocol, HeadersText(r.headers) + CRLF);
    HeadersOfText(r.headers, if e < |d| then d[e] else NUL, headers);
  }

  lemma AfterUrl(d: Bytestring, u: nat, file: Bytestring, k: nat, e: nat)
    requires u + |file| < k <= e <= |d|
    ensures UrlDecoded(d, u, file)[k..e] == d[k..e]
  {}

  lemma UrlOfText(d: Bytestring, e: nat, u0: nat, r: Request, other: Other, headers: Headers)
    requires IsRequest(r) && u0 <= e <= |d|
    requires d[u0..e] == r.url + ([SPACE] + (r.protocol + (CRLF + (HeadersText(r.headers) + CRLF))))
    ensures var p := ParseUrl(d, e, u0, other, headers);
      && p.code == OK && p.headers == AddHeaders(headers, r.headers)
      && p.other == WithLocation(other["raw_url" := r.url], CharDecode(r.url))["protocol" := r.protocol]
  {
    hide HeadersText, AddHeaders, FindEither, CharDecode, WithLocation, ParseProtocol, UrlDecoded;
    var u, rest := u0 + |r.url|, r.protocol + (CRLF + (HeadersText(r.headers) + CRLF));
    FindWord(d, e, u0, r.url, [SPACE] + rest, SPACE, LF);
    assert ([SPACE] + rest)[1..] == rest;
    var loc := CharDecode(r.url);
    AfterUrl(d, u0, loc.file, u + 1, e);
    ProtocolOfText(UrlDecoded(d, u0, loc.file), e, u + 1, r, WithLocation(other["raw_url" := r.url], loc), headers);
  }

  /** Parsing a written request finds its parts, and adds its headers to those that were there. */
  lemma RequestRoundTrip(r: Request, other: Other, headers: Headers)
    requires IsRequest(r)
    ensures var p := ParseRequest(Text(r), |Head(r)|, other, headers);
      && p.code == OK
      && p.headers == AddHeaders(headers, r.headers)
      && p.other == WithLocation(other["data" := r.body]["method" := r.verb]["raw_url" := r.url],
                                 CharDecode(r.url))["protocol" := r.protocol]
  {
    hide HeadersText, AddHeaders, FindEither, CharDecode, WithLocation, ParseUrl;
    var d, e, m := Text(r), |Head(r)|, |r.verb|;
    var rest := r.url + ([SPACE] + (r.protocol + (CRLF + (HeadersText(r.headers) + CRLF))));
    assert d[0..e] == d[..e] == Head(r) == r.verb + ([SPACE] + rest) && d[e..] == r.body;
    FindWord(d, e, 0, r.verb, [SPACE] + rest, SPACE, LF);
    assert ([SPACE] + rest)[1..] == rest && d[..m] == d[0..m];
    UrlOfText(d, e, m + 1, r, other["data" := r.body]["method" := r.verb], headers);
  }

  /// The map that a list of headers makes
  /// ------------------------------------

  function ValuesOf(hs: seq<Header>, name: Bytestring): seq<Bytestring>
  {
    if hs == [] then []
    else (if Lower(hs[0].name) == name then [WithoutSpaces(hs[0].value)] else []) + ValuesOf(hs[1..], name)
  }

  function JoinCommas(values: seq<Bytestring>): Bytestring
    requires values != []
  {
    if |values| == 1 then values[0] else values[0] + ([COMMA] + JoinCommas(values[1..]))
  }

  lemma {:induction false} AddedHeaders(hs: seq<Header>, m: Headers, name: Bytestring)
    ensures var values := ValuesOf(hs, name);
      && (name in AddHeaders(m, hs) <==> name in m || values != [])
      && (name in m && values != [] ==> AddHeaders(m, hs)[name] == m[name] + ([COMMA] + JoinCommas(values)))
      && (name in m && values == [] ==> AddHeaders(m, hs)[name] == m[name])
      && (name !in m && values != [] ==> AddHeaders(m, hs)[name] == JoinCommas(values))
    decreases |hs|
  {
    if hs != [] {
      hide Lower, WithoutSpaces;
      var key, value, rest := Lower(hs[0].name), WithoutSpaces(hs[0].value), ValuesOf(hs[1..], name);
      AddedHeaders(hs[1..], AddHeader(m, key, value), name);
      if key == name {
        assert ValuesOf(hs, name) == [value] + rest && ([value] + rest)[1..] == rest;
        if name in m && rest != [] {
          ConcatAssoc(m[name], [COMMA] + value, [COMMA] + JoinCommas(rest));
          ConcatAssoc([COMMA], value, [COMMA] + JoinCommas(rest));
        }
      } else {
        assert ValuesOf(hs, name) == rest;
      }
    }
  }

  /** From no headers, each lower-case name that was written gets its values joined by commas in order. */
  lemma HeadersOfRequest(r: Request, other: Other)
    requires IsRequest(r)
    ensures var m := ParseRequest(Text(r), |Head(r)|, other, map[]).headers;
      && (forall name :: name in m <==> ValuesOf(r.headers, name) != [])
      && (forall name :: name in m ==> m[name] == JoinCommas(ValuesOf(r.headers, name)))
  {
    RequestRoundTrip(r, other, map[]);
    forall name
      ensures name in AddHeaders(map[], r.headers) <==> ValuesOf(r.headers, name) != []
      ensures name in AddHeaders(map[], r.headers) ==>
        AddHeaders(map[], r.headers)[name] == JoinCommas(ValuesOf(r.headers, name))
    {
      AddedHeaders(r.headers, map[], name);
    }
  }

  /// A written request, delivered in pieces
  /// --------------------------------------

  lemma {:induction false} DeliverFirst(capacity: nat, data: Bytestring, chunks: seq<Bytestring>, d: Bytestring, e: nat)
    requires d == data + Concat(chunks) && |d| < capacity
    requires ScanFrom(data, 0, 0) < 0 && ScanFrom(d, 0, 0) == e
    ensures var r := Deliver(capacity, data, chunks, false);
      r.Complete? && r.end == e <= |r.data| && r.data <= d
    decreases |chunks|
  {
    assert chunks == [] ==> d == data;
    if chunks != [] {
      var next := data + chunks[0];
      assert next + Concat(chunks[1..]) == d && next == d[..|next|];
      ScanPrefix(d, |next|, 0, 0);
      if ScanFrom(next, 0, 0) < 0 {
        DeliverFirst(capacity, next, chunks[1..], d, e);
      }
    }
  }

  // The part of a written request that has arrived is a written request with less body.
  lemma PartOfText(r: Request, part: Bytestring)
    requires |Head(r)| <= |part| && part <= Text(r)
    ensures var some := r.(body := part[|Head(r)|..]);
      part == Text(some) && Head(some) == Head(r) && some.body <= r.body
  {
    assert part[..|Head(r)|] == Text(r)[..|Head(r)|] == Head(r);
    assert part == Head(r) + part[|Head(r)|..];
    assert part[|Head(r)|..] == Text(r)[|Head(r)|..|part|] == r.body[..|part| - |Head(r)|];
  }

  /** However a written request is cut into pieces that fit the buffer, the append that completes the
      headers finds every part of it, and as much of the body as has arrived. */
  lemma RequestInPieces(r: Request, chunks: seq<Bytestring>, capacity: nat, other: Other, headers: Headers)
    requires IsRequest(r) && Concat(chunks) == Text(r) && |Text(r)| < capacity
    ensures var c := Deliver(capacity, [], chunks, true);
      && c.Complete? && c.end == |Head(r)| <= |c.data| && c.data <= Text(r)
      && var p := AppendAll(capacity, [], chunks, other, headers);
      && p.code == OK
      && p.headers == AddHeaders(headers, r.headers)
      && p.other == WithLocation(other["data" := c.data[c.end..]]["method" := r.verb]["raw_url" := r.url],
                                 CharDecode(r.url))["protocol" := r.protocol]
  {
    hide ParseRequest, Text, Head, AddHeaders, WithLocation, CharDecode;
    var d := Text(r);
    EndOfText(r);
    EndIsClose(r);
    FirstEndIsScan(d);
    ChunkIndependence(d);
    assert [] + Concat(chunks) == d;
    DeliverFirst(capacity, [], chunks, d, |Head(r)|);
    var c := Deliver(capacity, [], chunks, true);
    assert c == Deliver(capacity, [], chunks, false);
    PartOfText(r, c.data);
    RequestRoundTrip(r.(body := c.data[|Head(r)|..]), other, headers);
    AppendsDeliver(capacity, [], chunks, other, headers);
  }

  lemma EndIsClose(r: Request)
    ensures IsClose(Text(r), |Head(r)|)
  {
    var d, e := Text(r), |Head(r)|;
    LineFeedBefore(r.headers, RequestLine(r));
    var lines := RequestLine(r) + HeadersText(r.headers);
    assert d == lines + (CRLF + r.body);
    assert d[e - 3] == lines[|lines| - 1] == LF;
    assert d[e - 2] == CR && d[e - 1] == LF;
    assert IsEndFrom(d, e - 3, e);
  }

  lemma {:induction false} LineFeedBefore(hs: seq<Header>, line: Bytestring)
    requires line != [] && line[|line| - 1] == LF
    ensures var lines := line + HeadersText(hs); lines != [] && lines[|lines| - 1] == LF
    decreases |hs|
  {
    if hs != [] {
      var next := HeaderText(hs[0]);
      assert next[|next| - 1] == LF;
      LineFeedBefore(hs[1..], next);
      assert line + HeadersText(hs) == line + (next + HeadersText(hs[1..]));
    } else {
      assert line + HeadersText(hs) == line;
    }
  }
}
