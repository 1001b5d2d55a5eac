/** The first line of a request: when it is refused, and what it may end with. */
module RequestLine {
  import opened Basics
  import opened Bytes
  import opened ParseHttp
  import opened HttpRequest
  import opened UrlCodec

  lemma CountAround(s: Bytestring, m: nat, c: Byte)
    requires m < |s|
    ensures multiset(s)[c] == multiset(s[..m])[c] + (if s[m] == c then 1 else 0) + multiset(s[m + 1..])[c]
  {
    assert s == s[..m] + [s[m]] + s[m + 1..];
  }

  lemma CountNone(s: Bytestring, c: Byte)
    ensures multiset(s)[c] == 0 <==> c !in s
  {
    assert c in s <==> c in multiset(s);
  }

  // The first space or line feed at or after `i` is in the first line, unless the line is all that is left.
  lemma FirstInLine(d: Bytestring, e: nat, k: nat, i: nat, m: nat)
    requires i <= k <= e <= |d| && LF !in d[i..k] && (k < e ==> d[k] == LF)
    requires i <= m <= e && (m < e ==> d[m] == SPACE || d[m] == LF)
    requires forall j :: i <= j < m ==> d[j] != SPACE && d[j] != LF
    ensures m <= k && (m < k ==> d[m] == SPACE)
    ensures multiset(d[i..k])[SPACE] == if m < k then 1 + multiset(d[m + 1..k])[SPACE] else 0
  {
    var line := d[i..k];
    assert forall j :: i <= j < k ==> d[j] == line[j - i];
    if m < k {
      assert line[m - i] != LF;
      CountAround(line, m - i, SPACE);
      assert line[..m - i] == d[i..m] && line[m - i + 1..] == d[m + 1..k];
      CountNone(d[i..m], SPACE);
    } else {
      CountNone(line, SPACE);
    }
  }

  lemma ProtocolCode(d: Bytestring, e: nat, k: nat, p0: nat, other: Other, headers: Headers)
    requires p0 <= k <= e <= |d| && LF !in d[p0..k] && (k < e ==> d[k] == LF)
    ensures var code := ParseProtocol(d, e, p0, other, headers).code;
      code == if k < e && multiset(d[p0..k])[SPACE] == 0 then OK else BAD_REQUEST
  {
    hide HeadersOf, HeaderBytes;
    FirstInLine(d, e, k, p0, FindEither(d[..e], p0, LF, SPACE));
  }

  lemma LineAfterUrl(d: Bytestring, u0: nat, file: Bytestring, u: nat, k: nat)
    requires u0 + |file| <= u < k <= |d|
    ensures var b := UrlDecoded(d, u0, file);
      |b| == |d| && b[u + 1..k] == d[u + 1..k] && (k < |d| ==> b[k] == d[k])
  {}

  lemma UrlCode(d: Bytestring, e: nat, k: nat, u0: nat, other: Other, headers: Headers)
    requires u0 <= k <= e <= |d| && LF !in d[u0..k] && (k < e ==> d[k] == LF)
    ensures var code := ParseUrl(d, e, u0, other, headers).code;
      code == if k < e && multiset(d[u0..k])[SPACE] == 1 then OK else BAD_REQUEST
  {
    hide CharDecode, WithLocation, ParseProtocol, UrlDecoded;
    var u := FindEither(d[..e], u0, SPACE, LF);
    FirstInLine(d, e, k, u0, u);
    if u < k {
      var loc := CharDecode(d[u0..u]);
      LineAfterUrl(d, u0, loc.file, u, k);
      RestOfLine(d, u0, u, k);
      ProtocolCode(UrlDecoded(d, u0, loc.file), e, k, u + 1, WithLocation(other["raw_url" := d[u0..u]], loc), headers);
    }
  }

  lemma RestOfLine(d: Bytestring, i: nat, m: nat, k: nat)
    requires i <= m < k <= |d| && LF !in d[i..k]
    ensures LF !in d[m + 1..k]
  {
    assert forall j :: m < j < k ==> d[j] == d[i..k][j - i];
  }

  /** The request whose headers end at `e` is refused with 400 unless its first line, up to the first line feed, has
      exactly two spaces. Headers that have ended hold a line feed. */
  lemma AcceptedExactly(d: Bytestring, e: nat, k: nat, other: Other, headers: Headers)
    requires k < e <= |d| && LF !in d[..k] && d[k] == LF
    ensures ParseRequest(d, e, other, headers).code == if multiset(d[..k])[SPACE] == 2 then 1 else 400
  {
    hide ParseUrl;
    var m := FindEither(d[..e], 0, SPACE, LF);
    assert d[0..k] == d[..k];
    FirstInLine(d, e, k, 0, m);
    if m < k {
      RestOfLine(d, 0, m, k);
      UrlCode(d, e, k, m + 1, other["data" := d[e..]]["method" := d[..m]], headers);
    }
  }

  /// What is entered
  /// ---------------

  // The first two spaces of the first line are at `m` and `u`, and it ends at `k`.
  ghost predicate IsLine(d: Bytestring, m: nat, u: nat, k: nat)
  {
    && m < u < k < |d| && d[m] == SPACE && d[u] == SPACE && d[k] == LF
    && forall j :: 0 <= j < k && j != m && j != u ==> d[j] != SPACE && d[j] != LF
  }

  lemma WordBefore(d: Bytestring, e: nat, i: nat, k: nat)
    requires i <= k < e <= |d| && (d[k] == SPACE || d[k] == LF)
    requires forall j :: i <= j < k ==> d[j] != SPACE && d[j] != LF
    ensures FindEither(d[..e], i, SPACE, LF) == FindEither(d[..e], i, LF, SPACE) == k
  {
    FindIs(d[..e], i, SPACE, LF, k);
    FindIs(d[..e], i, LF, SPACE, k);
  }

  lemma ProtocolEntry(d: Bytestring, e: nat, p0: nat, k: nat, other: Other, headers: Headers)
    requires p0 <= k < e <= |d| && d[k] == LF && forall j :: p0 <= j < k ==> d[j] != SPACE && d[j] != LF
    ensures ParseProtocol(d, e, p0, other, headers).other
         == other["protocol" := if p0 < k && d[k - 1] == CR then d[p0..k - 1] else d[p0..k]]
  {
    hide HeadersOf, HeaderBytes, FindEither;
    WordBefore(d, e, p0, k);
  }

  lemma UrlEntries(d: Bytestring, e: nat, u0: nat, u: nat, k: nat, other: Other, headers: Headers)
    requires u0 <= u < k < e <= |d| && d[u] == SPACE && d[k] == LF
    requires forall j :: u0 <= j < k && j != u ==> d[j] != SPACE && d[j] != LF
    ensures ParseUrl(d, e, u0, other, headers).other
         == WithLocation(other["raw_url" := d[u0..u]], CharDecode(d[u0..u]))
            ["protocol" := if u + 1 < k && d[k - 1] == CR then d[u + 1..k - 1] else d[u + 1..k]]
  {
    hide CharDecode, WithLocation, ParseProtocol, UrlDecoded, FindEither;
    WordBefore(d, e, u0, u);
    var loc := CharDecode(d[u0..u]);
    var b := UrlDecoded(d, u0, loc.file);
    LineAfterUrl(d, u0, loc.file, u, k);
    assert forall j :: u < j < k ==> b[j] == b[u + 1..k][j - u - 1] == d[j];
    assert u + 1 < k ==> b[u + 1..k - 1] == b[u + 1..k][..k - u - 2] == d[u + 1..k - 1];
    ProtocolEntry(b, e, u + 1, k, WithLocation(other["raw_url" := d[u0..u]], loc), headers);
  }

  /** The entries of any accepted request: the parts of its first line between the two spaces, without the return at its
      end, and the body. */
  lemma EntriesExactly(d: Bytestring, e: nat, m: nat, u: nat, k: nat, other: Other, headers: Headers)
    requires k < e <= |d| && IsLine(d, m, u, k)
    ensures ParseRequest(d, e, other, headers).other
         == WithLocation(other["data" := d[e..]]["method" := d[..m]]["raw_url" := d[m + 1..u]],
                         CharDecode(d[m + 1..u]))
            ["protocol" := if u + 1 < k && d[k - 1] == CR then d[u + 1..k - 1] else d[u + 1..k]]
  {
    hide ParseUrl, FindEither, CharDecode, WithLocation;
    WordBefore(d, e, 0, m);
    UrlEntries(d, e, m + 1, u, k, other["data" := d[e..]]["method" := d[..m]], headers);
  }

  lemma UrlKeeps(d: Bytestring, e: nat, u0: nat, other: Other, headers: Headers, name: string)
    requires u0 <= e <= |d| && name in other && (name == "data" || name == "method")
    ensures var p := ParseUrl(d, e, u0, other, headers);
      name in p.other && p.other[name] == other[name] && (p.code == BAD_REQUEST ==> p.headers == headers)
  {
    hide HeadersOf, HeaderBytes, FindEither, CharDecode;
  }

  // Where no space or line feed comes before `k`, and one is there or it is the end.
  lemma StopsAt(d: Bytestring, e: nat, i: nat, k: nat)
    requires i <= k <= e <= |d| && SPACE !in d[i..k] && LF !in d[i..k] && (k < e ==> d[k] == SPACE || d[k] == LF)
    ensures FindEither(d[..e], i, SPACE, LF) == k
  {
    forall j | i <= j < k ensures d[j] != SPACE && d[j] != LF {
      assert d[j] == d[i..k][j - i];
    }
    FindIs(d[..e], i, SPACE, LF, k);
  }

  /** The body and the method are entered whether the request is refused or not: the method is what a space follows. */
  lemma MethodEntered(d: Bytestring, e: nat, m: nat, other: Other, headers: Headers)
    requires m < e <= |d| && SPACE !in d[..m] && LF !in d[..m] && d[m] == SPACE
    ensures var p := ParseRequest(d, e, other, headers);
      && "data" in p.other && p.other["data"] == d[e..] && "method" in p.other && p.other["method"] == d[..m]
      && (p.code == 400 ==> p.headers == headers)
  {
    hide ParseUrl, FindEither;
    assert d[0..m] == d[..m];
    StopsAt(d, e, 0, m);
    UrlKeeps(d, e, m + 1, other["data" := d[e..]]["method" := d[..m]], headers, "data");
    UrlKeeps(d, e, m + 1, other["data" := d[e..]]["method" := d[..m]], headers, "method");
  }

  /** Without a space in the first line only the body is entered, and with one space only the method besides it. */
  lemma RefusedEntries(d: Bytestring, e: nat, m: nat, k: nat, other: Other, headers: Headers)
    requires m <= k < e <= |d| && LF !in d[..k] && d[k] == LF && SPACE !in d[..m]
    ensures m == k ==> ParseRequest(d, e, other, headers) == Parsed(400, other["data" := d[e..]], headers, d)
    ensures m < k && d[m] == SPACE && SPACE !in d[m + 1..k] ==>
      ParseRequest(d, e, other, headers) == Parsed(400, other["data" := d[e..]]["method" := d[..m]], headers, d)
  {
    hide FindEither, CharDecode, WithLocation, UrlDecoded, ParseProtocol;
    assert d[0..m] == d[..m];
    assert forall j :: 0 <= j < m ==> d[..m][j] == d[..k][j];
    if m == k {
      StopsAt(d, e, 0, m);
    } else if d[m] == SPACE && SPACE !in d[m + 1..k] {
      StopsAt(d, e, 0, m);
      RestOfLine(d, 0, m, k);
      StopsAt(d, e, m + 1, k);
    }
  }

  /// A line that ends in a line feed alone
  /// -------------------------------------

  // What comes behind the protocol of a written request.
  function Section(r: Request): Bytestring
  {
    HeadersText(r.headers) + CRLF
  }

  function BareHead(r: Request): Bytestring
  {
    r.verb + ([SPACE] + (r.url + ([SPACE] + (r.protocol + ([LF] + Section(r))))))
  }

  lemma SectionStart(r: Request)
    requires IsRequest(r)
    ensures Section(r) != [] && Section(r)[0] != LF
  {
    if r.headers != [] {
      assert IsHeader(r.headers[0]);
      assert HeaderText(r.headers[0])[0] == (r.headers[0].name + [COLON])[0];
    }
  }

  lemma BareProtocol(d: Bytestring, e: nat, p0: nat, r: Request, other: Other, headers: Headers)
    requires IsRequest(r) && (r.protocol == [] || r.protocol[|r.protocol| - 1] != CR)
    requires p0 <= e <= |d| && d[p0..e] == r.protocol + ([LF] + Section(r))
    ensures var p := ParseProtocol(d, e, p0, other, headers);
      p.code == OK && p.headers == AddHeaders(headers, r.headers) && p.other == other["protocol" := r.protocol]
  {
    hide HeadersText, AddHeaders, FindEither, HeadersOf, HeaderBytes;
    var rest := [LF] + Section(r);
    FindWord(d, e, p0, r.protocol, rest, LF, SPACE);
    var p := p0 + |r.protocol|;
    SectionStart(r);
    assert rest[1..] == Section(r) && d[p + 1..e][0] == d[p + 1];
    if r.protocol != [] {
      assert d[p0..p][|r.protocol| - 1] == d[p - 1];
    }
    HeadersOfText(r.headers, if e < |d| then d[e] else NUL, headers);
  }

  lemma BareUrl(d: Bytestring, e: nat, u0: nat, r: Request, other: Other, headers: Headers)
    requires IsRequest(r) && (r.protocol == [] || r.protocol[|r.protocol| - 1] != CR) && u0 <= e <= |d|
    requires d[u0..e] == r.url + ([SPACE] + (r.protocol + ([LF] + Section(r))))
    ensures var p := ParseUrl(d, e, u0, other, headers);
      && p.code == OK && p.headers == AddHeaders(headers, r.headers)
      && p.other == WithLocation(other["raw_url" := r.url], CharDecode(r.url))["protocol" := r.protocol]
  {
    hide Section, AddHeaders, FindEither, CharDecode, WithLocation, ParseProtocol, UrlDecoded;
    var u, rest := u0 + |r.url|, r.protocol + ([LF] + Section(r));
    FindWord(d, e, u0, r.url, [SPACE] + rest, SPACE, LF);
    assert ([SPACE] + rest)[1..] == rest;
    var loc := CharDecode(r.url);
    AfterUrl(d, u0, loc.file, u + 1, e);
    BareProtocol(UrlDecoded(d, u0, loc.file), e, u + 1, r, WithLocation(other["raw_url" := r.url], loc), headers);
  }

  /** The first line may end in a line feed alone, if the protocol does not end in a return. */
  lemma BareLineFeed(r: Request, other: Other, headers: Headers)
    requires IsRequest(r) && (r.protocol == [] || r.protocol[|r.protocol| - 1] != CR)
    ensures var p := ParseRequest(BareHead(r) + r.body, |BareHead(r)|, other, headers);
      && p.code == OK && p.headers == AddHeaders(headers, r.headers)
      && p.other == WithLocation(other["data" := r.body]["method" := r.verb]["raw_url" := r.url],
                                 CharDecode(r.url))["protocol" := r.protocol]
  {
    hide Section, AddHeaders, FindEither, CharDecode, WithLocation, ParseUrl;
    var d, e, m := BareHead(r) + r.body, |BareHead(r)|, |r.verb|;
    var rest := r.url + ([SPACE] + (r.protocol + ([LF] + Section(r))));
    assert d[0..e] == d[..e] == BareHead(r) == r.verb + ([SPACE] + rest) && d[e..] == r.body;
    FindWord(d, e, 0, r.verb, [SPACE] + rest, SPACE, LF);
    assert ([SPACE] + rest)[1..] == rest && d[..m] == d[0..m];
    BareUrl(d, e, m + 1, r, other["data" := r.body]["method" := r.verb], headers);
  }

  /// What is left in the buffer
  /// --------------------------

  function LowerNames(hs: seq<Header>): seq<Header>
  {
    if hs == [] then [] else [hs[0].(name := Lower(hs[0].name))] + LowerNames(hs[1..])
  }

  lemma OneLowered(h: Header, rest: Bytestring, n: nat)
    requires n == |HeaderText(h)|
    ensures var s, c := HeaderText(h) + rest, |h.name|;
      s[..c] == h.name && s[n..] == rest && Lower(s[..c]) + s[c..n] == HeaderText(h.(name := Lower(h.name)))
  {
    hide Lower;
    var s, c := HeaderText(h) + rest, |h.name|;
    assert s[c..n] == [COLON] + (h.value + CRLF);
  }

  /** Parsing puts the names of written headers in lower case in the buffer, and what follows without a colon; it leaves
      the values. */
  lemma {:induction false} BufferLowered(hs: seq<Header>, tail: Bytestring, after: Byte)
    requires (forall h <- hs :: IsHeader(h)) && COLON !in tail
    ensures HeaderBytes(HeadersText(hs) + tail, after) == HeadersText(LowerNames(hs)) + Lower(tail)
    decreases |hs|
  {
    if hs == [] {
      assert HeadersText(hs) + tail == tail;
      FindIs(tail, 0, COLON, COLON, |tail|);
    } else {
      hide IsHeader, FindEither, Lower, HeaderText, FirstColon, NextLine;
      var h, rest := hs[0], HeadersText(hs[1..]) + tail;
      var s, n, low := HeaderText(h) + rest, |HeaderText(h)|, HeaderText(h.(name := Lower(h.name)));
      assert h in hs;
      assert HeadersText(hs) + tail == s;
      OneHeader(h, rest, after);
      OneLowered(h, rest, n);
      BufferLowered(hs[1..], tail, after);
      NoBytes(after);
      assert LowerNames(hs)[1..] == LowerNames(hs[1..]);
      assert rest != [] ==> NextLine(s, |h.name|, after) == n < |s|;
      ConcatAssoc(low, HeadersText(LowerNames(hs[1..])), Lower(tail));
      if rest == [] {
        assert s[|h.name|..n] == s[|h.name|..];
        assert HeadersText(LowerNames(hs[1..])) + Lower(tail) == [];
        assert NextLine(s, |h.name|, after) >= |s|;
      }
    }
  }

  lemma NoBytes(after: Byte)
    ensures HeaderBytes([], after) == []
  {}
}
