/** What a client reads of the header of a response. */
module ResponseHeader {
  import opened Basics
  import opened Bytes
  import opened Alphabet
  import opened HttpOutput
  import opened ParseHttp
  import Request = HttpRequest

  /// Reading lines
  /// -------------

  // Where the first return followed by a line feed is, or the end.
  function LineEnd(s: seq<Byte>): (k: nat)
    ensures k <= |s|
  {
    if s == [] then 0 else if |s| > 1 && s[0] == CR && s[1] == LF then 0 else 1 + LineEnd(s[1..])
  }

  // The lines up to the empty one, and what follows it.
  function LinesOf(s: seq<Byte>): seq<Line>
    decreases |s|
  {
    var k := LineEnd(s);
    if k == 0 || k + 2 > |s| then [] else [s[..k]] + LinesOf(s[k + 2..])
  }

  function RestOf(s: seq<Byte>): seq<Byte>
    decreases |s|
  {
    var k := LineEnd(s);
    if k + 2 > |s| then [] else if k == 0 then s[2..] else RestOf(s[k + 2..])
  }

  ghost predicate IsLine(s: seq<Byte>)
  {
    s != [] && CR !in s && LF !in s
  }

  lemma {:induction false} LineEnds(line: seq<Byte>, rest: seq<Byte>)
    requires CR !in line && LF !in line
    ensures LineEnd(line + ([CR, LF] + rest)) == |line|
  {
    if line == [] {
      assert line + ([CR, LF] + rest) == [CR, LF] + rest;
    } else {
      assert line[0] in line && (line + ([CR, LF] + rest))[1..] == line[1..] + ([CR, LF] + rest);
      LineEnds(line[1..], rest);
    }
  }

  lemma OneLineRead(line: seq<Byte>, rest: seq<Byte>)
    requires IsLine(line)
    ensures var s := line + ([CR, LF] + rest);
      LinesOf(s) == [line] + LinesOf(rest) && RestOf(s) == RestOf(rest)
  {
    hide LineEnd;
    LineEnds(line, rest);
    var s := line + ([CR, LF] + rest);
    assert s[..|line|] == line && s[|line| + 2..] == rest;
  }

  lemma EmptyLineRead(rest: seq<Byte>)
    ensures LinesOf([CR, LF] + rest) == [] && RestOf([CR, LF] + rest) == rest
  {
    LineEnds([], rest);
    assert [] + ([CR, LF] + rest) == [CR, LF] + rest;
  }

  lemma {:induction false} TerminatedRead(lines: seq<Line>, rest: seq<Byte>)
    requires forall l <- lines :: IsLine(l)
    ensures LinesOf(Terminated(lines) + ([CR, LF] + rest)) == lines
    ensures RestOf(Terminated(lines) + ([CR, LF] + rest)) == rest
    decreases |lines|
  {
    hide LinesOf, RestOf, IsLine;
    if lines == [] {
      EmptyLineRead(rest);
      assert Terminated(lines) + ([CR, LF] + rest) == [CR, LF] + rest;
    } else {
      var tail := Terminated(lines[1..]) + ([CR, LF] + rest);
      assert Terminated(lines) + ([CR, LF] + rest) == lines[0] + ([CR, LF] + tail);
      OneLineRead(lines[0], tail);
      TerminatedRead(lines[1..], rest);
    }
  }

  /// The lines of a header
  /// ---------------------

  // Nothing that is printed holds a return or a line feed.
  ghost predicate Clean(r: Response)
  {
    && CR !in r.status && LF !in r.status
    && (r.statusText.Some? ==> CR !in r.statusText.value && LF !in r.statusText.value)
    && CR !in r.contentType && LF !in r.contentType
    && (r.contentLength.Some? ==> CR !in r.contentLength.value && LF !in r.contentLength.value)
    && forall f <- r.headers, l <- f.lines :: IsLine(l)
  }

  // A header was set under this lower-case name.
  predicate Has(r: Response, name: string)
  {
    exists i :: 0 <= i < |r.headers| && r.headers[i].name == Ascii(name)
  }

  function StatusTextOf(r: Response): Line
  {
    if r.statusText.Some? then r.statusText.value else Ascii("Foo")
  }

  function DefaultLines(r: Response): seq<Line>
  {
    (if Has(r, "content-type") then [] else [Ascii("Content-Type: ") + r.contentType])
    + if r.contentLength.None? || Has(r, "content-length") then []
      else [Ascii("Content-Length: ") + r.contentLength.value]
  }

  /** The stored lines, header by header. */
  lemma StoredInOrder(a: seq<Field>, f: Field, b: seq<Field>)
    ensures StoredLines(a + [f] + b) == StoredLines(a) + f.lines + StoredLines(b) && StoredLines([]) == []
  {
    assert a + [f] + b == a + ([f] + b) && ([f] + b)[1..] == b;
    StoredConcat(a, [f] + b);
  }

  lemma {:induction false} StoredConcat(a: seq<Field>, b: seq<Field>)
    ensures StoredLines(a + b) == StoredLines(a) + StoredLines(b)
  {
    if a == [] {
      assert a + b == b;
    } else {
      assert (a + b)[1..] == a[1..] + b;
      StoredConcat(a[1..], b);
    }
  }

  lemma {:induction false} StoredAreLines(fs: seq<Field>)
    requires forall f <- fs, l <- f.lines :: IsLine(l)
    ensures forall l <- StoredLines(fs) :: IsLine(l)
  {
    hide IsLine;
    if fs != [] {
      assert fs[0] in fs;
      StoredAreLines(fs[1..]);
    }
  }

  lemma HeaderParts(r: Response)
    ensures var status := Ascii("HTTP/1.0") + [SPACE] + r.status + [SPACE] + StatusTextOf(r);
      var message := if r.message.Some? then r.message.value else [];
      HeaderOf(r)
      == Terminated([status] + DefaultLines(r) + StoredLines(r.headers)) + ([CR, LF] + message)
  {
    hide Terminated, StoredLines;
    Version();
    HasIsContains(r, "content-type");
    HasIsContains(r, "content-length");
    assert [StatusLine(r)] + TypeLines(r) + LengthLines(r) == [StatusLine(r)] + (TypeLines(r) + LengthLines(r));
  }

  lemma Version()
    ensures Ascii("HTTP/1.0 ") == Ascii("HTTP/1.0") + [SPACE]
  {}

  lemma HasIsContains(r: Response, name: string)
    ensures ContainsHeader(r, Ascii(name)) <==> Has(r, name)
  {}

  lemma Printable(text: string)
    requires forall i :: 0 <= i < |text| ==> ' ' <= text[i] <= '~'
    ensures CR !in Ascii(text) && LF !in Ascii(text)
  {}

  lemma StatusIsLine(r: Response)
    requires Clean(r)
    ensures IsLine(Ascii("HTTP/1.0") + [SPACE] + r.status + [SPACE] + StatusTextOf(r))
  {
    hide Ascii;
    Printable("HTTP/1.0");
    Printable("Foo");
  }

  lemma DefaultsAreLines(r: Response)
    requires Clean(r)
    ensures forall l <- DefaultLines(r) :: IsLine(l)
  {
    hide Ascii, Has;
    Printable("Content-Type: ");
    Printable("Content-Length: ");
  }

  /** The lines up to the empty one are the status line, the type and the length unless a header of that name was
      set, and the stored lines in order; the message follows. */
  lemma HeaderRead(r: Response)
    requires Clean(r)
    ensures LinesOf(HeaderOf(r))
         == [Ascii("HTTP/1.0") + [SPACE] + r.status + [SPACE] + StatusTextOf(r)] + DefaultLines(r)
            + StoredLines(r.headers)
    ensures RestOf(HeaderOf(r)) == if r.message.Some? then r.message.value else []
  {
    hide HeaderOf, Terminated, LinesOf, RestOf, StoredLines, Has;
    var lines := [Ascii("HTTP/1.0") + [SPACE] + r.status + [SPACE] + StatusTextOf(r)] + DefaultLines(r)
                 + StoredLines(r.headers);
    HeaderParts(r);
    StatusIsLine(r);
    DefaultsAreLines(r);
    StoredAreLines(r.headers);
    hide IsLine, DefaultLines, StatusTextOf;
    TerminatedRead(lines, if r.message.Some? then r.message.value else []);
  }

  /** Between the spaces of the first line are the version, the status and its text. */
  lemma StatusRead(r: Response)
    requires Clean(r) && SPACE !in r.status
    ensures LinesOf(HeaderOf(r)) != []
    ensures var line := LinesOf(HeaderOf(r))[0];
      && Request.FindEither(line, 0, SPACE, SPACE) == 8 < |line| && line[..8] == Ascii("HTTP/1.0")
      && var k := Request.FindEither(line, 9, SPACE, SPACE);
      && k < |line| && line[9..k] == r.status
      && line[k + 1..] == if r.statusText.Some? then r.statusText.value else Ascii("Foo")
  {
    hide HeaderOf, LinesOf, RestOf, StoredLines, DefaultLines, Clean, Ascii, Request.FindEither;
    HeaderRead(r);
    var version, text := Ascii("HTTP/1.0"), StatusTextOf(r);
    var line := version + [SPACE] + r.status + [SPACE] + text;
    NoSpace("HTTP/1.0");
    Words(line, version, r.status, text);
  }

  lemma NoSpace(text: string)
    requires forall i :: 0 <= i < |text| ==> ' ' < text[i] <= '~'
    ensures SPACE !in Ascii(text)
  {}

  lemma Words(line: Line, a: Line, b: Line, c: Line)
    requires line == a + [SPACE] + b + [SPACE] + c && SPACE !in a && SPACE !in b
    ensures var i, j := |a|, |a| + 1 + |b|;
      && Request.FindEither(line, 0, SPACE, SPACE) == i < j < |line| && line[..i] == a
      && Request.FindEither(line, i + 1, SPACE, SPACE) == j && line[i + 1..j] == b && line[j + 1..] == c
  {
    var i, j := |a|, |a| + 1 + |b|;
    assert line[..i] == a && line[i + 1..j] == b && line[j + 1..] == c;
    forall k | 0 <= k < i ensures line[k] != SPACE {
      assert line[k] == line[..i][k] == a[k];
    }
    forall k | i < k < j ensures line[k] != SPACE {
      assert line[k] == line[i + 1..j][k - i - 1] == b[k - i - 1];
    }
    Request.FindIs(line, 0, SPACE, SPACE, i);
    Request.FindIs(line, i + 1, SPACE, SPACE, j);
  }

  /// The headers that are read
  /// -------------------------

  // setHeader: one line under the lower-case name.
  function StoredFields(hs: seq<Request.Header>): seq<Field>
  {
    if hs == [] then []
    else [Field(Lower(hs[0].name), [hs[0].name + ([COLON] + ([SPACE] + hs[0].value))])] + StoredFields(hs[1..])
  }

  // With the space after the colon.
  function Spaced(h: Request.Header): Request.Header
  {
    h.(value := [SPACE] + h.value)
  }

  function SpacedAll(hs: seq<Request.Header>): seq<Request.Header>
  {
    if hs == [] then [] else [Spaced(hs[0])] + SpacedAll(hs[1..])
  }

  // The headers that are sent beside the stored ones.
  function Defaults(r: Response): seq<Request.Header>
  {
    (if Has(r, "content-type") then [] else [Spaced(Request.Header(Ascii("Content-Type"), r.contentType))])
    + if r.contentLength.None? || Has(r, "content-length") then []
      else [Spaced(Request.Header(Ascii("Content-Length"), r.contentLength.value))]
  }

  lemma {:induction false} TextConcat(a: seq<Request.Header>, b: seq<Request.Header>)
    ensures Request.HeadersText(a + b) == Request.HeadersText(a) + Request.HeadersText(b)
  {
    hide Request.HeaderText;
    if a == [] {
      assert a + b == b;
    } else {
      assert (a + b)[1..] == a[1..] + b;
      TextConcat(a[1..], b);
    }
  }

  lemma {:induction false} StoredText(hs: seq<Request.Header>)
    ensures Terminated(StoredLines(StoredFields(hs))) == Request.HeadersText(SpacedAll(hs))
  {
    if hs != [] {
      hide Lower, Terminated;
      var line := hs[0].name + ([COLON] + ([SPACE] + hs[0].value));
      var rest := StoredLines(StoredFields(hs[1..]));
      StoredText(hs[1..]);
      assert StoredFields(hs)[1..] == StoredFields(hs[1..]);
      assert StoredLines(StoredFields(hs)) == [line] + rest;
      TerminatedFirst(line, rest);
      assert Request.HeaderText(Spaced(hs[0])) == line + [CR, LF];
    }
  }

  lemma TerminatedFirst(line: Line, rest: seq<Line>)
    ensures Terminated([line] + rest) == line + [CR, LF] + Terminated(rest)
  {
    assert ([line] + rest)[1..] == rest;
  }

  lemma LineOfHeader(name: Line, value: Line, before: Line)
    requires before == name + [COLON, SPACE]
    ensures Terminated([before + value]) == Request.HeadersText([Spaced(Request.Header(name, value))])
  {
    var h := Spaced(Request.Header(name, value));
    assert [before + value][1..] == [] && [h][1..] == [];
    assert before + value + [CR, LF] == Request.HeaderText(h);
  }

  lemma DefaultsText(r: Response)
    ensures Terminated(DefaultLines(r)) == Request.HeadersText(Defaults(r))
  {
    hide Terminated, Request.HeadersText, Has, Spaced, Ascii;
    NamesOfDefaults();
    LineOfHeader(Ascii("Content-Type"), r.contentType, Ascii("Content-Type: "));
    var a := if Has(r, "content-type") then [] else [Ascii("Content-Type: ") + r.contentType];
    var b := if Has(r, "content-type") then [] else [Spaced(Request.Header(Ascii("Content-Type"), r.contentType))];
    if r.contentLength.Some? {
      LineOfHeader(Ascii("Content-Length"), r.contentLength.value, Ascii("Content-Length: "));
    }
    Nothing();
    TerminatedConcat(a, DefaultLines(r)[|a|..]);
    assert DefaultLines(r) == a + DefaultLines(r)[|a|..];
    TextConcat(b, Defaults(r)[|b|..]);
    assert Defaults(r) == b + Defaults(r)[|b|..];
  }

  lemma Nothing()
    ensures Terminated([]) == [] == Request.HeadersText([])
  {}

  lemma NamesOfDefaults()
    ensures Ascii("Content-Type: ") == Ascii("Content-Type") + [COLON, SPACE]
    ensures Ascii("Content-Length: ") == Ascii("Content-Length") + [COLON, SPACE]
  {}

  lemma DefaultNames()
    ensures Lower(Ascii("Content-Type")) == Ascii("content-type")
    ensures Lower(Ascii("Content-Length")) == Ascii("content-length")
    ensures Ascii("content-type") != Ascii("content-length")
  {}

  lemma SpaceIsSkipped(v: Line)
    ensures Request.WithoutSpaces([SPACE] + v) == Request.WithoutSpaces(v)
  {
    var k := Request.SkipSpaces(v, 0);
    var s := [SPACE] + v;
    assert forall j :: 0 < j < |s| ==> s[j] == v[j - 1];
    Request.SkipIs(s, 0, k + 1);
    assert s[k + 1..] == v[k..];
  }

  lemma {:induction false} SpacedValues(hs: seq<Request.Header>, name: Line)
    ensures Request.ValuesOf(SpacedAll(hs), name) == Request.ValuesOf(hs, name)
  {
    hide Lower, Request.WithoutSpaces;
    if hs != [] {
      SpaceIsSkipped(hs[0].value);
      assert SpacedAll(hs)[1..] == SpacedAll(hs[1..]);
      SpacedValues(hs[1..], name);
    }
  }

  lemma {:induction false} ValuesConcat(a: seq<Request.Header>, b: seq<Request.Header>, name: Line)
    ensures Request.ValuesOf(a + b, name) == Request.ValuesOf(a, name) + Request.ValuesOf(b, name)
  {
    hide Lower, Request.WithoutSpaces;
    if a == [] {
      assert a + b == b;
    } else {
      assert (a + b)[1..] == a[1..] + b;
      ValuesConcat(a[1..], b, name);
    }
  }

  lemma {:induction false} StoredHas(hs: seq<Request.Header>, name: Line)
    ensures (exists i :: 0 <= i < |StoredFields(hs)| && StoredFields(hs)[i].name == name)
       <==> Request.ValuesOf(hs, name) != []
  {
    hide Lower, Request.WithoutSpaces;
    if hs != [] {
      var fs := StoredFields(hs);
      assert fs[1..] == StoredFields(hs[1..]) && fs[0].name == Lower(hs[0].name);
      StoredHas(hs[1..], name);
      forall i | 0 <= i < |fs| && fs[i].name == name ensures Request.ValuesOf(hs, name) != [] {
        if i > 0 {
          assert fs[1..][i - 1] == fs[i];
        }
      }
      if Request.ValuesOf(hs[1..], name) != [] {
        var i :| 0 <= i < |fs[1..]| && fs[1..][i].name == name;
        assert fs[i + 1].name == name;
      }
    }
  }

  lemma OneValue(name: Line, value: Line, asked: Line)
    ensures Request.ValuesOf([Spaced(Request.Header(name, value))], asked)
         == if Lower(name) == asked then [Request.WithoutSpaces(value)] else []
  {
    hide Lower, Request.WithoutSpaces;
    SpaceIsSkipped(value);
    assert [Spaced(Request.Header(name, value))][1..] == [];
  }

  // The values that the headers beside the stored ones have.
  lemma DefaultValues(r: Response, asked: Line)
    ensures Request.ValuesOf(Defaults(r), asked)
         == if asked == Ascii("content-type") then
              (if Has(r, "content-type") then [] else [Request.WithoutSpaces(r.contentType)])
            else if asked == Ascii("content-length") then
              (if r.contentLength.None? || Has(r, "content-length") then []
               else [Request.WithoutSpaces(r.contentLength.value)])
            else []
  {
    hide Ascii, Lower, Request.WithoutSpaces, Request.ValuesOf, Has, Spaced;
    DefaultNames();
    OneValue(Ascii("Content-Type"), r.contentType, asked);
    var b := if Has(r, "content-type") then [] else [Spaced(Request.Header(Ascii("Content-Type"), r.contentType))];
    if r.contentLength.Some? {
      OneValue(Ascii("Content-Length"), r.contentLength.value, asked);
    }
    NoValues(asked);
    ValuesConcat(b, Defaults(r)[|b|..], asked);
    assert Defaults(r) == b + Defaults(r)[|b|..];
  }

  lemma NoValues(asked: Line)
    ensures Request.ValuesOf([], asked) == []
  {}

  // The values under a name: those that were set, and otherwise the type and the length of the response.
  function Values(r: Response, hs: seq<Request.Header>, asked: Line): seq<Line>
  {
    var stored := Request.ValuesOf(hs, asked);
    if stored != [] then stored
    else if asked == Ascii("content-type") then [Request.WithoutSpaces(r.contentType)]
    else if asked == Ascii("content-length") && r.contentLength.Some? then
      [Request.WithoutSpaces(r.contentLength.value)]
    else []
  }

  lemma ValuesRead(r: Response, hs: seq<Request.Header>, asked: Line)
    requires r.headers == StoredFields(hs)
    ensures Request.ValuesOf(Defaults(r) + SpacedAll(hs), asked) == Values(r, hs, asked)
  {
    hide Lower, Request.WithoutSpaces, Request.ValuesOf, Ascii, Defaults;
    DefaultNames();
    ValuesConcat(Defaults(r), SpacedAll(hs), asked);
    SpacedValues(hs, asked);
    DefaultValues(r, asked);
    StoredHas(hs, Ascii("content-type"));
    StoredHas(hs, Ascii("content-length"));
    assert Has(r, "content-type") <==> Request.ValuesOf(hs, Ascii("content-type")) != [];
    assert Has(r, "content-length") <==> Request.ValuesOf(hs, Ascii("content-length")) != [];
    StoredHas(hs, asked);
  }

  lemma SectionIs(r: Response, hs: seq<Request.Header>)
    requires Clean(r) && r.headers == StoredFields(hs)
    ensures var s, k := HeaderOf(r), LineEnd(HeaderOf(r));
      var e := |s| - |RestOf(s)|;
      k + 2 <= e <= |s| && s[k + 2..e] == Request.HeadersText(Defaults(r) + SpacedAll(hs)) + [CR, LF]
  {
    hide HeaderOf, RestOf, LinesOf, LineEnd, Terminated, StoredLines, DefaultLines, Defaults, Clean;
    hide Request.HeadersText;
    var status := Ascii("HTTP/1.0") + [SPACE] + r.status + [SPACE] + StatusTextOf(r);
    var message := if r.message.Some? then r.message.value else [];
    var section := Request.HeadersText(Defaults(r) + SpacedAll(hs));
    HeaderParts(r);
    HeaderRead(r);
    StatusIsLine(r);
    TextConcat(Defaults(r), SpacedAll(hs));
    DefaultsText(r);
    StoredText(hs);
    TerminatedConcat(DefaultLines(r), StoredLines(r.headers));
    TerminatedFirst(status, DefaultLines(r) + StoredLines(r.headers));
    assert [status] + DefaultLines(r) + StoredLines(r.headers) == [status] + (DefaultLines(r) + StoredLines(r.headers));
    assert HeaderOf(r) == status + [CR, LF] + section + ([CR, LF] + message);
    assert HeaderOf(r) == status + ([CR, LF] + (section + ([CR, LF] + message)));
    SplitSection(HeaderOf(r), status, section, message);
  }

  lemma SplitSection(s: seq<Byte>, status: Line, section: seq<Byte>, message: seq<Byte>)
    requires CR !in status && LF !in status && s == status + ([CR, LF] + (section + ([CR, LF] + message)))
    ensures LineEnd(s) == |status| && s[|status| + 2..|s| - |message|] == section + [CR, LF]
  {
    hide LineEnd;
    var tail := section + ([CR, LF] + message);
    LineEnds(status, tail);
    TailOf(status, [CR, LF] + tail, message);
    TailOf([CR, LF], tail, message);
    assert tail[..|tail| - |message|] == section + [CR, LF];
    assert s[|status| + 2..|s| - |message|] == s[|status|..|s| - |message|][2..];
    assert ([CR, LF] + tail)[..|[CR, LF] + tail| - |message|][2..] == tail[..|tail| - |message|];
  }

  lemma TailOf(a: Line, b: Line, message: Line)
    requires |message| <= |b|
    ensures (a + b)[|a|..|a + b| - |message|] == b[..|b| - |message|]
  {}

  lemma DefaultsAreHeaders(r: Response)
    requires Clean(r)
    ensures forall h <- Defaults(r) :: Request.IsHeader(h)
  {
    hide Ascii, Has;
    NoColon("Content-Type");
    NoColon("Content-Length");
  }

  lemma NoColon(text: string)
    requires forall i :: 0 <= i < |text| ==> ' ' < text[i] <= '~' && text[i] != ':'
    ensures COLON !in Ascii(text) && LF !in Ascii(text)
  {}

  lemma {:induction false} SpacedAreHeaders(hs: seq<Request.Header>)
    requires forall h <- hs :: Request.IsHeader(h)
    ensures forall h <- SpacedAll(hs) :: Request.IsHeader(h)
  {
    if hs != [] {
      assert Request.IsHeader(hs[0]);
      SpacedAreHeaders(hs[1..]);
    }
  }

  /** The headers between the first line and the message, as the request parser reads them: each name that was set has
      its values, and the type and the length are those of the response where they were not set. */
  lemma FieldsRead(r: Response, hs: seq<Request.Header>, after: Byte)
    requires Clean(r) && r.headers == StoredFields(hs) && forall h <- hs :: Request.IsHeader(h)
    ensures LineEnd(HeaderOf(r)) + 2 <= |HeaderOf(r)| - |RestOf(HeaderOf(r))|
    ensures var s, k := HeaderOf(r), LineEnd(HeaderOf(r));
      var m := Request.HeadersOf(s[k + 2..|s| - |RestOf(s)|], after, map[]);
      forall name :: (name in m <==> Values(r, hs, name) != [])
                     && (name in m ==> m[name] == Request.JoinCommas(Values(r, hs, name)))
  {
    hide HeaderOf, RestOf, LineEnd, Values, Defaults, Clean, Request.HeadersText, Request.HeadersOf, Request.IsHeader;
    SectionIs(r, hs);
    DefaultsAreHeaders(r);
    SpacedAreHeaders(hs);
    var all := Defaults(r) + SpacedAll(hs);
    Request.HeadersOfText(all, after, map[]);
    forall name ensures Request.ValuesOf(all, name) == Values(r, hs, name) {
      ValuesRead(r, hs, name);
    }
    hide Request.ValuesOf, Request.AddHeaders, Request.JoinCommas;
    forall name
      ensures name in Request.AddHeaders(map[], all) <==> Values(r, hs, name) != []
      ensures name in Request.AddHeaders(map[], all) ==>
        Request.AddHeaders(map[], all)[name] == Request.JoinCommas(Values(r, hs, name))
    {
      Request.AddedHeaders(all, map[], name);
    }
  }
}
