/** ServletRequest.getCookies: the loop that drives the tokenizer over every Cookie header. */
module Cookies {
  import opened Basics
  import opened JavaText
  import opened Alphabet
  import opened HeaderValues
  import opened HeaderTokenizer

  datatype Cookie = Cookie(name: Text, value: Text, version: int, path: Option<Text>, domain: Option<Text>)

  // What the loop calls in the Java library: toLowerCase, Integer.parseInt (nothing if it throws)
  // and the names that the constructor of Cookie accepts.
  datatype Platform = Platform(lower: Lowering, parse: Text -> Option<int>, accepts: Text -> bool)

  // $version, $path and $domain
  const VERSION_NAME: Text := [DOLLAR, 118, 101, 114, 115, 105, 111, 110]
  const PATH_NAME: Text := [DOLLAR, 112, 97, 116, 104]
  const DOMAIN_NAME: Text := [DOLLAR, 100, 111, 109, 97, 105, 110]

  // The variables of the loop: the cookies so far, whether this header has given one, its version.
  datatype Jar = Jar(cookies: seq<Cookie>, last: bool, version: int)
  {
    ghost predicate Valid()
    {
      last ==> cookies != []
    }
  }

  predicate IsReserved(name: Text)
  {
    name != [] && name[0] == DOLLAR
  }

  function SetLast(cookies: seq<Cookie>, c: Cookie): seq<Cookie>
    requires cookies != []
  {
    cookies[|cookies| - 1 := c]
  }

  /** What one name and value do to the cookies; nothing if an exception ends the header. */
  function Handle(jar: Jar, name: Text, value: Text, java: Platform): (r: Option<Jar>)
    requires jar.Valid()
    ensures r.Some? ==> r.value.Valid() && |jar.cookies| <= |r.value.cookies|
  {
    var cookies := jar.cookies;
    if IsReserved(name) then
      if name == VERSION_NAME then
        (match java.parse(value) case None => None case Some(n) => Some(jar.(version := n)))
      else if jar.last && name == DOMAIN_NAME then
        Some(jar.(cookies := SetLast(cookies, cookies[|cookies| - 1].(domain := Some(value)))))
      else if jar.last && name == PATH_NAME then
        Some(jar.(cookies := SetLast(cookies, cookies[|cookies| - 1].(path := Some(value)))))
      else Some(jar)
    else if java.accepts(name) then
      Some(jar.(cookies := cookies + [Cookie(name, value, jar.version, None, None)], last := true))
    else None
  }

  datatype Item = Item(name: Text, value: Text)

  datatype ReadItem = ReadItem(item: Item, next: nat)

  // The separator behind an item, if the header goes on.
  function Separated(h: Text, p: nat, item: Item): (r: Option<ReadItem>)
    requires p <= |h|
    ensures r.Some? ==> p <= r.value.next <= |h|
  {
    var q := SkipWS(h, p);
    if q == |h| then Some(ReadItem(item, q))
    else if h[q] == COMMA || h[q] == SEMICOLON then Some(ReadItem(item, q + 1))
    else None
  }

  function ItemAt(h: Text, p: nat, lower: Lowering): (r: Option<ReadItem>)
    requires p <= |h|
    ensures r.Some? ==> p < r.value.next <= |h|
  {
    match GetValue(h, p, lower)
    case None => None
    case Some(name) =>
      var q := SkipWS(h, name.pos);
      if q < |h| && h[q] == EQUALS then
        match GetValue(h, q + 1, lower)
        case None => None
        case Some(value) => Separated(h, value.pos, Item(name.value, value.value))
      else Separated(h, q, Item(name.value, []))
  }

  /** The cookies after the rest of a header. */
  function CookiesFrom(h: Text, p: nat, jar: Jar, java: Platform): (r: seq<Cookie>)
    requires p <= |h| && jar.Valid()
    decreases |h| - p
  {
    if SkipWS(h, p) == |h| then jar.cookies
    else
      match ItemAt(h, p, java.lower)
      case None => jar.cookies
      case Some(read) =>
        match Handle(jar, read.item.name, read.item.value, java)
        case None => jar.cookies
        case Some(jar') => CookiesFrom(h, read.next, jar', java)
  }

  function CookiesOfHeaders(headers: seq<Text>, cookies: seq<Cookie>, java: Platform): seq<Cookie>
  {
    if headers == [] then cookies
    else CookiesOfHeaders(headers[1..], CookiesFrom(headers[0], 0, Jar(cookies, false, 0), java), java)
  }

  /// The code
  /// --------

  // Reads one item off the tokenizer; nothing if a method of the tokenizer throws.
  method ReadItemHere(t: Tokenizer) returns (r: Option<Item>)
    requires t.Valid() && SkipWS(t.header, t.pos) == t.pos
    modifies t`pos
    ensures match ItemAt(t.header, old(t.pos), t.lower)
      case None => r == None
      case Some(read) => r == Some(read.item) && t.pos == read.next && t.Valid()
  {
    hide SkipWS, GetValue;
    ghost var h := t.header;
    var name := t.ReadValue();
    if name == None {
      return None;
    }
    ghost var afterName := t.pos;
    var value := Some([]);
    var hasValue := t.LookingAt(EQUALS);
    SkipTwice(h, afterName);
    ghost var valueEnd := t.pos;
    if hasValue {
      var ok := t.Discard(EQUALS);
      assert ok;
      value := t.ReadValue();
      if value == None {
        return None;
      }
      valueEnd := t.pos;
    }
    SkipTwice(h, valueEnd);
    var more := t.More();
    if more {
      var comma := t.LookingAt(COMMA);
      var ok := t.Discard(if comma then COMMA else SEMICOLON);
      if !ok {
        return None;
      }
    }
    r := Some(Item(name.value, value.value));
  }

  // The try block: an exception keeps the cookies read before it.
  method ReadHeader(h: Text, cookies: seq<Cookie>, java: Platform) returns (r: seq<Cookie>)
    ensures r == CookiesFrom(h, 0, Jar(cookies, false, 0), java)
  {
    hide SkipWS, ItemAt, CookiesFrom;
    var t := new Tokenizer(h, java.lower);
    r := cookies;
    var last := false;
    var version := 0;
    while true
      invariant t.Valid() && t.header == h && t.lower == java.lower && Jar(r, last, version).Valid()
      invariant CookiesFrom(h, t.pos, Jar(r, last, version), java) == CookiesFrom(h, 0, Jar(cookies, false, 0), java)
      decreases |h| - t.pos
    {
      ghost var start := t.pos;
      var more := t.More();
      CookiesFromSkips(h, start, Jar(r, last, version), java);
      start := t.pos;
      HeaderStep(h, start, Jar(r, last, version), java);
      if !more {
        return;
      }
      var item := ReadItemHere(t);
      if item == None {
        return;
      }
      var Item(name, value) := item.value;
      ghost var handled := Handle(Jar(r, last, version), name, value, java);
      if IsReserved(name) {
        if name == VERSION_NAME {
          var n := java.parse(value);
          if n == None {
            return;
          }
          version := n.value;
        } else if last {
          if name == DOMAIN_NAME {
            r := r[|r| - 1 := r[|r| - 1].(domain := Some(value))];
          } else if name == PATH_NAME {
            r := r[|r| - 1 := r[|r| - 1].(path := Some(value))];
          }
        }
      } else {
        if !java.accepts(name) {
          return;
        }
        r := r + [Cookie(name, value, 0, None, None)];
        last := true;
        if version != 0 {
          r := r[|r| - 1 := r[|r| - 1].(version := version)];
        }
      }
      assert handled.Some? && Jar(r, last, version) == handled.value;
    }
  }

  method GetCookies(headers: Option<seq<Text>>, java: Platform) returns (r: seq<Cookie>)
    ensures r == match headers case None => [] case Some(all) => CookiesOfHeaders(all, [], java)
  {
    r := [];
    if headers == None {
      return;
    }
    var i := 0;
    while i < |headers.value|
      invariant i <= |headers.value|
      invariant CookiesOfHeaders(headers.value[i..], r, java) == CookiesOfHeaders(headers.value, [], java)
    {
      assert headers.value[i..][1..] == headers.value[i + 1..];
      r := ReadHeader(headers.value[i], r, java);
      i := i + 1;
    }
  }

  lemma CookiesFromSkips(h: Text, p: nat, jar: Jar, java: Platform)
    requires p <= |h| && jar.Valid()
    ensures SkipWS(h, SkipWS(h, p)) == SkipWS(h, p)
    ensures CookiesFrom(h, SkipWS(h, p), jar, java) == CookiesFrom(h, p, jar, java)
  {
    hide SkipWS, ItemAt;
    SkipTwice(h, p);
    ItemSkips(h, p, java.lower);
  }

  lemma HeaderStep(h: Text, p: nat, jar: Jar, java: Platform)
    requires p <= |h| && jar.Valid()
    ensures SkipWS(h, p) == |h| ==> CookiesFrom(h, p, jar, java) == jar.cookies
    ensures SkipWS(h, p) < |h| ==>
      match ItemAt(h, p, java.lower)
      case None => CookiesFrom(h, p, jar, java) == jar.cookies
      case Some(read) =>
        var handled := Handle(jar, read.item.name, read.item.value, java);
        CookiesFrom(h, p, jar, java)
        == if handled == None then jar.cookies else CookiesFrom(h, read.next, handled.value, java)
  {
    hide SkipWS, ItemAt, Handle;
  }

  lemma ItemSkips(h: Text, p: nat, lower: Lowering)
    requires p <= |h|
    ensures ItemAt(h, SkipWS(h, p), lower) == ItemAt(h, p, lower)
  {
    hide SkipWS, GetToken, QuoteEnd, Unescape, Separated;
    SkipTwice(h, p);
    TokenSkipsTwice(h, p, lower);
    assert GetValue(h, SkipWS(h, p), lower) == GetValue(h, p, lower);
  }

  /// What is written can be read
  /// ---------------------------

  function PrintItem(item: Item): Text
  {
    EncodeValue(item.name) + [EQUALS] + EncodeValue(item.value)
  }

  // A semicolon or a comma for each item, to stand behind it if it is not the last.
  predicate AreMarks(marks: seq<Unit>, items: seq<Item>)
  {
    |marks| == |items| && forall c <- marks :: c == SEMICOLON || c == COMMA
  }

  /** name=value, joined by the marks and a space. */
  function Print(items: seq<Item>, marks: seq<Unit>): Text
    requires |marks| == |items|
  {
    if items == [] then []
    else if |items| == 1 then PrintItem(items[0])
    else PrintItem(items[0]) + [marks[0], SPACE] + Print(items[1..], marks[1..])
  }

  // What a list of items does: an item that throws ends it.
  function HandleAll(jar: Jar, items: seq<Item>, java: Platform): seq<Cookie>
    requires jar.Valid()
    decreases |items|
  {
    if items == [] then jar.cookies
    else
      match Handle(jar, Recovered(items[0].name), Recovered(items[0].value), java)
      case None => jar.cookies
      case Some(jar') => HandleAll(jar', items[1..], java)
  }

  lemma ValueStart(v: Text)
    ensures EncodeValue(v) != [] && EncodeValue(v)[0] > SPACE && EncodeValue(v)[0] != LPAREN
  {
    if IsAtom(v) {
      assert v[0] in v;
    }
  }

  lemma EncodedAt(h: Text, p: nat, v: Text, rest: Text, lower: Lowering)
    requires p <= |h| && h[p..] == EncodeValue(v) + rest && LowersAscii(lower)
    requires rest == [] || rest[0] == EQUALS || rest[0] == SEMICOLON || rest[0] == COMMA
    ensures var q := p + |EncodeValue(v)|;
      q <= |h| && h[q..] == rest && SkipWS(h, p) == p < |h| && GetValue(h, p, lower) == Some(Read(Recovered(v), q))
  {
    hide EncodeValue, GetValue, Recovered;
    ValueStart(v);
    var q := p + |EncodeValue(v)|;
    assert h[q..] == h[p..][|EncodeValue(v)|..] == rest;
    assert h[p] == h[p..][0];
    assert q < |h| ==> h[q] == h[q..][0];
    ValueRoundTrip(h, p, v, lower);
  }

  // An item is read whole, up to the space in front of the next one.
  lemma ItemReadBack(h: Text, p: nat, item: Item, rest: Text, lower: Lowering)
    requires p <= |h| && h[p..] == PrintItem(item) + rest && LowersAscii(lower)
    requires rest == [] || rest[0] == SEMICOLON || rest[0] == COMMA
    ensures SkipWS(h, p) == p < |h|
    ensures var q := p + |PrintItem(item)|;
      q <= |h| && h[q..] == rest
      && ItemAt(h, p, lower)
      == Some(ReadItem(Item(Recovered(item.name), Recovered(item.value)), if rest == [] then q else q + 1))
  {
    hide EncodeValue, GetValue, Recovered, LowersAscii, SkipWS;
    var name, value := EncodeValue(item.name), EncodeValue(item.value);
    ConcatAssoc(name, [EQUALS] + value, rest);
    ConcatAssoc(name, [EQUALS], value);
    ConcatAssoc([EQUALS], value, rest);
    EncodedAt(h, p, item.name, [EQUALS] + (value + rest), lower);
    var eq := p + |name|;
    Rest(h, eq, EQUALS, value + rest);
    EncodedAt(h, eq + 1, item.value, rest, lower);
    var q := eq + 1 + |value|;
    if rest != [] {
      Rest(h, q, rest[0], rest[1..]);
    }
    NotSpace(h, eq);
    NotSpace(h, q);
    ItemOfValues(h, p, eq, q, Item(Recovered(item.name), Recovered(item.value)), lower);
    assert |PrintItem(item)| == |name| + 1 + |value|;
  }

  lemma ItemOfValues(h: Text, p: nat, eq: nat, q: nat, item: Item, lower: Lowering)
    requires p <= eq < q <= |h| && GetValue(h, p, lower) == Some(Read(item.name, eq))
    requires SkipWS(h, eq) == eq && h[eq] == EQUALS && GetValue(h, eq + 1, lower) == Some(Read(item.value, q))
    requires SkipWS(h, q) == q && (q < |h| ==> h[q] == SEMICOLON || h[q] == COMMA)
    ensures ItemAt(h, p, lower) == Some(ReadItem(item, if q == |h| then q else q + 1))
  {
    hide GetValue, SkipWS;
  }

  lemma Rest(h: Text, p: nat, c: Unit, rest: Text)
    requires p <= |h| && h[p..] == [c] + rest
    ensures p < |h| && h[p] == c && h[p + 1..] == rest
  {
    assert h[p] == h[p..][0];
    assert h[p + 1..] == h[p..][1..];
  }

  lemma NotSpace(h: Text, p: nat)
    requires p <= |h| && (p < |h| ==> h[p] > SPACE && h[p] != LPAREN)
    ensures SkipWS(h, p) == p
  {}

  lemma {:induction false} ItemsReadBack(h: Text, p: nat, items: seq<Item>, marks: seq<Unit>, jar: Jar,
                                         java: Platform)
    requires AreMarks(marks, items) && p <= |h| && h[p..] == Print(items, marks)
    requires jar.Valid() && LowersAscii(java.lower)
    ensures CookiesFrom(h, p, jar, java) == HandleAll(jar, items, java)
    decreases |items|
  {
    hide PrintItem, ItemAt, Recovered, LowersAscii, Handle;
    if items == [] {
      assert SkipWS(h, p) == |h|;
      return;
    }
    var rest := if |items| == 1 then [] else [marks[0], SPACE] + Print(items[1..], marks[1..]);
    assert h[p..] == PrintItem(items[0]) + rest;
    assert marks[0] in marks;
    ItemReadBack(h, p, items[0], rest, java.lower);
    var q := p + |PrintItem(items[0])|;
    var handled := Handle(jar, Recovered(items[0].name), Recovered(items[0].value), java);
    if handled.Some? {
      if |items| == 1 {
        assert items[1..] == [];
        assert q == |h|;
        assert SkipWS(h, q) == q;
      } else {
        assert h[q + 1] == h[q..][1] == SPACE;
        assert h[q + 2..] == h[q..][2..] == Print(items[1..], marks[1..]);
        assert forall c <- marks[1..] :: c in marks;
        ItemsReadBack(h, q + 2, items[1..], marks[1..], handled.value, java);
        SpaceSkipped(h, q + 1, handled.value, java);
      }
    }
  }

  lemma SpaceSkipped(h: Text, p: nat, jar: Jar, java: Platform)
    requires p < |h| && h[p] == SPACE && jar.Valid()
    ensures CookiesFrom(h, p, jar, java) == CookiesFrom(h, p + 1, jar, java)
  {
    assert SkipWS(h, p) == SkipWS(h, p + 1);
    CookiesFromSkips(h, p, jar, java);
    CookiesFromSkips(h, p + 1, jar, java);
  }

  /** A header that lists names and values has exactly the effect of these, one after the other. */
  lemma HeaderOfItems(items: seq<Item>, marks: seq<Unit>, cookies: seq<Cookie>, java: Platform)
    requires LowersAscii(java.lower) && AreMarks(marks, items)
    ensures CookiesFrom(Print(items, marks), 0, Jar(cookies, false, 0), java)
         == HandleAll(Jar(cookies, false, 0), items, java)
  {
    ItemsReadBack(Print(items, marks), 0, items, marks, Jar(cookies, false, 0), java);
  }

  /// Plain cookies
  /// -------------

  ghost predicate Plain(item: Item, java: Platform)
  {
    var name := Recovered(item.name);
    !IsReserved(name) && java.accepts(name)
  }

  ghost predicate AllPlain(items: seq<Item>, java: Platform)
  {
    forall item <- items :: Plain(item, java)
  }

  function CookiesOfItems(items: seq<Item>, version: int): (r: seq<Cookie>)
    ensures |r| == |items|
  {
    seq(|items|, i requires 0 <= i < |items| =>
      Cookie(Recovered(items[i].name), Recovered(items[i].value), version, None, None))
  }

  lemma {:induction false} PlainItems(jar: Jar, items: seq<Item>, java: Platform)
    requires jar.Valid() && AllPlain(items, java)
    ensures HandleAll(jar, items, java) == jar.cookies + CookiesOfItems(items, jar.version)
    decreases |items|
  {
    hide Recovered;
    if items != [] {
      assert Plain(items[0], java);
      var c := Cookie(Recovered(items[0].name), Recovered(items[0].value), jar.version, None, None);
      var jar' := jar.(cookies := jar.cookies + [c], last := true);
      PlainItems(jar', items[1..], java);
      assert CookiesOfItems(items, jar.version) == [c] + CookiesOfItems(items[1..], jar.version);
      ConcatAssoc(jar.cookies, [c], CookiesOfItems(items[1..], jar.version));
    }
  }

  ghost predicate AreAllMarks(marks: seq<seq<Unit>>, lists: seq<seq<Item>>)
  {
    |marks| == |lists| && forall i :: 0 <= i < |lists| ==> AreMarks(marks[i], lists[i])
  }

  ghost function PrintAll(lists: seq<seq<Item>>, marks: seq<seq<Unit>>): (r: seq<Text>)
    requires AreAllMarks(marks, lists)
    ensures |r| == |lists|
  {
    seq(|lists|, i requires 0 <= i < |lists| => Print(lists[i], marks[i]))
  }

  function Flatten(lists: seq<seq<Item>>): seq<Item>
  {
    if lists == [] then [] else lists[0] + Flatten(lists[1..])
  }

  lemma ItemsConcat(a: seq<Item>, b: seq<Item>, version: int)
    ensures CookiesOfItems(a + b, version) == CookiesOfItems(a, version) + CookiesOfItems(b, version)
  {}

  /** Every cookie comes back, in order, over any number of headers. */
  lemma {:induction false} CookieRoundTrip(lists: seq<seq<Item>>, marks: seq<seq<Unit>>, cookies: seq<Cookie>,
                                           java: Platform)
    requires LowersAscii(java.lower) && AreAllMarks(marks, lists)
    requires forall i | 0 <= i < |lists| :: AllPlain(lists[i], java)
    ensures CookiesOfHeaders(PrintAll(lists, marks), cookies, java) == cookies + CookiesOfItems(Flatten(lists), 0)
    decreases |lists|
  {
    hide Print, CookiesFrom, HandleAll, AllPlain, Plain, LowersAscii;
    if lists == [] {
      assert PrintAll(lists, marks) == [];
    } else {
      var more := CookiesOfItems(lists[0], 0);
      HeaderOfItems(lists[0], marks[0], cookies, java);
      PlainItems(Jar(cookies, false, 0), lists[0], java);
      assert PrintAll(lists, marks)[1..] == PrintAll(lists[1..], marks[1..]);
      CookieRoundTrip(lists[1..], marks[1..], cookies + more, java);
      var rest := Flatten(lists[1..]);
      ItemsConcat(lists[0], rest, 0);
      ConcatAssoc(cookies, more, CookiesOfItems(rest, 0));
    }
  }

  /// Cookies with attributes, section 4.4 of RFC 2109
  /// ------------------------------------------------

  function Attribute(name: Text, value: Option<Text>): seq<Item>
  {
    match value case None => [] case Some(v) => [Item(name, v)]
  }

  function ItemsOfCookie(c: Cookie): seq<Item>
  {
    [Item(c.name, c.value)] + Attribute(PATH_NAME, c.path) + Attribute(DOMAIN_NAME, c.domain)
  }

  function ItemsOfCookies(cs: seq<Cookie>): seq<Item>
  {
    if cs == [] then [] else ItemsOfCookie(cs[0]) + ItemsOfCookies(cs[1..])
  }

  function RecoveredOption(v: Option<Text>): Option<Text>
  {
    match v case None => None case Some(t) => Some(Recovered(t))
  }

  function RecoveredCookie(c: Cookie, version: int): Cookie
  {
    Cookie(Recovered(c.name), Recovered(c.value), version, RecoveredOption(c.path), RecoveredOption(c.domain))
  }

  function RecoveredCookies(cs: seq<Cookie>, version: int): (r: seq<Cookie>)
    ensures |r| == |cs|
  {
    seq(|cs|, i requires 0 <= i < |cs| => RecoveredCookie(cs[i], version))
  }

  lemma ReservedNames()
    ensures Recovered(VERSION_NAME) == VERSION_NAME && Recovered(PATH_NAME) == PATH_NAME
    ensures Recovered(DOMAIN_NAME) == DOMAIN_NAME
    ensures IsReserved(VERSION_NAME) && IsReserved(PATH_NAME) && IsReserved(DOMAIN_NAME)
  {
    assert AsciiLower(VERSION_NAME) == VERSION_NAME && AsciiLower(PATH_NAME) == PATH_NAME;
    assert AsciiLower(DOMAIN_NAME) == DOMAIN_NAME;
  }

  lemma AttributeSets(jar: Jar, c: Cookie, name: Text, value: Option<Text>, rest: seq<Item>, java: Platform)
    requires jar.last && jar.cookies != [] && c == jar.cookies[|jar.cookies| - 1]
    requires (name == PATH_NAME && c.path == None) || (name == DOMAIN_NAME && c.domain == None)
    ensures var v := RecoveredOption(value);
      var c' := if name == PATH_NAME then c.(path := v) else c.(domain := v);
      HandleAll(jar, Attribute(name, value) + rest, java)
      == HandleAll(jar.(cookies := SetLast(jar.cookies, c')), rest, java)
  {
    hide Recovered;
    ReservedNames();
    var items := Attribute(name, value) + rest;
    if value == None {
      assert items == rest;
      assert SetLast(jar.cookies, c) == jar.cookies;
    } else {
      assert items[0] == Item(name, value.value) && items[1..] == rest;
    }
  }

  lemma CookieItems(jar: Jar, c: Cookie, rest: seq<Item>, java: Platform)
    requires jar.Valid() && Plain(Item(c.name, c.value), java)
    ensures HandleAll(jar, ItemsOfCookie(c) + rest, java)
      == HandleAll(jar.(cookies := jar.cookies + [RecoveredCookie(c, jar.version)], last := true), rest, java)
  {
    hide Recovered, HandleAll;
    var first, path, domain := Item(c.name, c.value), Attribute(PATH_NAME, c.path), Attribute(DOMAIN_NAME, c.domain);
    var items := [first] + (path + (domain + rest));
    assert ItemsOfCookie(c) + rest == items;
    var c0 := Cookie(Recovered(c.name), Recovered(c.value), jar.version, None, None);
    var c1 := c0.(path := RecoveredOption(c.path));
    var jar0 := jar.(cookies := jar.cookies + [c0], last := true);
    FirstItem(jar, first, path + (domain + rest), java);
    AttributeSets(jar0, c0, PATH_NAME, c.path, domain + rest, java);
    assert SetLast(jar0.cookies, c1) == jar.cookies + [c1];
    var jar1 := jar0.(cookies := jar.cookies + [c1]);
    AttributeSets(jar1, c1, DOMAIN_NAME, c.domain, rest, java);
    var c2 := c1.(domain := RecoveredOption(c.domain));
    assert SetLast(jar1.cookies, c2) == jar.cookies + [c2];
  }

  lemma FirstItem(jar: Jar, item: Item, rest: seq<Item>, java: Platform)
    requires jar.Valid() && Plain(item, java)
    ensures var c := Cookie(Recovered(item.name), Recovered(item.value), jar.version, None, None);
      HandleAll(jar, [item] + rest, java) == HandleAll(jar.(cookies := jar.cookies + [c], last := true), rest, java)
  {
    assert ([item] + rest)[1..] == rest;
  }

  lemma {:induction false} CookiesItems(jar: Jar, cs: seq<Cookie>, java: Platform)
    requires jar.Valid() && forall c <- cs :: Plain(Item(c.name, c.value), java)
    ensures HandleAll(jar, ItemsOfCookies(cs), java) == jar.cookies + RecoveredCookies(cs, jar.version)
    decreases |cs|
  {
    hide Recovered, Plain;
    if cs != [] {
      assert cs[0] in cs;
      var c := RecoveredCookie(cs[0], jar.version);
      var jar' := jar.(cookies := jar.cookies + [c], last := true);
      CookieItems(jar, cs[0], ItemsOfCookies(cs[1..]), java);
      CookiesItems(jar', cs[1..], java);
      assert RecoveredCookies(cs, jar.version) == [c] + RecoveredCookies(cs[1..], jar.version);
      ConcatAssoc(jar.cookies, [c], RecoveredCookies(cs[1..], jar.version));
    }
  }

  /** A header with a version, and a path and a domain where a cookie has them, gives every cookie back with these. */
  lemma VersionedRoundTrip(version: Text, n: int, cs: seq<Cookie>, marks: seq<Unit>, java: Platform)
    requires LowersAscii(java.lower) && java.parse(Recovered(version)) == Some(n)
    requires forall c <- cs :: Plain(Item(c.name, c.value), java)
    requires AreMarks(marks, [Item(VERSION_NAME, version)] + ItemsOfCookies(cs))
    ensures var items := [Item(VERSION_NAME, version)] + ItemsOfCookies(cs);
      CookiesOfHeaders([Print(items, marks)], [], java) == RecoveredCookies(cs, n)
  {
    hide Recovered, Print, CookiesFrom, Plain, LowersAscii;
    var items := [Item(VERSION_NAME, version)] + ItemsOfCookies(cs);
    HeaderOfItems(items, marks, [], java);
    ReservedNames();
    assert items[1..] == ItemsOfCookies(cs);
    CookiesItems(Jar([], false, n), cs, java);
    assert [Print(items, marks)][1..] == [];
  }

  /** The reserved names. */
  lemma ReservedSpelled()
    ensures VERSION_NAME == Ascii("$version") && PATH_NAME == Ascii("$path") && DOMAIN_NAME == Ascii("$domain")
  {}

  /// Headers with faults
  /// -------------------

  // Items that are each followed by a mark and a space.
  function Listed(items: seq<Item>, marks: seq<Unit>): Text
    requires |marks| == |items|
  {
    if items == [] then [] else PrintItem(items[0]) + [marks[0], SPACE] + Listed(items[1..], marks[1..])
  }

  lemma {:induction false} ListedReadBack(h: Text, p: nat, items: seq<Item>, marks: seq<Unit>, tail: Text, jar: Jar,
                                          java: Platform)
    requires AreMarks(marks, items) && p <= |h| && h[p..] == Listed(items, marks) + tail
    requires jar.Valid() && LowersAscii(java.lower) && AllPlain(items, java)
    ensures var q, all := p + |Listed(items, marks)|, jar.cookies + CookiesOfItems(items, jar.version);
      && q <= |h| && h[q..] == tail
      && CookiesFrom(h, p, jar, java)
      == CookiesFrom(h, q, jar.(cookies := all, last := jar.last || items != []), java)
    decreases |items|
  {
    hide PrintItem, ItemAt, Recovered, LowersAscii, CookiesFrom;
    if items == [] {
      assert jar.cookies + CookiesOfItems(items, jar.version) == jar.cookies;
    } else {
      var item, more := items[0], Listed(items[1..], marks[1..]);
      var rest := [marks[0], SPACE] + (more + tail);
      var c := Cookie(Recovered(item.name), Recovered(item.value), jar.version, None, None);
      var jar' := jar.(cookies := jar.cookies + [c], last := true);
      assert marks[0] in marks && Plain(item, java) && (forall c <- marks[1..] :: c in marks);
      assert h[p..] == PrintItem(item) + rest;
      ItemReadBack(h, p, item, rest, java.lower);
      var q := p + |PrintItem(item)|;
      Behind(h, q, [marks[0], SPACE], more + tail);
      assert h[q + 1] == h[q..][1] == SPACE;
      HeaderStep(h, p, jar, java);
      SpaceSkipped(h, q + 1, jar', java);
      ListedReadBack(h, q + 2, items[1..], marks[1..], tail, jar', java);
      assert CookiesOfItems(items, jar.version) == [c] + CookiesOfItems(items[1..], jar.version);
      ConcatAssoc(jar.cookies, [c], CookiesOfItems(items[1..], jar.version));
    }
  }

  // Nothing can be read: a separator where a name should be, or a quote that is not closed.
  ghost predicate IsUnreadable(tail: Text)
  {
    || (tail != [] && tail[0] > 32 && !IsTokenChar(tail[0]) && tail[0] != QUOTE && tail[0] != LPAREN)
    || exists codes: seq<Text>, v: Text :: QuotesAll(codes, v) && tail == [QUOTE] + Flat(codes)
  }

  lemma UnreadableAt(h: Text, p: nat, tail: Text, lower: Lowering)
    requires p <= |h| && h[p..] == tail && IsUnreadable(tail)
    ensures SkipWS(h, p) == p < |h| && GetValue(h, p, lower) == None
  {
    hide IsTokenChar, QuoteEnd, TokenEnd, Unescape, QuotesAll, Flat;
    assert h[p] == h[p..][0];
    if tail[0] == QUOTE {
      var codes: seq<Text>, v: Text :| QuotesAll(codes, v) && tail == [QUOTE] + Flat(codes);
      assert h[p + 1..] == h[p..][1..] == Flat(codes) + [];
      QuoteEndOfFlat(h, p + 1, codes, v, []);
      QuoteEndAtEnd(h);
    } else {
      TokenCharSpelled(tail[0]);
      TokenEndIs(h, p, p);
    }
  }

  lemma QuoteEndAtEnd(h: Text)
    ensures QuoteEnd(h, |h|) == |h|
  {}

  lemma OneHeader(h: Text, cookies: seq<Cookie>, java: Platform)
    ensures CookiesOfHeaders([h], cookies, java) == CookiesFrom(h, 0, Jar(cookies, false, 0), java)
  {
    hide CookiesFrom;
    var headers: seq<Text> := [h];
    assert headers[1..] == [];
  }

  /** What cannot be read ends a header; the cookies before it are kept. */
  lemma UnreadableEnds(items: seq<Item>, marks: seq<Unit>, tail: Text, cookies: seq<Cookie>, java: Platform)
    requires LowersAscii(java.lower) && AreMarks(marks, items) && AllPlain(items, java) && IsUnreadable(tail)
    ensures CookiesOfHeaders([Listed(items, marks) + tail], cookies, java) == cookies + CookiesOfItems(items, 0)
  {
    hide Listed, LowersAscii, AllPlain, CookiesFrom, IsUnreadable, GetValue, SkipWS, Separated;
    var h, p := Listed(items, marks) + tail, |Listed(items, marks)|;
    var jar := Jar(cookies + CookiesOfItems(items, 0), items != [], 0);
    ListedReadBack(h, 0, items, marks, tail, Jar(cookies, false, 0), java);
    UnreadableAt(h, p, tail, java.lower);
    HeaderStep(h, p, jar, java);
    OneHeader(h, cookies, java);
  }

  /** A name and value with something else than a comma or a semicolon behind them are lost, and end the header. */
  lemma NoSeparatorEnds(items: seq<Item>, marks: seq<Unit>, item: Item, c: Unit, rest: Text, cookies: seq<Cookie>,
                        java: Platform)
    requires LowersAscii(java.lower) && AreMarks(marks, items) && AllPlain(items, java)
    requires c > 32 && c != LPAREN && c != COMMA && c != SEMICOLON
    ensures var h := Listed(items, marks) + (PrintItem(item) + ([SPACE, c] + rest));
      CookiesOfHeaders([h], cookies, java) == cookies + CookiesOfItems(items, 0)
  {
    hide Listed, LowersAscii, AllPlain, CookiesFrom, GetValue, SkipWS, PrintItem;
    var tail := PrintItem(item) + ([SPACE, c] + rest);
    var h, p := Listed(items, marks) + tail, |Listed(items, marks)|;
    var jar := Jar(cookies + CookiesOfItems(items, 0), items != [], 0);
    ListedReadBack(h, 0, items, marks, tail, Jar(cookies, false, 0), java);
    LostItem(h, p, item, c, rest, java.lower);
    HeaderStep(h, p, jar, java);
    OneHeader(h, cookies, java);
  }

  lemma LostItem(h: Text, p: nat, item: Item, c: Unit, rest: Text, lower: Lowering)
    requires LowersAscii(lower) && p <= |h| && h[p..] == PrintItem(item) + ([SPACE, c] + rest)
    requires c > 32 && c != LPAREN && c != COMMA && c != SEMICOLON
    ensures SkipWS(h, p) == p < |h| && ItemAt(h, p, lower) == None
  {
    hide EncodeValue, GetValue, Recovered, LowersAscii, SkipWS, ItemAt;
    var name, value, more := EncodeValue(item.name), EncodeValue(item.value), [SPACE, c] + rest;
    ItemParts(name, value, more);
    EncodedAt(h, p, item.name, [EQUALS] + (value + more), lower);
    var eq := p + |name|;
    Rest(h, eq, EQUALS, value + more);
    NotSpace(h, eq);
    EncodedBefore(h, eq + 1, item.value, more, lower);
    var q := eq + 1 + |value|;
    Behind(h, q, [SPACE], [c] + rest);
    Behind(h, q + 1, [c], rest);
    NotSpace(h, q + 1);
    OneSpace(h, q);
    NoSeparatorBehind(h, p, eq, q, Item(Recovered(item.name), Recovered(item.value)), lower);
  }

  lemma NoSeparatorBehind(h: Text, p: nat, eq: nat, q: nat, item: Item, lower: Lowering)
    requires p <= eq < q < |h| - 1 && GetValue(h, p, lower) == Some(Read(item.name, eq))
    requires SkipWS(h, eq) == eq && h[eq] == EQUALS && GetValue(h, eq + 1, lower) == Some(Read(item.value, q))
    requires SkipWS(h, q) == q + 1 && h[q + 1] != SEMICOLON && h[q + 1] != COMMA
    ensures ItemAt(h, p, lower) == None
  {
    hide GetValue, SkipWS;
  }

  lemma ItemParts(name: Text, value: Text, more: Text)
    ensures name + [EQUALS] + value + more == name + ([EQUALS] + (value + more))
  {}

  lemma OneSpace(h: Text, q: nat)
    requires q < |h| && h[q] == SPACE
    ensures SkipWS(h, q) == SkipWS(h, q + 1)
  {}

  // A value is read up to a space too.
  lemma EncodedBefore(h: Text, p: nat, v: Text, rest: Text, lower: Lowering)
    requires p <= |h| && h[p..] == EncodeValue(v) + rest && LowersAscii(lower) && rest != [] && rest[0] == SPACE
    ensures var q := p + |EncodeValue(v)|;
      q <= |h| && h[q..] == rest && GetValue(h, p, lower) == Some(Read(Recovered(v), q))
  {
    hide EncodeValue, GetValue, Recovered;
    Behind(h, p, EncodeValue(v), rest);
    var q := p + |EncodeValue(v)|;
    assert h[q] == h[q..][0];
    ValueRoundTrip(h, p, v, lower);
  }

  /** A name that the constructor of Cookie refuses, or a version that is no number, ends the header; the cookies before
      it are kept, and what comes after it is not read. */
  lemma RefusedEnds(jar: Jar, before: seq<Item>, bad: Item, after: seq<Item>, java: Platform)
    requires jar.Valid() && AllPlain(before, java)
    requires var name: Text := Recovered(bad.name);
      || (name == Ascii("$version") && java.parse(Recovered(bad.value)) == None)
      || ((name == [] || name[0] != DOLLAR) && !java.accepts(name))
    ensures HandleAll(jar, before + ([bad] + after), java) == jar.cookies + CookiesOfItems(before, jar.version)
  {
    hide Recovered, AllPlain;
    ReservedSpelled();
    PlainThen(jar, before, [bad] + after, java);
    assert ([bad] + after)[0] == bad;
  }

  /** A reserved name other than the three is ignored, and so are a path and a domain in front of the cookies. */
  lemma ReservedIgnored(jar: Jar, before: seq<Item>, item: Item, after: seq<Item>, java: Platform)
    requires jar.Valid() && AllPlain(before, java)
    requires var name := Recovered(item.name);
      && name != [] && name[0] == DOLLAR && name != Ascii("$version")
      && ((name != Ascii("$path") && name != Ascii("$domain")) || (!jar.last && before == []))
    ensures HandleAll(jar, before + ([item] + after), java) == HandleAll(jar, before + after, java)
  {
    hide Recovered, AllPlain;
    ReservedSpelled();
    PlainThen(jar, before, [item] + after, java);
    PlainThen(jar, before, after, java);
    assert ([item] + after)[1..] == after;
  }

  lemma {:induction false} PlainThen(jar: Jar, items: seq<Item>, rest: seq<Item>, java: Platform)
    requires jar.Valid() && AllPlain(items, java)
    ensures var all := jar.cookies + CookiesOfItems(items, jar.version);
      HandleAll(jar, items + rest, java)
      == HandleAll(jar.(cookies := all, last := jar.last || items != []), rest, java)
    decreases |items|
  {
    hide Recovered;
    if items == [] {
      assert items + rest == rest;
      assert jar.cookies + CookiesOfItems(items, jar.version) == jar.cookies;
    } else {
      assert Plain(items[0], java) && (items + rest)[1..] == items[1..] + rest;
      var c := Cookie(Recovered(items[0].name), Recovered(items[0].value), jar.version, None, None);
      var jar' := jar.(cookies := jar.cookies + [c], last := true);
      PlainThen(jar', items[1..], rest, java);
      assert CookiesOfItems(items, jar.version) == [c] + CookiesOfItems(items[1..], jar.version);
      ConcatAssoc(jar.cookies, [c], CookiesOfItems(items[1..], jar.version));
    }
  }

  /** A name without an equals sign has an empty value. */
  lemma NameAlone(items: seq<Item>, marks: seq<Unit>, name: Text, cookies: seq<Cookie>, java: Platform)
    requires LowersAscii(java.lower) && AreMarks(marks, items) && AllPlain(items, java)
    requires Plain(Item(name, []), java)
    ensures CookiesOfHeaders([Listed(items, marks) + EncodeValue(name)], cookies, java)
         == cookies + CookiesOfItems(items, 0) + [Cookie(Recovered(name), [], 0, None, None)]
  {
    hide Listed, LowersAscii, AllPlain, CookiesFrom, GetValue, SkipWS, EncodeValue, Recovered;
    var h, p := Listed(items, marks) + EncodeValue(name), |Listed(items, marks)|;
    var jar := Jar(cookies + CookiesOfItems(items, 0), items != [], 0);
    ListedReadBack(h, 0, items, marks, EncodeValue(name), Jar(cookies, false, 0), java);
    assert h[p..] == EncodeValue(name) + [];
    EncodedAt(h, p, name, [], java.lower);
    NotSpace(h, |h|);
    HeaderStep(h, p, jar, java);
    HeaderStep(h, |h|, jar.(cookies := jar.cookies + [Cookie(Recovered(name), [], 0, None, None)], last := true), java);
    OneHeader(h, cookies, java);
  }
}
