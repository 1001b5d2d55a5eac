/** A URL made of an encoded path and an encoded query, from the request to the variables. */
module RequestQuery {
  import opened Basics
  import opened Bytes
  import opened HttpRequest
  import opened ParseHttp
  import opened QueryString
  import opened UrlCodec

  function UrlOf(path: seq<Byte>, pairs: seq<Pair>): seq<Byte>
  {
    HttpEncode(path) + ([QUESTION] + QueryText(pairs))
  }

  lemma WordConcat(a: seq<Byte>, b: seq<Byte>)
    requires IsWord(a) && IsWord(b)
    ensures IsWord(a + b)
  {}

  lemma EncodedIsWord(s: seq<Byte>)
    requires NUL !in s
    ensures IsWord(HttpEncode(s))
  {
    hide HttpEncode;
    EncodedIsPlain(s);
  }

  lemma MarksAreWords()
    ensures IsWord([EQUALS]) && IsWord([AMPERSAND]) && IsWord([QUESTION]) && IsWord([])
  {}

  lemma {:induction false} QueryIsWord(pairs: seq<Pair>)
    requires Writable(pairs)
    ensures IsWord(QueryText(pairs))
    decreases |pairs|
  {
    hide HttpEncode, IsWord;
    MarksAreWords();
    if pairs != [] {
      var p := pairs[0];
      assert p in pairs;
      EncodedIsWord(p.key);
      EncodedIsWord(p.value);
      WordConcat([EQUALS], HttpEncode(p.value));
      WordConcat(HttpEncode(p.key), [EQUALS] + HttpEncode(p.value));
      QueryIsWord(pairs[1..]);
      WordConcat([AMPERSAND], QueryText(pairs[1..]));
      WordConcat(PairText(p), if |pairs| == 1 then [] else [AMPERSAND] + QueryText(pairs[1..]));
    }
  }

  lemma UrlIsWord(path: seq<Byte>, pairs: seq<Pair>)
    requires NUL !in path && Writable(pairs)
    ensures IsWord(UrlOf(path, pairs))
  {
    hide HttpEncode, IsWord, QueryText;
    MarksAreWords();
    EncodedIsWord(path);
    QueryIsWord(pairs);
    WordConcat([QUESTION], QueryText(pairs));
    WordConcat(HttpEncode(path), [QUESTION] + QueryText(pairs));
  }

  lemma UrlDecodes(path: seq<Byte>, pairs: seq<Pair>)
    requires NUL !in path
    ensures CharDecode(UrlOf(path, pairs)) == Location(path, Some(QueryText(pairs))) && UpToNul(path) == path
  {
    hide CharDecode, EncodeAll;
    EncodeIsEncodeAll(path, IsAlphanumeric);
    EncodedPath(path, IsAlphanumeric, QueryText(pairs));
    UpToNulWhole(path);
  }

  /** A request for an encoded path with an encoded query gives the path as its file, and a query from which
      parsing adds every pair in order. */
  lemma UrlRoundTrip(r: Request, path: seq<Byte>, pairs: seq<Pair>, other: Other, headers: Headers, f: Form)
    requires NUL !in path && Writable(pairs) && r.url == UrlOf(path, pairs)
    requires IsWord(r.verb) && IsWord(r.protocol) && forall h <- r.headers :: IsHeader(h)
    ensures var p := ParseRequest(Text(r), |Head(r)|, other, headers);
      && p.code == OK
      && "file" in p.other && p.other["file"] == path
      && "query" in p.other && Parse(p.other["query"], f) == AddAll(f, pairs)
  {
    hide ParseRequest, CharDecode, UrlOf, QueryText, Parse, AddAll, IsWord, Text, Head, AddHeaders;
    UrlIsWord(path, pairs);
    RequestRoundTrip(r, other, headers);
    UrlDecodes(path, pairs);
    QueryRoundTrip(pairs, f);
  }

  /** The file of a request whose URL has neither `%` nor `?` is the URL as it stands, up to a NUL: no other byte,
      `+` included, is decoded. */
  lemma PlainUrl(r: Request, other: Other, headers: Headers)
    requires IsRequest(r) && PERCENT !in r.url && QUESTION !in r.url
    ensures var p := ParseRequest(Text(r), |Head(r)|, other, headers);
      && p.code == OK && "file" in p.other && p.other["file"] == UpToNul(r.url)
      && "raw_url" in p.other && p.other["raw_url"] == r.url
      && ("query" in p.other <==> "query" in other) && ("query" in other ==> p.other["query"] == other["query"])
  {
    hide ParseRequest, CharDecode, IsWord, Text, Head, AddHeaders, UpToNul;
    RequestRoundTrip(r, other, headers);
    PlainPath(r.url);
  }

  /** A path encoded with any set without `%` and `?`, and any query after it, are the file and the query. */
  lemma EncodedUrl(r: Request, path: seq<Byte>, safe: SafeSet, query: seq<Byte>, other: Other, headers: Headers)
    requires IsRequest(r) && NUL !in path && !safe(PERCENT) && !safe(QUESTION)
    requires r.url == EncodeAll(path, safe) + ([QUESTION] + query)
    ensures var p := ParseRequest(Text(r), |Head(r)|, other, headers);
      && p.code == OK && "file" in p.other && p.other["file"] == path
      && "query" in p.other && p.other["query"] == query
  {
    hide ParseRequest, CharDecode, IsWord, Text, Head, AddHeaders, UpToNul;
    RequestRoundTrip(r, other, headers);
    EncodedPath(path, safe, query);
    UpToNulWhole(path);
  }

  /** A variable with a value, written in any way that decodes with `+` for a space. */
  lemma PairIsRead(keyCodes: seq<seq<Byte>>, key: seq<Byte>, codes: seq<seq<Byte>>, value: seq<Byte>, f: Form)
    requires WritesAll(keyCodes, key, 0) && WritesAll(codes, value, 0) && value != []
    requires var k := Flat(keyCodes); AMPERSAND !in k && SEMICOLON !in k && EQUALS !in k && (k == [] || k[0] != NUL)
    requires AMPERSAND !in Flat(codes) && SEMICOLON !in Flat(codes)
    ensures Parse(Flat(keyCodes) + ([EQUALS] + Flat(codes)), f)
         == f.(vars := f.vars[key := if key in f.vars then f.vars[key] + [NUL] + value else value])
  {
    hide UrlDecode, WritesAll, Flat, Parse;
    var k, v := Flat(keyCodes), Flat(codes);
    var q := k + ([EQUALS] + v);
    WrittenWhole(keyCodes, key);
    WrittenWhole(codes, value);
    FlatNotEmpty(codes, value);
    OneSegment(q, k, v);
    assert q[0] == if k == [] then EQUALS else k[0];
    assert k != [] ==> k[0] in k;
    OneAssignment(q, f, k, v);
  }

  lemma WrittenWhole(codes: seq<seq<Byte>>, s: seq<Byte>)
    requires WritesAll(codes, s, 0)
    ensures UrlDecode(Flat(codes), 0) == s
  {
    hide UrlDecode, WritesAll, Flat;
    WrittenIsDecoded(codes, s, [], 0);
    assert Flat(codes) + [] == Flat(codes) && s + [] == s;
  }

  lemma FlatNotEmpty(codes: seq<seq<Byte>>, s: seq<Byte>)
    requires WritesAll(codes, s, 0) && s != []
    ensures Flat(codes) != []
  {
    assert Writes(codes[0], s[0], 0);
  }

  lemma OneSegment(q: seq<Byte>, k: seq<Byte>, v: seq<Byte>)
    requires q == k + ([EQUALS] + v) && AMPERSAND !in k && SEMICOLON !in k && EQUALS !in k
    requires AMPERSAND !in v && SEMICOLON !in v
    ensures NextSeparator(q, 0) == |q| && FirstEquals(q, 0) == |k| < |q| && q[..|k|] == k && q[|k| + 1..] == v
  {
    forall j | 0 <= j < |q| ensures !IsSeparator(q[j]) && (j < |k| ==> q[j] != EQUALS) {
      if j < |k| {
        assert q[j] == k[j];
      } else if j > |k| {
        assert q[j] == v[j - |k| - 1];
      }
    }
    assert q[|k|] == EQUALS;
  }

  lemma OneAssignment(q: seq<Byte>, f: Form, k: seq<Byte>, v: seq<Byte>)
    requires q != [] && !IsBlank(q) && q[0] != SEMICOLON && NextSeparator(q, 0) == |q| && v != []
    requires FirstEquals(q, 0) == |k| < |q| && q[..|k|] == k && q[|k| + 1..] == v
    ensures var key, value := UrlDecode(k, 0), UrlDecode(v, 0);
      Parse(q, f) == f.(vars := f.vars[key := if key in f.vars then f.vars[key] + [NUL] + value else value])
  {
    hide UrlDecode, NextSeparator, FirstEquals;
    assert q[..|q|] == q;
    var key, value := UrlDecode(k, 0), UrlDecode(v, 0);
    assert key in f.vars ==> f.vars[key] + ([NUL] + value) == f.vars[key] + [NUL] + value;
  }
}
