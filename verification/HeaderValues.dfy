/** Values in HTTP headers: how a response writes them and how a request reads them. */
module HeaderValues {
  import opened Basics
  import opened JavaText
  import opened Alphabet

  /// Writing
  /// -------

  predicate IsSpecial(c: Unit)
  {
    // ( ) [ ] " , \ / { } and : ; < = > ? @
    c in [40, 41, 91, 93, 34, 44, 92, 47, 123, 125] || 58 <= c <= 64
  }

  predicate BadAtomChar(c: Unit)
  {
    c <= 32 || c >= 127 || IsSpecial(c)
  }

  predicate IsAtom(v: Text)
  {
    v != [] && forall c <- v :: !BadAtomChar(c)
  }

  // Every `c` in `v` gets a backslash before it.
  function EscapeOne(v: Text, c: Unit): Text
  {
    if v == [] then [] else (if v[0] == c then [BACKSLASH, c] else [v[0]]) + EscapeOne(v[1..], c)
  }

  function Escape(v: Text): Text
  {
    if v == [] then []
    else (if v[0] == BACKSLASH || v[0] == QUOTE then [BACKSLASH, v[0]] else [v[0]]) + Escape(v[1..])
  }

  /** encodeValue: an atom as it is, anything else as a quoted string. */
  function EncodeValue(v: Text): Text
  {
    if IsAtom(v) then v else [QUOTE] + Escape(v) + [QUOTE]
  }

  lemma {:induction false} EscapeTwice(v: Text)
    ensures EscapeOne(EscapeOne(v, BACKSLASH), QUOTE) == Escape(v)
  {
    if v != [] {
      var rest := EscapeOne(v[1..], BACKSLASH);
      EscapeTwice(v[1..]);
      var s := (if v[0] == BACKSLASH then [BACKSLASH, v[0]] else [v[0]]) + rest;
      if v[0] == BACKSLASH {
        assert s[1..] == [BACKSLASH] + rest;
        assert s[1..][1..] == rest;
      } else {
        assert s[1..] == rest;
      }
    }
  }

  lemma {:induction false} EscapeOneConcat(a: Text, b: Text, c: Unit)
    ensures EscapeOne(a + b, c) == EscapeOne(a, c) + EscapeOne(b, c)
  {
    if a == [] {
      assert a + b == b;
    } else {
      assert (a + b)[1..] == a[1..] + b;
      EscapeOneConcat(a[1..], b, c);
    }
  }

  lemma {:induction false} EscapeNothing(v: Text, c: Unit)
    requires c !in v
    ensures EscapeOne(v, c) == v
  {
    if v != [] {
      assert v[0] in v;
      EscapeNothing(v[1..], c);
    }
  }

  // Inserts a backslash before every `c`, one after the other.
  method InsertBackslashes(v: Text, c: Unit) returns (val: Text)
    ensures val == EscapeOne(v, c)
  {
    hide EscapeOne, IndexOf;
    val := v;
    var p := IndexOf(val, c, 0);
    ghost var done, rest := [], v;
    while p >= 0
      invariant val == done + rest && done + EscapeOne(rest, c) == EscapeOne(v, c)
      invariant p == IndexOf(val, c, |done|)
      decreases |rest|
    {
      var k := p - |done|;
      FirstInRest(done, rest, c, p);
      InsertOne(done, rest, k, c);
      InsertAt(done, rest, k, c);
      val := val[..p] + [BACKSLASH] + val[p..];
      done, rest := done + rest[..k] + [BACKSLASH, c], rest[k + 1..];
      p := IndexOf(val, c, p + 2);
    }
    FirstInRest(done, rest, c, p);
    EscapeNothing(rest, c);
  }

  lemma FirstInRest(done: Text, rest: Text, c: Unit, p: int)
    requires p == IndexOf(done + rest, c, |done|)
    ensures p < 0 ==> c !in rest
    ensures p >= 0 ==> var k := p - |done|; 0 <= k < |rest| && rest[k] == c && forall j :: 0 <= j < k ==> rest[j] != c
  {
    hide IndexOf;
    assert forall j :: 0 <= j < |rest| ==> (done + rest)[|done| + j] == rest[j];
  }

  lemma InsertAt(done: Text, rest: Text, k: nat, c: Unit)
    requires k < |rest| && rest[k] == c
    ensures var val, p := done + rest, |done| + k;
      val[..p] + [BACKSLASH] + val[p..] == (done + rest[..k] + [BACKSLASH, c]) + rest[k + 1..]
  {
    var val, p := done + rest, |done| + k;
    assert val[..p] == done + rest[..k] && val[p..] == [c] + rest[k + 1..];
  }

  lemma InsertOne(done: Text, rest: Text, k: nat, c: Unit)
    requires k < |rest| && rest[k] == c && forall j :: 0 <= j < k ==> rest[j] != c
    ensures done + EscapeOne(rest, c) == done + rest[..k] + [BACKSLASH, c] + EscapeOne(rest[k + 1..], c)
  {
    var head, tail := rest[..k], rest[k + 1..];
    assert rest == head + ([c] + tail);
    EscapeOneConcat(head, [c] + tail, c);
    EscapeNothing(head, c);
    assert ([c] + tail)[1..] == tail;
  }

  method EncodeValueOf(v: Text) returns (r: Text)
    ensures r == EncodeValue(v)
  {
    if |v| == 0 {
      assert [QUOTE] + Escape(v) + [QUOTE] == [QUOTE, QUOTE];
      return [QUOTE, QUOTE];
    }
    var i := 0;
    while i < |v|
      invariant i <= |v| && forall j :: 0 <= j < i ==> !BadAtomChar(v[j])
    {
      if BadAtomChar(v[i]) {
        var val := InsertBackslashes(v, BACKSLASH);
        val := InsertBackslashes(val, QUOTE);
        EscapeTwice(v);
        return [QUOTE] + val + [QUOTE];
      }
      i := i + 1;
    }
    r := v;
  }

  /// Reading
  /// -------

  predicate BadTokenChar(c: Unit)
  {
    c <= 32 || c == 127 || IsSpecial(c)
  }

  /** Where a comment stops being skipped: on the parenthesis that closes it, or at the end. */
  function SkipComment(h: Text, p: nat, depth: int): (q: nat)
    requires p <= |h|
    ensures p <= q <= |h|
    decreases |h| - p
  {
    if p == |h| then p
    else if h[p] == RPAREN && depth == 1 then p
    else
      var d := if h[p] == LPAREN then depth + 1 else if h[p] == RPAREN then depth - 1 else depth;
      SkipComment(h, if h[p] == BACKSLASH && p + 1 < |h| then p + 2 else p + 1, d)
  }

  function SkipWS(h: Text, p: nat): (q: nat)
    requires p <= |h|
    ensures p <= q <= |h|
    decreases |h| - p
  {
    if p == |h| then p
    else if h[p] <= SPACE then SkipWS(h, p + 1)
    else if h[p] == LPAREN then SkipWS(h, SkipComment(h, p + 1, 1))
    else p
  }

  lemma {:induction false} CommentEnd(h: Text, p: nat, depth: int)
    requires p <= |h|
    ensures var q := SkipComment(h, p, depth); q < |h| ==> h[q] == RPAREN
    decreases |h| - p
  {
    if p < |h| && !(h[p] == RPAREN && depth == 1) {
      var d := if h[p] == LPAREN then depth + 1 else if h[p] == RPAREN then depth - 1 else depth;
      CommentEnd(h, if h[p] == BACKSLASH && p + 1 < |h| then p + 2 else p + 1, d);
    }
  }

  /** A comment that is closed is not skipped: what follows is read from its closing parenthesis on. */
  lemma CommentStops(h: Text, p: nat)
    requires p < |h| && h[p] == LPAREN
    ensures var q := SkipWS(h, p); q == SkipComment(h, p + 1, 1) && (q < |h| ==> h[q] == RPAREN)
  {
    hide SkipComment;
    CommentEnd(h, p + 1, 1);
  }

  function TokenEnd(h: Text, p: nat): (q: nat)
    requires p <= |h|
    ensures p <= q <= |h|
    decreases |h| - p
  {
    if p < |h| && !BadTokenChar(h[p]) then TokenEnd(h, p + 1) else p
  }

  // The quote that ends a string; past the end if there is none.
  function QuoteEnd(h: Text, p: nat): (q: nat)
    ensures p <= q
    decreases |h| - p
  {
    if p >= |h| || h[p] == QUOTE then p
    else if h[p] == BACKSLASH then QuoteEnd(h, p + 2)
    else QuoteEnd(h, p + 1)
  }

  function Unescape(v: Text): Text
    decreases |v|
  {
    if v == [] then []
    else if v[0] != BACKSLASH then [v[0]] + Unescape(v[1..])
    else if |v| == 1 then []
    else [v[1]] + Unescape(v[2..])
  }

  // What was read, and where the reader stopped; nothing if it threw an exception.
  datatype Read = Read(value: Text, pos: nat)

  function GetToken(h: Text, p: nat, lower: Lowering): (r: Option<Read>)
    requires p <= |h|
    ensures r.Some? ==> p < r.value.pos <= |h|
  {
    var p0 := SkipWS(h, p);
    var q := TokenEnd(h, p0);
    if q == p0 then None else Some(Read(lower(h[p0..q]), q))
  }

  function GetValue(h: Text, p: nat, lower: Lowering): (r: Option<Read>)
    requires p <= |h|
    ensures r.Some? ==> p < r.value.pos <= |h|
  {
    var p0 := SkipWS(h, p);
    if p0 == |h| || h[p0] != QUOTE then GetToken(h, p, lower)
    else
      var q := QuoteEnd(h, p0 + 1);
      if q >= |h| then None else Some(Read(Unescape(h[p0 + 1..q]), q + 1))
  }

  /// What is written can be read
  /// ---------------------------

  // What reading gives back: a quoted value as it was, an atom in lower case.
  function Recovered(v: Text): Text
  {
    if IsAtom(v) then AsciiLower(v) else v
  }

  lemma {:induction false} UnescapeEscape(v: Text)
    ensures Unescape(Escape(v)) == v
  {
    if v != [] {
      var rest := Escape(v[1..]);
      UnescapeEscape(v[1..]);
      if v[0] == BACKSLASH || v[0] == QUOTE {
        assert ([BACKSLASH, v[0]] + rest)[2..] == rest;
      } else {
        assert ([v[0]] + rest)[1..] == rest;
      }
    }
  }

  // The quote that ends an escaped value is found past the whole of it.
  lemma {:induction false} QuoteAfterEscape(h: Text, p: nat, v: Text)
    requires p + |Escape(v)| < |h| && h[p..p + |Escape(v)|] == Escape(v) && h[p + |Escape(v)|] == QUOTE
    ensures QuoteEnd(h, p) == p + |Escape(v)|
    decreases |v|
  {
    if v != [] {
      var first := if v[0] == BACKSLASH || v[0] == QUOTE then [BACKSLASH, v[0]] else [v[0]];
      var all := Escape(v);
      assert all == first + Escape(v[1..]);
      assert h[p] == all[0];
      assert h[p + |first|..p + |all|] == h[p..p + |all|][|first|..] == Escape(v[1..]);
      QuoteAfterEscape(h, p + |first|, v[1..]);
    }
  }

  lemma {:induction false} TokenEndIs(h: Text, p: nat, q: nat)
    requires p <= q <= |h| && (forall k :: p <= k < q ==> !BadTokenChar(h[k])) && (q < |h| ==> BadTokenChar(h[q]))
    ensures TokenEnd(h, p) == q
    decreases q - p
  {
    if p < q {
      TokenEndIs(h, p + 1, q);
    }
  }

  // What may follow a value.
  predicate EndsValue(h: Text, p: nat)
  {
    p >= |h| || h[p] in [EQUALS, SEMICOLON, COMMA, SPACE]
  }

  /** Reading a written value gives it back, in lower case if it was a bare atom, and stops right after it. */
  lemma ValueRoundTrip(h: Text, p: nat, v: Text, lower: Lowering)
    requires p <= |h| && EncodeValue(v) <= h[p..] && EndsValue(h, p + |EncodeValue(v)|)
    requires LowersAscii(lower)
    ensures GetValue(h, p, lower) == Some(Read(Recovered(v), p + |EncodeValue(v)|))
  {
    hide Escape, Unescape, BadTokenChar;
    var code := EncodeValue(v);
    var q := p + |code|;
    assert h[p..q] == code;
    assert h[p] == code[0];
    if IsAtom(v) {
      AtomIsToken(h, p, q, v);
      assert SkipWS(h, p) == p;
      TokenEndIs(h, p, q);
      assert lower(v) == AsciiLower(v) by { AtomIsAscii(v); }
    } else {
      var inner := Escape(v);
      assert h[p + 1..q - 1] == code[1..|code| - 1] == inner;
      assert h[q - 1] == code[|code| - 1] == QUOTE;
      assert SkipWS(h, p) == p;
      QuoteAfterEscape(h, p + 1, v);
      UnescapeEscape(v);
    }
  }

  lemma AtomIsAscii(v: Text)
    requires IsAtom(v)
    ensures forall c <- v :: c < 128
  {}

  lemma AtomIsToken(h: Text, p: nat, q: nat, v: Text)
    requires IsAtom(v) && p < q <= |h| && h[p..q] == v && EndsValue(h, q)
    ensures forall k :: p <= k < q ==> !BadTokenChar(h[k])
    ensures q < |h| ==> BadTokenChar(h[q])
    ensures h[p] > SPACE && h[p] != LPAREN && h[p] != QUOTE
  {
    forall k | p <= k < q ensures !BadAtomChar(h[k]) {
      assert h[k] == v[k - p] && v[k - p] in v;
    }
  }

  /** A value comes back as it was if and only if it was quoted or has no capital letter. */
  lemma RecoveredExactly(v: Text)
    ensures Recovered(v) == v <==> !IsAtom(v) || forall c <- v :: !(65 <= c <= 90)
  {
    if IsAtom(v) && Recovered(v) == v {
      forall c <- v ensures !(65 <= c <= 90) {
        var i :| 0 <= i < |v| && v[i] == c;
        assert v[i] == AsciiLower(v)[i];
      }
    }
    assert forall i :: 0 <= i < |v| ==> v[i] in v;
  }

  /// Separators, section 2.2 of RFC 2616
  /// -----------------------------------

  const SEPARATORS := "()<>@,;:\\\"/[]?={} \t"

  // A character of a token: neither a control character nor a separator.
  predicate IsTokenChar(c: Unit)
  {
    c >= 32 && c != 127 && !Among(c, SEPARATORS)
  }

  lemma SpecialSpelled(c: Unit)
    ensures IsSpecial(c) || c == 32 || c == 9 <==> Among(c, SEPARATORS)
  {
    var t := SEPARATORS;
    assert t[0] as int == 40 && t[1] as int == 41 && t[2] as int == 60 && t[3] as int == 62 && t[4] as int == 64;
    assert t[5] as int == 44 && t[6] as int == 59 && t[7] as int == 58 && t[8] as int == 92 && t[9] as int == 34;
    assert t[10] as int == 47 && t[11] as int == 91 && t[12] as int == 93 && t[13] as int == 63 && t[14] as int == 61;
    assert t[15] as int == 123 && t[16] as int == 125 && t[17] as int == 32 && t[18] as int == 9;
  }

  /** A value is written bare exactly when it is a token of ASCII characters. */
  lemma BareExactly(v: Text)
    ensures EncodeValue(v) == v <==> v != [] && forall c <- v :: c < 127 && IsTokenChar(c)
  {
    hide Escape, IsSpecial;
    forall c <- v ensures !BadAtomChar(c) <==> c < 127 && IsTokenChar(c) {
      SpecialSpelled(c);
    }
    if !IsAtom(v) {
      QuotedIsLonger(v);
    }
  }

  lemma {:induction false} QuotedIsLonger(v: Text)
    ensures |Escape(v)| >= |v|
  {
    if v != [] {
      QuotedIsLonger(v[1..]);
    }
  }

  /// Any text that can be read
  /// -------------------------

  /** A token is read up to the first character that cannot be in one. */
  lemma TokenIsRead(w: Text, rest: Text, lower: Lowering)
    requires w != [] && (forall c <- w :: IsTokenChar(c)) && (rest == [] || !IsTokenChar(rest[0]))
    ensures GetValue(w + rest, 0, lower) == GetToken(w + rest, 0, lower) == Some(Read(lower(w), |w|))
  {
    hide IsSpecial, IsTokenChar, TokenEnd, QuoteEnd, Unescape;
    var h := w + rest;
    forall k | 0 <= k < |w| ensures !BadTokenChar(h[k]) {
      assert h[k] == w[k] && w[k] in w;
      TokenCharSpelled(h[k]);
    }
    if rest != [] {
      TokenCharSpelled(rest[0]);
    }
    TokenEndIs(h, 0, |w|);
    TokenCharSpelled(w[0]);
    assert w[0] in w;
    assert h[..|w|] == w;
    assert h[0] == w[0];
    FirstOfToken(w[0]);
    assert SkipWS(h, 0) == 0;
  }

  lemma TokenCharSpelled(c: Unit)
    ensures IsTokenChar(c) <==> !BadTokenChar(c)
  {
    hide IsSpecial;
    SpecialSpelled(c);
  }

  lemma FirstOfToken(c: Unit)
    requires !BadTokenChar(c)
    ensures c > SPACE && c != LPAREN && c != QUOTE
  {}

  // Between quotes a character is written as itself or, whichever it is, with a backslash before it.
  predicate Quotes(code: Text, c: Unit)
  {
    (code == [c] && c != QUOTE && c != BACKSLASH) || code == [BACKSLASH, c]
  }

  predicate QuotesAll(codes: seq<Text>, v: Text)
  {
    |codes| == |v| && forall i :: 0 <= i < |v| ==> Quotes(codes[i], v[i])
  }

  function Flat(codes: seq<Text>): Text
  {
    if codes == [] then [] else codes[0] + Flat(codes[1..])
  }

  lemma {:induction false} UnescapeFlat(codes: seq<Text>, v: Text)
    requires QuotesAll(codes, v)
    ensures Unescape(Flat(codes)) == v
    decreases |codes|
  {
    if codes != [] {
      var rest := Flat(codes[1..]);
      UnescapeFlat(codes[1..], v[1..]);
      assert Quotes(codes[0], v[0]);
      assert (codes[0] + rest)[|codes[0]|..] == rest;
      assert [v[0]] + v[1..] == v;
    }
  }

  lemma Behind(h: Text, p: nat, a: Text, b: Text)
    requires p <= |h| && h[p..] == a + b
    ensures p + |a| <= |h| && h[p + |a|..] == b && (a != [] ==> h[p] == a[0])
  {
    assert h[p + |a|..] == h[p..][|a|..];
    assert a != [] ==> h[p] == h[p..][0];
  }

  // Where the codes end in a text.
  lemma {:induction false} QuoteEndOfFlat(h: Text, p: nat, codes: seq<Text>, v: Text, rest: Text)
    requires p <= |h| && h[p..] == Flat(codes) + rest && QuotesAll(codes, v)
    ensures p + |Flat(codes)| <= |h| && QuoteEnd(h, p) == QuoteEnd(h, p + |Flat(codes)|)
    decreases |codes|
  {
    hide QuoteEnd;
    if codes != [] {
      var code, tail := codes[0], Flat(codes[1..]);
      assert Quotes(code, v[0]);
      ConcatAssoc(code, tail, rest);
      Behind(h, p, code, tail + rest);
      QuoteEndOfFlat(h, p + |code|, codes[1..], v[1..], rest);
      QuoteEndOfCode(h, p, code, v[0]);
    }
  }

  lemma QuoteEndOfCode(h: Text, p: nat, code: Text, c: Unit)
    requires Quotes(code, c) && p < |h| && h[p] == code[0]
    ensures QuoteEnd(h, p) == QuoteEnd(h, p + |code|)
  {}

  /** A quoted string is read as what was written for it; without its ending quote it is not read. */
  lemma QuotedIsRead(codes: seq<Text>, v: Text, rest: Text, lower: Lowering)
    requires QuotesAll(codes, v)
    ensures GetValue([QUOTE] + Flat(codes) + ([QUOTE] + rest), 0, lower) == Some(Read(v, |Flat(codes)| + 2))
    ensures GetValue([QUOTE] + Flat(codes), 0, lower) == None
    ensures GetValue([QUOTE] + Flat(codes) + [BACKSLASH], 0, lower) == None
  {
    hide Flat, Unescape, QuotesAll, GetToken;
    var n := |Flat(codes)|;
    var h, open := [QUOTE] + Flat(codes) + ([QUOTE] + rest), [QUOTE] + Flat(codes);
    var cut := open + [BACKSLASH];
    assert h[1..] == Flat(codes) + ([QUOTE] + rest) && h[1..n + 1] == Flat(codes) && h[n + 1] == QUOTE;
    assert open[1..] == Flat(codes) + [] && cut[1..] == Flat(codes) + [BACKSLASH] && cut[n + 1] == BACKSLASH;
    QuoteEndOfFlat(h, 1, codes, v, [QUOTE] + rest);
    QuoteEndOfFlat(open, 1, codes, v, []);
    QuoteEndOfFlat(cut, 1, codes, v, [BACKSLASH]);
    UnescapeFlat(codes, v);
    assert SkipWS(h, 0) == SkipWS(open, 0) == SkipWS(cut, 0) == 0;
  }

  // The inside of a comment: characters, a backslash with any character, and comments.
  datatype Nest = End | Char(c: Unit, rest: Nest) | Escaped(c: Unit, rest: Nest) | Group(inner: Nest, rest: Nest)
  {
    predicate Valid()
    {
      match this
      case End => true
      case Char(c, rest) => c != LPAREN && c != RPAREN && c != BACKSLASH && rest.Valid()
      case Escaped(_, rest) => rest.Valid()
      case Group(inner, rest) => inner.Valid() && rest.Valid()
    }

    function Print(): Text
    {
      match this
      case End => []
      case Char(c, rest) => [c] + rest.Print()
      case Escaped(c, rest) => [BACKSLASH, c] + rest.Print()
      case Group(inner, rest) => [LPAREN] + (inner.Print() + ([RPAREN] + rest.Print()))
    }
  }

  lemma {:induction false} NestIsPassed(h: Text, p: nat, n: Nest, rest: Text, depth: nat)
    requires n.Valid() && depth > 0 && p <= |h| && h[p..] == n.Print() + rest
    ensures p + |n.Print()| <= |h| && SkipComment(h, p, depth) == SkipComment(h, p + |n.Print()|, depth)
    decreases n, 1
  {
    hide SkipComment;
    match n
    case End =>
    case Char(c, more) =>
      ConcatAssoc([c], more.Print(), rest);
      Behind(h, p, [c], more.Print() + rest);
      NestIsPassed(h, p + 1, more, rest, depth);
      OneIsPassed(h, p, depth);
    case Escaped(c, more) =>
      ConcatAssoc([BACKSLASH, c], more.Print(), rest);
      Behind(h, p, [BACKSLASH, c], more.Print() + rest);
      NestIsPassed(h, p + 2, more, rest, depth);
      OneIsPassed(h, p, depth);
    case Group(inner, more) =>
      GroupIsPassed(h, p, n, rest, depth);
  }

  lemma OneIsPassed(h: Text, p: nat, depth: nat)
    requires p < |h| && depth > 0
    ensures h[p] != LPAREN && h[p] != RPAREN && h[p] != BACKSLASH ==>
      SkipComment(h, p, depth) == SkipComment(h, p + 1, depth)
    ensures h[p] == BACKSLASH && p + 1 < |h| ==> SkipComment(h, p, depth) == SkipComment(h, p + 2, depth)
  {}

  lemma {:induction false} GroupIsPassed(h: Text, p: nat, n: Nest, rest: Text, depth: nat)
    requires n.Valid() && n.Group? && depth > 0
    requires p <= |h| && h[p..] == [LPAREN] + (n.inner.Print() + ([RPAREN] + n.rest.Print())) + rest
    ensures var q := p + 2 + |n.inner.Print()| + |n.rest.Print()|;
      q <= |h| && SkipComment(h, p, depth) == SkipComment(h, q, depth)
    decreases n, 0
  {
    hide Nest.Print, SkipComment;
    var inner, more := n.inner, n.rest;
    var tail := [RPAREN] + (more.Print() + rest);
    assert h[p..] == [LPAREN] + (inner.Print() + tail);
    Behind(h, p, [LPAREN], inner.Print() + tail);
    NestIsPassed(h, p + 1, inner, tail, depth + 1);
    var q := p + 1 + |inner.Print()|;
    Behind(h, p + 1, inner.Print(), tail);
    Behind(h, q, [RPAREN], more.Print() + rest);
    NestIsPassed(h, q + 1, more, rest, depth);
    Parentheses(h, p, q, depth);
  }

  lemma Parentheses(h: Text, p: nat, q: nat, depth: nat)
    requires p < |h| && q < |h| && h[p] == LPAREN && h[q] == RPAREN && depth > 0
    ensures SkipComment(h, p, depth) == SkipComment(h, p + 1, depth + 1)
    ensures SkipComment(h, q, depth + 1) == SkipComment(h, q + 1, depth)
  {}

  /** Spaces and control characters are skipped, and a comment up to the parenthesis that closes it, with the comments
      and the escapes in it. */
  lemma SpaceIsSkipped(space: Text, n: Nest, rest: Text)
    requires (forall c <- space :: c <= 32) && n.Valid()
    ensures SkipWS(space + ([LPAREN] + (n.Print() + ([RPAREN] + rest))), 0) == |space| + 1 + |n.Print()|
    ensures rest == [] || (rest[0] > 32 && rest[0] != LPAREN) ==> SkipWS(space + rest, 0) == |space|
  {
    hide Nest.Print, SkipComment;
    var body := n.Print() + ([RPAREN] + rest);
    SkipSpaces(space, [LPAREN] + body);
    SkipSpaces(space, rest);
    CommentIsPassed(space + ([LPAREN] + body), |space|, n, rest);
  }

  lemma CommentIsPassed(h: Text, p: nat, n: Nest, rest: Text)
    requires n.Valid() && p <= |h| && h[p..] == [LPAREN] + (n.Print() + ([RPAREN] + rest))
    ensures SkipWS(h, p) == p + 1 + |n.Print()|
  {
    hide Nest.Print, SkipComment;
    var q := p + 1 + |n.Print()|;
    Behind(h, p, [LPAREN], n.Print() + ([RPAREN] + rest));
    NestIsPassed(h, p + 1, n, [RPAREN] + rest, 1);
    Behind(h, p + 1, n.Print(), [RPAREN] + rest);
    Behind(h, q, [RPAREN], rest);
    Closing(h, q);
  }

  lemma Closing(h: Text, q: nat)
    requires q < |h| && h[q] == RPAREN
    ensures SkipComment(h, q, 1) == q
  {}

  lemma SkipSpaces(space: Text, rest: Text)
    requires forall c <- space :: c <= 32
    ensures SkipWS(space + rest, 0) == SkipWS(space + rest, |space|)
  {
    var h := space + rest;
    forall k | 0 <= k < |space| ensures h[k] <= SPACE {
      assert h[k] == space[k] && space[k] in space;
    }
    SkipFrom(h, 0, |space|);
  }

  lemma {:induction false} SkipFrom(h: Text, i: nat, p: nat)
    requires i <= p <= |h| && forall k :: i <= k < p ==> h[k] <= SPACE
    ensures SkipWS(h, i) == SkipWS(h, p)
    decreases p - i
  {
    if i < p {
      SkipFrom(h, i + 1, p);
    }
  }
}
