/** The tokenizer of header values: a position that moves over a header. */
module HeaderTokenizer {
  import opened Basics
  import opened JavaText
  import opened HeaderValues

  /** Where a method can throw, `ok` says that it did not. */
  class Tokenizer {
    const header: Text
    const lower: Lowering
    var pos: nat

    ghost predicate Valid()
      reads this
    {
      pos <= |header|
    }

    constructor (h: Text, lower: Lowering)
      ensures header == h && this.lower == lower && pos == 0 && Valid()
    {
      header, pos, this.lower := h, 0, lower;
    }

    method SkipCommentHere()
      requires Valid() && pos < |header| && header[pos] == LPAREN
      modifies this`pos
      ensures Valid() && pos == SkipComment(header, old(pos) + 1, 1) && old(pos) < pos
    {
      var pc := 0;
      ghost var start := pos;
      while pos < |header|
        invariant (pos == start && pc == 0)
               || (start < pos <= |header| && pc >= 1
                   && SkipComment(header, pos, pc) == SkipComment(header, start + 1, 1))
        decreases |header| - pos
      {
        if header[pos] == LPAREN {
          pc := pc + 1;
        } else if header[pos] == RPAREN {
          pc := pc - 1;
          if pc == 0 {
            return;
          }
        } else if header[pos] == BACKSLASH {
          if pos + 1 < |header| {
            pos := pos + 1;
          }
        }
        pos := pos + 1;
      }
    }

    method SkipSpace()
      requires Valid()
      modifies this`pos
      ensures Valid() && pos == SkipWS(header, old(pos))
    {
      ghost var start := pos;
      while true
        invariant pos <= |header| && SkipWS(header, pos) == SkipWS(header, start)
        decreases |header| - pos
      {
        while pos < |header| && header[pos] <= SPACE
          invariant pos <= |header| && SkipWS(header, pos) == SkipWS(header, start)
        {
          pos := pos + 1;
        }
        if pos < |header| && header[pos] == LPAREN {
          SkipCommentHere();
        } else {
          return;
        }
      }
    }

    method LookingAt(c: Unit) returns (b: bool)
      requires Valid()
      modifies this`pos
      ensures Valid() && pos == SkipWS(header, old(pos)) && b == (pos < |header| && header[pos] == c)
    {
      SkipSpace();
      b := pos < |header| && header[pos] == c;
    }

    method Discard(c: Unit) returns (ok: bool)
      requires Valid()
      modifies this`pos
      ensures Valid()
      ensures var p := SkipWS(header, old(pos));
        ok == (p < |header| && header[p] == c) && pos == if ok then p + 1 else p
    {
      ok := LookingAt(c);
      if ok {
        pos := pos + 1;
      }
    }

    method More() returns (b: bool)
      requires Valid()
      modifies this`pos
      ensures Valid() && pos == SkipWS(header, old(pos)) && b == (pos < |header|)
    {
      SkipSpace();
      b := pos < |header|;
    }

    method ReadToken() returns (r: Option<Text>)
      requires Valid()
      modifies this`pos
      ensures Valid()
      ensures match GetToken(header, old(pos), lower)
        case None => r == None
        case Some(read) => r == Some(read.value) && pos == read.pos
    {
      SkipSpace();
      var p0 := pos;
      while pos < |header| && !BadTokenChar(header[pos])
        invariant p0 <= pos <= |header| && TokenEnd(header, pos) == TokenEnd(header, p0)
      {
        pos := pos + 1;
      }
      r := if pos == p0 then None else Some(lower(header[p0..pos]));
    }

    // Removes each backslash and keeps the character after it.
    static method RemoveBackslashes(s: Text) returns (v: Text)
      ensures v == Unescape(s)
    {
      hide Unescape, IndexOf;
      v := s;
      var p0 := IndexOf(v, BACKSLASH, 0);
      ghost var done, rest := [], s;
      while p0 >= 0
        invariant v == done + rest && done + Unescape(rest) == Unescape(s)
        invariant p0 == IndexOf(v, BACKSLASH, |done|)
        decreases |v|
      {
        FirstInRest(done, rest, BACKSLASH, p0);
        ghost var k := p0 - |done|;
        ghost var kept := if k + 1 < |rest| then k + 2 else k + 1;
        UnescapeAt(done, rest, k);
        v := v[..p0] + v[p0 + 1..];
        done, rest := done + rest[..k] + rest[k + 1..kept], rest[kept..];
        assert v == done + rest;
        SearchFrom(v, BACKSLASH, |done|, p0 + 1);
        p0 := IndexOf(v, BACKSLASH, p0 + 1);
      }
      FirstInRest(done, rest, BACKSLASH, p0);
      UnescapeNothing(rest);
    }

    method ReadValue() returns (r: Option<Text>)
      requires Valid()
      modifies this`pos
      ensures match GetValue(header, old(pos), lower)
        case None => r == None
        case Some(read) => r == Some(read.value) && pos == read.pos && Valid()
    {
      ghost var start := pos;
      var quoted := LookingAt(QUOTE);
      if !quoted {
        TokenSkipsTwice(header, start, lower);
        r := ReadToken();
        return;
      }
      pos := pos + 1;
      var p0 := pos;
      while pos < |header| && header[pos] != QUOTE
        invariant p0 <= pos && QuoteEnd(header, pos) == QuoteEnd(header, p0)
        decreases |header| - pos
      {
        if header[pos] == BACKSLASH {
          pos := pos + 2;
        } else {
          pos := pos + 1;
        }
      }
      if pos >= |header| {
        return None;
      }
      var v := RemoveBackslashes(header[p0..pos]);
      pos := pos + 1;
      r := Some(v);
    }
  }

  // Skipping again does nothing.
  lemma {:induction false} SkipTwice(h: Text, p: nat)
    requires p <= |h|
    ensures SkipWS(h, SkipWS(h, p)) == SkipWS(h, p)
    decreases |h| - p
  {
    if p < |h| {
      if h[p] <= SPACE {
        SkipTwice(h, p + 1);
      } else if h[p] == LPAREN {
        SkipTwice(h, SkipComment(h, p + 1, 1));
      }
    }
  }

  lemma TokenSkipsTwice(h: Text, p: nat, lower: Lowering)
    requires p <= |h|
    ensures GetToken(h, SkipWS(h, p), lower) == GetToken(h, p, lower)
  {
    SkipTwice(h, p);
  }

  lemma SearchFrom(v: Text, c: Unit, i: nat, j: nat)
    requires i == j || i == |v| < j
    ensures IndexOf(v, c, i) == IndexOf(v, c, j)
  {}

  lemma {:induction false} UnescapeNothing(v: Text)
    requires BACKSLASH !in v
    ensures Unescape(v) == v
  {
    if v != [] {
      assert v[0] in v;
      UnescapeNothing(v[1..]);
    }
  }

  // The first backslash goes, and what follows it stays whatever it is.
  lemma {:induction false} UnescapeAt(done: Text, rest: Text, k: nat)
    requires k < |rest| && rest[k] == BACKSLASH && forall j :: 0 <= j < k ==> rest[j] != BACKSLASH
    ensures var kept := if k + 1 < |rest| then k + 2 else k + 1;
      done + Unescape(rest) == done + rest[..k] + rest[k + 1..kept] + Unescape(rest[kept..])
    decreases k
  {
    var kept := if k + 1 < |rest| then k + 2 else k + 1;
    if k > 0 {
      var tail := rest[1..];
      UnescapeAt(done + [rest[0]], tail, k - 1);
      assert rest[..k] == [rest[0]] + tail[..k - 1];
      assert rest[k + 1..kept] == tail[k..kept - 1] && rest[kept..] == tail[kept - 1..];
      ConcatAssoc(done, [rest[0]], Unescape(tail));
    } else if k + 1 < |rest| {
      assert rest[1..2] == [rest[1]];
    } else {
      assert rest[1..] == [];
    }
  }
}
