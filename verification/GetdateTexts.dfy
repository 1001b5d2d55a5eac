/** How a text of words, numbers, marks and comments is cut into tokens. */
module GetdateTexts {
  import opened GetdateTables
  import opened GetdateGrammar
  import opened GetdateLexer
  import opened GetdateText
  import opened Numerals

  // The text between two parentheses: bytes, and comments within it.
  datatype Nest = End | Byte(c: Char, rest: Nest) | Group(inner: Nest, rest: Nest)
  {
    predicate Valid()
    {
      match this
      case End => true
      case Byte(c, rest) => c != LPAREN && c != RPAREN && rest.Valid()
      case Group(inner, rest) => inner.Valid() && rest.Valid()
    }

    function Text(): seq<Char>
    {
      match this
      case End => []
      case Byte(c, rest) => [c] + rest.Text()
      case Group(inner, rest) => [LPAREN] + (inner.Text() + ([RPAREN] + rest.Text()))
    }
  }

  datatype Piece =
    | Plain(digits: seq<Char>)                  // a number
    | Signed(sign: Char, digits: seq<Char>)     // a number with its sign
    | Word(letters: seq<Char>)
    | Mark(c: Char)                             // any other byte
    | Space(c: Char)
    | Sign(c: Char)                             // a sign without a number
    | Comment(nest: Nest)

  predicate IsSign(c: int)
  {
    c == PLUS || c == MINUS
  }

  predicate IsWordByte(c: int)
  {
    IsAlpha(c) || c == DOT
  }

  function Text(p: Piece): seq<Char>
  {
    match p
    case Plain(ds) => ds
    case Signed(sign, ds) => [sign] + ds
    case Word(w) => w
    case Mark(c) => [c]
    case Space(c) => [c]
    case Sign(c) => [c]
    case Comment(nest) => [LPAREN] + (nest.Text() + [RPAREN])
  }

  // A piece, and that the byte that follows it does not continue it.
  ghost predicate IsPiece(p: Piece, next: int)
  {
    match p
    case Plain(ds) => IsNumeral(ds) && !IsDigit(next)
    case Signed(sign, ds) => IsSign(sign) && IsNumeral(ds) && !IsDigit(next)
    case Word(w) => w != [] && IsAlpha(w[0]) && (forall c <- w :: IsWordByte(c)) && !IsWordByte(next)
    case Mark(c) => c < 128 && !IsSpace(c) && !IsDigit(c) && !IsSign(c) && !IsAlpha(c) && c != LPAREN
    case Space(c) => c in [9, 10, 11, 12, 13, 32]
    case Sign(c) => IsSign(c) && !IsDigit(next)
    case Comment(nest) => nest.Valid()
  }

  function TextOf(ps: seq<Piece>): seq<Char>
  {
    if ps == [] then [] else Text(ps[0]) + TextOf(ps[1..])
  }

  ghost predicate ArePieces(ps: seq<Piece>)
  {
    ps == [] || (IsPiece(ps[0], Head(TextOf(ps[1..]))) && ArePieces(ps[1..]))
  }

  /// Tokens
  /// ------

  function MarkSymbol(c: Char): Terminal
  {
    if c == 58 then T_COLON else if c == 44 then T_COMMA else if c == 47 then T_SLASH else 2
  }

  // The tokens are numbered in this order from 257.
  const WORD_SYMBOLS: seq<Terminal> :=
    [T_AGO, T_DST, T_DAY, T_DAY_UNIT, T_DAYZONE, T_HOUR_UNIT, T_LOCAL_ZONE, T_MERIDIAN, T_MINUTE_UNIT, T_MONTH,
     T_MONTH_UNIT, T_SEC_UNIT, T_YEAR_UNIT, T_ZONE, T_SNUMBER, T_UNUMBER]

  // A word is looked up by its first 19 bytes.
  function WordToken(w: seq<Char>, lval: Value, words: Words): Token
  {
    match words(if |w| > 19 then w[..19] else w)
    case Unknown => Token(2, lval)
    case Known(code, value) => Token(WORD_SYMBOLS[code - 257], Value(value, lval.digits))
  }

  // A number gives its value and its digits, a word what the tables say, and a mark itself; the last two leave what
  // they do not set as it was. Spaces, comments and lone signs give nothing.
  function PieceTokens(p: Piece, lval: Value, words: Words): seq<Token>
  {
    match p
    case Plain(ds) => [Token(T_UNUMBER, Value(ValueOf(ds), |ds|))]
    case Signed(sign, ds) => [Token(T_SNUMBER, Value(if sign == MINUS then -ValueOf(ds) else ValueOf(ds), |ds|))]
    case Word(w) => [WordToken(w, lval, words)]
    case Mark(c) => [Token(MarkSymbol(c), lval)]
    case _ => []
  }

  // The value is that of the last token.
  function Left(toks: seq<Token>, lval: Value): Value
  {
    if toks == [] then lval else toks[|toks| - 1].lval
  }

  function TokensOf(ps: seq<Piece>, lval: Value, words: Words): seq<Token>
  {
    if ps == [] then []
    else
      var toks := PieceTokens(ps[0], lval, words);
      toks + TokensOf(ps[1..], Left(toks, lval), words)
  }

  /// One piece
  /// ---------

  lemma {:induction false} AfterNest(n: Nest, rest: seq<Char>, depth: nat)
    requires n.Valid() && depth > 0
    ensures AfterComment(n.Text() + rest, depth) == AfterComment(rest, depth)
    ensures Closes(n.Text() + rest, depth) == Closes(rest, depth)
    decreases n
  {
    match n
    case End => assert n.Text() + rest == rest;
    case Byte(c, more) =>
      assert (n.Text() + rest)[1..] == more.Text() + rest;
      AfterNest(more, rest, depth);
    case Group(inner, more) =>
      var tail := [RPAREN] + (more.Text() + rest);
      assert (n.Text() + rest)[1..] == inner.Text() + tail;
      AfterNest(inner, tail, depth + 1);
      assert tail[1..] == more.Text() + rest;
      AfterNest(more, rest, depth);
  }

  lemma CommentTokens(nest: Nest, rest: seq<Char>, lval: Value, words: Words)
    requires nest.Valid()
    ensures Tokens([LPAREN] + (nest.Text() + [RPAREN]) + rest, lval, words) == Tokens(rest, lval, words)
  {
    hide Closes, AfterComment;
    var s, tail := [LPAREN] + (nest.Text() + [RPAREN]) + rest, [RPAREN] + rest;
    assert s[1..] == nest.Text() + tail && s[0] == LPAREN;
    AfterNest(nest, tail, 1);
    CommentEnds(rest);
    CommentLexed(s, rest, lval, words);
  }

  lemma CommentEnds(rest: seq<Char>)
    ensures Closes([RPAREN] + rest, 1) && AfterComment([RPAREN] + rest, 1) == rest
  {
    assert ([RPAREN] + rest)[1..] == rest;
  }

  lemma CommentLexed(s: seq<Char>, rest: seq<Char>, lval: Value, words: Words)
    requires s != [] && s[0] == LPAREN && Closes(s[1..], 1) && AfterComment(s[1..], 1) == rest
    ensures Tokens(s, lval, words) == Tokens(rest, lval, words)
  {
    hide Closes, AfterComment;
    assert Lex(s, lval, words) == Lex(rest, lval, words);
  }

  lemma {:induction false} AfterWordIs(w: seq<Char>, rest: seq<Char>)
    requires (forall c <- w :: IsWordByte(c)) && !IsWordByte(Head(rest))
    ensures AfterWord(w + rest) == rest
  {
    if w == [] {
      assert w + rest == rest;
    } else {
      assert w[0] in w && (w + rest)[1..] == w[1..] + rest;
      AfterWordIs(w[1..], rest);
    }
  }

  lemma WordTokens(w: seq<Char>, rest: seq<Char>, lval: Value, words: Words)
    requires w != [] && IsAlpha(w[0]) && (forall c <- w :: IsWordByte(c)) && !IsWordByte(Head(rest))
    ensures var tok := WordToken(w, lval, words);
      Tokens(w + rest, lval, words) == [tok] + Tokens(rest, tok.lval, words)
  {
    hide AfterWord, Tokens;
    var s := w + rest;
    assert s[1..] == w[1..] + rest && s[0] == w[0];
    AfterWordIs(w[1..], rest);
    assert s[..|s| - |rest|] == w;
    assert Lex(s, lval, words) == LexWord(s, lval, words);
    var l := LexWord(s, lval, words);
    FirstToken(s, l.code, l.lval, l.rest, lval, words);
  }

  lemma MarkTokens(c: Char, rest: seq<Char>, lval: Value, words: Words)
    requires IsPiece(Mark(c), 0)
    ensures Tokens([c] + rest, lval, words) == [Token(MarkSymbol(c), lval)] + Tokens(rest, lval, words)
  {
    assert ([c] + rest)[1..] == rest;
  }

  lemma SkippedTokens(c: Char, rest: seq<Char>, lval: Value, words: Words)
    requires IsPiece(Space(c), 0) || IsPiece(Sign(c), Head(rest))
    ensures Tokens([c] + rest, lval, words) == Tokens(rest, lval, words)
  {
    assert ([c] + rest)[1..] == rest;
    assert Lex([c] + rest, lval, words) == Lex(rest, lval, words);
  }

  /// Texts
  /// -----

  /** A text of pieces is cut into exactly their tokens. */
  lemma {:induction false} PiecesAreLexed(ps: seq<Piece>, lval: Value, words: Words)
    requires ArePieces(ps)
    ensures Tokens(TextOf(ps), lval, words) == TokensOf(ps, lval, words)
    decreases |ps|
  {
    hide Tokens, ValueOf, WordToken, IsNumeral;
    if ps == [] {
      EndTokens(lval, words);
    } else {
      var rest := TextOf(ps[1..]);
      match ps[0]
      case Plain(ds) =>
        var v := Value(ValueOf(ds), |ds|);
        LexNumber(ds, rest, lval, words);
        FirstToken(ds + rest, CODE_UNUMBER, v, rest, lval, words);
        PiecesAreLexed(ps[1..], v, words);
      case Signed(sign, ds) =>
        SignedTokens(sign, ds, rest, lval, words);
        PiecesAreLexed(ps[1..], Value(if sign == MINUS then -ValueOf(ds) else ValueOf(ds), |ds|), words);
      case Word(w) =>
        WordTokens(w, rest, lval, words);
        PiecesAreLexed(ps[1..], WordToken(w, lval, words).lval, words);
      case Mark(c) =>
        MarkTokens(c, rest, lval, words);
        PiecesAreLexed(ps[1..], lval, words);
      case Space(c) =>
        SkippedTokens(c, rest, lval, words);
        PiecesAreLexed(ps[1..], lval, words);
      case Sign(c) =>
        SkippedTokens(c, rest, lval, words);
        PiecesAreLexed(ps[1..], lval, words);
      case Comment(nest) =>
        CommentTokens(nest, rest, lval, words);
        PiecesAreLexed(ps[1..], lval, words);
    }
  }

  lemma {:induction false} NeverCloses(s: seq<Char>, depth: nat)
    requires RPAREN !in s && depth > 0
    ensures !Closes(s, depth)
    decreases |s|
  {
    if s != [] {
      assert s[0] in s;
      NeverCloses(s[1..], if s[0] == LPAREN then depth + 1 else depth);
    }
  }

  /** A comment that is not closed, and a byte from 128 on, end the input. */
  lemma RestIsNotRead(c: Char, rest: seq<Char>, lval: Value, words: Words)
    requires c >= 128 || (c == LPAREN && RPAREN !in rest)
    ensures Tokens([c] + rest, lval, words) == []
  {
    assert ([c] + rest)[1..] == rest;
    if c == LPAREN {
      NeverCloses(rest, 1);
    }
  }
}
