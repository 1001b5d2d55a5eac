/** What the lexer of dates makes of its input. */
module GetdateLexer {
  import opened GetdateTables
  import opened GetdateGrammar

  /// Characters
  /// ----------

  // The bytes of a C string before its terminating NUL.
  type Char = c: int | 0 < c < 256 witness 1

  const SPACE := 32
  const LPAREN := 40
  const RPAREN := 41
  const PLUS := 43
  const MINUS := 45
  const DOT := 46
  const COLON := 58
  const QUESTION := 63

  // The byte a pointer to the rest of the string points to.
  function Head(s: seq<Char>): int
  {
    if s == [] then 0 else s[0]
  }

  predicate IsSpace(c: int)
  {
    9 <= c <= 13 || c == SPACE
  }

  predicate IsDigit(c: int)
  {
    48 <= c <= 57
  }

  predicate IsAlpha(c: int)
  {
    65 <= c <= 90 || 97 <= c <= 122
  }

  /// Tokens as the lexer numbers them
  /// --------------------------------

  const CODE_SNUMBER := 271
  const CODE_UNUMBER := 272

  // What a word means is looked up in tables that are not part of this model.
  datatype Word = Unknown | Known(code: WordCode, value: int)

  type WordCode = x: int | 257 <= x <= 272 witness 257
  type Words = seq<Char> -> Word

  /** yytranslate: the parser's number for a token, for a positive code. */
  function Translate(code: int): Terminal
  {
    if 257 <= code <= 272 then code - 254
    else if code == 256 then 1
    else if code == 58 then T_COLON
    else if code == 44 then T_COMMA
    else if code == 47 then T_SLASH
    else if code <= 0 then EOF
    else 2
  }

  // A byte read through a plain `char` is negative from 128 on.
  function AsChar(c: int): int
  {
    if c < 128 then c else c - 256
  }

  /// What the lexer does
  /// -------------------

  datatype Lexed = Lexed(code: int, lval: Value, rest: seq<Char>)

  // The number that the digits at the start of `s` continue, and what follows them.
  function Digits(s: seq<Char>, value: int): (r: (int, seq<Char>))
    ensures |r.1| <= |s|
    ensures IsDigit(Head(s)) ==> |r.1| < |s|
  {
    if IsDigit(Head(s)) then Digits(s[1..], 10 * value + s[0] - 48) else (value, s)
  }

  function AfterWord(s: seq<Char>): (r: seq<Char>)
    ensures |r| <= |s|
  {
    if IsAlpha(Head(s)) || Head(s) == DOT then AfterWord(s[1..]) else s
  }

  // What follows `depth` open parentheses being closed; nothing if they are not.
  function AfterComment(s: seq<Char>, depth: nat): (r: seq<Char>)
    ensures |r| <= |s|
  {
    if depth == 0 || s == [] then s
    else if s[0] == LPAREN then AfterComment(s[1..], depth + 1)
    else if s[0] == RPAREN then AfterComment(s[1..], depth - 1)
    else AfterComment(s[1..], depth)
  }

  predicate Closes(s: seq<Char>, depth: nat)
  {
    if depth == 0 then true
    else if s == [] then false
    else if s[0] == LPAREN then Closes(s[1..], depth + 1)
    else if s[0] == RPAREN then Closes(s[1..], depth - 1)
    else Closes(s[1..], depth)
  }

  // The lexer keeps the first 19 bytes of a word.
  function Clip(word: seq<Char>): seq<Char>
  {
    if |word| <= 19 then word else word[..19]
  }

  function LexWord(s: seq<Char>, lval: Value, words: Words): Lexed
    requires IsAlpha(Head(s))
  {
    var rest := AfterWord(s[1..]);
    match words(Clip(s[..|s| - |rest|]))
    case Unknown => Lexed(QUESTION, lval, rest)
    case Known(code, value) => Lexed(code, lval.(value := value), rest)
  }

  /** The next token, its value and the rest of the input. */
  function Lex(s: seq<Char>, lval: Value, words: Words): (l: Lexed)
    ensures l.code > 0 ==> |l.rest| < |s|
    ensures l.code <= 0 ==> l.lval == lval
    decreases |s|
  {
    var c := Head(s);
    if IsSpace(c) then Lex(s[1..], lval, words)
    else if IsDigit(c) then
      var (value, rest) := Digits(s, 0);
      Lexed(CODE_UNUMBER, Value(value, |s| - |rest|), rest)
    else if c == MINUS || c == PLUS then
      if IsDigit(Head(s[1..])) then
        var (value, rest) := Digits(s[1..], 0);
        Lexed(CODE_SNUMBER, Value(if c == MINUS then -value else value, |s| - 1 - |rest|), rest)
      else Lex(s[1..], lval, words)
    else if IsAlpha(c) then LexWord(s, lval, words)
    else if c != LPAREN then Lexed(AsChar(c), lval, if s == [] then [] else s[1..])
    else if Closes(s[1..], 1) then Lex(AfterComment(s[1..], 1), lval, words)
    else Lexed(0, lval, [])
  }

  /** All tokens up to the end of the input. */
  function Tokens(s: seq<Char>, lval: Value, words: Words): (toks: seq<Token>)
    ensures forall t <- toks :: t.sym != EOF
    decreases |s|
  {
    var l := Lex(s, lval, words);
    if l.code <= 0 then [] else [Token(Translate(l.code), l.lval)] + Tokens(l.rest, l.lval, words)
  }
}
