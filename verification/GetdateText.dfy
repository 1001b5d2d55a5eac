/** A date written as `Y-M-D H:M:S+hhmm` is read back. */
module GetdateText {
  import opened GetdateTables
  import opened GetdateGrammar
  import opened GetdateMachine
  import opened GetdateReading
  import opened GetdateLexer
  import opened Numerals

  /// Numbers
  /// -------

  // A number is written with any digits, leading zeros included.
  ghost predicate IsNumeral(ds: seq<Char>)
  {
    |ds| > 0 && forall c <- ds :: IsDigit(c)
  }

  lemma {:induction false} DigitsOfNumeral(ds: seq<Char>, rest: seq<Char>, value: int)
    requires forall c <- ds :: IsDigit(c)
    requires !IsDigit(Head(rest))
    ensures Digits(ds + rest, value) == (ValueFrom(ds, value), rest)
  {
    if ds == [] {
      assert ds + rest == rest;
    } else {
      assert (ds + rest)[1..] == ds[1..] + rest;
      DigitsOfNumeral(ds[1..], rest, 10 * value + ds[0] - 48);
    }
  }

  lemma LexNumber(ds: seq<Char>, rest: seq<Char>, lval: Value, words: Words)
    requires IsNumeral(ds) && !IsDigit(Head(rest))
    ensures Lex(ds + rest, lval, words) == Lexed(CODE_UNUMBER, Value(ValueOf(ds), |ds|), rest)
  {
    assert (ds + rest)[0] == ds[0];
    assert IsDigit(ds[0]);
    DigitsOfNumeral(ds, rest, 0);
  }

  lemma LexSigned(sign: Char, ds: seq<Char>, rest: seq<Char>, lval: Value, words: Words)
    requires sign == PLUS || sign == MINUS
    requires IsNumeral(ds) && !IsDigit(Head(rest))
    ensures Lex([sign] + ds + rest, lval, words)
         == Lexed(CODE_SNUMBER, Value(if sign == MINUS then -ValueOf(ds) else ValueOf(ds), |ds|), rest)
  {
    assert ([sign] + ds + rest)[1..] == ds + rest;
    assert (ds + rest)[0] == ds[0];
    assert IsDigit(ds[0]);
    DigitsOfNumeral(ds, rest, 0);
  }

  lemma LexColon(rest: seq<Char>, lval: Value, words: Words)
    ensures Lex([COLON] + rest, lval, words) == Lexed(COLON, lval, rest)
  {}

  lemma LexSpace(rest: seq<Char>, lval: Value, words: Words)
    ensures Lex([SPACE] + rest, lval, words) == Lex(rest, lval, words)
  {}

  /// Dates
  /// -----

  datatype DateText = DateText(year: seq<Char>, month: seq<Char>, day: seq<Char>,
                               hour: seq<Char>, minutes: seq<Char>, seconds: seq<Char>,
                               sign: Char, offset: seq<Char>)
  {
    ghost predicate Valid()
    {
      && IsNumeral(year) && IsNumeral(month) && IsNumeral(day)
      && IsNumeral(hour) && IsNumeral(minutes) && IsNumeral(seconds)
      && (sign == PLUS || sign == MINUS) && IsNumeral(offset)
    }

    function Zone(): seq<Char> { [sign] + offset + [] }

    function Time(): seq<Char>
    {
      hour + ([COLON] + (minutes + ([COLON] + (seconds + Zone()))))
    }

    function Text(): seq<Char>
    {
      year + ([MINUS] + month + ([MINUS] + day + ([SPACE] + Time())))
    }

    function SignedOffset(): int
    {
      if sign == MINUS then -ValueOf(offset) else ValueOf(offset)
    }

    // The tokens of the text. A colon has the value of the token before it.
    function DateTokens(): seq<Token>
    {
      [Token(T_UNUMBER, Value(ValueOf(year), |year|)),
       Token(T_SNUMBER, Value(-ValueOf(month), |month|)),
       Token(T_SNUMBER, Value(-ValueOf(day), |day|))]
    }

    function TimeTokens(): seq<Token>
    {
      var h, m := Value(ValueOf(hour), |hour|), Value(ValueOf(minutes), |minutes|);
      var s := Value(ValueOf(seconds), |seconds|);
      [Token(T_UNUMBER, h), Token(T_COLON, h), Token(T_UNUMBER, m), Token(T_COLON, m), Token(T_UNUMBER, s),
       Token(T_SNUMBER, Value(SignedOffset(), |offset|))]
    }

    /** The control block after the text: the written fields, one date, one time and one zone more. */
    function Read(pc: Control): Control
    {
      pc.(year := Value(ValueOf(year), |year|), month := ValueOf(month), day := ValueOf(day),
      hour := ValueOf(hour), minutes := ValueOf(minutes), seconds := ValueOf(seconds),
      meridian := MER24, timeZone := ZoneMinutes(SignedOffset()),
      datesSeen := pc.datesSeen + 1, timesSeen := pc.timesSeen + 1, zonesSeen := pc.zonesSeen + 1)
    }
  }

  // One token at the start of the input.
  lemma FirstToken(input: seq<Char>, code: int, v: Value, rest: seq<Char>, lval: Value, words: Words)
    requires Lex(input, lval, words) == Lexed(code, v, rest) && code > 0
    ensures Tokens(input, lval, words) == [Token(Translate(code), v)] + Tokens(rest, v, words)
  {}

  lemma ClockTokens(hour: seq<Char>, rest: seq<Char>, lval: Value, words: Words)
    requires IsNumeral(hour)
    ensures var h := Value(ValueOf(hour), |hour|);
      Tokens(hour + ([COLON] + rest), lval, words)
        == [Token(T_UNUMBER, h), Token(T_COLON, h)] + Tokens(rest, h, words)
  {
    var h := Value(ValueOf(hour), |hour|);
    LexNumber(hour, [COLON] + rest, lval, words);
    FirstToken(hour + ([COLON] + rest), CODE_UNUMBER, h, [COLON] + rest, lval, words);
    LexColon(rest, h, words);
    FirstToken([COLON] + rest, COLON, h, rest, h, words);
  }

  lemma SignedTokens(sign: Char, ds: seq<Char>, rest: seq<Char>, lval: Value, words: Words)
    requires sign == PLUS || sign == MINUS
    requires IsNumeral(ds) && !IsDigit(Head(rest))
    ensures var v := Value(if sign == MINUS then -ValueOf(ds) else ValueOf(ds), |ds|);
      Tokens([sign] + ds + rest, lval, words) == [Token(T_SNUMBER, v)] + Tokens(rest, v, words)
  {
    LexSigned(sign, ds, rest, lval, words);
    FirstToken([sign] + ds + rest, CODE_SNUMBER, Value(if sign == MINUS then -ValueOf(ds) else ValueOf(ds), |ds|),
               rest, lval, words);
  }

  lemma LexTime(t: DateText, lval: Value, words: Words)
    requires t.Valid()
    ensures Tokens(t.Time(), lval, words) == t.TimeTokens()
  {
    hide Lex, Tokens, IsNumeral, ValueOf, IsDigit;
    var h, m := Value(ValueOf(t.hour), |t.hour|), Value(ValueOf(t.minutes), |t.minutes|);
    var s := Value(ValueOf(t.seconds), |t.seconds|);
    EndTokens(Value(t.SignedOffset(), |t.offset|), words);
    SignedTokens(t.sign, t.offset, [], s, words);
    ZoneFollows(t);
    LexNumber(t.seconds, t.Zone(), m, words);
    FirstToken(t.seconds + t.Zone(), CODE_UNUMBER, s, t.Zone(), m, words);
    ClockTokens(t.minutes, t.seconds + t.Zone(), h, words);
    ClockTokens(t.hour, t.minutes + ([COLON] + (t.seconds + t.Zone())), lval, words);
  }

  lemma EndTokens(lval: Value, words: Words)
    ensures Tokens([], lval, words) == [] && !IsDigit(Head([]))
  {}

  lemma ZoneFollows(t: DateText)
    requires t.Valid()
    ensures !IsDigit(Head(t.Zone()))
  {}

  lemma LexDate(t: DateText, lval: Value, words: Words)
    requires t.Valid()
    ensures Tokens(t.Text(), lval, words) == t.DateTokens() + t.TimeTokens()
  {
    hide Lex, Tokens, IsNumeral, ValueOf;
    var y, m := Value(ValueOf(t.year), |t.year|), Value(-ValueOf(t.month), |t.month|);
    var d := Value(-ValueOf(t.day), |t.day|);
    var time := [SPACE] + t.Time();
    var day := [MINUS] + t.day + time;
    var month := [MINUS] + t.month + day;
    LexTime(t, d, words);
    SpaceTokens(t.Time(), d, words);
    SignedTokens(MINUS, t.day, time, m, words);
    SignedTokens(MINUS, t.month, day, y, words);
    LexNumber(t.year, month, lval, words);
    FirstToken(t.year + month, CODE_UNUMBER, y, month, lval, words);
  }

  lemma SpaceTokens(rest: seq<Char>, lval: Value, words: Words)
    ensures Tokens([SPACE] + rest, lval, words) == Tokens(rest, lval, words)
  {
    LexSpace(rest, lval, words);
  }

  /// The derivation
  /// --------------

  function DateTree(t: DateText): Tree
  {
    Node(6, [Node(25, Leaves(t.DateTokens()))])
  }

  function TimeTree(t: DateText): Tree
  {
    Node(3, [Node(14, Leaves(t.TimeTokens()))])
  }

  lemma DateReading(t: DateText, parent: int, next: Terminal, s: Store)
    ensures Wf(DateTree(t)) && Symbol(DateTree(t)) == 23 && Yield(DateTree(t)) == t.DateTokens()
    ensures MaxMunch(DateTree(t), parent, next)
    ensures Eval(DateTree(t), s).1.pc == s.pc.(year := Value(ValueOf(t.year), |t.year|), month := ValueOf(t.month),
            day := ValueOf(t.day), datesSeen := s.pc.datesSeen + 1)
  {
    hide ValueOf;
    var toks := t.DateTokens();
    assert RhsOf(25) == [T_UNUMBER, T_SNUMBER, T_SNUMBER];
    LeafNode(25, toks, 6, next);
    LeafNodeEval(25, toks, s);
    UnaryNode(6, Node(25, Leaves(toks)), parent, next, s);
    assert ValuesOf(toks) == [toks[0].lval, toks[1].lval, toks[2].lval];
  }

  lemma TimeReading(t: DateText, parent: int, next: Terminal, s: Store)
    ensures Wf(TimeTree(t)) && Symbol(TimeTree(t)) == 23 && Yield(TimeTree(t)) == t.TimeTokens()
    ensures MaxMunch(TimeTree(t), parent, next)
    ensures Eval(TimeTree(t), s).1.pc == s.pc.(hour := ValueOf(t.hour), minutes := ValueOf(t.minutes),
            seconds := ValueOf(t.seconds), meridian := MER24, timeZone := ZoneMinutes(t.SignedOffset()),
            zonesSeen := s.pc.zonesSeen + 1, timesSeen := s.pc.timesSeen + 1)
  {
    hide ValueOf, ZoneMinutes;
    var toks := t.TimeTokens();
    assert RhsOf(14) == [T_UNUMBER, T_COLON, T_UNUMBER, T_COLON, T_UNUMBER, T_SNUMBER];
    LeafNode(14, toks, 3, next);
    LeafNodeEval(14, toks, s);
    UnaryNode(3, Node(14, Leaves(toks)), parent, next, s);
    assert ValuesOf(toks) ==
      [toks[0].lval, toks[1].lval, toks[2].lval, toks[3].lval, toks[4].lval, toks[5].lval];
  }

  function DateTimeTree(t: DateText): Tree
  {
    Node(2, [Node(2, [Node(1, []), DateTree(t)]), TimeTree(t)])
  }

  lemma EmptySpec(parent: int, next: Terminal, s: Store)
    ensures Wf(Node(1, [])) && Symbol(Node(1, [])) == SPEC && Yield(Node(1, [])) == []
    ensures MaxMunch(Node(1, []), parent, next) && Eval(Node(1, []), s).1.pc == s.pc
  {}

  lemma DateTimeReading(t: DateText, s: Store)
    ensures IsReading(DateTimeTree(t), t.DateTokens() + t.TimeTokens())
    ensures Eval(DateTimeTree(t), s).1.pc == t.Read(s.pc)
  {
    hide DateTree, TimeTree, ZoneMinutes, ValueOf;
    var none, date, time := Node(1, []), DateTree(t), TimeTree(t);
    EmptySpec(2, HeadOf(Yield(date), HeadOf(Yield(time), EOF)), s);
    DateReading(t, 2, HeadOf(Yield(time), EOF), Eval(none, s).1);
    SpecNode(none, date, 2, HeadOf(Yield(time), EOF));
    SpecEval(none, date, s);
    var front := Node(2, [none, date]);
    TimeReading(t, 2, EOF, Eval(front, s).1);
    SpecNode(front, time, 0, EOF);
    SpecEval(front, time, s);
  }

  /** Reading a date that was written with any numerals sets exactly the written fields. */
  lemma DateRoundTrip(t: DateText, lval: Value, start: Store, words: Words)
    requires t.Valid()
    ensures Run(Init(Tokens(t.Text(), lval, words), lval, start)) == (0, t.Read(start.pc))
  {
    hide Lex, Tokens, ValueOf, ZoneMinutes, IsNumeral;
    LexDate(t, lval, words);
    DateTimeReading(t, start);
    ReadingIsAccepted(DateTimeTree(t), Tokens(t.Text(), lval, words), lval, start);
  }

  /** An offset of hh hours and mm minutes, in any numeral, is that many minutes east or west of UTC. */
  lemma OffsetRoundTrip(t: DateText, hh: nat, mm: nat)
    requires mm < 100 && ValueOf(t.offset) == 100 * hh + mm
    ensures ZoneMinutes(t.SignedOffset()) == (60 * hh + mm) * if t.sign == MINUS then -1 else 1
  {
    hide ValueOf, ZoneMinutes;
    OffsetMinutes(hh, mm);
  }

  lemma OffsetMinutes(hh: nat, mm: nat)
    requires mm < 100
    ensures ZoneMinutes(100 * hh + mm) == 60 * hh + mm && ZoneMinutes(-(100 * hh + mm)) == -(60 * hh + mm)
  {}

  /// Printed dates
  /// -------------

  /** The numbers of a date, the time and the zone, which is west of UTC if `west`. */
  datatype Date = Date(year: nat, month: nat, day: nat, hour: nat, minutes: nat, seconds: nat,
                       west: bool, zoneHours: nat, zoneMinutes: nat)
  {
    /** `YYYY-MM-DD HH:MM:SS+hhmm`, with zeros in front of what is shorter. */
    function Print(): DateText
    {
      DateText(Padded(year, 4), Padded(month, 2), Padded(day, 2),
               Padded(hour, 2), Padded(minutes, 2), Padded(seconds, 2),
               if west then MINUS else PLUS, Padded(zoneHours, 2) + Padded(zoneMinutes, 2))
    }

    function Offset(): int
    {
      (60 * zoneHours + zoneMinutes) * if west then -1 else 1
    }

    function Set(pc: Control): Control
    {
      pc.(year := Value(year, |Padded(year, 4)|), month := month, day := day,
      hour := hour, minutes := minutes, seconds := seconds, meridian := MER24, timeZone := Offset(),
      datesSeen := pc.datesSeen + 1, timesSeen := pc.timesSeen + 1, zonesSeen := pc.zonesSeen + 1)
    }
  }

  lemma PaddedIsNumeral(n: nat, width: nat)
    ensures IsNumeral(Padded(n, width)) && ValueOf(Padded(n, width)) == n
  {
    hide Padded;
    PaddedValue(n, width);
    var ds := Padded(n, width);
    forall c <- ds ensures IsDigit(c) {
      var d: Digit := c;
    }
  }

  lemma PrintIsValid(d: Date)
    requires d.zoneMinutes < 100
    ensures d.Print().Valid() && ValueOf(d.Print().offset) == 100 * d.zoneHours + d.zoneMinutes
  {
    hide Padded, ValueOf;
    PaddedIsNumeral(d.year, 4);
    PaddedIsNumeral(d.month, 2);
    PaddedIsNumeral(d.day, 2);
    PaddedIsNumeral(d.hour, 2);
    PaddedIsNumeral(d.minutes, 2);
    PaddedIsNumeral(d.seconds, 2);
    PaddedIsNumeral(d.zoneHours, 2);
    PaddedIsNumeral(d.zoneMinutes, 2);
    PairValue(Padded(d.zoneHours, 2), d.zoneMinutes);
  }

  lemma PrintedFields(d: Date, pc: Control)
    requires d.zoneMinutes < 100
    ensures d.Print().Read(pc) == d.Set(pc)
  {
    hide Padded, ValueOf, ZoneMinutes, IsNumeral;
    PaddedIsNumeral(d.year, 4);
    PaddedIsNumeral(d.month, 2);
    PaddedIsNumeral(d.day, 2);
    PaddedIsNumeral(d.hour, 2);
    PaddedIsNumeral(d.minutes, 2);
    PaddedIsNumeral(d.seconds, 2);
    PrintIsValid(d);
    OffsetRoundTrip(d.Print(), d.zoneHours, d.zoneMinutes);
  }

  /** Lexing and parsing a printed date sets exactly the numbers that were printed, and the offset in minutes. */
  lemma PrintedDateRoundTrip(d: Date, lval: Value, start: Store, words: Words)
    requires d.zoneMinutes < 100
    ensures Run(Init(Tokens(d.Print().Text(), lval, words), lval, start)) == (0, d.Set(start.pc))
  {
    hide Tokens;
    PrintIsValid(d);
    PrintedFields(d, start.pc);
    DateRoundTrip(d.Print(), lval, start, words);
  }
}
