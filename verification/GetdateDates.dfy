/** Dates as text: the three formats of section 3.3.1 of RFC 2616, dates with slashes, and dates without any mark. */
module GetdateDates {
  import opened GetdateTables
  import opened GetdateGrammar
  import opened GetdateMachine
  import opened GetdateLexer
  import opened GetdateText
  import opened GetdateTexts
  import opened GetdateForms
  import opened Numerals

  /// From text to fields
  /// -------------------

  // Whether the piece at `i` is one, seen what comes after it; `next` is what comes after the last.
  ghost predicate FitsAt(ps: seq<Piece>, i: nat, next: int)
    requires i < |ps|
  {
    Text(ps[i]) != [] && IsPiece(ps[i], if i + 1 < |ps| then Head(Text(ps[i + 1])) else next)
  }

  lemma {:induction false} FittingPieces(ps: seq<Piece>, rest: seq<Piece>)
    requires ps != [] && ArePieces(rest) && forall i :: 0 <= i < |ps| ==> FitsAt(ps, i, Head(TextOf(rest)))
    ensures ArePieces(ps + rest) && Head(TextOf(ps + rest)) == Head(Text(ps[0]))
    decreases |ps|
  {
    hide IsPiece, ArePieces;
    var next := Head(TextOf(rest));
    assert FitsAt(ps, 0, next);
    var tail := ps[1..] + rest;
    assert ps + rest == [ps[0]] + tail;
    if |ps| == 1 {
      assert tail == rest;
    } else {
      assert FitsAt(ps, 1, next);
      forall i | 0 <= i < |ps[1..]| ensures FitsAt(ps[1..], i, next) {
        assert FitsAt(ps, i + 1, next);
      }
      FittingPieces(ps[1..], rest);
    }
    OneMore(ps[0], tail);
  }

  lemma OneMore(p: Piece, ps: seq<Piece>)
    requires ArePieces(ps) && Text(p) != [] && IsPiece(p, Head(TextOf(ps)))
    ensures ArePieces([p] + ps) && Head(TextOf([p] + ps)) == Head(Text(p))
  {
    hide IsPiece;
    assert ([p] + ps)[1..] == ps;
  }

  lemma TokensFrom(ps: seq<Piece>, i: nat, lval: Value, words: Words)
    requires i < |ps|
    ensures TokensOf(ps[i..], lval, words)
         == PieceTokens(ps[i], lval, words) + TokensOf(ps[i + 1..], Left(PieceTokens(ps[i], lval, words), lval), words)
  {
    hide PieceTokens, Left;
    assert ps[i..][1..] == ps[i + 1..];
  }

  lemma FormsAndOne(forms: seq<Form>, f: Form, next: Terminal)
    ensures AllTokens(forms + [f]) == AllTokens(forms) + GetdateForms.Tokens(f)
    ensures Apart(forms + [f], next) <==> MayFollow(f, next) && Apart(forms, FirstSymbol(f))
    ensures forall pc :: (forall g <- forms :: IsForm(g)) && IsForm(f) ==>
      EffectAll(forms + [f], pc) == Effect(f, EffectAll(forms, pc))
  {
    hide GetdateForms.Tokens, MayFollow, Effect, IsForm;
    var all := forms + [f];
    assert all[..|all| - 1] == forms;
    assert forall g <- all :: g in forms || g == f;
  }

  lemma TextIsRead(ps: seq<Piece>, forms: seq<Form>, lval: Value, start: Store, words: Words)
    requires ArePieces(ps) && TokensOf(ps, lval, words) == AllTokens(forms)
    requires (forall f <- forms :: IsForm(f)) && Apart(forms, EOF)
    ensures Reading(ps, lval, start, words) == (0, EffectAll(forms, start.pc))
  {
    hide ArePieces, Apart, AllTokens, EffectAll, IsForm, TokensOf, TextOf, GetdateLexer.Tokens, Run;
    PiecesAreLexed(ps, lval, words);
    FormsAreRead(forms, lval, start);
  }

  // What the lexer and the parser make of the text.
  function Reading(ps: seq<Piece>, lval: Value, start: Store, words: Words): (int, Control)
  {
    Run(Init(GetdateLexer.Tokens(TextOf(ps), lval, words), lval, start))
  }

  /// Dates of HTTP
  /// -------------

  // A word of letters that the tables know as a token of this code with this value.
  ghost predicate Means(words: Words, w: seq<Char>, code: WordCode, value: int)
  {
    0 < |w| <= 19 && (forall c <- w :: IsAlpha(c)) && words(w) == Known(code, value)
  }

  const DAY_NAME: WordCode := 259
  const SUMMER_ZONE: WordCode := 261
  const HALF_DAY: WordCode := 264
  const MONTH_NAME: WordCode := 266
  const ZONE_NAME: WordCode := 270

  /** The names of a date, which are words with values, and its numbers, which are numerals. */
  datatype Moment = Moment(dayName: seq<Char>, weekday: int, day: seq<Char>, monthName: seq<Char>, month: int,
                           year: seq<Char>, hour: seq<Char>, minutes: seq<Char>, seconds: seq<Char>,
                           zoneName: seq<Char>, zone: int)
  {
    ghost predicate Valid(words: Words)
    {
      && Means(words, dayName, DAY_NAME, weekday) && Means(words, monthName, MONTH_NAME, month)
      && Means(words, zoneName, ZONE_NAME, zone)
      && Numbered()
    }

    ghost predicate Numbered()
    {
      IsNumeral(day) && IsNumeral(year) && IsNumeral(hour) && IsNumeral(minutes) && IsNumeral(seconds)
    }

    function Clock(): seq<Piece>
    {
      [Plain(hour), Mark(':' as int), Plain(minutes), Mark(':' as int),
       Plain(seconds)]
    }

    /** `Sun, 06 Nov 1994 08:49:37 GMT` */
    function Rfc1123(): seq<Piece>
    {
      [Word(dayName), Mark(',' as int), Space(' ' as int), Plain(day), Space(' ' as int),
       Word(monthName), Space(' ' as int), Plain(year), Space(' ' as int)]
      + Clock() + [Space(' ' as int), Word(zoneName)]
    }

    /** `Sunday, 06-Nov-94 08:49:37 GMT` */
    function Rfc850(): seq<Piece>
    {
      [Word(dayName), Mark(',' as int), Space(' ' as int), Plain(day), Sign('-' as int),
       Word(monthName), Signed('-' as int, year), Space(' ' as int)]
      + Clock() + [Space(' ' as int), Word(zoneName)]
    }

    /** `Sun Nov  6 08:49:37 1994` */
    function Asctime(): seq<Piece>
    {
      [Word(dayName), Space(' ' as int), Word(monthName), Space(' ' as int)]
      + ((if |day| < 2 then [Space(' ' as int)] else []) + DayToYear())
    }

    function DayToYear(): seq<Piece>
    {
      [Plain(day), Space(' ' as int)] + Clock() + [Space(' ' as int), Plain(year)]
    }
  }

  lemma PlainFits(ds: seq<Char>, next: int)
    requires IsNumeral(ds) && !IsDigit(next)
    ensures IsPiece(Plain(ds), next) && ds != [] && IsDigit(ds[0])
  {
    assert ds[0] in ds;
  }

  lemma WordFits(words: Words, w: seq<Char>, code: WordCode, value: int, next: int)
    requires Means(words, w, code, value) && !IsWordByte(next)
    ensures IsPiece(Word(w), next) && w != [] && !IsDigit(w[0])
  {
    assert w[0] in w;
  }

  lemma ClockPieces(m: Moment, rest: seq<Piece>)
    requires m.Numbered() && ArePieces(rest) && !IsDigit(Head(TextOf(rest)))
    ensures ArePieces(m.Clock() + rest) && IsDigit(Head(TextOf(m.Clock() + rest)))
  {
    hide ArePieces, TextOf;
    var ps, next := m.Clock(), Head(TextOf(rest));
    PlainFits(m.hour, ':' as int);
    PlainFits(m.minutes, ':' as int);
    PlainFits(m.seconds, next);
    hide IsNumeral;
    forall i | 0 <= i < |ps| ensures FitsAt(ps, i, next) {}
    FittingPieces(ps, rest);
  }

  lemma ZonePieces(m: Moment, words: Words)
    requires m.Valid(words)
    ensures var ps := [Space(' ' as int), Word(m.zoneName)]; ArePieces(ps) && !IsDigit(Head(TextOf(ps)))
  {
    var ps := [Space(' ' as int), Word(m.zoneName)];
    WordFits(words, m.zoneName, ZONE_NAME, m.zone, 0);
    hide Means;
    forall i | 0 <= i < |ps| ensures FitsAt(ps, i, 0) {}
    FittingPieces(ps, []);
    assert ps + [] == ps;
  }

  lemma DayCommaPieces(m: Moment, rest: seq<Piece>, words: Words)
    requires m.Valid(words) && ArePieces(rest)
    ensures ArePieces([Word(m.dayName), Mark(',' as int), Space(' ' as int)] + rest)
  {
    hide ArePieces, TextOf;
    var ps, next := [Word(m.dayName), Mark(',' as int), Space(' ' as int)], Head(TextOf(rest));
    WordFits(words, m.dayName, DAY_NAME, m.weekday, ',' as int);
    hide Means;
    forall i | 0 <= i < |ps| ensures FitsAt(ps, i, next) {}
    FittingPieces(ps, rest);
  }

  lemma DayMonYearPieces(m: Moment, rest: seq<Piece>, words: Words)
    requires m.Valid(words) && ArePieces(rest)
    ensures ArePieces([Plain(m.day), Space(' ' as int), Word(m.monthName), Space(' ' as int),
                       Plain(m.year), Space(' ' as int)] + rest)
  {
    hide ArePieces, TextOf;
    var ps, next := [Plain(m.day), Space(' ' as int), Word(m.monthName), Space(' ' as int),
                     Plain(m.year), Space(' ' as int)], Head(TextOf(rest));
    PlainFits(m.day, ' ' as int);
    WordFits(words, m.monthName, MONTH_NAME, m.month, ' ' as int);
    PlainFits(m.year, ' ' as int);
    hide Means, IsNumeral;
    forall i | 0 <= i < |ps| ensures FitsAt(ps, i, next) {}
    FittingPieces(ps, rest);
  }

  lemma Rfc1123Pieces(m: Moment, words: Words)
    requires m.Valid(words)
    ensures ArePieces(m.Rfc1123())
  {
    assert m.Numbered();
    hide ArePieces, TextOf, m.Clock, m.Valid, m.Numbered;
    var date := [Plain(m.day), Space(' ' as int), Word(m.monthName), Space(' ' as int),
                 Plain(m.year), Space(' ' as int)];
    var tail := m.Clock() + [Space(' ' as int), Word(m.zoneName)];
    ZonePieces(m, words);
    ClockPieces(m, [Space(' ' as int), Word(m.zoneName)]);
    DayMonYearPieces(m, tail, words);
    DayCommaPieces(m, date + tail, words);
    assert m.Rfc1123() == [Word(m.dayName), Mark(',' as int), Space(' ' as int)] + (date + tail);
  }

  // The forms of a time and a number that are printed.
  function Num(ds: seq<Char>): Value
  {
    Value(ValueOf(ds), |ds|)
  }

  function ClockForm(m: Moment): Form
  {
    Seconds(Num(m.hour), Num(m.minutes), Num(m.seconds))
  }

  function DayName(m: Moment, lval: Value): Value
  {
    Value(m.weekday, lval.digits)
  }

  function MonthAfter(m: Moment, n: Value): Value
  {
    Value(m.month, n.digits)
  }

  lemma NumberStep(ps: seq<Piece>, i: nat, lval: Value, words: Words)
    requires i < |ps| && ps[i].Plain?
    ensures var v := Num(ps[i].digits);
      TokensOf(ps[i..], lval, words) == [Token(T_UNUMBER, v)] + TokensOf(ps[i + 1..], v, words)
  {
    hide TokensOf, ValueOf;
    TokensFrom(ps, i, lval, words);
  }

  lemma MarkStep(ps: seq<Piece>, i: nat, lval: Value, words: Words)
    requires i < |ps| && ps[i].Mark?
    ensures TokensOf(ps[i..], lval, words) == [Token(MarkSymbol(ps[i].c), lval)] + TokensOf(ps[i + 1..], lval, words)
  {
    hide TokensOf;
    TokensFrom(ps, i, lval, words);
  }

  lemma SilentStep(ps: seq<Piece>, i: nat, lval: Value, words: Words)
    requires i < |ps| && (ps[i].Space? || ps[i].Sign?)
    ensures TokensOf(ps[i..], lval, words) == TokensOf(ps[i + 1..], lval, words)
  {
    hide TokensOf;
    TokensFrom(ps, i, lval, words);
  }

  lemma NameStep(ps: seq<Piece>, code: WordCode, value: int, i: nat, lval: Value, words: Words)
    requires i < |ps| && ps[i].Word? && Means(words, ps[i].letters, code, value)
    ensures var v := Value(value, lval.digits);
      TokensOf(ps[i..], lval, words) == [Token(WORD_SYMBOLS[code - 257], v)] + TokensOf(ps[i + 1..], v, words)
  {
    hide TokensOf;
    TokensFrom(ps, i, lval, words);
  }

  lemma NoTokens(lval: Value, words: Words)
    ensures TokensOf([], lval, words) == []
  {}

  lemma ClockTokensOf(m: Moment, rest: seq<Piece>, lval: Value, words: Words)
    ensures TokensOf(m.Clock() + rest, lval, words)
         == GetdateForms.Tokens(ClockForm(m)) + TokensOf(rest, Num(m.seconds), words)
  {
    hide TokensOf, Num;
    var ps := m.Clock() + rest;
    NumberStep(ps, 0, lval, words);
    MarkStep(ps, 1, Num(m.hour), words);
    NumberStep(ps, 2, Num(m.hour), words);
    MarkStep(ps, 3, Num(m.minutes), words);
    NumberStep(ps, 4, Num(m.minutes), words);
    assert ps[0..] == ps && ps[5..] == rest;
  }

  lemma ZoneTokens(m: Moment, lval: Value, words: Words)
    requires m.Valid(words)
    ensures TokensOf([Space(' ' as int), Word(m.zoneName)], lval, words)
         == GetdateForms.Tokens(Zone(Value(m.zone, lval.digits)))
  {
    hide TokensOf, Means;
    var ps := [Space(' ' as int), Word(m.zoneName)];
    SilentStep(ps, 0, lval, words);
    NameStep(ps, ZONE_NAME, m.zone, 1, lval, words);
    assert ps[0..] == ps && ps[2..] == [];
    NoTokens(Value(m.zone, lval.digits), words);
  }

  function Rfc1123Forms(m: Moment, lval: Value): seq<Form>
  {
    [DayComma(DayName(m, lval)), DayMonYearPlain(Num(m.day), MonthAfter(m, Num(m.day)), Num(m.year)),
     ClockForm(m), Zone(Value(m.zone, Num(m.seconds).digits))]
  }

  lemma DayCommaTokens(m: Moment, rest: seq<Piece>, lval: Value, words: Words)
    requires m.Valid(words)
    ensures TokensOf([Word(m.dayName), Mark(',' as int), Space(' ' as int)] + rest, lval, words)
         == GetdateForms.Tokens(DayComma(DayName(m, lval))) + TokensOf(rest, DayName(m, lval), words)
  {
    hide TokensOf, Means;
    var ps := [Word(m.dayName), Mark(',' as int), Space(' ' as int)] + rest;
    NameStep(ps, DAY_NAME, m.weekday, 0, lval, words);
    MarkStep(ps, 1, DayName(m, lval), words);
    SilentStep(ps, 2, DayName(m, lval), words);
    assert ps[0..] == ps && ps[3..] == rest;
  }

  lemma DayMonYearTokens(m: Moment, rest: seq<Piece>, lval: Value, words: Words)
    requires m.Valid(words)
    ensures var d, y := Num(m.day), Num(m.year);
      TokensOf([Plain(m.day), Space(' ' as int), Word(m.monthName), Space(' ' as int),
                Plain(m.year), Space(' ' as int)] + rest, lval, words)
      == GetdateForms.Tokens(DayMonYearPlain(d, MonthAfter(m, d), y)) + TokensOf(rest, y, words)
  {
    hide TokensOf, Means, Num;
    var ps := [Plain(m.day), Space(' ' as int), Word(m.monthName), Space(' ' as int),
               Plain(m.year), Space(' ' as int)] + rest;
    var d, y := Num(m.day), Num(m.year);
    var mon := MonthAfter(m, d);
    NumberStep(ps, 0, lval, words);
    SilentStep(ps, 1, d, words);
    NameStep(ps, MONTH_NAME, m.month, 2, d, words);
    SilentStep(ps, 3, mon, words);
    NumberStep(ps, 4, mon, words);
    SilentStep(ps, 5, y, words);
    assert ps[0..] == ps && ps[6..] == rest;
  }

  lemma Rfc1123Tokens(m: Moment, lval: Value, words: Words)
    requires m.Valid(words)
    ensures TokensOf(m.Rfc1123(), lval, words)
         == GetdateForms.Tokens(Rfc1123Forms(m, lval)[0]) + GetdateForms.Tokens(Rfc1123Forms(m, lval)[1])
            + GetdateForms.Tokens(Rfc1123Forms(m, lval)[2]) + GetdateForms.Tokens(Rfc1123Forms(m, lval)[3])
  {
    hide TokensOf, GetdateForms.Tokens, Num, m.Clock, ClockForm, m.Valid;
    var date := [Plain(m.day), Space(' ' as int), Word(m.monthName), Space(' ' as int),
                 Plain(m.year), Space(' ' as int)];
    var tail := m.Clock() + [Space(' ' as int), Word(m.zoneName)];
    assert m.Rfc1123() == [Word(m.dayName), Mark(',' as int), Space(' ' as int)] + (date + tail);
    DayCommaTokens(m, date + tail, lval, words);
    DayMonYearTokens(m, tail, DayName(m, lval), words);
    ClockTokensOf(m, [Space(' ' as int), Word(m.zoneName)], Num(m.year), words);
    ZoneTokens(m, Num(m.seconds), words);
  }

  lemma TwoForms(f: Form, g: Form, next: Terminal, pc: Control)
    requires IsForm(f) && IsForm(g)
    ensures Apart([f, g], next) <==> MayFollow(f, FirstSymbol(g)) && MayFollow(g, next)
    ensures AllTokens([f, g]) == GetdateForms.Tokens(f) + GetdateForms.Tokens(g)
    ensures EffectAll([f, g], pc) == Effect(g, Effect(f, pc))
  {
    hide IsForm, MayFollow, FirstSymbol, Effect, GetdateForms.Tokens;
    FormsAndOne([], f, FirstSymbol(g));
    FormsAndOne([f], g, next);
    assert [] + [f] == [f] && [f] + [g] == [f, g];
  }

  lemma ThreeForms(fs: seq<Form>, next: Terminal, pc: Control)
    requires |fs| == 3 && forall f <- fs :: IsForm(f)
    requires MayFollow(fs[0], FirstSymbol(fs[1])) && MayFollow(fs[1], FirstSymbol(fs[2])) && MayFollow(fs[2], next)
    ensures Apart(fs, next)
    ensures AllTokens(fs) == GetdateForms.Tokens(fs[0]) + GetdateForms.Tokens(fs[1]) + GetdateForms.Tokens(fs[2])
    ensures EffectAll(fs, pc) == Effect(fs[2], Effect(fs[1], Effect(fs[0], pc)))
  {
    hide IsForm, MayFollow, FirstSymbol, Effect, GetdateForms.Tokens;
    TwoForms(fs[0], fs[1], FirstSymbol(fs[2]), pc);
    FormsAndOne([fs[0], fs[1]], fs[2], next);
    assert [fs[0], fs[1]] + [fs[2]] == fs;
  }

  lemma FourForms(fs: seq<Form>, pc: Control)
    requires |fs| == 4 && forall f <- fs :: IsForm(f)
    requires MayFollow(fs[0], FirstSymbol(fs[1])) && MayFollow(fs[1], FirstSymbol(fs[2]))
    requires MayFollow(fs[2], FirstSymbol(fs[3])) && MayFollow(fs[3], EOF)
    ensures Apart(fs, EOF)
    ensures AllTokens(fs) == GetdateForms.Tokens(fs[0]) + GetdateForms.Tokens(fs[1]) + GetdateForms.Tokens(fs[2])
                             + GetdateForms.Tokens(fs[3])
    ensures EffectAll(fs, pc) == Effect(fs[3], Effect(fs[2], Effect(fs[1], Effect(fs[0], pc))))
  {
    hide IsForm, MayFollow, FirstSymbol, Effect, GetdateForms.Tokens;
    ThreeForms(fs[..3], FirstSymbol(fs[3]), pc);
    FormsAndOne(fs[..3], fs[3], EOF);
    assert fs[..3] + [fs[3]] == fs;
  }

  /** The control block after a date of HTTP: the names and numbers of the date. */
  function Set(m: Moment, pc: Control): Control
  {
    pc.(dayOrdinal := 1, dayNumber := m.weekday, day := ValueOf(m.day), month := m.month,
    year := Value(ValueOf(m.year), |m.year|),
    hour := ValueOf(m.hour), minutes := ValueOf(m.minutes), seconds := ValueOf(m.seconds), meridian := 2,
    daysSeen := pc.daysSeen + 1, datesSeen := pc.datesSeen + 1, timesSeen := pc.timesSeen + 1)
  }

  lemma Rfc1123RoundTrip(m: Moment, lval: Value, start: Store, words: Words)
    requires m.Valid(words)
    ensures Reading(m.Rfc1123(), lval, start, words)
         == (0, Set(m, start.pc).(timeZone := m.zone, zonesSeen := start.pc.zonesSeen + 1))
  {
    hide IsPiece, TokensOf, ArePieces, Run, m.Rfc1123, m.Valid, AllTokens, EffectAll, Apart;
    var fs := Rfc1123Forms(m, lval);
    Rfc1123Pieces(m, words);
    Rfc1123Tokens(m, lval, words);
    FourForms(fs, start.pc);
    TextIsRead(m.Rfc1123(), fs, lval, start, words);
  }

  lemma SignedStep(ps: seq<Piece>, i: nat, lval: Value, words: Words)
    requires i < |ps| && ps[i].Signed? && ps[i].sign == MINUS
    ensures var v := Negative(Num(ps[i].digits));
      TokensOf(ps[i..], lval, words) == [Token(T_SNUMBER, v)] + TokensOf(ps[i + 1..], v, words)
  {
    hide TokensOf, ValueOf;
    TokensFrom(ps, i, lval, words);
  }

  lemma DashedPieces(m: Moment, rest: seq<Piece>, words: Words)
    requires m.Valid(words) && ArePieces(rest)
    ensures ArePieces([Plain(m.day), Sign('-' as int), Word(m.monthName),
                       Signed('-' as int, m.year), Space(' ' as int)] + rest)
  {
    hide ArePieces, TextOf;
    var ps, next := [Plain(m.day), Sign('-' as int), Word(m.monthName),
                     Signed('-' as int, m.year), Space(' ' as int)], Head(TextOf(rest));
    PlainFits(m.day, '-' as int);
    WordFits(words, m.monthName, MONTH_NAME, m.month, '-' as int);
    PlainFits(m.year, ' ' as int);
    hide Means, IsNumeral;
    forall i | 0 <= i < |ps| ensures FitsAt(ps, i, next) {}
    FittingPieces(ps, rest);
  }

  lemma Rfc850Pieces(m: Moment, words: Words)
    requires m.Valid(words)
    ensures ArePieces(m.Rfc850())
  {
    assert m.Numbered();
    hide ArePieces, TextOf, m.Clock, m.Valid, m.Numbered;
    var date := [Plain(m.day), Sign('-' as int), Word(m.monthName), Signed('-' as int, m.year),
                 Space(' ' as int)];
    var tail := m.Clock() + [Space(' ' as int), Word(m.zoneName)];
    ZonePieces(m, words);
    ClockPieces(m, [Space(' ' as int), Word(m.zoneName)]);
    DashedPieces(m, tail, words);
    DayCommaPieces(m, date + tail, words);
    assert m.Rfc850() == [Word(m.dayName), Mark(',' as int), Space(' ' as int)] + (date + tail);
  }

  function Rfc850Forms(m: Moment, lval: Value): seq<Form>
  {
    [DayComma(DayName(m, lval)), DayMonYear(Num(m.day), MonthAfter(m, Num(m.day)), Num(m.year)),
     ClockForm(m), Zone(Value(m.zone, Num(m.seconds).digits))]
  }

  lemma DashedTokens(m: Moment, rest: seq<Piece>, lval: Value, words: Words)
    requires m.Valid(words)
    ensures var d, y := Num(m.day), Num(m.year);
      TokensOf([Plain(m.day), Sign('-' as int), Word(m.monthName), Signed('-' as int, m.year),
                Space(' ' as int)] + rest, lval, words)
      == GetdateForms.Tokens(DayMonYear(d, MonthAfter(m, d), y)) + TokensOf(rest, Negative(y), words)
  {
    hide TokensOf, Means, Num;
    var ps := [Plain(m.day), Sign('-' as int), Word(m.monthName), Signed('-' as int, m.year),
               Space(' ' as int)] + rest;
    var d, y := Num(m.day), Num(m.year);
    var mon := MonthAfter(m, d);
    NumberStep(ps, 0, lval, words);
    SilentStep(ps, 1, d, words);
    NameStep(ps, MONTH_NAME, m.month, 2, d, words);
    SignedStep(ps, 3, mon, words);
    SilentStep(ps, 4, Negative(y), words);
    assert ps[0..] == ps && ps[5..] == rest;
  }

  lemma Rfc850Tokens(m: Moment, lval: Value, words: Words)
    requires m.Valid(words)
    ensures TokensOf(m.Rfc850(), lval, words)
         == GetdateForms.Tokens(Rfc850Forms(m, lval)[0]) + GetdateForms.Tokens(Rfc850Forms(m, lval)[1])
            + GetdateForms.Tokens(Rfc850Forms(m, lval)[2]) + GetdateForms.Tokens(Rfc850Forms(m, lval)[3])
  {
    hide TokensOf, GetdateForms.Tokens, Num, m.Clock, ClockForm, m.Valid;
    var date := [Plain(m.day), Sign('-' as int), Word(m.monthName), Signed('-' as int, m.year),
                 Space(' ' as int)];
    var tail := m.Clock() + [Space(' ' as int), Word(m.zoneName)];
    assert m.Rfc850() == [Word(m.dayName), Mark(',' as int), Space(' ' as int)] + (date + tail);
    DayCommaTokens(m, date + tail, lval, words);
    DashedTokens(m, tail, DayName(m, lval), words);
    ClockTokensOf(m, [Space(' ' as int), Word(m.zoneName)], Negative(Num(m.year)), words);
    ZoneTokens(m, Num(m.seconds), words);
  }

  lemma Rfc850RoundTrip(m: Moment, lval: Value, start: Store, words: Words)
    requires m.Valid(words)
    ensures Reading(m.Rfc850(), lval, start, words)
         == (0, Set(m, start.pc).(timeZone := m.zone, zonesSeen := start.pc.zonesSeen + 1))
  {
    hide IsPiece, TokensOf, ArePieces, Run, m.Rfc850, m.Valid, AllTokens, EffectAll, Apart;
    var fs := Rfc850Forms(m, lval);
    Rfc850Pieces(m, words);
    Rfc850Tokens(m, lval, words);
    FourForms(fs, start.pc);
    TextIsRead(m.Rfc850(), fs, lval, start, words);
  }

  lemma DayToYearPieces(m: Moment)
    requires m.Numbered()
    ensures ArePieces(m.DayToYear()) && IsDigit(Head(TextOf(m.DayToYear())))
  {
    hide IsNumeral, m.Clock;
    var ps, end := [Plain(m.day), Space(' ' as int)], [Space(' ' as int), Plain(m.year)];
    PlainFits(m.day, ' ' as int);
    PlainFits(m.year, 0);
    forall i | 0 <= i < |end| ensures FitsAt(end, i, 0) {}
    FittingPieces(end, []);
    assert end + [] == end;
    hide ArePieces, TextOf;
    ClockPieces(m, end);
    var next := Head(TextOf(m.Clock() + end));
    forall i | 0 <= i < |ps| ensures FitsAt(ps, i, next) {}
    FittingPieces(ps, m.Clock() + end);
    assert m.DayToYear() == ps + (m.Clock() + end);
  }

  // The names of a date with spaces after them.
  lemma NamePieces(m: Moment, rest: seq<Piece>, words: Words)
    requires m.Valid(words) && ArePieces(rest)
    ensures ArePieces([Word(m.dayName), Space(' ' as int), Word(m.monthName), Space(' ' as int)] + rest)
  {
    hide ArePieces, TextOf;
    var ps, next := [Word(m.dayName), Space(' ' as int), Word(m.monthName), Space(' ' as int)], Head(TextOf(rest));
    WordFits(words, m.dayName, DAY_NAME, m.weekday, ' ' as int);
    WordFits(words, m.monthName, MONTH_NAME, m.month, ' ' as int);
    hide Means;
    forall i | 0 <= i < |ps| ensures FitsAt(ps, i, next) {}
    FittingPieces(ps, rest);
  }

  lemma AsctimePieces(m: Moment, words: Words)
    requires m.Valid(words)
    ensures ArePieces(m.Asctime())
  {
    assert m.Numbered();
    hide ArePieces, TextOf, IsNumeral, m.DayToYear, m.Valid;
    DayToYearPieces(m);
    if |m.day| < 2 {
      OneMore(Space(' ' as int), m.DayToYear());
    }
    var tail := (if |m.day| < 2 then [Space(' ' as int)] else []) + m.DayToYear();
    assert |m.day| >= 2 ==> tail == m.DayToYear();
    NamePieces(m, tail, words);
  }

  function AsctimeForms(m: Moment, lval: Value): seq<Form>
  {
    [Day(DayName(m, lval)), MonDay(Value(m.month, lval.digits), Num(m.day)), ClockForm(m), Lone(Num(m.year))]
  }

  lemma NameTokens(m: Moment, rest: seq<Piece>, lval: Value, words: Words)
    requires m.Valid(words)
    ensures TokensOf([Word(m.dayName), Space(' ' as int), Word(m.monthName), Space(' ' as int)] + rest, lval, words)
         == [Token(T_DAY, DayName(m, lval)), Token(T_MONTH, Value(m.month, lval.digits))]
            + TokensOf(rest, Value(m.month, lval.digits), words)
  {
    hide TokensOf, Means;
    var ps := [Word(m.dayName), Space(' ' as int), Word(m.monthName), Space(' ' as int)] + rest;
    NameStep(ps, DAY_NAME, m.weekday, 0, lval, words);
    SilentStep(ps, 1, DayName(m, lval), words);
    NameStep(ps, MONTH_NAME, m.month, 2, DayName(m, lval), words);
    SilentStep(ps, 3, Value(m.month, lval.digits), words);
    assert ps[0..] == ps && ps[4..] == rest;
  }

  lemma DayToYearTokens(m: Moment, lval: Value, words: Words)
    ensures TokensOf(m.DayToYear(), lval, words)
         == [Token(T_UNUMBER, Num(m.day))] + GetdateForms.Tokens(ClockForm(m)) + [Token(T_UNUMBER, Num(m.year))]
  {
    hide TokensOf, Num, m.Clock, ClockForm;
    var ps, end := m.DayToYear(), [Space(' ' as int), Plain(m.year)];
    NumberStep(ps, 0, lval, words);
    SilentStep(ps, 1, Num(m.day), words);
    assert ps[0..] == ps && ps[2..] == m.Clock() + end;
    ClockTokensOf(m, end, Num(m.day), words);
    SilentStep(end, 0, Num(m.seconds), words);
    NumberStep(end, 1, Num(m.seconds), words);
    NoTokens(Num(m.year), words);
    assert end[0..] == end && end[2..] == [];
  }

  lemma AsctimeFormTokens(m: Moment, lval: Value)
    ensures var fs := AsctimeForms(m, lval);
      && GetdateForms.Tokens(fs[0]) == [Token(T_DAY, DayName(m, lval))]
      && GetdateForms.Tokens(fs[1]) == [Token(T_MONTH, Value(m.month, lval.digits)), Token(T_UNUMBER, Num(m.day))]
      && fs[2] == ClockForm(m) && GetdateForms.Tokens(fs[3]) == [Token(T_UNUMBER, Num(m.year))]
  {}

  lemma AsctimeTokens(m: Moment, lval: Value, words: Words)
    requires m.Valid(words)
    ensures TokensOf(m.Asctime(), lval, words)
         == GetdateForms.Tokens(AsctimeForms(m, lval)[0]) + GetdateForms.Tokens(AsctimeForms(m, lval)[1])
            + GetdateForms.Tokens(AsctimeForms(m, lval)[2]) + GetdateForms.Tokens(AsctimeForms(m, lval)[3])
  {
    hide TokensOf, Num, m.DayToYear, ClockForm, m.Valid, AsctimeForms, GetdateForms.Tokens;
    AsctimeFormTokens(m, lval);
    var tail, v := (if |m.day| < 2 then [Space(' ' as int)] else []) + m.DayToYear(), Value(m.month, lval.digits);
    NameTokens(m, tail, lval, words);
    DayToYearTokens(m, v, words);
    if |m.day| < 2 {
      SilentStep(tail, 0, v, words);
      assert tail[0..] == tail && tail[1..] == m.DayToYear();
    } else {
      assert tail == m.DayToYear();
    }
  }

  lemma AsctimeEffect(m: Moment, lval: Value, pc: Control)
    requires IsNumeral(m.year) && pc.datesSeen >= 0 && pc.timesSeen >= 0 && pc.relsSeen == 0
    ensures var fs := AsctimeForms(m, lval);
      && (forall f <- fs :: IsForm(f))
      && MayFollow(fs[0], FirstSymbol(fs[1])) && MayFollow(fs[1], FirstSymbol(fs[2]))
      && MayFollow(fs[2], FirstSymbol(fs[3])) && MayFollow(fs[3], EOF)
      && Effect(fs[3], Effect(fs[2], Effect(fs[1], Effect(fs[0], pc)))) == Set(m, pc)
  {
    NumIsForm(m.year);
    hide ValueOf, IsNumeral;
  }

  /** With a date and a time before it and no relative item, the lone number is the year. */
  lemma AsctimeRoundTrip(m: Moment, lval: Value, start: Store, words: Words)
    requires m.Valid(words)
    requires start.pc.datesSeen >= 0 && start.pc.timesSeen >= 0 && start.pc.relsSeen == 0
    ensures Reading(m.Asctime(), lval, start, words) == (0, Set(m, start.pc))
  {
    assert IsNumeral(m.year);
    hide IsPiece, TokensOf, ArePieces, Run, m.Asctime, m.Valid, AllTokens, EffectAll, Apart, AsctimeForms, Effect;
    hide IsForm, MayFollow, FirstSymbol, GetdateForms.Tokens, IsNumeral;
    var fs := AsctimeForms(m, lval);
    AsctimePieces(m, words);
    AsctimeTokens(m, lval, words);
    AsctimeEffect(m, lval, start.pc);
    FourForms(fs, start.pc);
    TextIsRead(m.Asctime(), fs, lval, start, words);
  }

  /// Dates with slashes
  /// ------------------

  /** `12/25/1999 8:30 pm EDT`: three numbers, a time, and words for the half of the day and the zone in summer. */
  datatype Slashed = Slashed(first: seq<Char>, second: seq<Char>, third: seq<Char>, hour: seq<Char>,
                             minutes: seq<Char>, halfName: seq<Char>, half: int, zoneName: seq<Char>, zone: int)
  {
    ghost predicate Valid(words: Words)
    {
      Means(words, halfName, HALF_DAY, half) && Means(words, zoneName, SUMMER_ZONE, zone)
      && IsNumeral(first) && IsNumeral(second) && IsNumeral(third) && IsNumeral(hour) && IsNumeral(minutes)
    }

    function Date(): seq<Piece>
    {
      [Plain(first), Mark('/' as int), Plain(second), Mark('/' as int),
       Plain(third), Space(' ' as int)]
    }

    function Time(): seq<Piece>
    {
      [Plain(hour), Mark(':' as int), Plain(minutes), Space(' ' as int), Word(halfName),
       Space(' ' as int), Word(zoneName)]
    }

    function DateForm(): Form
    {
      var a, b, c := Num(first), Num(second), Num(third);
      if a.digits < 4 then SlashDate(a, b, c) else SlashYear(a, b, c)
    }

    function TimeForm(): Form
    {
      ClockMerid(Num(hour), Num(minutes), Value(half, Num(minutes).digits))
    }

    function ZoneForm(): Form
    {
      DayZone(Value(zone, Num(minutes).digits))
    }

    // The first number is a month, unless it has four digits.
    function Set(pc: Control): Control
    {
      var a, b, c := ValueOf(first), ValueOf(second), ValueOf(third);
      var dated := if |first| < 4 then pc.(month := a, day := b, year := Value(c, |third|))
                   else pc.(year := Value(a, |first|), month := b, day := c);
      dated.(datesSeen := pc.datesSeen + 1, hour := ValueOf(hour), minutes := ValueOf(minutes), seconds := 0,
      meridian := half, timesSeen := pc.timesSeen + 1, timeZone := zone + 60, zonesSeen := pc.zonesSeen + 1)
    }
  }

  lemma SlashedTimePieces(t: Slashed, words: Words)
    requires t.Valid(words)
    ensures ArePieces(t.Time())
  {
    var ps := t.Time();
    PlainFits(t.hour, ':' as int);
    PlainFits(t.minutes, ' ' as int);
    WordFits(words, t.halfName, HALF_DAY, t.half, ' ' as int);
    WordFits(words, t.zoneName, SUMMER_ZONE, t.zone, 0);
    hide IsNumeral, Means;
    forall i | 0 <= i < |ps| ensures FitsAt(ps, i, 0) {}
    FittingPieces(ps, []);
    assert ps + [] == ps;
  }

  lemma SlashedPieces(t: Slashed, words: Words)
    requires t.Valid(words)
    ensures ArePieces(t.Date() + t.Time())
  {
    hide ArePieces, TextOf, IsNumeral, Means, t.Time;
    var ps, next := t.Date(), Head(TextOf(t.Time()));
    PlainFits(t.first, '/' as int);
    PlainFits(t.second, '/' as int);
    PlainFits(t.third, ' ' as int);
    SlashedTimePieces(t, words);
    forall i | 0 <= i < |ps| ensures FitsAt(ps, i, next) {}
    FittingPieces(ps, t.Time());
  }

  lemma SlashedDateTokens(t: Slashed, rest: seq<Piece>, lval: Value, words: Words)
    ensures TokensOf(t.Date() + rest, lval, words)
         == GetdateForms.Tokens(t.DateForm()) + TokensOf(rest, Num(t.third), words)
  {
    hide TokensOf, Num;
    var ps := t.Date() + rest;
    var a, b, c := Num(t.first), Num(t.second), Num(t.third);
    NumberStep(ps, 0, lval, words);
    MarkStep(ps, 1, a, words);
    NumberStep(ps, 2, a, words);
    MarkStep(ps, 3, b, words);
    NumberStep(ps, 4, b, words);
    SilentStep(ps, 5, c, words);
    assert ps[0..] == ps && ps[6..] == rest;
    assert GetdateForms.Tokens(t.DateForm())
        == [Token(T_UNUMBER, a), Token(T_SLASH, a), Token(T_UNUMBER, b), Token(T_SLASH, b), Token(T_UNUMBER, c)];
  }

  lemma SlashedTimeTokens(t: Slashed, lval: Value, words: Words)
    requires t.Valid(words)
    ensures TokensOf(t.Time(), lval, words) == GetdateForms.Tokens(t.TimeForm()) + GetdateForms.Tokens(t.ZoneForm())
  {
    hide TokensOf, Num, Means, IsNumeral;
    var ps, h, m := t.Time(), Num(t.hour), Num(t.minutes);
    NumberStep(ps, 0, lval, words);
    MarkStep(ps, 1, h, words);
    NumberStep(ps, 2, h, words);
    SilentStep(ps, 3, m, words);
    NameStep(ps, HALF_DAY, t.half, 4, m, words);
    SilentStep(ps, 5, Value(t.half, m.digits), words);
    NameStep(ps, SUMMER_ZONE, t.zone, 6, Value(t.half, m.digits), words);
    NoTokens(Value(t.zone, m.digits), words);
    assert ps[0..] == ps && ps[7..] == [];
  }

  lemma SlashedForms(t: Slashed, pc: Control)
    ensures var f, g, h := t.DateForm(), t.TimeForm(), t.ZoneForm();
      && IsForm(f) && IsForm(g) && IsForm(h) && Effect(h, Effect(g, Effect(f, pc))) == t.Set(pc)
      && MayFollow(f, FirstSymbol(g)) && MayFollow(g, FirstSymbol(h)) && MayFollow(h, EOF)
  {
    
  }

  lemma SlashedRoundTrip(t: Slashed, lval: Value, start: Store, words: Words)
    requires t.Valid(words)
    ensures Reading(t.Date() + t.Time(), lval, start, words) == (0, t.Set(start.pc))
  {
    var fs := [t.DateForm(), t.TimeForm(), t.ZoneForm()];
    SlashedPieces(t, words);
    SlashedTimeTokens(t, Num(t.third), words);
    SlashedDateTokens(t, t.Time(), lval, words);
    hide IsPiece, TokensOf, ArePieces, Run, t.Date, t.Time, t.Valid, AllTokens, EffectAll, Apart;
    hide t.DateForm, t.TimeForm, t.ZoneForm, MayFollow, Effect, FirstSymbol, IsForm, GetdateForms.Tokens, t.Set;
    SlashedForms(t, start.pc);
    ThreeForms(fs, EOF, start.pc);
    TextIsRead(t.Date() + t.Time(), fs, lval, start, words);
  }

  /// Numbers alone
  /// -------------

  function TwoNumbers(a: seq<Char>, b: seq<Char>): seq<Piece>
  {
    [Plain(a), Space(' ' as int), Plain(b)]
  }

  lemma {:induction false} NumeralIsNat(ds: seq<int>, value: int)
    requires (forall c <- ds :: IsDigit(c)) && value >= 0
    ensures ValueFrom(ds, value) >= 0
    decreases |ds|
  {
    if ds != [] {
      assert ds[0] in ds;
      NumeralIsNat(ds[1..], 10 * value + ds[0] - 48);
    }
  }

  lemma NumIsForm(ds: seq<Char>)
    requires IsNumeral(ds)
    ensures IsForm(Lone(Num(ds)))
  {
    NumeralIsNat(ds, 0);
  }

  lemma NumbersArePieces(a: seq<Char>, b: seq<Char>)
    requires IsNumeral(a) && IsNumeral(b)
    ensures ArePieces(TwoNumbers(a, b))
  {
    var ps := TwoNumbers(a, b);
    PlainFits(a, ' ' as int);
    PlainFits(b, 0);
    hide IsNumeral;
    forall i | 0 <= i < |ps| ensures FitsAt(ps, i, 0) {}
    FittingPieces(ps, []);
    assert ps + [] == ps;
  }

  lemma NumbersAreRead(a: seq<Char>, b: seq<Char>, lval: Value, start: Store, words: Words)
    requires IsNumeral(a) && IsNumeral(b)
    ensures IsForm(Lone(Num(a))) && IsForm(Lone(Num(b)))
    ensures Reading(TwoNumbers(a, b), lval, start, words) == (0, Effect(Lone(Num(b)), Effect(Lone(Num(a)), start.pc)))
  {
    hide Num, OfNumber, Run, TokensOf, AllTokens, EffectAll, ArePieces, IsNumeral;
    var ps, f, g := TwoNumbers(a, b), Lone(Num(a)), Lone(Num(b));
    NumbersArePieces(a, b);
    NumberStep(ps, 0, lval, words);
    SilentStep(ps, 1, Num(a), words);
    NumberStep(ps, 2, Num(a), words);
    NoTokens(Num(b), words);
    assert ps[0..] == ps && ps[3..] == [];
    NumIsForm(a);
    NumIsForm(b);
    TwoForms(f, g, EOF, start.pc);
    TextIsRead(ps, [f, g], lval, start, words);
  }

  // The numeral of a date and of a time without marks.
  ghost predicate IsDate(ds: seq<Char>, y: nat, m: nat, d: nat)
  {
    IsNumeral(ds) && |ds| > 4 && m < 100 && d < 100 && ValueOf(ds) == 10000 * y + 100 * m + d
  }

  ghost predicate IsTime(ds: seq<Char>, h: nat, min: nat)
  {
    IsNumeral(ds) && 3 <= |ds| <= 4 && min < 100 && ValueOf(ds) == 100 * h + min
  }

  lemma PartsOfDate(y: nat, m: nat, d: nat)
    requires m < 100 && d < 100
    ensures var date := 10000 * y + 100 * m + d;
      date / 10000 == y && date / 100 % 100 == m && date % 100 == d
  {
    assert (10000 * y + 100 * m + d) / 100 == 100 * y + m;
  }

  /** `20030203 14` is a date and an hour. */
  lemma DateThenHour(date: seq<Char>, hour: seq<Char>, y: nat, m: nat, d: nat, lval: Value, start: Store, words: Words)
    requires IsDate(date, y, m, d) && IsNumeral(hour) && |hour| <= 2
    requires start.pc.datesSeen == 0 && start.pc.timesSeen == 0
    ensures Reading(TwoNumbers(date, hour), lval, start, words)
         == (0, start.pc.(year := Value(y, |date| - 4), month := m, day := d, datesSeen := 1,
                          hour := ValueOf(hour), minutes := 0, seconds := 0, meridian := 2, timesSeen := 1))
  {
    hide Reading, ValueOf, IsNumeral;
    PartsOfDate(y, m, d);
    NumbersAreRead(date, hour, lval, start, words);
  }

  /** `0830 20030203` is a time and a date. */
  lemma TimeThenDate(time: seq<Char>, date: seq<Char>, h: nat, min: nat, y: nat, m: nat, d: nat,
                     lval: Value, start: Store, words: Words)
    requires IsTime(time, h, min) && IsDate(date, y, m, d) && start.pc.datesSeen == 0
    ensures Reading(TwoNumbers(time, date), lval, start, words)
         == (0, start.pc.(hour := h, minutes := min, seconds := 0, meridian := 2,
                          timesSeen := start.pc.timesSeen + 1,
                          year := Value(y, |date| - 4), month := m, day := d, datesSeen := 1))
  {
    hide Reading, ValueOf, IsNumeral;
    PartsOfDate(y, m, d);
    NumbersAreRead(time, date, lval, start, words);
  }

  /** In `20030203 0830` the second number is the year, unless a relative item came before. */
  lemma DateThenTime(date: seq<Char>, time: seq<Char>, y: nat, m: nat, d: nat, h: nat, min: nat,
                     lval: Value, start: Store, words: Words)
    requires IsDate(date, y, m, d) && IsTime(time, h, min) && start.pc.datesSeen == 0
    ensures Reading(TwoNumbers(date, time), lval, start, words)
         == (0, if start.pc.relsSeen == 0 then
                  start.pc.(year := Value(100 * h + min, |time|), month := m, day := d, datesSeen := 1)
                else
                  start.pc.(year := Value(y, |date| - 4), month := m, day := d, datesSeen := 1,
                            hour := h, minutes := min, seconds := 0, meridian := 2,
                            timesSeen := start.pc.timesSeen + 1))
  {
    hide Reading, ValueOf, IsNumeral;
    PartsOfDate(y, m, d);
    NumbersAreRead(date, time, lval, start, words);
  }
}
