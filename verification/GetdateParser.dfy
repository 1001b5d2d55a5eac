/** The lexer and the parser of dates as they run: in place, on an input pointer,
    two stacks and a control block. */
module GetdateParser {
  import opened GetdateTables
  import opened GetdateGrammar
  import opened GetdateMachine
  import opened GetdateLexer

  /// One step of the machine, in terms of its stacks
  /// -----------------------------------------------

  lemma OnShift(c: Config, s: int, v: Value, rest: seq<Token>)
    requires Valid(c) && Act(Top(c.states), Look(c)) == Shift(s)
    requires if c.toks == [] then v == c.lval && rest == [] else [Token(c.toks[0].sym, v)] + rest == c.toks
    ensures 0 <= s < 64
    ensures Shifted(c, s) == Config(c.states + [s], c.vals + [v], rest, v, c.store)
    ensures Valid(Shifted(c, s)) && Run(Shifted(c, s)) == Run(c) && |c.states| < 8
    ensures |rest| < |c.toks| || (c.toks == [] && Rank(s) < Rank(Top(c.states)))
  {
    hide Act, Rank, Below, Next, Height;
    StepSafe(c);
    ChainHeight(Shifted(c, s).states);
    assert c.toks != [] ==> c.toks[0] == Token(c.toks[0].sym, v) && c.toks[1..] == rest;
  }

  lemma ReducedIs(c: Config, r: Rule)
    requires CanDo(c, Reduce(r))
    ensures var n := |c.vals| - LengthOf(r);
      var store := Perform(r, c.vals[n..], c.store);
      && Reduced(c, r).states == c.states[..n + 1] + [Goto(c.states[n], LhsOf(r))]
      && Reduced(c, r).vals == c.vals[..n] + [store.yyval] && Reduced(c, r).store == store
    ensures YYNTBASE <= LhsOf(r) < 33
  {
    hide Goto, LengthOf, Perform;
  }

  // The configuration after the reduction that the tables ask for.
  ghost function AfterReduce(c: Config): Config
    requires Valid(c) && Act(Top(c.states), Look(c)).Reduce?
  {
    StepSafe(c);
    Reduced(c, Act(Top(c.states), Look(c)).rule)
  }

  // The run goes on from the configuration after a step, which is closer to its end.
  ghost predicate OnwardShift(c: Config, s: int)
    requires Valid(c)
  {
    && 0 <= s < 64 && Valid(Shifted(c, s)) && Run(Shifted(c, s)) == Run(c)
    && Shifted(c, s).states == c.states + [s]
    && (|Shifted(c, s).toks| < |c.toks| || (Shifted(c, s).toks == c.toks && Rank(s) < Rank(Top(c.states))))
  }

  ghost predicate OnwardReduce(c: Config, r: int)
    requires Valid(c) && Act(Top(c.states), Look(c)) == Reduce(r)
  {
    && CanDo(c, Reduce(r))
    && var d := Reduced(c, r);
    && d == AfterReduce(c) && Valid(d) && Run(d) == Run(c) && d.toks == c.toks
    && |d.states| > 0 && Rank(Top(d.states)) < Rank(Top(c.states))
  }

  lemma OnStep(c: Config)
    requires Valid(c)
    ensures |c.states| > 0
    ensures var a := Act(Top(c.states), Look(c));
      && (a.Shift? ==> OnwardShift(c, a.state))
      && (a.Reduce? ==> OnwardReduce(c, a.rule))
      && (a.Accept? ==> Run(c) == (0, c.store.pc))
      && (a.Error? ==> Run(c) == (1, c.store.pc))
  {
    hide Act, Rank, Below, Next, Goto, PerformOn;
    StepSafe(c);
  }

  lemma OnReduce(c: Config, r: int)
    requires Valid(c) && Act(Top(c.states), Look(c)) == Reduce(r)
    ensures CanDo(c, Reduce(r)) && Valid(Reduced(c, r)) && Run(Reduced(c, r)) == Run(c)
    ensures |Reduced(c, r).states| <= 8 && 0 <= LengthOf(r)
    ensures Reduced(c, r).toks == c.toks && Reduced(c, r).lval == c.lval
    ensures Rank(Top(Reduced(c, r).states)) < Rank(Top(c.states))
  {
    hide Act, Rank, Below, Next, Height, Goto, PerformOn, LengthOf, LhsOf, RhsOf, Run;
    OnStep(c);
    LengthOfRule(r);
    ChainHeight(Reduced(c, r).states);
  }

  const YYEMPTY := -2
  const YYINITDEPTH := 200

  /** What the parser and the lexer share: the input that remains and the control block. */
  class ParserControl {
    const words: Words
    var input: seq<Char>
    var pc: Control

    constructor (input: seq<Char>, pc: Control, words: Words)
      ensures this.input == input && this.pc == pc && this.words == words
    {
      this.input, this.pc, this.words := input, pc, words;
    }

    method ReadNumber() returns (value: int, digits: nat)
      requires IsDigit(Head(input))
      modifies this`input
      ensures (value, input) == Digits(old(input), 0) && digits == |old(input)| - |input|
    {
      var p := input;
      value := 0;
      while IsDigit(Head(p))
        invariant Digits(p, value) == Digits(old(input), 0)
        decreases |p|
      {
        value := 10 * value + p[0] - 48;
        p := p[1..];
      }
      digits := |input| - |p|;
      input := p;
    }

    method ReadWord() returns (buff: seq<Char>)
      requires IsAlpha(Head(input))
      modifies this`input
      ensures input == AfterWord(old(input)[1..])
      ensures buff == Clip(old(input)[..|old(input)| - |input|])
    {
      ghost var start := input;
      buff := [input[0]];
      input := input[1..];
      ghost var n := 1;
      while IsAlpha(Head(input)) || Head(input) == DOT
        invariant 1 <= n <= |start| && input == start[n..]
        invariant AfterWord(input) == AfterWord(start[1..])
        invariant buff == Clip(start[..n])
        decreases |input|
      {
        if |buff| < 19 {
          buff := buff + [input[0]];
        }
        input := input[1..];
        n := n + 1;
      }
    }

    // Skips a comment; `ended` if the input ends inside it.
    method SkipComment() returns (ended: bool)
      requires Head(input) == LPAREN
      modifies this`input
      ensures ended == !Closes(old(input)[1..], 1)
      ensures input == if ended then [] else AfterComment(old(input)[1..], 1)
    {
      ghost var start := input[1..];
      var count := 1;
      input := input[1..];
      while count > 0
        invariant 0 <= count
        invariant Closes(input, count) == Closes(start, 1)
        invariant AfterComment(input, count) == AfterComment(start, 1)
        decreases |input|, count
      {
        if input == [] {
          return true;
        }
        if input[0] == LPAREN {
          count := count + 1;
        } else if input[0] == RPAREN {
          count := count - 1;
        }
        input := input[1..];
      }
      ended := false;
    }

    /** Returns the next token and takes it off the input. */
    method Yylex(yylval: Value) returns (code: int, lval: Value)
      modifies this`input
      ensures Lexed(code, lval, input) == Lex(old(input), yylval, words)
    {
      lval := yylval;
      while true
        invariant lval == yylval
        invariant Lex(input, lval, words) == Lex(old(input), yylval, words)
        decreases |input|
      {
        while IsSpace(Head(input))
          invariant Lex(input, lval, words) == Lex(old(input), yylval, words)
          decreases |input|
        {
          input := input[1..];
        }
        var c := Head(input);
        if IsDigit(c) || c == MINUS || c == PLUS {
          var sign := 0;
          if c == MINUS || c == PLUS {
            sign := if c == MINUS then -1 else 1;
            input := input[1..];
            if !IsDigit(Head(input)) {
              continue;
            }
          }
          var value, digits := ReadNumber();
          lval := Value(if sign < 0 then -value else value, digits);
          return if sign != 0 then CODE_SNUMBER else CODE_UNUMBER, lval;
        }
        if IsAlpha(c) {
          var buff := ReadWord();
          match words(buff)
          case Unknown =>
            return QUESTION, lval;
          case Known(found, value) =>
            return found, lval.(value := value);
        }
        if c != LPAREN {
          input := if input == [] then [] else input[1..];
          return AsChar(c), lval;
        }
        var ended := SkipComment();
        if ended {
          return 0, lval;
        }
      }
    }

    // What a lookahead of `yychar` stands for in front of the input that remains.
    ghost function Ahead(yychar: int, yylval: Value): seq<Token>
      reads this`input
    {
      if yychar == YYEMPTY then Tokens(input, yylval, words)
      else if yychar <= 0 then []
      else [Token(Translate(yychar), yylval)] + Tokens(input, yylval, words)
    }

    // Reads a token unless one is already waiting.
    method ReadLookahead(yychar: int, yylval: Value) returns (chr: int, lval: Value, chr1: Terminal)
      modifies this`input
      ensures Ahead(chr, lval) == old(Ahead(yychar, yylval))
      ensures chr1 == HeadOf(Ahead(chr, lval), EOF)
      ensures chr >= 0 && (chr == 0 <==> chr1 == EOF)
      ensures yychar <= 0 && chr == 0 ==> lval == yylval
      ensures yychar > 0 ==> chr == yychar
    {
      chr, lval := yychar, yylval;
      if chr == YYEMPTY {
        chr, lval := Yylex(lval);
      }
      if chr <= 0 {
        chr, chr1 := 0, EOF;
      } else {
        chr1 := Translate(chr);
      }
    }

    static method Put<T>(stack: array<T>, n: nat, x: T)
      requires n < stack.Length
      modifies stack
      ensures stack[..n + 1] == old(stack[..n]) + [x]
      ensures 0 < n ==> stack[1..n + 1] == old(stack[1..n]) + [x]
    {
      stack[n] := x;
    }

    // What a state does, on its own or with the next token; the token is read only if it matters.
    method Decide(yystate: State, yychar: int, yylval: Value) returns (todo: Action, chr: int, lval: Value)
      modifies this`input
      ensures todo == Act(yystate, HeadOf(old(Ahead(yychar, yylval)), EOF))
      ensures Ahead(chr, lval) == old(Ahead(yychar, yylval))
      ensures todo.Shift? ==> chr >= 0
      ensures yychar <= 0 && chr <= 0 ==> lval == yylval
      ensures yychar > 0 ==> chr == yychar
    {
      hide Act, PackedAction, Table, Check, DefaultAction, Tokens, Translate;
      chr, lval := yychar, yylval;
      var yyn := PackedAction(yystate);
      var yychar1: Terminal := EOF;
      var packed := false;
      if yyn != YYFLAG {
        chr, lval, yychar1 := ReadLookahead(yychar, yylval);
        packed := 0 <= yyn + yychar1 <= YYLAST && Check(yyn + yychar1) == yychar1;
      }
      ActUnpacked(yystate, HeadOf(old(Ahead(yychar, yylval)), EOF), packed);
      if packed {
        yyn := Table(yyn + yychar1);
        todo :=
          if yyn < 0 then (if yyn == YYFLAG then Error else Reduce(-yyn))
          else if yyn == 0 then Error
          else if yyn == YYFINAL then Accept
          else Shift(yyn);
      } else {
        yyn := DefaultAction(yystate);
        todo := if yyn == 0 then Error else Reduce(yyn);
      }
    }

    // The stacks, the lookahead and the registers are those of configuration `c`.
    ghost predicate Stored(c: Config, yyss: array<State>, yyvs: array<Value>, yyssp: int,
                           yychar: int, yylval: Value, yyval: Value)
      reads this, yyss, yyvs
    {
      && yyss.Length == yyvs.Length == YYINITDEPTH
      && 0 <= yyssp < 8 && yyss[..yyssp + 1] == c.states && yyvs[1..yyssp + 1] == c.vals
      && c.toks == Ahead(yychar, yylval)
      && c.store == Store(yyval, pc)
      && (yychar <= 0 ==> c.lval == yylval)
    }

    // The same, but the top state is still to be stored.
    ghost predicate Tracks(c: Config, yyss: array<State>, yyvs: array<Value>, yyssp: int, yystate: State,
                           yychar: int, yylval: Value, yyval: Value)
      reads this, yyss, yyvs
    {
      && yyss.Length == yyvs.Length == YYINITDEPTH
      && -1 <= yyssp < 7 && yyss[..yyssp + 1] + [yystate] == c.states && yyvs[1..yyssp + 2] == c.vals
      && c.toks == Ahead(yychar, yylval)
      && c.store == Store(yyval, pc)
      && (yychar <= 0 ==> c.lval == yylval)
    }

    // Pushes the state; the stacks never have to grow.
    method StoreState(yyss: array<State>, ghost yyvs: array<Value>, yyssp0: int, yystate: State,
                      ghost yychar: int, ghost yylval: Value, ghost yyval: Value, ghost c: Config)
      returns (yyssp: nat)
      requires Tracks(c, yyss, yyvs, yyssp0, yystate, yychar, yylval, yyval)
      modifies yyss
      ensures Stored(c, yyss, yyvs, yyssp, yychar, yylval, yyval) && |c.states| > 0 && yystate == Top(c.states)
    {
      yyssp := yyssp0 + 1;
      Put(yyss, yyssp, yystate);
      if yyssp >= YYINITDEPTH - 1 {
        assert false;
      }
    }

    // Decides, with the next token of `c` in view.
    method DecideNext(ghost yyss: array<State>, ghost yyvs: array<Value>, ghost yyssp: nat, yystate: State,
                      yychar: int, yylval: Value, ghost yyval: Value, ghost c: Config)
      returns (todo: Action, chr: int, lval: Value)
      requires Stored(c, yyss, yyvs, yyssp, yychar, yylval, yyval)
      modifies this`input
      ensures Stored(c, yyss, yyvs, yyssp, chr, lval, yyval)
      ensures todo == Act(yystate, Look(c)) && (todo.Shift? ==> chr >= 0)
    {
      hide Act, Tokens, Translate;
      todo, chr, lval := Decide(yystate, yychar, yylval);
    }

    // Pushes the value of the lookahead and takes it.
    method ShiftBy(s: State, ghost yyss: array<State>, yyvs: array<Value>, yyssp: nat,
                   yychar: int, yylval: Value, ghost yyval: Value, ghost c: Config)
      returns (chr: int)
      requires Valid(c) && Stored(c, yyss, yyvs, yyssp, yychar, yylval, yyval)
      requires Act(Top(c.states), Look(c)) == Shift(s) && yychar >= 0
      modifies yyvs
      ensures Tracks(Shifted(c, s), yyss, yyvs, yyssp, s, chr, yylval, yyval)
    {
      hide Act, Tokens, Translate, Run, Valid, Shifted, Rank;
      OnShift(c, s, yylval, if yychar == 0 then [] else Tokens(input, yylval, words));
      chr := yychar;
      if yychar != 0 {
        chr := YYEMPTY;
      }
      Put(yyvs, yyssp + 1, yylval);
    }

    // Performs the action of rule `r` and puts its result in place of the values it used.
    method ReduceBy(r: Rule, yyss: array<State>, yyvs: array<Value>, yyssp: nat,
                    ghost yychar: int, ghost yylval: Value, yyval: Value, ghost c: Config)
      returns (ssp: nat, val: Value, state: State)
      requires Valid(c) && Stored(c, yyss, yyvs, yyssp, yychar, yylval, yyval)
      requires Act(Top(c.states), Look(c)) == Reduce(r)
      modifies yyvs, this`pc
      ensures Tracks(AfterReduce(c), yyss, yyvs, ssp, state, yychar, yylval, val)
    {
      hide Act, Goto, LengthOf, LhsOf, Perform, Tokens, Translate, Run, Valid, Rank, Reduced, Ahead;
      OnReduce(c, r);
      ssp := yyssp - LengthOf(r);
      var values := yyvs[ssp + 1..yyssp + 1];
      assert values == c.vals[ssp..];
      var store := Perform(r, values, Store(yyval, pc));
      val, pc := store.yyval, store.pc;
      Put(yyvs, ssp + 1, val);
      ReducedIs(c, r);
      state := Goto(yyss[ssp], LhsOf(r));
    }

    /** Parses the input. The result and the control block are those of the parsing machine
        on the tokens of the input, although tokens are read only when they are needed. */
    method Yyparse(yylval0: Value, yyval0: Value) returns (code: int)
      modifies this
      ensures (code, pc) ==
              Run(Init(Tokens(old(input), yylval0, words), yylval0, Store(yyval0, old(pc))))
    {
      hide Act, Tokens, Run, Valid, Shifted, Reduced, Tracks, Stored;
      InitIsValid(Tokens(input, yylval0, words), yylval0, Store(yyval0, pc));
      ghost var result := Run(Init(Tokens(input, yylval0, words), yylval0, Store(yyval0, pc)));
      var yyss := new State[YYINITDEPTH];
      var yyvs := new Value[YYINITDEPTH];
      var yyssp: int := -1;
      var yystate: State := 0;
      var yychar := YYEMPTY;
      var yylval, yyval := yylval0, yyval0;
      ghost var c := Init(Tokens(input, yylval0, words), yylval0, Store(yyval0, pc));
      TracksInit(yyss, yyvs, yylval0, yyval0);
      while true
        invariant Valid(c) && Run(c) == result && |c.states| > 0
        invariant Tracks(c, yyss, yyvs, yyssp, yystate, yychar, yylval, yyval)
        decreases |c.toks|, Rank(Top(c.states))
      {
        yyssp := StoreState(yyss, yyvs, yyssp, yystate, yychar, yylval, yyval, c);
        var todo;
        todo, yychar, yylval := DecideNext(yyss, yyvs, yyssp, yystate, yychar, yylval, yyval, c);
        OnStep(c);
        StoredFacts(c, yyss, yyvs, yyssp, yychar, yylval, yyval);
        match todo
        case Accept =>
          return 0;
        case Error =>
          PopAll(yyss, yyssp);
          return 1;
        case Shift(s) =>
          yychar := ShiftBy(s, yyss, yyvs, yyssp, yychar, yylval, yyval, c);
          yystate := s;
          c := Shifted(c, s);
        case Reduce(r) =>
          yyssp, yyval, yystate := ReduceBy(r, yyss, yyvs, yyssp, yychar, yylval, yyval, c);
          c := AfterReduce(c);
      }
    }

    lemma TracksInit(yyss: array<State>, yyvs: array<Value>, yylval: Value, yyval: Value)
      requires yyss.Length == yyvs.Length == YYINITDEPTH
      ensures var c := Init(Tokens(input, yylval, words), yylval, Store(yyval, pc));
        Tracks(c, yyss, yyvs, -1, 0, YYEMPTY, yylval, yyval)
    {
      hide Tokens;
    }

    lemma StoredFacts(c: Config, yyss: array<State>, yyvs: array<Value>, yyssp: int,
                      yychar: int, yylval: Value, yyval: Value)
      requires Stored(c, yyss, yyvs, yyssp, yychar, yylval, yyval)
      ensures c.store.pc == pc && 0 <= yyssp < yyss.Length
    {}

    // Recovery from a syntax error looks for a state that shifts the error token; there is none.
    method PopAll(yyss: array<State>, top: int)
      requires 0 <= top < yyss.Length
    {
      var yyssp, yystate := top, yyss[top];
      while true
        invariant 0 <= yyssp < yyss.Length
        decreases yyssp
      {
        var yyn := PackedAction(yystate);
        if yyn != YYFLAG && 0 <= yyn + 1 <= YYLAST {
          NoStateShiftsError(yyn + 1);
          if Check(yyn + 1) == 1 {
            assert false;
          }
        }
        if yyssp == 0 {
          return;
        }
        yyssp := yyssp - 1;
        yystate := yyss[yyssp];
      }
    }
  }
}
