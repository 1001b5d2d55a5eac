/** The packed LALR(1) tables of the date parser and the automaton they encode.

    Symbols are numbered as the tables number them: 0 is the end of input,
    1 the error token, 2 an unknown token, 3..21 the tokens tAGO..'/', and
    22..32 the nonterminals spec, item, time, local_zone, zone, day, date,
    rel, relunit, number and o_merid. */
module GetdateTables {

  const YYFINAL := 64
  const YYFLAG := -32768
  const YYLAST := 53
  const YYNTBASE := 22

  const EOF := 0
  const T_AGO := 3
  const T_DST := 4
  const T_DAY := 5
  const T_DAY_UNIT := 6
  const T_DAYZONE := 7
  const T_HOUR_UNIT := 8
  const T_LOCAL_ZONE := 9
  const T_MERIDIAN := 10
  const T_MINUTE_UNIT := 11
  const T_MONTH := 12
  const T_MONTH_UNIT := 13
  const T_SEC_UNIT := 14
  const T_YEAR_UNIT := 15
  const T_ZONE := 16
  const T_SNUMBER := 17
  const T_UNUMBER := 18
  const T_COLON := 19
  const T_COMMA := 20
  const T_SLASH := 21
  const SPEC := 22
  const O_MERID := 32

  type State = s: int | 0 <= s < 64
  type Terminal = t: int | 0 <= t < 22
  type Rule = r: int | 0 < r < 54 witness 1

  // yyr1: the left-hand side of each rule.
  function LhsOf(i: int): int
    requires 0 <= i < 54
  {
    match i
    case 0 => 0  case 1 => 22  case 2 => 22  case 3 => 23  case 4 => 23  case 5 => 23  case 6 => 23  case 7 => 23
    case 8 => 23  case 9 => 23  case 10 => 24  case 11 => 24  case 12 => 24  case 13 => 24  case 14 => 24
    case 15 => 25  case 16 => 25  case 17 => 26  case 18 => 26  case 19 => 26  case 20 => 27  case 21 => 27
    case 22 => 27  case 23 => 28  case 24 => 28  case 25 => 28  case 26 => 28  case 27 => 28  case 28 => 28
    case 29 => 28  case 30 => 28  case 31 => 29  case 32 => 29  case 33 => 30  case 34 => 30  case 35 => 30
    case 36 => 30  case 37 => 30  case 38 => 30  case 39 => 30  case 40 => 30  case 41 => 30  case 42 => 30
    case 43 => 30  case 44 => 30  case 45 => 30  case 46 => 30  case 47 => 30  case 48 => 30  case 49 => 30
    case 50 => 30  case 51 => 31  case 52 => 32  case _ => 32
  }

  // yyr2: the number of symbols on the right of each rule.
  function LengthOf(i: int): int
    requires 0 <= i < 54
  {
    match i
    case 0 => 0  case 1 => 0  case 2 => 2  case 3 => 1  case 4 => 1  case 5 => 1  case 6 => 1  case 7 => 1
    case 8 => 1  case 9 => 1  case 10 => 2  case 11 => 4  case 12 => 4  case 13 => 6  case 14 => 6  case 15 => 1
    case 16 => 2  case 17 => 1  case 18 => 1  case 19 => 2  case 20 => 1  case 21 => 2  case 22 => 2  case 23 => 3
    case 24 => 5  case 25 => 3  case 26 => 3  case 27 => 2  case 28 => 4  case 29 => 2  case 30 => 3  case 31 => 2
    case 32 => 1  case 33 => 2  case 34 => 2  case 35 => 1  case 36 => 2  case 37 => 2  case 38 => 1  case 39 => 2
    case 40 => 2  case 41 => 1  case 42 => 2  case 43 => 2  case 44 => 1  case 45 => 2  case 46 => 2  case 47 => 1
    case 48 => 2  case 49 => 2  case 50 => 1  case 51 => 1  case 52 => 0  case _ => 1
  }

  // yydefact: the rule to reduce by default in each state, 0 for none.
  function DefaultAction(i: int): int
    requires 0 <= i < 65
  {
    match i
    case 0 => 1  case 1 => 0  case 2 => 20  case 3 => 41  case 4 => 18  case 5 => 44  case 6 => 15  case 7 => 47
    case 8 => 0  case 9 => 38  case 10 => 50  case 11 => 35  case 12 => 17  case 13 => 0  case 14 => 51
    case 15 => 2  case 16 => 3  case 17 => 4  case 18 => 5  case 19 => 7  case 20 => 6  case 21 => 8  case 22 => 32
    case 23 => 9  case 24 => 21  case 25 => 16  case 26 => 27  case 27 => 19  case 28 => 40  case 29 => 43
    case 30 => 46  case 31 => 37  case 32 => 49  case 33 => 34  case 34 => 22  case 35 => 39  case 36 => 42
    case 37 => 10  case 38 => 45  case 39 => 29  case 40 => 36  case 41 => 48  case 42 => 33  case 43 => 0
    case 44 => 0  case 45 => 0  case 46 => 31  case 47 => 0  case 48 => 26  case 49 => 30  case 50 => 25
    case 51 => 52  case 52 => 23  case 53 => 28  case 54 => 53  case 55 => 12  case 56 => 0  case 57 => 11
    case 58 => 0  case 59 => 52  case 60 => 24  case 61 => 14  case 62 => 13  case 63 => 0  case _ => 0
  }

  // yydefgoto
  function DefaultGoto(i: int): int
    requires 0 <= i < 11
  {
    match i
    case 0 => 1  case 1 => 15  case 2 => 16  case 3 => 17  case 4 => 18  case 5 => 19  case 6 => 20  case 7 => 21
    case 8 => 22  case 9 => 23  case _ => 57
  }

  // yypact: where the actions of each state start in the packed table.
  function PackedAction(i: int): int
    requires 0 <= i < 65
  {
    match i
    case 0 => -32768  case 1 => 0  case 2 => 1  case 3 => -32768  case 4 => -32768  case 5 => -32768  case 6 => 19
    case 7 => -32768  case 8 => -14  case 9 => -32768  case 10 => -32768  case 11 => -32768  case 12 => 32
    case 13 => 26  case 14 => 14  case 15 => -32768  case 16 => -32768  case 17 => -32768  case 18 => -32768
    case 19 => -32768  case 20 => -32768  case 21 => -32768  case 22 => 27  case 23 => -32768  case 24 => -32768
    case 25 => -32768  case 26 => 22  case 27 => -32768  case 28 => -32768  case 29 => -32768  case 30 => -32768
    case 31 => -32768  case 32 => -32768  case 33 => -32768  case 34 => -32768  case 35 => -32768  case 36 => -32768
    case 37 => -32768  case 38 => -32768  case 39 => -16  case 40 => -32768  case 41 => -32768  case 42 => -32768
    case 43 => 29  case 44 => 25  case 45 => 30  case 46 => -32768  case 47 => 31  case 48 => -32768
    case 49 => -32768  case 50 => -32768  case 51 => 28  case 52 => 23  case 53 => -32768  case 54 => -32768
    case 55 => -32768  case 56 => 33  case 57 => -32768  case 58 => 34  case 59 => -7  case 60 => -32768
    case 61 => -32768  case 62 => -32768  case 63 => 50  case _ => -32768
  }

  // yypgoto
  function PackedGoto(i: int): int
    requires 0 <= i < 11
  {
    match i
    case 0 => -32768  case 1 => -32768  case 2 => -32768  case 3 => -32768  case 4 => -32768  case 5 => -32768
    case 6 => -32768  case 7 => -32768  case 8 => -32768  case 9 => -32768  case _ => -6
  }

  // yytable: the packed table.
  function Table(i: int): int
    requires 0 <= i < 54
  {
    match i
    case 0 => 63  case 1 => 48  case 2 => 49  case 3 => 54  case 4 => 26  case 5 => 2  case 6 => 3  case 7 => 4
    case 8 => 5  case 9 => 6  case 10 => 61  case 11 => 7  case 12 => 8  case 13 => 9  case 14 => 10  case 15 => 11
    case 16 => 12  case 17 => 13  case 18 => 14  case 19 => 34  case 20 => 35  case 21 => 24  case 22 => 36
    case 23 => 25  case 24 => 37  case 25 => 38  case 26 => 39  case 27 => 40  case 28 => 41  case 29 => 42
    case 30 => 46  case 31 => 43  case 32 => 28  case 33 => 44  case 34 => 29  case 35 => 45  case 36 => 27
    case 37 => 30  case 38 => 54  case 39 => 31  case 40 => 32  case 41 => 33  case 42 => 47  case 43 => 51
    case 44 => 58  case 45 => 55  case 46 => 50  case 47 => 56  case 48 => 52  case 49 => 53  case 50 => 64
    case 51 => 59  case 52 => 60  case _ => 62
  }

  // yycheck: what each entry of the packed table belongs to.
  function Check(i: int): int
    requires 0 <= i < 54
  {
    match i
    case 0 => 0  case 1 => 17  case 2 => 18  case 3 => 10  case 4 => 18  case 5 => 5  case 6 => 6  case 7 => 7
    case 8 => 8  case 9 => 9  case 10 => 17  case 11 => 11  case 12 => 12  case 13 => 13  case 14 => 14
    case 15 => 15  case 16 => 16  case 17 => 17  case 18 => 18  case 19 => 5  case 20 => 6  case 21 => 20
    case 22 => 8  case 23 => 4  case 24 => 10  case 25 => 11  case 26 => 12  case 27 => 13  case 28 => 14
    case 29 => 15  case 30 => 3  case 31 => 17  case 32 => 6  case 33 => 19  case 34 => 8  case 35 => 21
    case 36 => 4  case 37 => 11  case 38 => 10  case 39 => 13  case 40 => 14  case 41 => 15  case 42 => 20
    case 43 => 18  case 44 => 21  case 45 => 17  case 46 => 17  case 47 => 19  case 48 => 18  case 49 => 18
    case 50 => 0  case 51 => 18  case 52 => 18  case _ => 59
  }

  // The right-hand side of each rule.
  function RhsOf(r: int): seq<int>
    requires 0 < r < 54
  {
    match r
    case 1 => []  case 2 => [22, 23]  case 3 => [24]  case 4 => [25]
    case 5 => [26]  case 6 => [28]  case 7 => [27]  case 8 => [29]
    case 9 => [31]  case 10 => [18, 10]  case 11 => [18, 19, 18, 32]  case 12 => [18, 19, 18, 17]
    case 13 => [18, 19, 18, 19, 18, 32]  case 14 => [18, 19, 18, 19, 18, 17]  case 15 => [9]  case 16 => [9, 4]
    case 17 => [16]  case 18 => [7]  case 19 => [16, 4]  case 20 => [5]
    case 21 => [5, 20]  case 22 => [18, 5]  case 23 => [18, 21, 18]  case 24 => [18, 21, 18, 21, 18]
    case 25 => [18, 17, 17]  case 26 => [18, 12, 17]  case 27 => [12, 18]  case 28 => [12, 18, 20, 18]
    case 29 => [18, 12]  case 30 => [18, 12, 18]  case 31 => [30, 3]  case 32 => [30]
    case 33 => [18, 15]  case 34 => [17, 15]  case 35 => [15]  case 36 => [18, 13]
    case 37 => [17, 13]  case 38 => [13]  case 39 => [18, 6]  case 40 => [17, 6]
    case 41 => [6]  case 42 => [18, 8]  case 43 => [17, 8]  case 44 => [8]
    case 45 => [18, 11]  case 46 => [17, 11]  case 47 => [11]  case 48 => [18, 14]
    case 49 => [17, 14]  case 50 => [14]  case 51 => [18]  case 52 => []
    case _ => [10]
  }

  datatype Action = Shift(state: int) | Reduce(rule: int) | Accept | Error

  /** What the parser does in state `s` when it looks at token `t`. */
  function Act(s: State, t: Terminal): Action
  {
    var n := PackedAction(s);
    if n != YYFLAG && 0 <= n + t <= YYLAST && Check(n + t) == t then
      var a := Table(n + t);
      if a < 0 then (if a == YYFLAG then Error else Reduce(-a))
      else if a == 0 then Error
      else if a == YYFINAL then Accept
      else Shift(a)
    else if DefaultAction(s) == 0 then Error
    else Reduce(DefaultAction(s))
  }

  // The same, given whether the packed table has an entry for the state and the token.
  lemma ActUnpacked(s: State, t: Terminal, packed: bool)
    requires packed <==>
      PackedAction(s) != YYFLAG && 0 <= PackedAction(s) + t <= YYLAST && Check(PackedAction(s) + t) == t
    ensures packed && Table(PackedAction(s) + t) == YYFINAL ==> Act(s, t) == Accept
    ensures packed && 0 < Table(PackedAction(s) + t) != YYFINAL ==> Act(s, t) == Shift(Table(PackedAction(s) + t))
    ensures packed ==> Table(PackedAction(s) + t) > 0
    ensures !packed ==> Act(s, t) == if DefaultAction(s) == 0 then Error else Reduce(DefaultAction(s))
  {
    if packed {
      TableIsPositive(PackedAction(s) + t);
    }
  }

  lemma TableIsPositive(i: int)
    requires 0 <= i <= YYLAST
    ensures Table(i) > 0
  {}

  /** The state entered from `s` after a reduction to the nonterminal `x`. */
  function Goto(s: State, x: int): int
    requires YYNTBASE <= x < 33
  {
    var y := PackedGoto(x - YYNTBASE) + s;
    if 0 <= y <= YYLAST && Check(y) == s then Table(y) else DefaultGoto(x - YYNTBASE)
  }

  /// The automaton behind the tables
  /// -------------------------------

  /** The state that symbol `x` leads to from state `s`, or -1. */
  function Next(s: int, x: int): int
  {
    match s
    case 0 => if x == SPEC then 1 else -1
    case 1 =>
      if x == EOF then 63
      else if 5 <= x <= 9 then x - 3
      else if 11 <= x <= 18 then x - 4
      else if 23 <= x <= 31 then x - 8
      else -1
    case 2 => if x == T_COMMA then 24 else -1
    case 6 => if x == T_DST then 25 else -1
    case 8 => if x == T_UNUMBER then 26 else -1
    case 12 => if x == T_DST then 27 else -1
    case 13 =>
      if x == T_DAY_UNIT then 28
      else if x == T_HOUR_UNIT then 29
      else if x == T_MINUTE_UNIT then 30
      else if 13 <= x <= 15 then x + 18
      else -1
    case 14 =>
      if x == T_DAY || x == T_DAY_UNIT then x + 29
      else if x == T_HOUR_UNIT then 36
      else if 10 <= x <= 15 then x + 27
      else if x == T_SNUMBER then 43
      else if x == T_COLON then 44
      else if x == T_SLASH then 45
      else -1
    case 22 => if x == T_AGO then 46 else -1
    case 26 => if x == T_COMMA then 47 else -1
    case 39 => if x == T_SNUMBER || x == T_UNUMBER then x + 31 else -1
    case 43 => if x == T_SNUMBER then 50 else -1
    case 44 => if x == T_UNUMBER then 51 else -1
    case 45 => if x == T_UNUMBER then 52 else -1
    case 47 => if x == T_UNUMBER then 53 else -1
    case 51 =>
      if x == T_MERIDIAN then 54
      else if x == T_SNUMBER then 55
      else if x == T_COLON then 56
      else if x == O_MERID then 57
      else -1
    case 52 => if x == T_SLASH then 58 else -1
    case 56 => if x == T_UNUMBER then 59 else -1
    case 58 => if x == T_UNUMBER then 60 else -1
    case 59 =>
      if x == T_MERIDIAN then 54
      else if x == T_SNUMBER then 61
      else if x == O_MERID then 62
      else -1
    case _ => -1
  }

  // The symbol that leads into each state.
  function Accessing(s: int): int
  {
    if s <= 0 || s >= 63 then EOF
    else if s == 1 then SPEC
    else if s <= 6 then s + 3
    else if s <= 14 then s + 4
    else if s <= 23 then s + 8
    else match s
      case 24 | 47 => T_COMMA
      case 25 | 27 => T_DST
      case 28 | 35 => T_DAY_UNIT
      case 29 | 36 => T_HOUR_UNIT
      case 30 | 38 => T_MINUTE_UNIT
      case 31 | 40 => T_MONTH_UNIT
      case 32 | 41 => T_SEC_UNIT
      case 33 | 42 => T_YEAR_UNIT
      case 34 => T_DAY
      case 37 | 54 => T_MERIDIAN
      case 39 => T_MONTH
      case 43 | 48 | 50 | 55 | 61 => T_SNUMBER
      case 44 | 56 => T_COLON
      case 45 | 58 => T_SLASH
      case 46 => T_AGO
      case 57 | 62 => O_MERID
      case _ => T_UNUMBER
  }

  // The state under each state on the stack; state 54 can also lie on state 59.
  function Below(s: int): int
  {
    if s <= 1 then 0
    else if s < 24 || s == 63 then 1
    else match s
      case 24 => 2
      case 25 => 6
      case 26 => 8
      case 27 => 12
      case 28 | 29 | 30 | 31 | 32 | 33 => 13
      case 46 => 22
      case 47 => 26
      case 48 | 49 => 39
      case 50 => 43
      case 51 => 44
      case 52 => 45
      case 53 => 47
      case 54 | 55 | 56 | 57 => 51
      case 58 => 52
      case 59 => 56
      case 60 => 58
      case 61 | 62 => 59
      case _ => 14
  }

  // Falls with every reduction, so that only finitely many can follow each other.
  function Rank(s: int): nat
  {
    if s == 63 then 0
    else if s == 1 then 1
    else if s == 0 || s == 15 then 2
    else if s == 22 || s == 57 || s == 62 then 4
    else if 16 <= s <= 23 then 3
    else 5
  }

  // The rank of the state that a reduction to nonterminal `x` enters.
  function Weight(x: int): nat
  {
    if x == SPEC then 1
    else if x == 23 then 2
    else if x == 30 || x == O_MERID then 4
    else 3
  }

  // The most states that can lie under each state.
  function Height(s: int): nat
  {
    if s <= 1 then (if s == 1 then 1 else 0)
    else if s < 24 || s == 63 then 2
    else if s < 47 then 3
    else if s < 53 then 4
    else if s == 54 || s == 61 || s == 62 then 7
    else if s == 59 || s == 60 then 6
    else 5
  }

  // The state `n` places under state `s` on the stack.
  function Back(s: int, n: nat): int
  {
    match n
    case 0 => s
    case 1 => Below(s)
    case 2 => Below(Below(s))
    case 3 => Below(Below(Below(s)))
    case 4 => Below(Below(Below(Below(s))))
    case 5 => Below(Below(Below(Below(Below(s)))))
    case _ => Below(Below(Below(Below(Below(Below(s))))))
  }

  // State `s` can lie directly on state `p`.
  predicate Link(p: int, s: int)
  {
    0 <= p < 64 && 0 < s < 64 && (p == Below(s) || (s == 54 && p == 59))
  }

  /** The tokens that the grammar could still add to a phrase of rule `r`.
      An empty o_merid is open to different tokens in the two rules that end
      in it, so the rule `parent` around the phrase matters for rule 52. */
  predicate Extends(r: int, parent: int, t: int)
  {
    match r
    case 15 | 17 => t == T_DST
    case 20 | 27 => t == T_COMMA
    case 23 => t == T_SLASH
    case 29 => t == T_SNUMBER || t == T_UNUMBER
    case 32 => t == T_AGO
    case 51 => t == T_DAY || t == T_DAY_UNIT || t == T_HOUR_UNIT || 10 <= t <= 15
               || t == T_SNUMBER || t == T_COLON || t == T_SLASH
    case 52 => t == T_MERIDIAN || t == T_SNUMBER || (parent == 11 && t == T_COLON)
    case _ => false
  }

  // The rule whose phrase an o_merid on top of state `p` completes.
  function Context(p: int): int
  {
    if p == 51 then 11 else if p == 59 then 13 else 0
  }

  /// What holds in every state and for every token
  /// ---------------------------------------------

  // The tables say what the automaton says.
  predicate ActOk(s: State, t: Terminal)
  {
    Act(s, t) ==
      if s == 63 && t == EOF then Accept
      else if Next(s, t) > 0 then Shift(Next(s, t))
      else if DefaultAction(s) == 0 then Error
      else Reduce(DefaultAction(s))
  }

  // The states on top of the stack spell the right-hand side of the rule reduced in state `s`.
  predicate HandleOk(s: State, rhs: seq<int>)
  {
    match |rhs|
    case 0 => true
    case 1 => rhs[0] == Accessing(s)
    case 2 => rhs[1] == Accessing(s) && rhs[0] == Accessing(Back(s, 1))
    case 3 => rhs[2] == Accessing(s) && rhs[1] == Accessing(Back(s, 1)) && rhs[0] == Accessing(Back(s, 2))
    case 4 =>
      && rhs[3] == Accessing(s) && rhs[2] == Accessing(Back(s, 1))
      && rhs[1] == Accessing(Back(s, 2)) && rhs[0] == Accessing(Back(s, 3))
    case 5 =>
      && rhs[4] == Accessing(s) && rhs[3] == Accessing(Back(s, 1)) && rhs[2] == Accessing(Back(s, 2))
      && rhs[1] == Accessing(Back(s, 3)) && rhs[0] == Accessing(Back(s, 4))
    case 6 =>
      && rhs[5] == Accessing(s) && rhs[4] == Accessing(Back(s, 1)) && rhs[3] == Accessing(Back(s, 2))
      && rhs[2] == Accessing(Back(s, 3)) && rhs[1] == Accessing(Back(s, 4)) && rhs[0] == Accessing(Back(s, 5))
    case _ => false
  }

  // The states on which the nonterminal `x` is expected.
  predicate Home(p: int, x: int)
  {
    || (p == 0 && x == SPEC)
    || (p == 1 && 23 <= x < O_MERID)
    || ((p == 51 || p == 59) && x == O_MERID)
  }

  // The state in which rule `r`, begun on top of state `p`, is reduced.
  function EndOf(r: Rule, p: State): State
  {
    match r
    case 1 => 0  case 2 => 15  case 3 => 16  case 4 => 17  case 5 => 18  case 6 => 20  case 7 => 19  case 8 => 21
    case 9 => 23  case 10 => 37  case 11 => 57  case 12 => 55  case 13 => 62  case 14 => 61  case 15 => 6
    case 16 => 25  case 17 => 12  case 18 => 4  case 19 => 27  case 20 => 2  case 21 => 24  case 22 => 34
    case 23 => 52  case 24 => 60  case 25 => 50  case 26 => 48  case 27 => 26  case 28 => 53  case 29 => 39
    case 30 => 49  case 31 => 46  case 32 => 22  case 33 => 42  case 34 => 33  case 35 => 11  case 36 => 40
    case 37 => 31  case 38 => 9  case 39 => 35  case 40 => 28  case 41 => 3  case 42 => 36  case 43 => 29
    case 44 => 5  case 45 => 38  case 46 => 30  case 47 => 7  case 48 => 41  case 49 => 32
    case 50 => 10  case 51 => 14  case 52 => p  case _ => 54
  }

  predicate DefaultOk(s: State)
  {
    var r := DefaultAction(s);
    0 <= r < 54 && (r > 0 ==> HandleOk(s, RhsOf(r)))
  }

  predicate HomeOk(s: State)
  {
    var r := DefaultAction(s);
    0 <= r < 54 && (r > 0 ==> Home(Back(s, LengthOf(r)), LhsOf(r)))
  }

  lemma Act0(s: State, t: Terminal) requires s < 10 ensures ActOk(s, t) {}
  lemma Act1(s: State, t: Terminal) requires 10 <= s < 14 ensures ActOk(s, t) {}
  lemma Act2(s: State, t: Terminal) requires 14 <= s < 26 ensures ActOk(s, t) {}
  lemma Act3(s: State, t: Terminal) requires 26 <= s < 36 ensures ActOk(s, t) {}
  lemma Act4(s: State, t: Terminal) requires 36 <= s < 45 ensures ActOk(s, t) {}
  lemma Act5(s: State, t: Terminal) requires 45 <= s < 51 ensures ActOk(s, t) {}
  lemma Act6(s: State, t: Terminal) requires 51 <= s < 54 ensures ActOk(s, t) {}
  lemma Act7(s: State, t: Terminal) requires 54 <= s < 57 ensures ActOk(s, t) {}
  lemma Act8(s: State, t: Terminal) requires 57 <= s < 59 ensures ActOk(s, t) {}
  lemma Act9(s: State, t: Terminal) requires 59 <= s < 60 ensures ActOk(s, t) {}
  lemma Act10(s: State, t: Terminal) requires 60 <= s < 61 ensures ActOk(s, t) {}
  lemma Act11(s: State, t: Terminal) requires 61 <= s < 62 ensures ActOk(s, t) {}
  lemma Act12(s: State, t: Terminal) requires 62 <= s < 63 ensures ActOk(s, t) {}
  lemma Act13(t: Terminal)
    ensures ActOk(63, t)
  {
    assert PackedAction(63) == 50;
    assert Check(50) == 0 && Check(51) == 18 && Check(52) == 18 && Check(53) == 59;
  }

  /** The packed tables encode the automaton. */
  lemma ActionOfTables(s: State, t: Terminal)
    ensures ActOk(s, t)
  {
    if s < 10 { Act0(s, t); }
    else if s < 14 { Act1(s, t); }
    else if s < 26 { Act2(s, t); }
    else if s < 36 { Act3(s, t); }
    else if s < 45 { Act4(s, t); }
    else if s < 51 { Act5(s, t); }
    else if s < 54 { Act6(s, t); }
    else if s < 57 { Act7(s, t); }
    else if s < 59 { Act8(s, t); }
    else if s < 60 { Act9(s, t); }
    else if s < 61 { Act10(s, t); }
    else if s < 62 { Act11(s, t); }
    else if s < 63 { Act12(s, t); }
    else { Act13(t); }
  }

  lemma Handle0(s: State) requires s < 26 ensures DefaultOk(s) {}
  lemma Handle1(s: State) requires 26 <= s < 40 ensures DefaultOk(s) {}
  lemma Handle2(s: State) requires 40 <= s < 52 ensures DefaultOk(s) {}
  lemma Handle3(s: State) requires 52 <= s < 60 ensures DefaultOk(s) {}
  lemma Handle4(s: State) requires 60 <= s ensures DefaultOk(s) {}

  /** Whenever a rule is reduced, its right-hand side is on top of the stack. */
  lemma HandleOfRule(s: State)
    ensures DefaultOk(s)
  {
    if s < 26 { Handle0(s); }
    else if s < 40 { Handle1(s); }
    else if s < 52 { Handle2(s); }
    else if s < 60 { Handle3(s); }
    else { Handle4(s); }
  }

  lemma HandleAt(s: State, rhs: seq<int>, i: nat)
    requires HandleOk(s, rhs) && i < |rhs|
    ensures rhs[|rhs| - 1 - i] == Accessing(Back(s, i))
  {}

  lemma Home0(s: State) requires s < 28 ensures HomeOk(s) {}
  lemma Home1(s: State) requires 28 <= s < 38 ensures HomeOk(s) {}
  lemma Home2(s: State) requires 38 <= s < 47 ensures HomeOk(s) {}
  lemma Home3(s: State) requires 47 <= s < 58 ensures HomeOk(s) {}
  lemma Home4(s: State) requires 58 <= s < 61 ensures HomeOk(s) {}
  lemma Home5(s: State) requires 61 <= s ensures HomeOk(s) {}

  /** The state under the right-hand side expects the left-hand side. */
  lemma HomeOfRule(s: State)
    ensures HomeOk(s)
  {
    if s < 28 { Home0(s); }
    else if s < 38 { Home1(s); }
    else if s < 47 { Home2(s); }
    else if s < 58 { Home3(s); }
    else if s < 61 { Home4(s); }
    else { Home5(s); }
  }

  lemma LengthOfRule(r: Rule)
    ensures LengthOf(r) == |RhsOf(r)|
  {}

  lemma RankFalls(s: State)
    requires DefaultAction(s) > 0
    ensures Weight(LhsOf(DefaultAction(s))) < Rank(s)
  {}

  lemma GotoHome(p: State, x: int)
    requires Home(p, x)
    ensures Next(p, x) > 0 && Goto(p, x) == Next(p, x)
    ensures Link(p, Next(p, x)) && Accessing(Next(p, x)) == x && Rank(Next(p, x)) == Weight(x)
  {}

  lemma NextLinks(s: State, x: int)
    requires Next(s, x) > 0
    ensures Link(s, Next(s, x)) && Accessing(Next(s, x)) == x && 0 <= x <= O_MERID
    ensures YYNTBASE <= x ==> Home(s, x)
  {}

  lemma LinkNext(p: int, s: State)
    requires Link(p, s)
    ensures Next(p, Accessing(s)) == s && Height(p) < Height(s) <= 7 && p != 54
  {}

  /** A rule is reduced exactly when the next token cannot extend its phrase. */
  lemma ReduceUnlessExtends(s: State, t: Terminal)
    requires DefaultAction(s) > 0
    ensures Extends(DefaultAction(s), Context(s), t) <==> Next(s, t) > 0
  {}

  lemma EndOfRule(r: Rule, p: State)
    requires Home(p, LhsOf(r))
    ensures DefaultAction(EndOf(r, p)) == r
    ensures Back(EndOf(r, p), LengthOf(r)) == p || (r == 53 && p == 59)
  {
    EndOfDefault(r, p);
    HomeOfRule(EndOf(r, p));
  }

  lemma EndOfDefault(r: Rule, p: State)
    requires Home(p, LhsOf(r))
    ensures DefaultAction(EndOf(r, p)) == r
  {}

  lemma ExtendsAnyParent(r: Rule, p: int, q: int, t: Terminal)
    requires r != 52
    ensures Extends(r, p, t) == Extends(r, q, t)
  {}

  lemma EmptyMerid()
    ensures LengthOf(52) == 0 && LhsOf(52) == O_MERID
  {}

  lemma BackZero(s: int)
    ensures Back(s, 0) == s
  {}

  lemma BackBelow(s: State, n: nat)
    requires n < 6
    ensures Back(s, n + 1) == Below(Back(s, n))
  {}

  lemma LinkBelow(s: int)
    requires Accessing(s) > 0
    ensures 0 < s < 63 && Link(Below(s), s)
  {}

  lemma MeridianOfState54()
    ensures DefaultAction(54) == 53 && |RhsOf(53)| == LengthOf(53) == 1 && LhsOf(53) == O_MERID
  {}

  // An o_merid ends the rule it belongs to, and the state under it tells which rule that is.
  lemma MeridLast(r: Rule, i: nat)
    requires i < |RhsOf(r)| && RhsOf(r)[i] == O_MERID
    ensures i == |RhsOf(r)| - 1
  {}

  lemma ContextOfMerid(s: State)
    requires Accessing(s) == O_MERID
    ensures s != 54 && DefaultAction(s) == Context(Below(s))
  {}

  lemma NoEndInRhs(r: Rule, i: nat)
    requires i < |RhsOf(r)|
    ensures RhsOf(r)[i] > 0
  {}

  // The states that the right-hand side of rule `r` passes through on top of state `p`.
  function PathOf(r: Rule, p: State): (path: seq<int>)
    requires 0 <= LengthOf(r)
    ensures |path| == LengthOf(r)
  {
    seq(LengthOf(r), i requires 0 <= i < LengthOf(r) => Back(EndOf(r, p), LengthOf(r) - 1 - i))
  }

  lemma MeridianOnState59()
    ensures Next(59, T_MERIDIAN) == 54 && RhsOf(53) == [T_MERIDIAN] && PathOf(53, 59) == [54]
  {
    var path := PathOf(53, 59);
    assert path[0] == Back(EndOf(53, 59), 0);
  }

  lemma BackOfHandle(e: State, rhs: seq<int>, i: nat)
    requires HandleOk(e, rhs) && i < |rhs| <= 6 && rhs[i] > 0
    ensures var s := Back(e, |rhs| - 1 - i);
      && 0 < s < 63
      && Link(Back(e, |rhs| - i), s)
      && Next(Back(e, |rhs| - i), rhs[i]) == s
      && Accessing(s) == rhs[i]
      && Back(e, |rhs| - i) == Below(s)
  {
    hide Accessing, Back, Below, Next;
    var s := Back(e, |rhs| - 1 - i);
    HandleAt(e, rhs, |rhs| - 1 - i);
    BackBelow(e, |rhs| - 1 - i);
    LinkBelow(s);
    LinkNext(Below(s), s);
  }

  /** Reading the right-hand side of rule `r` on a state that expects the left-hand side
      walks along the path of the rule. */
  lemma PathStep(r: Rule, p: State, i: nat)
    requires Home(p, LhsOf(r)) && 0 <= i < LengthOf(r) == |RhsOf(r)|
    ensures
      var prev := if i == 0 then p else PathOf(r, p)[i - 1];
      && 0 <= prev < 64
      && 0 < PathOf(r, p)[i] < 63
      && Next(prev, RhsOf(r)[i]) == PathOf(r, p)[i]
      && (RhsOf(r)[i] == O_MERID ==> Context(prev) == r)
  {
    hide Accessing, Back, Below, Next, RhsOf, LhsOf, EndOf, Context, Home, HandleOk;
    var e := EndOf(r, p);
    EndOfRule(r, p);
    HandleOfRule(e);
    NoEndInRhs(r, i);
    if r == 53 && p == 59 {
      MeridianOnState59();
    } else {
      BackOfHandle(e, RhsOf(r), i);
      if RhsOf(r)[i] == O_MERID {
        MeridLast(r, i);
        BackZero(e);
        ContextOfMerid(e);
      }
    }
  }

  /** The path of rule `r` ends in the state that reduces it. */
  lemma PathEnd(r: Rule, p: State)
    requires Home(p, LhsOf(r)) && 0 <= LengthOf(r)
    ensures DefaultAction(EndOf(r, p)) == r && EndOf(r, p) != 63
    ensures if LengthOf(r) == 0 then EndOf(r, p) == p else PathOf(r, p)[LengthOf(r) - 1] == EndOf(r, p)
  {
    hide EndOf, Home, Below;
    EndOfRule(r, p);
    BackZero(EndOf(r, p));
  }

  /** No state shifts the error token, so the parser never recovers from an error. */
  lemma NoStateShiftsError(i: int)
    requires 0 <= i <= YYLAST
    ensures Check(i) != 1
  {}
}
