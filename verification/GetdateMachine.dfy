/** The date parser as a machine over its tables, one shift or reduction a step. */
module GetdateMachine {
  import opened GetdateTables
  import opened GetdateGrammar

  /** The state and value stacks, the tokens not yet shifted, the value of the
      last token, and the store of the semantic actions. The bottom state has
      no value. */
  datatype Config = Config(states: seq<State>, vals: seq<Value>, toks: seq<Token>, lval: Value, store: Store)

  datatype Outcome = Running(config: Config) | Stopped(code: int, pc: Control)

  // States that may lie on each other, from the initial state up.
  ghost predicate Chain(st: seq<State>)
  {
    |st| > 0 && st[0] == 0 && forall i :: 0 < i < |st| ==> Link(st[i - 1], st[i])
  }

  ghost predicate Valid(c: Config)
  {
    && Chain(c.states)
    && |c.vals| == |c.states| - 1
    && forall t <- c.toks :: t.sym != EOF
  }

  function Top(st: seq<State>): State
    requires |st| > 0
  {
    st[|st| - 1]
  }

  function Look(c: Config): Terminal
  {
    HeadOf(c.toks, EOF)
  }

  function Push(c: Config, s: State, v: Value): Config
  {
    c.(states := c.states + [s], vals := c.vals + [v])
  }

  function Shifted(c: Config, s: State): Config
  {
    if c.toks == [] then Push(c, s, c.lval)
    else Push(c, s, c.toks[0].lval).(toks := c.toks[1..], lval := c.toks[0].lval)
  }

  function Reduced(c: Config, r: Rule): (d: Config)
    requires LengthOf(r) < |c.states| == |c.vals| + 1
    requires 0 <= Goto(c.states[|c.states| - 1 - LengthOf(r)], LhsOf(r)) < 64
  {
    var n := |c.vals| - LengthOf(r);
    var store := Perform(r, c.vals[n..], c.store);
    Push(c.(states := c.states[..n + 1], vals := c.vals[..n], store := store),
         Goto(c.states[n], LhsOf(r)), store.yyval)
  }

  // Nothing that action `a` touches is out of range.
  ghost predicate CanDo(c: Config, a: Action)
  {
    match a
    case Shift(s) => 0 <= s < 64
    case Reduce(r) =>
      && 0 < r < 54
      && LengthOf(r) < |c.states| == |c.vals| + 1
      && 0 <= Goto(c.states[|c.states| - 1 - LengthOf(r)], LhsOf(r)) < 64
    case _ => true
  }

  function Do(c: Config, a: Action): Outcome
    requires CanDo(c, a)
  {
    match a
    case Shift(s) => Running(Shifted(c, s))
    case Reduce(r) => Running(Reduced(c, r))
    case Accept => Stopped(0, c.store.pc)
    case Error => Stopped(1, c.store.pc)
  }

  /// Every run is safe
  /// -----------------

  lemma {:induction false} ChainHeight(st: seq<State>)
    requires Chain(st)
    ensures |st| <= Height(Top(st)) + 1 <= 8
  {
    if |st| > 1 {
      var below := st[..|st| - 1];
      assert Chain(below);
      ChainHeight(below);
      assert Link(st[|st| - 2], st[|st| - 1]);
      LinkNext(st[|st| - 2], st[|st| - 1]);
    }
  }

  // Only state 54 can lie on more than one state.
  lemma {:induction false} ChainBack(st: seq<State>, n: nat)
    requires Chain(st) && n <= 6 && n < |st|
    requires Top(st) == 54 ==> n == 0
    ensures st[|st| - 1 - n] == Back(Top(st), n)
  {
    if n > 0 {
      assert Link(st[|st| - 2], st[|st| - 1]);
      LinkNext(st[|st| - 2], st[|st| - 1]);
      ChainBack(st[..|st| - 1], n - 1);
    }
  }

  lemma DeepEnough(st: seq<State>, rhs: seq<int>)
    requires Chain(st) && HandleOk(Top(st), rhs) && Top(st) != 54
    requires forall i :: 0 <= i < |rhs| ==> rhs[i] > 0
    ensures |rhs| < |st| && |rhs| <= 6
  {
    if |st| <= |rhs| {
      ChainBack(st, |st| - 1);
      HandleAt(Top(st), rhs, |st| - 1);
    }
  }

  // A reduction finds its whole right-hand side, and under it a state that expects the left-hand side.
  lemma EnoughStates(st: seq<State>)
    requires Chain(st) && DefaultAction(Top(st)) > 0
    ensures var r := DefaultAction(Top(st));
      && r < 54
      && LengthOf(r) < |st|
      && Home(st[|st| - 1 - LengthOf(r)], LhsOf(r))
  {
    hide DefaultAction, LengthOf, LhsOf, RhsOf, Accessing, Back, HandleOk;
    var s := Top(st);
    var r := DefaultAction(s);
    HomeOfRule(s);
    LengthOfRule(r);
    if s == 54 {
      MeridianOfState54();
      assert Link(st[|st| - 2], s);
    } else {
      HandleOfRule(s);
      forall i | 0 <= i < |RhsOf(r)| ensures RhsOf(r)[i] > 0 {
        NoEndInRhs(r, i);
      }
      DeepEnough(st, RhsOf(r));
      ChainBack(st, LengthOf(r));
    }
  }

  lemma ShiftSafe(c: Config, s: State)
    requires Valid(c) && Next(Top(c.states), Look(c)) == s > 0
    ensures Valid(Shifted(c, s))
    ensures |Shifted(c, s).toks| < |c.toks| || (c.toks == [] && Rank(s) < Rank(Top(c.states)))
  {
    NextLinks(Top(c.states), Look(c));
  }

  lemma ReduceSafe(c: Config)
    requires Valid(c) && DefaultAction(Top(c.states)) > 0
    ensures CanDo(c, Reduce(DefaultAction(Top(c.states))))
    ensures var d := Reduced(c, DefaultAction(Top(c.states)));
      Valid(d) && d.toks == c.toks && Rank(Top(d.states)) < Rank(Top(c.states))
  {
    hide DefaultAction, LengthOf, LhsOf, Goto, Next, Below, Rank, Weight, Accessing, Home, PerformOn;
    EnoughStates(c.states);
    var r := DefaultAction(Top(c.states));
    LengthOfRule(r);
    var p := c.states[|c.states| - 1 - LengthOf(r)];
    GotoHome(p, LhsOf(r));
    RankFalls(Top(c.states));
    var d := Reduced(c, r);
    forall i | 0 < i < |d.states|
      ensures Link(d.states[i - 1], d.states[i])
    {
      assert i < |d.states| - 1 ==> Link(c.states[i - 1], c.states[i]);
    }
  }

  /** In every state the parser can reach, the next step stays within its
      stacks and tables and brings the parser closer to its end. */
  lemma StepSafe(c: Config)
    requires Valid(c)
    ensures var a := Act(Top(c.states), Look(c));
      && CanDo(c, a)
      && (Do(c, a).Running? ==>
            var d := Do(c, a).config;
            && Valid(d)
            && (|d.toks| < |c.toks|
                || (d.toks == c.toks && Rank(Top(d.states)) < Rank(Top(c.states)))))
  {
    var s, t := Top(c.states), Look(c);
    ActionOfTables(s, t);
    if s == 63 && t == EOF {
    } else if Next(s, t) > 0 {
      NextLinks(s, t);
      ShiftSafe(c, Next(s, t));
    } else if DefaultAction(s) > 0 {
      ReduceSafe(c);
    } else {
      HomeOfRule(s);
    }
  }

  function Step(c: Config): (o: Outcome)
    requires Valid(c)
    ensures o.Running? ==> Valid(o.config)
  {
    StepSafe(c);
    Do(c, Act(Top(c.states), Look(c)))
  }

  /** The return code of the parser and the control block it leaves. */
  function Run(c: Config): (int, Control)
    requires Valid(c)
    decreases |c.toks|, Rank(Top(c.states))
  {
    StepSafe(c);
    match Step(c)
    case Running(d) => Run(d)
    case Stopped(code, pc) => (code, pc)
  }

  function Init(input: seq<Token>, lval: Value, store: Store): Config
  {
    Config([0], [], input, lval, store)
  }

  lemma InitIsValid(input: seq<Token>, lval: Value, store: Store)
    requires forall t <- input :: t.sym != EOF
    ensures Valid(Init(input, lval, store))
  {}
}
