/** The parser accepts exactly the inputs that have a longest-phrase derivation,
    and it performs exactly the actions of that derivation. */
module GetdateReading {
  import opened Basics
  import opened GetdateTables
  import opened GetdateGrammar
  import opened GetdateMachine

  /// Whatever is accepted was derived
  /// --------------------------------

  /** The forest `ts` accounts for the stacks of `c`: its trees have the symbols of the states,
      they derive the input read so far, and their actions made the values and the store. */
  ghost predicate Explains(ts: seq<Tree>, c: Config, input: seq<Token>, start: Store)
  {
    && |ts| == |c.vals|
    && |c.states| == |ts| + 1
    && AllWf(ts)
    && (forall i :: 0 <= i < |ts| ==> Fits(ts, c.states, i))
    && YieldAll(ts) + c.toks == input
    && EvalAll(ts, start) == (c.vals, c.store)
    && Munched(ts, c.states, c.toks)
  }

  ghost predicate Fits(ts: seq<Tree>, states: seq<State>, i: nat)
    requires i < |ts| < |states|
  {
    Symbol(ts[i]) == Accessing(states[i + 1])
  }

  // The token after tree `i` cannot extend it.
  ghost predicate Ends(ts: seq<Tree>, states: seq<State>, toks: seq<Token>, i: nat)
    requires i < |ts| < |states|
  {
    MaxMunch(ts[i], Context(states[i]), HeadOf(YieldAll(ts[i + 1..]) + toks, EOF))
  }

  ghost predicate Munched(ts: seq<Tree>, states: seq<State>, toks: seq<Token>)
    requires |ts| < |states|
  {
    forall i :: 0 <= i < |ts| ==> Ends(ts, states, toks, i)
  }

  lemma MunchedPush(ts: seq<Tree>, states: seq<State>, toks: seq<Token>, t: Tree, s: State, rest: seq<Token>)
    requires |states| == |ts| + 1 && Munched(ts, states, toks)
    requires toks == Yield(t) + rest
    requires MaxMunch(t, Context(Top(states)), HeadOf(rest, EOF))
    ensures Munched(ts + [t], states + [s], rest)
  {
    var us := ts + [t];
    forall i | 0 <= i < |us|
      ensures Ends(us, states + [s], rest, i)
    {
      if i < |ts| {
        assert Ends(ts, states, toks, i);
        assert us[i + 1..] == ts[i + 1..] + [t];
        YieldConcat(ts[i + 1..], [t]);
        YieldOne(t);
        ConcatAssoc(YieldAll(ts[i + 1..]), Yield(t), rest);
      } else {
        assert YieldAll(us[i + 1..]) + rest == rest;
      }
    }
  }

  // The next tree goes on top of the stacks.
  lemma ExplainPush(ts: seq<Tree>, c: Config, t: Tree, s: State, rest: seq<Token>, lval: Value,
                    input: seq<Token>, start: Store)
    requires Explains(ts, c, input, start)
    requires c.toks == Yield(t) + rest
    requires Wf(t) && Symbol(t) == Accessing(s)
    requires MaxMunch(t, Context(Top(c.states)), HeadOf(rest, EOF))
    ensures var (v, store) := Eval(t, c.store);
      Explains(ts + [t], Push(c, s, v).(toks := rest, lval := lval, store := store), input, start)
  {
    hide Accessing, Context;
    var d := Push(c, s, Eval(t, c.store).0);
    forall i | 0 <= i < |ts + [t]| ensures Fits(ts + [t], d.states, i) {
      assert i < |ts| ==> Fits(ts, c.states, i);
    }
    YieldConcat(ts, [t]);
    YieldOne(t);
    ConcatAssoc(YieldAll(ts), Yield(t), rest);
    EvalConcat(ts, [t], start);
    EvalOne(t, c.store);
    MunchedPush(ts, c.states, c.toks, t, s, rest);
  }

  // The top trees come off the stacks, and what they derived is to be read again.
  function Popped(c: Config, m: nat, toks: seq<Token>, store: Store): Config
    requires m <= |c.vals| < |c.states|
  {
    c.(states := c.states[..m + 1], vals := c.vals[..m], toks := toks, store := store)
  }

  lemma ExplainPop(ts: seq<Tree>, c: Config, m: nat, input: seq<Token>, start: Store)
    requires Explains(ts, c, input, start) && m <= |ts|
    ensures Explains(ts[..m], Popped(c, m, YieldAll(ts[m..]) + c.toks, EvalAll(ts[..m], start).1), input, start)
    ensures EvalAll(ts[m..], EvalAll(ts[..m], start).1) == (c.vals[m..], c.store)
  {
    hide Accessing, Context;
    var below, kids := ts[..m], ts[m..];
    var states, toks := c.states[..m + 1], YieldAll(kids) + c.toks;
    forall i | 0 <= i < m ensures Fits(below, states, i) {
      assert Fits(ts, c.states, i);
    }
    assert ts == below + kids;
    YieldConcat(below, kids);
    ConcatAssoc(YieldAll(below), YieldAll(kids), c.toks);
    EvalConcat(below, kids, start);
    forall i | 0 <= i < m
      ensures Ends(below, states, toks, i)
    {
      assert Ends(ts, c.states, c.toks, i);
      EndsPop(ts, c.states, c.toks, m, i);
    }
  }

  // What follows a tree does not change when trees above it are to be read again.
  lemma EndsPop(ts: seq<Tree>, states: seq<State>, toks: seq<Token>, m: nat, i: nat)
    requires i < m <= |ts| < |states| && Ends(ts, states, toks, i)
    ensures Ends(ts[..m], states[..m + 1], YieldAll(ts[m..]) + toks, i)
  {
    hide MaxMunch, Context, YieldAll;
    var below, kids := ts[..m], ts[m..];
    assert ts[i + 1..] == below[i + 1..] + kids;
    YieldConcat(below[i + 1..], kids);
    ConcatAssoc(YieldAll(below[i + 1..]), YieldAll(kids), toks);
  }

  // The trees on top of the stack form a node of the rule that is reduced.
  lemma NodeOfHandle(ts: seq<Tree>, c: Config, r: Rule, n: nat, input: seq<Token>, start: Store)
    requires Valid(c) && Explains(ts, c, input, start)
    requires DefaultAction(Top(c.states)) == r && Next(Top(c.states), Look(c)) <= 0
    requires n + LengthOf(r) == |ts|
    ensures Wf(Node(r, ts[n..]))
    ensures MaxMunch(Node(r, ts[n..]), Context(c.states[n]), Look(c))
  {
    hide Accessing, RhsOf, LengthOf, DefaultAction, Next, Extends, Back, Context;
    var s := Top(c.states);
    HandleOfRule(s);
    LengthOfRule(r);
    MeridianOfState54();
    var kids := ts[n..];
    assert HandleOk(s, RhsOf(r));
    forall i | 0 <= i < |kids|
      ensures Symbol(kids[i]) == RhsOf(r)[i] && Wf(kids[i])
      ensures KidMunch(kids, i, r, Look(c))
    {
      KidOfHandle(ts, c, RhsOf(r), n, i, input, start);
      ParentOfKid(ts, c, r, n, i);
      MunchParent(kids[i], Context(c.states[n + i]), r, HeadOf(YieldAll(kids[i + 1..]), Look(c)));
    }
    ReduceUnlessExtends(s, Look(c));
    if r == 52 {
      EmptyMerid();
    } else {
      ExtendsAnyParent(r, Context(s), Context(c.states[n]), Look(c));
    }
  }

  lemma ParentOfKid(ts: seq<Tree>, c: Config, r: Rule, n: nat, i: nat)
    requires Valid(c) && |ts| == |c.vals|
    requires DefaultAction(Top(c.states)) == r
    requires n + i < |ts| == n + |RhsOf(r)|
    requires Symbol(ts[n + i]) == RhsOf(r)[i] == Accessing(c.states[n + i + 1])
    ensures ts[n + i].Node? && ts[n + i].rule == 52 ==> Context(c.states[n + i]) == r
  {
    hide Accessing, RhsOf, DefaultAction, Below, Context;
    if ts[n + i].Node? && ts[n + i].rule == 52 {
      assert Symbol(ts[n + i]) == O_MERID;
      MeridLast(r, i);
      ContextOfMerid(Top(c.states));
      assert Link(c.states[n + i], c.states[n + i + 1]);
    }
  }

  lemma KidOfHandle(ts: seq<Tree>, c: Config, rhs: seq<int>, n: nat, i: nat, input: seq<Token>, start: Store)
    requires Valid(c) && Explains(ts, c, input, start)
    requires HandleOk(Top(c.states), rhs)
    requires n + |rhs| == |ts| && n + i < |ts|
    requires Top(c.states) == 54 ==> |rhs| == 1
    ensures Symbol(ts[n + i]) == rhs[i] == Accessing(c.states[n + i + 1])
    ensures MaxMunch(ts[n + i], Context(c.states[n + i]), HeadOf(YieldAll(ts[n..][i + 1..]), Look(c)))
  {
    hide Accessing, Back;
    HandleAt(Top(c.states), rhs, |rhs| - 1 - i);
    ChainBack(c.states, |rhs| - 1 - i);
    assert Fits(ts, c.states, n + i) && Ends(ts, c.states, c.toks, n + i);
    assert ts[n..][i + 1..] == ts[n + i + 1..];
  }

  lemma ExplainShift(ts: seq<Tree>, c: Config, s: State, input: seq<Token>, start: Store)
    requires Valid(c) && Explains(ts, c, input, start)
    requires Next(Top(c.states), Look(c)) == s > 0
    ensures Explains(ts + [Leaf(if c.toks == [] then Token(EOF, c.lval) else c.toks[0])], Shifted(c, s), input, start)
  {
    hide Next, Accessing, Context;
    NextLinks(Top(c.states), Look(c));
    if c.toks == [] {
      var leaf := Leaf(Token(EOF, c.lval));
      assert c.toks == Yield(leaf) + [];
      ExplainPush(ts, c, leaf, s, [], c.lval, input, start);
    } else {
      var leaf := Leaf(c.toks[0]);
      assert c.toks == Yield(leaf) + c.toks[1..];
      ExplainPush(ts, c, leaf, s, c.toks[1..], c.toks[0].lval, input, start);
    }
  }

  lemma ExplainReduce(ts: seq<Tree>, c: Config, r: Rule, input: seq<Token>, start: Store) returns (us: seq<Tree>)
    requires Valid(c) && Explains(ts, c, input, start)
    requires DefaultAction(Top(c.states)) == r && Next(Top(c.states), Look(c)) <= 0
    requires CanDo(c, Reduce(r))
    ensures Explains(us, Reduced(c, r), input, start)
  {
    hide Next, Accessing, Context, DefaultAction, LengthOf, LhsOf, RhsOf, Goto, PerformOn, Extends;
    EnoughStates(c.states);
    LengthOfRule(r);
    var n := |ts| - LengthOf(r);
    var kids := ts[n..];
    var node := Node(r, kids);
    NodeOfHandle(ts, c, r, n, input, start);
    GotoHome(c.states[n], LhsOf(r));
    ExplainPop(ts, c, n, input, start);
    var below := Popped(c, n, YieldAll(kids) + c.toks, EvalAll(ts[..n], start).1);
    ExplainPush(ts[..n], below, node, Goto(c.states[n], LhsOf(r)), c.toks, c.lval, input, start);
    us := ts[..n] + [node];
  }

  // When the parser accepts, the stacks hold one tree for the whole input, and the end of the input.
  lemma ExplainAccept(ts: seq<Tree>, c: Config, input: seq<Token>, start: Store)
    requires Valid(c) && Explains(ts, c, input, start)
    requires Top(c.states) == 63 && c.toks == []
    ensures |ts| == 2 && IsReading(ts[0], input) && Eval(ts[0], start).1 == c.store
  {
    var st := c.states;
    ChainBack(st, 1);
    assert Link(st[|st| - 2], st[|st| - 1]);
    assert |st| == 3 by {
      ChainHeight(st);
      assert st[|st| - 2] == 1;
      ChainBack(st[..|st| - 1], 1);
    }
    assert Fits(ts, st, 0) && Fits(ts, st, 1) && Ends(ts, st, c.toks, 0);
    assert ts == [ts[0]] + [ts[1]];
    YieldConcat([ts[0]], [ts[1]]);
    YieldOne(ts[0]);
    YieldOne(ts[1]);
    EvalConcat([ts[0]], [ts[1]], start);
    EvalOne(ts[0], start);
    EvalOne(ts[1], Eval(ts[0], start).1);
    assert ts[1..] == [ts[1]];
  }

  lemma {:induction false} AcceptedFrom(ts: seq<Tree>, c: Config, input: seq<Token>, start: Store) returns (t: Tree)
    requires Valid(c) && Explains(ts, c, input, start)
    ensures Run(c).0 == 0 ==> IsReading(t, input) && Run(c).1 == Eval(t, start).1.pc
    decreases |c.toks|, Rank(Top(c.states))
  {
    hide Next, Accessing, Explains, Shifted, Rank, Below, Chain;
    var s, la := Top(c.states), Look(c);
    StepSafe(c);
    ActionOfTables(s, la);
    t := Leaf(Token(EOF, c.lval));
    if s == 63 && la == EOF {
      ExplainAccept(ts, c, input, start);
      t := ts[0];
    } else if Next(s, la) > 0 {
      ExplainShift(ts, c, Next(s, la), input, start);
      t := AcceptedFrom(ts + [Leaf(if c.toks == [] then Token(EOF, c.lval) else c.toks[0])],
        Shifted(c, Next(s, la)), input, start);
    } else if DefaultAction(s) > 0 {
      var us := ExplainReduce(ts, c, DefaultAction(s), input, start);
      t := AcceptedFrom(us, Reduced(c, DefaultAction(s)), input, start);
    }
  }

  /// Whatever has a longest-phrase derivation is accepted
  /// ----------------------------------------------------

  lemma RunShift(c: Config, s: State)
    requires Valid(c) && Next(Top(c.states), Look(c)) == s > 0 && c.toks != []
    ensures Valid(Shifted(c, s)) && Run(c) == Run(Shifted(c, s))
  {
    hide Next, Act, DefaultAction, Rank, Below;
    ActionOfTables(Top(c.states), Look(c));
    ShiftSafe(c, s);
    StepSafe(c);
  }

  lemma RunReduce(c: Config, r: Rule)
    requires Valid(c) && DefaultAction(Top(c.states)) == r && Next(Top(c.states), Look(c)) <= 0
    requires Top(c.states) != 63
    ensures CanDo(c, Reduce(r)) && Valid(Reduced(c, r)) && Run(c) == Run(Reduced(c, r))
  {
    hide Next, Act, DefaultAction, Rank, Below, LengthOf, LhsOf, Goto, PerformOn;
    ActionOfTables(Top(c.states), Look(c));
    ReduceSafe(c);
    StepSafe(c);
  }

  // The states `path` are what the symbols of the trees `ts` lead through from state `p`.
  ghost predicate Along(p: State, ts: seq<Tree>, path: seq<State>)
  {
    |path| == |ts| && forall i :: 0 <= i < |ts| ==> LeadsAt([p] + path, ts, i)
  }

  ghost predicate LeadsAt(states: seq<State>, ts: seq<Tree>, i: nat)
    requires i < |ts| < |states|
  {
    Leads(states[i], ts[i], states[i + 1])
  }

  ghost predicate Leads(p: State, t: Tree, s: State)
  {
    Symbol(t) != EOF && Next(p, Symbol(t)) == s > 0
  }

  lemma NodeAlong(r: Rule, kids: seq<Tree>, p: State, more: seq<Token>)
    requires Wf(Node(r, kids)) && Home(p, LhsOf(r))
    requires MaxMunch(Node(r, kids), Context(p), HeadOf(more, EOF))
    ensures 0 <= LengthOf(r) && forall i :: 0 <= i < LengthOf(r) ==> 0 <= PathOf(r, p)[i] < 64
    ensures AllWf(kids) && Along(p, kids, PathOf(r, p)) && Munched(kids, [p] + PathOf(r, p), more)
  {
    hide Next, Accessing, Context, DefaultAction, LengthOf, LhsOf, RhsOf, Extends, PathOf, Home;
    LengthOfRule(r);
    var path := PathOf(r, p);
    forall i | 0 <= i < |path|
      ensures 0 <= path[i] < 64
    {
      PathStep(r, p, i);
    }
    forall i | 0 <= i < |path|
      ensures LeadsAt([p] + path, kids, i)
      ensures Ends(kids, [p] + path, more, i)
    {
      PathStep(r, p, i);
      NoEndInRhs(r, i);
      assert KidMunch(kids, i, r, HeadOf(more, EOF));
      if kids[i].Node? && kids[i].rule == 52 {
        EmptyMerid();
      }
      MunchParent(kids[i], r, Context(([p] + path)[i]), HeadOf(YieldAll(kids[i + 1..]), HeadOf(more, EOF)));
    }
  }

  lemma NotExtended(r: Rule, p: State, e: State, t: Terminal)
    requires DefaultAction(e) == r && !Extends(r, Context(p), t)
    requires r == 52 ==> e == p
    ensures Next(e, t) <= 0
  {
    hide Next, DefaultAction, Extends, Context;
    ReduceUnlessExtends(e, t);
    if r != 52 {
      ExtendsAnyParent(r, Context(p), Context(e), t);
    }
  }

  /** The parser reads the input of a longest-phrase tree and puts the tree's state and value on its stacks. */
  lemma {:induction false} Drive(c: Config, t: Tree, s: State, more: seq<Token>) returns (d: Config)
    requires Valid(c) && c.toks == Yield(t) + more
    requires Wf(t) && Leads(Top(c.states), t, s)
    requires MaxMunch(t, Context(Top(c.states)), HeadOf(more, EOF))
    ensures Valid(d) && Run(d) == Run(c)
    ensures d.states == c.states + [s] && d.toks == more
    ensures d.vals == c.vals + [Eval(t, c.store).0] && d.store == Eval(t, c.store).1
    decreases t, 1
  {
    hide Next, Accessing, Context, DefaultAction, LengthOf, RhsOf, Goto, Extends, Chain, Run;
    match t
    case Leaf(tok) =>
      RunShift(c, s);
      d := Shifted(c, s);
    case Node(r, kids) =>
      var p := Top(c.states);
      LengthOfRule(r);
      NextLinks(p, LhsOf(r));
      NodeAlong(r, kids, p, more);
      var e := DriveAll(c, kids, PathOf(r, p), more);
      d := ReduceNode(c, e, r, PathOf(r, p));
  }

  // The states and the values of a whole right-hand side are on top, and the rule is reduced.
  lemma ReduceNode(c: Config, e: Config, r: Rule, path: seq<State>) returns (d: Config)
    requires |c.states| > 0 && Valid(e) && Home(Top(c.states), LhsOf(r))
    requires LengthOf(r) == |RhsOf(r)| && path == PathOf(r, Top(c.states)) && |path| == LengthOf(r)
    requires e.states == c.states + path && |c.vals| + |path| == |e.vals|
    requires !Extends(r, Context(Top(c.states)), Look(e))
    ensures Valid(d) && Run(d) == Run(e) && Next(Top(c.states), LhsOf(r)) > 0
    ensures d.states == c.states + [Next(Top(c.states), LhsOf(r))] && d.toks == e.toks
    ensures var store := Perform(r, e.vals[|c.vals|..], e.store);
      d.vals == e.vals[..|c.vals|] + [store.yyval] && d.store == store
  {
    hide Next, Context, DefaultAction, LengthOf, RhsOf, LhsOf, Goto, Extends, Chain, Run, Home, PathOf, PerformOn;
    var p := Top(c.states);
    PathEnd(r, p);
    assert Top(e.states) == EndOf(r, p);
    EmptyMerid();
    NotExtended(r, p, Top(e.states), Look(e));
    RunReduce(e, r);
    d := Reduced(e, r);
    assert e.states[..|c.states|] == c.states;
    GotoHome(p, LhsOf(r));
  }

  lemma {:induction false} DriveAll(c: Config, ts: seq<Tree>, path: seq<State>, more: seq<Token>) returns (d: Config)
    requires Valid(c) && c.toks == YieldAll(ts) + more
    requires AllWf(ts) && Along(Top(c.states), ts, path)
    requires Munched(ts, [Top(c.states)] + path, more)
    ensures Valid(d) && Run(d) == Run(c)
    ensures d.states == c.states + path && d.toks == more
    ensures d.vals == c.vals + EvalAll(ts, c.store).0 && d.store == EvalAll(ts, c.store).1
    decreases ts, 0
  {
    hide Next, Accessing, Context, DefaultAction, LengthOf, LhsOf, RhsOf, Goto, Extends, Leads;
    if ts == [] {
      d := c;
    } else {
      var p := Top(c.states);
      ConcatAssoc(Yield(ts[0]), YieldAll(ts[1..]), more);
      assert LeadsAt([p] + path, ts, 0) && Ends(ts, [p] + path, more, 0);
      var e := Drive(c, ts[0], path[0], YieldAll(ts[1..]) + more);
      RestAlong(p, ts, path, more);
      d := DriveAll(e, ts[1..], path[1..], more);
      assert c.states + [path[0]] + path[1..] == c.states + path;
      ConcatAssoc(c.vals, [Eval(ts[0], c.store).0], EvalAll(ts[1..], e.store).0);
    }
  }

  lemma RestAlong(p: State, ts: seq<Tree>, path: seq<State>, more: seq<Token>)
    requires |ts| > 0 && Along(p, ts, path) && Munched(ts, [p] + path, more)
    ensures Along(path[0], ts[1..], path[1..]) && Munched(ts[1..], [path[0]] + path[1..], more)
  {
    hide Leads, Context;
    var states, rest := [p] + path, [path[0]] + path[1..];
    assert rest == path;
    forall i | 0 <= i < |ts[1..]|
      ensures LeadsAt(rest, ts[1..], i) && Ends(ts[1..], rest, more, i)
    {
      assert LeadsAt(states, ts, i + 1) && Ends(ts, states, more, i + 1);
      assert ts[1..][i + 1..] == ts[i + 2..];
    }
  }

  lemma ReadingIsAccepted(t: Tree, input: seq<Token>, lval: Value, start: Store)
    requires IsReading(t, input)
    requires forall tok <- input :: tok.sym != EOF
    ensures Valid(Init(input, lval, start)) && Run(Init(input, lval, start)) == (0, Eval(t, start).1.pc)
  {
    var c := Init(input, lval, start);
    assert input == Yield(t) + [];
    var d := Drive(c, t, 1, []);
    AcceptsAtEnd(d);
  }

  lemma AcceptsAtEnd(c: Config)
    requires Valid(c) && Top(c.states) == 1 && c.toks == []
    ensures Run(c) == (0, c.store.pc)
  {
    hide Act, DefaultAction, Below, Goto, LengthOf, LhsOf;
    var d := Shifted(c, 63);
    ActionOfTables(1, EOF);
    ActionOfTables(63, EOF);
    StepSafe(c);
    assert Step(c) == Running(d);
    StepSafe(d);
    assert Step(d) == Stopped(0, d.store.pc);
  }

  /** The parser accepts an input exactly when it has a longest-phrase derivation,
      and then the control block holds what the actions of that derivation made. */
  lemma AcceptsExactly(input: seq<Token>, lval: Value, start: Store)
    requires forall tok <- input :: tok.sym != EOF
    ensures Valid(Init(input, lval, start))
    ensures Run(Init(input, lval, start)).0 == 0 <==> exists t :: IsReading(t, input)
    ensures forall t :: IsReading(t, input) ==> Run(Init(input, lval, start)) == (0, Eval(t, start).1.pc)
  {
    var c := Init(input, lval, start);
    assert YieldAll([]) + c.toks == input;
    var t := AcceptedFrom([], c, input, start);
    forall t | IsReading(t, input)
      ensures Run(c) == (0, Eval(t, start).1.pc)
    {
      ReadingIsAccepted(t, input, lval, start);
    }
  }

  /// What the preference for longest phrases costs
  /// ---------------------------------------------

  // A number, then a signed number of days.
  function NumberAndDays(u: Value, s: Value, d: Value): Tree
  {
    var number := Node(9, [Node(51, [Leaf(Token(T_UNUMBER, u))])]);
    var days := Node(8, [Node(32, [Node(40, [Leaf(Token(T_SNUMBER, s)), Leaf(Token(T_DAY_UNIT, d))])])]);
    Node(2, [Node(2, [Node(1, []), number]), days])
  }

  lemma NumberAndDaysDerives(u: Value, s: Value, d: Value)
    ensures var t := NumberAndDays(u, s, d);
      && Wf(t) && Symbol(t) == SPEC
      && Yield(t) == [Token(T_UNUMBER, u), Token(T_SNUMBER, s), Token(T_DAY_UNIT, d)]
  {
    hide Wf, Yield, RhsOf;
    var number, size := Leaf(Token(T_UNUMBER, u)), Leaf(Token(T_DAY_UNIT, d));
    var signed := Leaf(Token(T_SNUMBER, s));
    LeafPhrase(number.token);
    LeafPhrase(size.token);
    LeafPhrase(signed.token);
    RulesUsed();
    UnaryPhrase(51, number);
    UnaryPhrase(9, Node(51, [number]));
    BinaryPhrase(40, signed, size);
    UnaryPhrase(32, Node(40, [signed, size]));
    UnaryPhrase(8, Node(32, [Node(40, [signed, size])]));
    assert Wf(Node(1, [])) && Yield(Node(1, [])) == [] by { NoPhrase(); }
    var item := Node(9, [Node(51, [number])]);
    BinaryPhrase(2, Node(1, []), item);
    BinaryPhrase(2, Node(2, [Node(1, []), item]), Node(8, [Node(32, [Node(40, [signed, size])])]));
  }

  lemma RulesUsed()
    ensures RhsOf(51) == [T_UNUMBER] && RhsOf(9) == [31] && RhsOf(40) == [T_SNUMBER, T_DAY_UNIT]
    ensures RhsOf(32) == [30] && RhsOf(8) == [29] && RhsOf(2) == [SPEC, 23]
  {}

  lemma NoPhrase()
    ensures Wf(Node(1, [])) && Yield(Node(1, [])) == []
  {}

  lemma LeafPhrase(tok: Token)
    requires tok.sym != EOF
    ensures Wf(Leaf(tok)) && Yield(Leaf(tok)) == [tok]
  {}

  lemma UnaryPhrase(r: Rule, kid: Tree)
    requires RhsOf(r) == [Symbol(kid)] && Wf(kid)
    ensures Wf(Node(r, [kid])) && Yield(Node(r, [kid])) == Yield(kid)
  {
    hide RhsOf;
    YieldOne(kid);
  }

  lemma BinaryPhrase(r: Rule, kid: Tree, next: Tree)
    requires RhsOf(r) == [Symbol(kid), Symbol(next)] && Wf(kid) && Wf(next)
    ensures Wf(Node(r, [kid, next])) && Yield(Node(r, [kid, next])) == Yield(kid) + Yield(next)
  {
    hide RhsOf;
    YieldTwo(kid, next);
    YieldOne(next);
  }

  /** The grammar derives a number and a signed number of days, but the parser takes the first two for a date, and
      rejects them. */
  lemma DerivedAndRejected(u: Value, s: Value, d: Value, lval: Value, start: Store)
    ensures var input := [Token(T_UNUMBER, u), Token(T_SNUMBER, s), Token(T_DAY_UNIT, d)];
      && (exists t :: Wf(t) && Symbol(t) == SPEC && Yield(t) == input)
      && Valid(Init(input, lval, start)) && Run(Init(input, lval, start)).0 == 1
  {
    var input := [Token(T_UNUMBER, u), Token(T_SNUMBER, s), Token(T_DAY_UNIT, d)];
    NumberAndDaysDerives(u, s, d);
    var c0 := Init(input, lval, start);
    RunReduce(c0, 1);
    var c1 := Reduced(c0, 1);
    assert c1.states == [0, 1];
    RunShift(c1, 14);
    var c2 := Shifted(c1, 14);
    RunShift(c2, 43);
    var c3 := Shifted(c2, 43);
    RejectsInDate(c3);
  }

  // After two numbers of a date only a third can follow.
  lemma RejectsInDate(c: Config)
    requires Valid(c) && Top(c.states) == 43 && Look(c) == T_DAY_UNIT
    ensures Run(c).0 == 1
  {
    hide Rank, Below;
    ActionOfTables(43, T_DAY_UNIT);
    StepSafe(c);
    assert Act(43, T_DAY_UNIT) == Error;
  }
}
