/** The grammar of dates: tokens, derivation trees, and what a tree means.

    The meaning is the semantic actions of the rules, run over the tree in
    post-order. Nothing in this module mentions the parsing tables' states. */
module GetdateGrammar {
  import opened Basics
  import opened GetdateTables

  const MER24 := 2

  /** A semantic value. It is a C union: writing the integer member overwrites
      `value` and leaves `digits` alone. */
  datatype Value = Value(value: int, digits: int)

  datatype Token = Token(sym: Terminal, lval: Value)

  /** What the parser knows so far about the date. */
  datatype Control = Control(
    dayOrdinal: int, dayNumber: int, localIsdst: int, timeZone: int, meridian: int,
    year: Value, month: int, day: int, hour: int, minutes: int, seconds: int,
    relYear: int, relMonth: int, relDay: int, relHour: int, relMinutes: int, relSeconds: int,
    datesSeen: int, daysSeen: int, localZonesSeen: int, relsSeen: int, timesSeen: int, zonesSeen: int)

  /** What semantic actions read and write: the control block and the result register. */
  datatype Store = Store(yyval: Value, pc: Control)

  /// Arithmetic
  /// ----------

  // Division in C truncates toward zero.
  function TruncDiv(a: int, b: int): int
    requires b > 0
  {
    if a >= 0 then a / b else -((-a) / b)
  }

  function TruncMod(a: int, b: int): int
    requires b > 0
  {
    a - b * TruncDiv(a, b)
  }

  // Minutes east of UTC of a zone written as hhmm.
  function ZoneMinutes(hhmm: int): int
  {
    TruncMod(hhmm, 100) + TruncDiv(hhmm, 100) * 60
  }

  /// Semantic actions
  /// ----------------

  function NegateRels(pc: Control): Control
  {
    pc.(relSeconds := -pc.relSeconds, relMinutes := -pc.relMinutes, relHour := -pc.relHour,
    relDay := -pc.relDay, relMonth := -pc.relMonth, relYear := -pc.relYear)
  }

  // A number that stands alone completes a date or is a date or a time.
  function LoneNumber(n: Value, pc: Control): Control
  {
    if pc.datesSeen != 0 && pc.relsSeen == 0 && (pc.timesSeen != 0 || 2 < n.digits) then
      pc.(year := n)
    else if 4 < n.digits then
      pc.(datesSeen := pc.datesSeen + 1,
      day := TruncMod(n.value, 100),
      month := TruncMod(TruncDiv(n.value, 100), 100),
      year := Value(TruncDiv(n.value, 10000), n.digits - 4))
    else
      var at := if n.digits <= 2 then pc.(hour := n.value, minutes := 0)
                else pc.(hour := TruncDiv(n.value, 100), minutes := TruncMod(n.value, 100));
      at.(timesSeen := pc.timesSeen + 1, seconds := 0, meridian := MER24)
  }

  /** The action of rule `r` on the values `v` of its right-hand side. */
  function PerformOn(r: Rule, v: seq<Value>, pc: Control): Control
    requires |v| == LengthOf(r)
  {
    match r
    case 3 => pc.(timesSeen := pc.timesSeen + 1)
    case 4 => pc.(localZonesSeen := pc.localZonesSeen + 1)
    case 5 => pc.(zonesSeen := pc.zonesSeen + 1)
    case 6 => pc.(datesSeen := pc.datesSeen + 1)
    case 7 => pc.(daysSeen := pc.daysSeen + 1)
    case 8 => pc.(relsSeen := pc.relsSeen + 1)
    case 10 => pc.(hour := v[0].value, minutes := 0, seconds := 0, meridian := v[1].value)
    case 11 => pc.(hour := v[0].value, minutes := v[2].value, seconds := 0, meridian := v[3].value)
    case 12 => pc.(hour := v[0].value, minutes := v[2].value, meridian := MER24,
      zonesSeen := pc.zonesSeen + 1, timeZone := ZoneMinutes(v[3].value))
    case 13 => pc.(hour := v[0].value, minutes := v[2].value, seconds := v[4].value, meridian := v[5].value)
    case 14 => pc.(hour := v[0].value, minutes := v[2].value, seconds := v[4].value, meridian := MER24,
      zonesSeen := pc.zonesSeen + 1, timeZone := ZoneMinutes(v[5].value))
    case 15 => pc.(localIsdst := v[0].value)
    case 16 => pc.(localIsdst := if v[0].value < 0 then 1 else v[0].value + 1)
    case 17 => pc.(timeZone := v[0].value)
    case 18 | 19 => pc.(timeZone := v[0].value + 60)
    case 20 | 21 => pc.(dayOrdinal := 1, dayNumber := v[0].value)
    case 22 => pc.(dayOrdinal := v[0].value, dayNumber := v[1].value)
    case 23 => pc.(month := v[0].value, day := v[2].value)
    case 24 =>
      if 4 <= v[0].digits then pc.(year := v[0], month := v[2].value, day := v[4].value)
      else pc.(month := v[0].value, day := v[2].value, year := v[4])
    case 25 => pc.(year := v[0], month := -v[1].value, day := -v[2].value)
    case 26 => pc.(day := v[0].value, month := v[1].value, year := Value(-v[2].value, v[2].digits))
    case 27 => pc.(month := v[0].value, day := v[1].value)
    case 28 => pc.(month := v[0].value, day := v[1].value, year := v[3])
    case 29 => pc.(day := v[0].value, month := v[1].value)
    case 30 => pc.(day := v[0].value, month := v[1].value, year := v[2])
    case 31 => NegateRels(pc)
    case 33 | 34 => pc.(relYear := pc.relYear + v[0].value * v[1].value)
    case 35 => pc.(relYear := pc.relYear + v[0].value)
    case 36 | 37 => pc.(relMonth := pc.relMonth + v[0].value * v[1].value)
    case 38 => pc.(relMonth := pc.relMonth + v[0].value)
    case 39 | 40 => pc.(relDay := pc.relDay + v[0].value * v[1].value)
    case 41 => pc.(relDay := pc.relDay + v[0].value)
    case 42 | 43 => pc.(relHour := pc.relHour + v[0].value * v[1].value)
    case 44 => pc.(relHour := pc.relHour + v[0].value)
    case 45 | 46 => pc.(relMinutes := pc.relMinutes + v[0].value * v[1].value)
    case 47 => pc.(relMinutes := pc.relMinutes + v[0].value)
    case 48 | 49 => pc.(relSeconds := pc.relSeconds + v[0].value * v[1].value)
    case 50 => pc.(relSeconds := pc.relSeconds + v[0].value)
    case 51 => LoneNumber(v[0], pc)
    case _ => pc
  }

  /** A reduction by rule `r`: the result register starts as the first value, if there is one. */
  function Perform(r: Rule, v: seq<Value>, s: Store): Store
    requires |v| == LengthOf(r)
  {
    var first := if |v| > 0 then v[0] else s.yyval;
    var yyval :=
      if r == 52 then first.(value := MER24)
      else if r == 53 then first.(value := v[0].value)
      else first;
    Store(yyval, PerformOn(r, v, s.pc))
  }

  /// Derivation trees
  /// ----------------

  datatype Tree = Leaf(token: Token) | Node(rule: Rule, kids: seq<Tree>)

  function Symbol(t: Tree): int
  {
    match t
    case Leaf(tok) => tok.sym
    case Node(r, _) => LhsOf(r)
  }

  /** Every node is an instance of its rule. */
  ghost predicate Wf(t: Tree)
  {
    t.Node? ==>
      && |t.kids| == |RhsOf(t.rule)|
      && forall i :: 0 <= i < |t.kids| ==> Symbol(t.kids[i]) == RhsOf(t.rule)[i] && Wf(t.kids[i])
  }

  ghost predicate AllWf(ts: seq<Tree>)
  {
    forall i :: 0 <= i < |ts| ==> Wf(ts[i])
  }

  function Yield(t: Tree): seq<Token>
    decreases t, 1
  {
    match t
    case Leaf(tok) => if tok.sym == EOF then [] else [tok]
    case Node(_, kids) => YieldAll(kids)
  }

  function YieldAll(ts: seq<Tree>): seq<Token>
    decreases ts, 0
  {
    if ts == [] then [] else Yield(ts[0]) + YieldAll(ts[1..])
  }

  /** The value of a tree and the store after running its actions. */
  function Eval(t: Tree, s: Store): (Value, Store)
    requires Wf(t)
    decreases t, 1
  {
    match t
    case Leaf(tok) => (tok.lval, s)
    case Node(r, kids) =>
      var (v, s1) := EvalAll(kids, s);
      LengthOfRule(r);
      var s2 := Perform(r, v, s1);
      (s2.yyval, s2)
  }

  function EvalAll(ts: seq<Tree>, s: Store): (r: (seq<Value>, Store))
    requires AllWf(ts)
    ensures |r.0| == |ts|
    decreases ts, 0
  {
    if ts == [] then ([], s)
    else
      var (v, s1) := Eval(ts[0], s);
      var (vs, s2) := EvalAll(ts[1..], s1);
      ([v] + vs, s2)
  }

  function HeadOf(toks: seq<Token>, next: Terminal): Terminal
  {
    if toks == [] then next else toks[0].sym
  }

  /** No phrase in `t` is followed by a token that could have extended it,
      when token `next` follows the tree. */
  ghost predicate MaxMunch(t: Tree, parent: int, next: Terminal)
    decreases t, 1
  {
    t.Node? ==>
      && !Extends(t.rule, parent, next)
      && forall i :: 0 <= i < |t.kids| ==> KidMunch(t.kids, i, t.rule, next)
  }

  ghost predicate KidMunch(kids: seq<Tree>, i: nat, parent: int, next: Terminal)
    requires i < |kids|
    decreases kids, 0
  {
    MaxMunch(kids[i], parent, HeadOf(YieldAll(kids[i + 1..]), next))
  }

  /** `t` derives the whole input and always takes the longest phrase. */
  ghost predicate IsReading(t: Tree, input: seq<Token>)
  {
    Wf(t) && Symbol(t) == SPEC && Yield(t) == input && MaxMunch(t, 0, EOF)
  }

  // The parent matters only for an empty o_merid.
  lemma MunchParent(t: Tree, p: int, q: int, next: Terminal)
    requires MaxMunch(t, p, next)
    requires t.Node? && t.rule == 52 ==> p == q
    ensures MaxMunch(t, q, next)
  {}

  lemma {:induction false} YieldConcat(a: seq<Tree>, b: seq<Tree>)
    ensures YieldAll(a + b) == YieldAll(a) + YieldAll(b)
  {
    if a == [] {
      assert a + b == b;
    } else {
      var ab := a + b;
      assert ab[0] == a[0] && ab[1..] == a[1..] + b;
      YieldConcat(a[1..], b);
      ConcatAssoc(Yield(a[0]), YieldAll(a[1..]), YieldAll(b));
    }
  }

  lemma {:induction false} EvalConcat(a: seq<Tree>, b: seq<Tree>, s: Store)
    requires AllWf(a) && AllWf(b)
    ensures var (va, s1) := EvalAll(a, s); var (vb, s2) := EvalAll(b, s1);
      EvalAll(a + b, s) == (va + vb, s2)
  {
    if a == [] {
      assert a + b == b;
      assert [] + EvalAll(b, s).0 == EvalAll(b, s).0;
    } else {
      var ab := a + b;
      assert ab[0] == a[0] && ab[1..] == a[1..] + b;
      var (v, s1) := Eval(a[0], s);
      EvalConcat(a[1..], b, s1);
      var (va, s2) := EvalAll(a[1..], s1);
      ConcatAssoc([v], va, EvalAll(b, s2).0);
    }
  }

  lemma YieldOne(t: Tree)
    ensures YieldAll([t]) == Yield(t)
  {
    assert YieldAll([t][1..]) == [];
  }

  lemma EvalOne(t: Tree, s: Store)
    requires Wf(t)
    ensures EvalAll([t], s) == ([Eval(t, s).0], Eval(t, s).1)
  {
    var one := [t];
    assert one[1..] == [];
    assert EvalAll(one[1..], Eval(t, s).1) == ([], Eval(t, s).1);
    assert [Eval(t, s).0] + [] == [Eval(t, s).0];
  }

  lemma YieldTwo(s: Tree, t: Tree)
    ensures YieldAll([s, t]) == Yield(s) + Yield(t)
  {
    assert [s, t][1..] == [t];
    YieldOne(t);
  }

  lemma EvalTwo(t: Tree, u: Tree, s: Store)
    requires Wf(t) && Wf(u)
    ensures var (v, s1) := Eval(t, s); var (w, s2) := Eval(u, s1);
      AllWf([t, u]) && EvalAll([t, u], s) == ([v, w], s2)
  {
    assert [t, u] == [t] + [u];
    EvalConcat([t], [u], s);
    EvalOne(t, s);
    EvalOne(u, Eval(t, s).1);
    var v, w := Eval(t, s).0, Eval(u, Eval(t, s).1).0;
    assert [v] + [w] == [v, w];
  }

  // One more item after the items before it.
  lemma SpecNode(front: Tree, item: Tree, parent: int, next: Terminal)
    requires Wf(front) && Symbol(front) == SPEC && Wf(item) && Symbol(item) == 23
    requires MaxMunch(front, 2, HeadOf(Yield(item), next)) && MaxMunch(item, 2, next)
    ensures var t := Node(2, [front, item]);
      Wf(t) && Symbol(t) == SPEC && Yield(t) == Yield(front) + Yield(item) && MaxMunch(t, parent, next)
  {
    hide Extends;
    var kids := [front, item];
    YieldTwo(front, item);
    YieldOne(item);
    NothingExtendsSpec(parent, next);
    assert kids[1..] == [item] && kids[2..] == [];
    assert KidMunch(kids, 0, 2, next) && KidMunch(kids, 1, 2, next);
  }

  lemma NothingExtendsSpec(parent: int, next: Terminal)
    ensures RhsOf(2) == [SPEC, 23] && !Extends(2, parent, next)
  {}

  lemma SpecEval(front: Tree, item: Tree, s: Store)
    requires Wf(front) && Wf(item) && Wf(Node(2, [front, item]))
    ensures Eval(Node(2, [front, item]), s).1.pc == Eval(item, Eval(front, s).1).1.pc
  {
    hide Wf;
    EvalTwo(front, item, s);
    PerformSpec(EvalAll([front, item], s).0, EvalAll([front, item], s).1);
  }

  lemma PerformSpec(v: seq<Value>, s: Store)
    requires |v| == 2
    ensures LengthOf(2) == 2 && Perform(2, v, s).pc == s.pc
  {}

  /// Phrases of tokens
  /// -----------------

  function Leaves(toks: seq<Token>): (ts: seq<Tree>)
    ensures |ts| == |toks| && forall i :: 0 <= i < |ts| ==> ts[i] == Leaf(toks[i])
  {
    seq(|toks|, i requires 0 <= i < |toks| => Leaf(toks[i]))
  }

  function ValuesOf(toks: seq<Token>): (vs: seq<Value>)
    ensures |vs| == |toks| && forall i :: 0 <= i < |vs| ==> vs[i] == toks[i].lval
  {
    seq(|toks|, i requires 0 <= i < |toks| => toks[i].lval)
  }

  lemma {:induction false} LeavesWf(toks: seq<Token>)
    requires forall tok <- toks :: tok.sym != EOF
    ensures AllWf(Leaves(toks)) && YieldAll(Leaves(toks)) == toks
  {
    if toks != [] {
      hide Wf, Yield;
      assert toks[0] in toks;
      LeavesWf(toks[1..]);
      FrontLeaf(toks[0], Leaves(toks[1..]));
      LeavesFirst(toks);
    }
  }

  lemma FrontLeaf(tok: Token, rest: seq<Tree>)
    requires AllWf(rest) && tok.sym != EOF
    ensures var ts := [Leaf(tok)] + rest; AllWf(ts) && YieldAll(ts) == [tok] + YieldAll(rest)
  {
    var ts := [Leaf(tok)] + rest;
    assert ts[1..] == rest;
  }

  lemma {:induction false} LeavesEval(toks: seq<Token>, s: Store)
    requires AllWf(Leaves(toks))
    ensures EvalAll(Leaves(toks), s) == (ValuesOf(toks), s)
  {
    if toks == [] {
      assert Leaves(toks) == [] && ValuesOf(toks) == [];
    } else {
      hide Leaves, ValuesOf, AllWf, EvalAll;
      LeavesFirst(toks);
      ValuesFirst(toks);
      FrontEval(toks[0], Leaves(toks[1..]), s);
      LeavesEval(toks[1..], s);
    }
  }

  lemma LeavesFirst(toks: seq<Token>)
    requires toks != []
    ensures Leaves(toks) == [Leaf(toks[0])] + Leaves(toks[1..])
  {
    hide Leaves;
  }

  lemma ValuesFirst(toks: seq<Token>)
    requires toks != []
    ensures ValuesOf(toks) == [toks[0].lval] + ValuesOf(toks[1..])
  {
    hide ValuesOf;
  }

  lemma FrontEval(tok: Token, rest: seq<Tree>, s: Store)
    requires AllWf([Leaf(tok)] + rest)
    ensures AllWf(rest) && EvalAll([Leaf(tok)] + rest, s) == ([tok.lval] + EvalAll(rest, s).0, EvalAll(rest, s).1)
  {
    var ts := [Leaf(tok)] + rest;
    assert ts[1..] == rest;
  }

  // A node over tokens is a phrase of its rule.
  lemma LeafNode(r: Rule, toks: seq<Token>, parent: int, next: Terminal)
    requires |toks| == |RhsOf(r)| && forall i :: 0 <= i < |toks| ==> toks[i].sym == RhsOf(r)[i] != EOF
    requires !Extends(r, parent, next) && LengthOf(r) == |RhsOf(r)|
    ensures var t := Node(r, Leaves(toks));
      Wf(t) && Yield(t) == toks && MaxMunch(t, parent, next)
  {
    hide RhsOf, LengthOf, Extends;
    LeavesWf(toks);
    var kids := Leaves(toks);
    forall i | 0 <= i < |kids| ensures KidMunch(kids, i, r, next) {
      assert kids[i] == Leaf(toks[i]);
    }
  }

  lemma LeafNodeEval(r: Rule, toks: seq<Token>, s: Store)
    requires Wf(Node(r, Leaves(toks))) && |toks| == LengthOf(r)
    ensures Eval(Node(r, Leaves(toks)), s).1 == Perform(r, ValuesOf(toks), s)
  {
    hide LengthOf, Perform;
    LeavesEval(toks, s);
  }

  // A node over one phrase.
  lemma UnaryNode(r: Rule, kid: Tree, parent: int, next: Terminal, s: Store)
    requires LengthOf(r) == 1 && RhsOf(r) == [Symbol(kid)] && Wf(kid)
    requires MaxMunch(kid, r, next) && !Extends(r, parent, next)
    ensures var t := Node(r, [kid]);
      && Wf(t) && Yield(t) == Yield(kid) && MaxMunch(t, parent, next)
      && Eval(t, s).1 == Perform(r, [Eval(kid, s).0], Eval(kid, s).1)
  {
    hide RhsOf, LengthOf, Extends, Perform;
    var kids := [kid];
    YieldOne(kid);
    EvalOne(kid, s);
    assert kids[1..] == [];
    assert KidMunch(kids, 0, r, next);
  }
}
