/** Relative items: what `3 days`, `-2 hours ago` and `month` add up to. */
module GetdateRelative {
  import opened GetdateTables
  import opened GetdateGrammar
  import opened GetdateMachine
  import opened GetdateReading

  datatype Unit = Years | Months | Days | Hours | Minutes | Seconds

  // A unit stands alone or after a number, which is written with or without a sign.
  datatype Form = Unsigned | Signed | Bare

  /** `size` is how many of its field one unit makes: a fortnight is 14 days. */
  datatype RelItem = RelItem(unit: Unit, form: Form, count: Value, size: Value, ago: bool, agoVal: Value)

  function UnitToken(u: Unit): Terminal
  {
    match u
    case Years => T_YEAR_UNIT
    case Months => T_MONTH_UNIT
    case Days => T_DAY_UNIT
    case Hours => T_HOUR_UNIT
    case Minutes => T_MINUTE_UNIT
    case Seconds => T_SEC_UNIT
  }

  function UnitTokens(it: RelItem): seq<Token>
  {
    match it.form
    case Unsigned => [Token(T_UNUMBER, it.count), Token(UnitToken(it.unit), it.size)]
    case Signed => [Token(T_SNUMBER, it.count), Token(UnitToken(it.unit), it.size)]
    case Bare => [Token(UnitToken(it.unit), it.size)]
  }

  function ItemTokens(it: RelItem): seq<Token>
  {
    UnitTokens(it) + if it.ago then [Token(T_AGO, it.agoVal)] else []
  }

  function ItemsTokens(items: seq<RelItem>): seq<Token>
  {
    if items == [] then [] else ItemsTokens(items[..|items| - 1]) + ItemTokens(items[|items| - 1])
  }

  /// What the items mean
  /// -------------------

  function Amount(it: RelItem, u: Unit): int
  {
    if it.unit != u then 0
    else if it.form.Bare? then it.size.value
    else it.count.value * it.size.value
  }

  function AgoCount(items: seq<RelItem>): nat
  {
    if items == [] then 0 else (if items[0].ago then 1 else 0) + AgoCount(items[1..])
  }

  // Each AGO turns the sign of everything up to it.
  function Sign(items: seq<RelItem>): int
  {
    if AgoCount(items) % 2 == 0 then 1 else -1
  }

  /** The sum of the amounts, each with the sign of the AGOs at or after it. */
  function Total(items: seq<RelItem>, u: Unit): int
  {
    if items == [] then 0 else Amount(items[0], u) * Sign(items) + Total(items[1..], u)
  }

  function Field(pc: Control, u: Unit): int
  {
    match u
    case Years => pc.relYear
    case Months => pc.relMonth
    case Days => pc.relDay
    case Hours => pc.relHour
    case Minutes => pc.relMinutes
    case Seconds => pc.relSeconds
  }

  function WithFields(pc: Control, seen: int, f: Unit -> int): Control
  {
    pc.(relYear := f(Years), relMonth := f(Months), relDay := f(Days), relHour := f(Hours),
    relMinutes := f(Minutes), relSeconds := f(Seconds), relsSeen := seen)
  }

  /** The control block after `items`: every field is the old value, turned by
      all AGOs, plus the total of the items; nothing else changes. */
  function After(pc: Control, items: seq<RelItem>): Control
  {
    WithFields(pc, pc.relsSeen + |items|, u => Field(pc, u) * Sign(items) + Total(items, u))
  }

  /// Their derivation
  /// ----------------

  function UnitRule(it: RelItem): Rule
  {
    var k := match it.unit
      case Years => 33
      case Months => 36
      case Days => 39
      case Hours => 42
      case Minutes => 45
      case Seconds => 48;
    k + match it.form
      case Unsigned => 0
      case Signed => 1
      case Bare => 2
  }

  function UnitTree(it: RelItem): Tree
  {
    Node(UnitRule(it), Leaves(UnitTokens(it)))
  }

  function RelTree(it: RelItem): Tree
  {
    if it.ago then Node(31, [UnitTree(it), Leaf(Token(T_AGO, it.agoVal))])
    else Node(32, [UnitTree(it)])
  }

  function ItemTree(it: RelItem): Tree
  {
    Node(8, [RelTree(it)])
  }

  function SpecTree(items: seq<RelItem>): Tree
  {
    if items == [] then Node(1, [])
    else Node(2, [SpecTree(items[..|items| - 1]), ItemTree(items[|items| - 1])])
  }

  lemma UnitPhrase(it: RelItem)
    ensures var rhs, toks := RhsOf(UnitRule(it)), UnitTokens(it);
      |toks| == |rhs| == LengthOf(UnitRule(it)) && forall i :: 0 <= i < |toks| ==> toks[i].sym == rhs[i] != EOF
    ensures LhsOf(UnitRule(it)) == 30 && forall parent, t :: !Extends(UnitRule(it), parent, t)
  {}

  lemma UnitReading(it: RelItem, parent: int, next: Terminal)
    ensures Wf(UnitTree(it)) && Symbol(UnitTree(it)) == 30 && Yield(UnitTree(it)) == UnitTokens(it)
    ensures MaxMunch(UnitTree(it), parent, next)
  {
    hide UnitRule, UnitTokens, RhsOf, LengthOf, LhsOf, Extends;
    UnitPhrase(it);
    LeafNode(UnitRule(it), UnitTokens(it), parent, next);
  }

  lemma RelReading(it: RelItem, parent: int, next: Terminal)
    requires next != T_AGO
    ensures Wf(RelTree(it)) && Symbol(RelTree(it)) == 29 && Yield(RelTree(it)) == ItemTokens(it)
    ensures MaxMunch(RelTree(it), parent, next)
  {
    hide UnitTree, UnitTokens;
    var t := RelTree(it);
    var kids := t.kids;
    if it.ago {
      UnitReading(it, 31, T_AGO);
      YieldTwo(kids[0], kids[1]);
      YieldOne(kids[1]);
      assert kids[1..] == [kids[1]];
      assert KidMunch(kids, 0, 31, next);
      assert KidMunch(kids, 1, 31, next);
    } else {
      UnitReading(it, 32, next);
      YieldOne(kids[0]);
      assert kids[1..] == [];
      assert KidMunch(kids, 0, 32, next);
    }
  }

  lemma ItemReading(it: RelItem, parent: int, next: Terminal)
    requires next != T_AGO
    ensures Wf(ItemTree(it)) && Symbol(ItemTree(it)) == 23 && Yield(ItemTree(it)) == ItemTokens(it)
    ensures MaxMunch(ItemTree(it), parent, next)
  {
    hide RelTree, ItemTokens;
    var kids := [RelTree(it)];
    RelReading(it, 8, next);
    YieldOne(kids[0]);
    assert kids[1..] == [];
    assert KidMunch(kids, 0, 8, next);
  }

  lemma ItemHead(it: RelItem, next: Terminal)
    ensures HeadOf(ItemTokens(it), next) != T_AGO
    ensures forall tok <- ItemTokens(it) :: tok.sym != EOF
  {}

  lemma {:induction false} SpecReading(items: seq<RelItem>, next: Terminal)
    requires next != T_AGO
    ensures Wf(SpecTree(items)) && Symbol(SpecTree(items)) == SPEC && Yield(SpecTree(items)) == ItemsTokens(items)
    ensures MaxMunch(SpecTree(items), 2, next)
    ensures forall tok <- ItemsTokens(items) :: tok.sym != EOF
  {
    hide ItemTree, ItemTokens;
    if items != [] {
      var front, last := items[..|items| - 1], items[|items| - 1];
      ItemReading(last, 2, next);
      ItemHead(last, next);
      SpecReading(front, HeadOf(ItemTokens(last), next));
      SpecNode(SpecTree(front), ItemTree(last), 2, next);
    }
  }

  /// Its value
  /// ---------

  function AddTo(pc: Control, it: RelItem): Control
  {
    match it.unit
    case Years => pc.(relYear := pc.relYear + Amount(it, Years))
    case Months => pc.(relMonth := pc.relMonth + Amount(it, Months))
    case Days => pc.(relDay := pc.relDay + Amount(it, Days))
    case Hours => pc.(relHour := pc.relHour + Amount(it, Hours))
    case Minutes => pc.(relMinutes := pc.relMinutes + Amount(it, Minutes))
    case Seconds => pc.(relSeconds := pc.relSeconds + Amount(it, Seconds))
  }

  function Effect(pc: Control, it: RelItem): Control
  {
    var added := AddTo(pc, it);
    (if it.ago then NegateRels(added) else added).(relsSeen := pc.relsSeen + 1)
  }

  lemma PerformUnit(it: RelItem, s: Store)
    requires |UnitTokens(it)| == LengthOf(UnitRule(it))
    ensures Perform(UnitRule(it), ValuesOf(UnitTokens(it)), s).pc == AddTo(s.pc, it)
  {
    var v := ValuesOf(UnitTokens(it));
    match it.unit
    case Years => assert 33 <= UnitRule(it) <= 35;
    case Months => assert 36 <= UnitRule(it) <= 38;
    case Days => assert 39 <= UnitRule(it) <= 41;
    case Hours => assert 42 <= UnitRule(it) <= 44;
    case Minutes => assert 45 <= UnitRule(it) <= 47;
    case Seconds => assert 48 <= UnitRule(it) <= 50;
  }

  lemma UnitEval(it: RelItem, s: Store)
    requires Wf(UnitTree(it))
    ensures Eval(UnitTree(it), s).1.pc == AddTo(s.pc, it)
  {
    hide AddTo, UnitRule, UnitTokens, Perform, RhsOf, LengthOf, LhsOf, Extends;
    UnitPhrase(it);
    LeafNodeEval(UnitRule(it), UnitTokens(it), s);
    PerformUnit(it, s);
  }

  lemma RelEval(it: RelItem, s: Store)
    requires Wf(RelTree(it))
    ensures Eval(RelTree(it), s).1.pc == if it.ago then NegateRels(AddTo(s.pc, it)) else AddTo(s.pc, it)
  {
    hide AddTo, NegateRels, UnitTree, Eval, Wf;
    UnitReading(it, 0, EOF);
    UnitEval(it, s);
    if it.ago {
      AgoEval(UnitTree(it), Leaf(Token(T_AGO, it.agoVal)), s);
    } else {
      ForwardEval(UnitTree(it), s);
    }
  }

  lemma PerformRel(v: Value, w: Value, s: Store)
    ensures Perform(31, [v, w], s).pc == NegateRels(s.pc) && Perform(32, [v], s).pc == s.pc
  {
    hide NegateRels;
  }

  lemma AgoEval(t: Tree, ago: Tree, s: Store)
    requires Wf(t) && ago.Leaf? && Wf(Node(31, [t, ago]))
    ensures Eval(Node(31, [t, ago]), s).1.pc == NegateRels(Eval(t, s).1.pc)
  {
    hide NegateRels, Perform, LengthOf;
    EvalTwo(t, ago, s);
    PerformRel(Eval(t, s).0, ago.token.lval, Eval(t, s).1);
  }

  lemma ForwardEval(t: Tree, s: Store)
    requires Wf(t) && Wf(Node(32, [t]))
    ensures Eval(Node(32, [t]), s).1.pc == Eval(t, s).1.pc
  {
    hide Perform, LengthOf;
    EvalOne(t, s);
    PerformRel(Eval(t, s).0, Eval(t, s).0, Eval(t, s).1);
  }

  lemma ItemEval(it: RelItem, s: Store)
    requires Wf(ItemTree(it))
    ensures Eval(ItemTree(it), s).1.pc == Effect(s.pc, it)
  {
    hide RelTree;
    RelReading(it, 0, EOF);
    EvalOne(RelTree(it), s);
    RelEval(it, s);
  }

  // Another item at the end turns the sign of what came before if it has an AGO.
  lemma {:induction false} TotalLast(front: seq<RelItem>, last: RelItem, u: Unit)
    ensures AgoCount(front + [last]) == AgoCount(front) + if last.ago then 1 else 0
    ensures Total(front + [last], u) == (Total(front, u) + Amount(last, u)) * if last.ago then -1 else 1
  {
    hide Amount;
    var items := front + [last];
    if front == [] {
      assert items == [last] && items[1..] == [];
      assert AgoCount(items[1..]) == 0 && Total(items[1..], u) == 0;
    } else {
      assert items[1..] == front[1..] + [last];
      TotalLast(front[1..], last, u);
      assert Sign(items) == Sign(front) * if last.ago then -1 else 1;
    }
  }

  lemma FieldLast(pc: Control, front: seq<RelItem>, last: RelItem, u: Unit)
    ensures Field(pc, u) * Sign(front + [last]) + Total(front + [last], u)
         == (Field(pc, u) * Sign(front) + Total(front, u) + Amount(last, u)) * if last.ago then -1 else 1
  {
    hide Amount, Total, Field;
    TotalLast(front, last, u);
  }

  lemma AfterLast(pc: Control, items: seq<RelItem>)
    requires items != []
    ensures After(pc, items) == Effect(After(pc, items[..|items| - 1]), items[|items| - 1])
  {
    hide Total, Sign;
    var front, last := items[..|items| - 1], items[|items| - 1];
    assert items == front + [last];
    FieldLast(pc, front, last, Years);
    FieldLast(pc, front, last, Months);
    FieldLast(pc, front, last, Days);
    FieldLast(pc, front, last, Hours);
    FieldLast(pc, front, last, Minutes);
    FieldLast(pc, front, last, Seconds);
  }

  lemma AfterNone(pc: Control)
    ensures After(pc, []) == pc
  {}

  lemma {:induction false} ItemsEval(items: seq<RelItem>, s: Store)
    requires Wf(SpecTree(items))
    ensures Eval(SpecTree(items), s).1.pc == After(s.pc, items)
  {
    hide Effect, ItemTree, Total;
    if items == [] {
      AfterNone(s.pc);
      assert Perform(1, [], s).pc == s.pc;
    } else {
      hide After, Perform;
      var front, last := items[..|items| - 1], items[|items| - 1];
      SpecReading(front, EOF);
      ItemReading(last, 0, EOF);
      ItemsEval(front, s);
      SpecEval(SpecTree(front), ItemTree(last), s);
      ItemEval(last, Eval(SpecTree(front), s).1);
      AfterLast(s.pc, items);
    }
  }

  /** Any sequence of relative items is accepted. Each relative field becomes the sum of
      number times unit, each term turned once for every AGO at or after its item. */
  lemma RelativeItems(items: seq<RelItem>, lval: Value, start: Store)
    ensures Valid(Init(ItemsTokens(items), lval, start))
    ensures Run(Init(ItemsTokens(items), lval, start)) == (0, After(start.pc, items))
  {
    SpecReading(items, EOF);
    MunchParent(SpecTree(items), 2, 0, EOF);
    ReadingIsAccepted(SpecTree(items), ItemsTokens(items), lval, start);
    ItemsEval(items, start);
  }

  /// Order
  /// -----

  function Amounts(items: seq<RelItem>, u: Unit): int
  {
    if items == [] then 0 else Amount(items[0], u) + Amounts(items[1..], u)
  }

  lemma {:induction false} TotalWithoutAgo(items: seq<RelItem>, u: Unit)
    requires forall it <- items :: !it.ago
    ensures AgoCount(items) == 0 && Total(items, u) == Amounts(items, u)
  {
    hide Amount;
    if items != [] {
      TotalWithoutAgo(items[1..], u);
    }
  }

  lemma {:induction false} AmountsWithout(items: seq<RelItem>, i: nat, u: Unit)
    requires i < |items|
    ensures Amounts(items, u) == Amount(items[i], u) + Amounts(items[..i] + items[i + 1..], u)
  {
    hide Amount;
    if i == 0 {
      assert items[..0] + items[1..] == items[1..];
    } else {
      AmountsWithout(items[1..], i - 1, u);
      var rest := items[..i] + items[i + 1..];
      assert rest[0] == items[0] && rest[1..] == items[1..][..i - 1] + items[1..][i..];
    }
  }

  lemma SameWithout<T>(items: seq<T>, other: seq<T>, i: nat)
    requires multiset(items) == multiset(other)
    requires items != [] && i < |other| && other[i] == items[0]
    ensures multiset(items[1..]) == multiset(other[..i] + other[i + 1..])
  {
    assert items == [items[0]] + items[1..];
    assert other == other[..i] + [other[i]] + other[i + 1..];
    assert multiset(items[1..]) == multiset(items) - multiset{items[0]};
  }

  lemma {:induction false} AmountsOfSame(items: seq<RelItem>, other: seq<RelItem>, u: Unit)
    requires multiset(items) == multiset(other)
    ensures Amounts(items, u) == Amounts(other, u)
    decreases |items|
  {
    hide Amount;
    if items == [] {
      assert |multiset(other)| == 0;
    } else {
      assert items[0] in multiset(items);
      var i :| 0 <= i < |other| && other[i] == items[0];
      SameWithout(items, other, i);
      AmountsWithout(other, i, u);
      AmountsOfSame(items[1..], other[..i] + other[i + 1..], u);
    }
  }

  lemma AfterOfSame(pc: Control, items: seq<RelItem>, other: seq<RelItem>)
    requires multiset(items) == multiset(other)
    requires forall it <- items :: !it.ago
    ensures After(pc, items) == After(pc, other)
  {
    hide Amount;
    forall it | it in other ensures !it.ago {
      assert it in multiset(other);
    }
    forall u ensures Total(items, u) == Total(other, u) && Sign(items) == Sign(other) {
      TotalWithoutAgo(items, u);
      TotalWithoutAgo(other, u);
      AmountsOfSame(items, other, u);
    }
    assert |multiset(items)| == |items| && |multiset(other)| == |other|;
    assert Total(items, Years) == Total(other, Years);
  }

  /** Without AGO the order of relative items does not matter. */
  lemma OrderIndependent(items: seq<RelItem>, other: seq<RelItem>, lval: Value, start: Store)
    requires multiset(items) == multiset(other)
    requires forall it <- items :: !it.ago
    ensures Valid(Init(ItemsTokens(items), lval, start)) && Valid(Init(ItemsTokens(other), lval, start))
    ensures Run(Init(ItemsTokens(items), lval, start)) == Run(Init(ItemsTokens(other), lval, start))
  {
    hide After, Step, Init;
    RelativeItems(items, lval, start);
    RelativeItems(other, lval, start);
    AfterOfSame(start.pc, items, other);
  }
}
