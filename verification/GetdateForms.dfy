/** Every form of date, time, zone, day and number, and what it sets. */
module GetdateForms {
  import opened Basics
  import opened GetdateTables
  import opened GetdateGrammar
  import opened GetdateMachine
  import opened GetdateReading
  import Relative = GetdateRelative

  /** A zone written as hhmm with its sign. */
  datatype Offset = Offset(west: bool, hours: nat, minutes: nat, digits: int)
  {
    predicate Valid()
    {
      minutes < 100
    }

    function Written(): Value
    {
      Value((100 * hours + minutes) * if west then -1 else 1, digits)
    }

    function Minutes(): int
    {
      (60 * hours + minutes) * if west then -1 else 1
    }
  }

  // The parts of a form are the values of its tokens. A month, a day of the week, a zone and a meridian are words.
  datatype Form =
    | HourMerid(hour: Value, merid: Value)                                                // H am
    | Clock(hour: Value, minutes: Value)                                                  // H:MM
    | ClockMerid(hour: Value, minutes: Value, merid: Value)                               // H:MM am
    | ClockZone(hour: Value, minutes: Value, offset: Offset)                              // H:MM+hhmm
    | Seconds(hour: Value, minutes: Value, seconds: Value)                                // H:MM:SS
    | SecondsMerid(hour: Value, minutes: Value, seconds: Value, merid: Value)             // H:MM:SS am
    | SecondsZone(hour: Value, minutes: Value, seconds: Value, offset: Offset)            // H:MM:SS+hhmm
    | LocalZone(isdst: Value)
    | LocalZoneDst(isdst: Value, dst: Value)                                              // local zone, DST
    | Zone(zone: Value)
    | DayZone(zone: Value)                                                                // a zone of its own in summer
    | ZoneDst(zone: Value, dst: Value)                                                    // zone, DST
    | Day(name: Value)
    | DayComma(name: Value)                                                               // DAY,
    | OrdinalDay(ordinal: Value, name: Value)                                             // 2 DAY
    | SlashDay(month: Value, day: Value)                                                  // M/D
    | SlashDate(month: Value, day: Value, year: Value)                                    // M/D/Y
    | SlashYear(year: Value, month: Value, day: Value)                                    // Y/M/D
    | Iso(year: Value, month: Value, day: Value)                                          // Y-M-D
    | DayMonYear(day: Value, month: Value, year: Value)                                   // D-MON-Y
    | MonDay(month: Value, day: Value)                                                    // MON D
    | MonDayYear(month: Value, day: Value, year: Value)                                   // MON D, Y
    | DayMon(day: Value, month: Value)                                                    // D MON
    | DayMonYearPlain(day: Value, month: Value, year: Value)                              // D MON Y
    | Lone(number: Value)
    | Rel(item: Relative.RelItem)

  predicate IsForm(f: Form)
  {
    match f
    case ClockZone(_, _, offset) => offset.Valid()
    case SecondsZone(_, _, _, offset) => offset.Valid()
    case SlashDate(month, _, _) => month.digits < 4
    case SlashYear(year, _, _) => year.digits >= 4
    case Lone(number) => number.value >= 0
    case _ => true
  }

  function Negative(v: Value): Value
  {
    v.(value := -v.value)
  }

  function Number(v: Value): Token
  {
    Token(T_UNUMBER, v)
  }

  // A mark has the value of the token before it.
  function Tokens(f: Form): seq<Token>
  {
    match f
    case HourMerid(h, p) => [Number(h), Token(T_MERIDIAN, p)]
    case Clock(h, m) => [Number(h), Token(T_COLON, h), Number(m)]
    case ClockMerid(h, m, p) => [Number(h), Token(T_COLON, h), Number(m), Token(T_MERIDIAN, p)]
    case ClockZone(h, m, z) => [Number(h), Token(T_COLON, h), Number(m), Token(T_SNUMBER, z.Written())]
    case Seconds(h, m, s) => [Number(h), Token(T_COLON, h), Number(m), Token(T_COLON, m), Number(s)]
    case SecondsMerid(h, m, s, p) =>
      [Number(h), Token(T_COLON, h), Number(m), Token(T_COLON, m), Number(s), Token(T_MERIDIAN, p)]
    case SecondsZone(h, m, s, z) =>
      [Number(h), Token(T_COLON, h), Number(m), Token(T_COLON, m), Number(s), Token(T_SNUMBER, z.Written())]
    case LocalZone(z) => [Token(T_LOCAL_ZONE, z)]
    case LocalZoneDst(z, dst) => [Token(T_LOCAL_ZONE, z), Token(T_DST, dst)]
    case Zone(z) => [Token(T_ZONE, z)]
    case DayZone(z) => [Token(T_DAYZONE, z)]
    case ZoneDst(z, dst) => [Token(T_ZONE, z), Token(T_DST, dst)]
    case Day(name) => [Token(T_DAY, name)]
    case DayComma(name) => [Token(T_DAY, name), Token(T_COMMA, name)]
    case OrdinalDay(n, name) => [Number(n), Token(T_DAY, name)]
    case SlashDay(m, d) => [Number(m), Token(T_SLASH, m), Number(d)]
    case SlashDate(m, d, y) => [Number(m), Token(T_SLASH, m), Number(d), Token(T_SLASH, d), Number(y)]
    case SlashYear(y, m, d) => [Number(y), Token(T_SLASH, y), Number(m), Token(T_SLASH, m), Number(d)]
    case Iso(y, m, d) => [Number(y), Token(T_SNUMBER, Negative(m)), Token(T_SNUMBER, Negative(d))]
    case DayMonYear(d, m, y) => [Number(d), Token(T_MONTH, m), Token(T_SNUMBER, Negative(y))]
    case MonDay(m, d) => [Token(T_MONTH, m), Number(d)]
    case MonDayYear(m, d, y) => [Token(T_MONTH, m), Number(d), Token(T_COMMA, d), Number(y)]
    case DayMon(d, m) => [Number(d), Token(T_MONTH, m)]
    case DayMonYearPlain(d, m, y) => [Number(d), Token(T_MONTH, m), Number(y)]
    case Lone(n) => [Number(n)]
    case Rel(it) => Relative.ItemTokens(it)
  }

  /// What a form sets
  /// ----------------

  function Timed(pc: Control): Control
  {
    pc.(timesSeen := pc.timesSeen + 1)
  }

  function Zoned(pc: Control, minutes: int): Control
  {
    pc.(timeZone := minutes, zonesSeen := pc.zonesSeen + 1)
  }

  function Dated(pc: Control): Control
  {
    pc.(datesSeen := pc.datesSeen + 1)
  }

  function Named(pc: Control, ordinal: int, day: int): Control
  {
    pc.(dayOrdinal := ordinal, dayNumber := day, daysSeen := pc.daysSeen + 1)
  }

  /** A lone number is the year of a date that was seen before; otherwise, by the number of its digits, a date
      YYYYMMDD, a time HHMM, or an hour. */
  function OfNumber(n: Value, pc: Control): Control
    requires n.value >= 0
  {
    if pc.datesSeen != 0 && pc.relsSeen == 0 && (pc.timesSeen != 0 || n.digits > 2) then pc.(year := n)
    else if n.digits > 4 then
      Dated(pc).(year := Value(n.value / 10000, n.digits - 4), month := n.value / 100 % 100, day := n.value % 100)
    else if n.digits > 2 then
      Timed(pc).(hour := n.value / 100, minutes := n.value % 100, seconds := 0, meridian := MER24)
    else Timed(pc).(hour := n.value, minutes := 0, seconds := 0, meridian := MER24)
  }

  /** The control block after a form: the fields that are written, and the count of what was seen. */
  function Effect(f: Form, pc: Control): Control
    requires IsForm(f)
  {
    match f
    case HourMerid(h, p) => Timed(pc).(hour := h.value, minutes := 0, seconds := 0, meridian := p.value)
    case Clock(h, m) => Timed(pc).(hour := h.value, minutes := m.value, seconds := 0, meridian := MER24)
    case ClockMerid(h, m, p) => Timed(pc).(hour := h.value, minutes := m.value, seconds := 0, meridian := p.value)
    // The seconds stay as they were.
    case ClockZone(h, m, z) => Zoned(Timed(pc), z.Minutes()).(hour := h.value, minutes := m.value, meridian := MER24)
    case Seconds(h, m, s) => Timed(pc).(hour := h.value, minutes := m.value, seconds := s.value, meridian := MER24)
    case SecondsMerid(h, m, s, p) =>
      Timed(pc).(hour := h.value, minutes := m.value, seconds := s.value, meridian := p.value)
    case SecondsZone(h, m, s, z) =>
      Zoned(Timed(pc), z.Minutes()).(hour := h.value, minutes := m.value, seconds := s.value, meridian := MER24)
    case LocalZone(z) => pc.(localIsdst := z.value, localZonesSeen := pc.localZonesSeen + 1)
    case LocalZoneDst(z, _) =>
      pc.(localIsdst := if z.value < 0 then 1 else z.value + 1, localZonesSeen := pc.localZonesSeen + 1)
    case Zone(z) => Zoned(pc, z.value)
    case DayZone(z) => Zoned(pc, z.value + 60)
    case ZoneDst(z, _) => Zoned(pc, z.value + 60)
    case Day(name) => Named(pc, 1, name.value)
    case DayComma(name) => Named(pc, 1, name.value)
    case OrdinalDay(n, name) => Named(pc, n.value, name.value)
    case SlashDay(m, d) => Dated(pc).(month := m.value, day := d.value)
    case SlashDate(m, d, y) => Dated(pc).(month := m.value, day := d.value, year := y)
    case SlashYear(y, m, d) => Dated(pc).(month := m.value, day := d.value, year := y)
    case Iso(y, m, d) => Dated(pc).(month := m.value, day := d.value, year := y)
    case DayMonYear(d, m, y) => Dated(pc).(month := m.value, day := d.value, year := y)
    case MonDay(m, d) => Dated(pc).(month := m.value, day := d.value)
    case MonDayYear(m, d, y) => Dated(pc).(month := m.value, day := d.value, year := y)
    case DayMon(d, m) => Dated(pc).(month := m.value, day := d.value)
    case DayMonYearPlain(d, m, y) => Dated(pc).(month := m.value, day := d.value, year := y)
    case Lone(n) => OfNumber(n, pc)
    case Rel(it) => Relative.Effect(pc, it)
  }

  /// The derivation of a form
  /// ------------------------

  function RuleOf(f: Form): Rule
  {
    match f
    case HourMerid(_, _) => 10
    case Clock(_, _) => 11
    case ClockMerid(_, _, _) => 11
    case ClockZone(_, _, _) => 12
    case Seconds(_, _, _) => 13
    case SecondsMerid(_, _, _, _) => 13
    case SecondsZone(_, _, _, _) => 14
    case LocalZone(_) => 15
    case LocalZoneDst(_, _) => 16
    case Zone(_) => 17
    case DayZone(_) => 18
    case ZoneDst(_, _) => 19
    case Day(_) => 20
    case DayComma(_) => 21
    case OrdinalDay(_, _) => 22
    case SlashDay(_, _) => 23
    case SlashDate(_, _, _) => 24
    case SlashYear(_, _, _) => 24
    case Iso(_, _, _) => 25
    case DayMonYear(_, _, _) => 26
    case MonDay(_, _) => 27
    case MonDayYear(_, _, _) => 28
    case DayMon(_, _) => 29
    case DayMonYearPlain(_, _, _) => 30
    case Lone(_) => 51
    case Rel(_) => 32
  }

  // The rule of the item around it.
  function ItemRule(f: Form): Rule
  {
    var r := RuleOf(f);
    if r <= 14 then 3 else if r <= 16 then 4 else if r <= 19 then 5 else if r <= 22 then 7 else if r <= 30 then 6 else 9
  }

  // The forms that end in an o_merid, and what it is.
  predicate HasMerid(f: Form)
  {
    RuleOf(f) == 11 || RuleOf(f) == 13
  }

  function MeridTree(f: Form): Tree
  {
    match f
    case ClockMerid(_, _, p) => Node(53, [Leaf(Token(T_MERIDIAN, p))])
    case SecondsMerid(_, _, _, p) => Node(53, [Leaf(Token(T_MERIDIAN, p))])
    case _ => Node(52, [])
  }

  function Front(f: Form): seq<Token>
    requires HasMerid(f)
  {
    Tokens(f)[..if RuleOf(f) == 11 then 3 else 5]
  }

  function InnerTree(f: Form): Tree
  {
    if HasMerid(f) then Node(RuleOf(f), Leaves(Front(f)) + [MeridTree(f)]) else Node(RuleOf(f), Leaves(Tokens(f)))
  }

  function FormTree(f: Form): Tree
  {
    if f.Rel? then Relative.ItemTree(f.item) else Node(ItemRule(f), [InnerTree(f)])
  }

  // No form goes on with the token that comes next.
  predicate MayFollow(f: Form, next: Terminal)
  {
    match f
    case Clock(_, _) => !Extends(52, 11, next)
    case Seconds(_, _, _) => !Extends(52, 13, next)
    case Rel(_) => next != T_AGO
    case _ => !Extends(RuleOf(f), ItemRule(f), next)
  }

  lemma PlainPhrase(f: Form)
    requires !HasMerid(f) && !f.Rel?
    ensures var rhs, toks := RhsOf(RuleOf(f)), Tokens(f);
      |toks| == |rhs| == LengthOf(RuleOf(f)) && forall i :: 0 <= i < |toks| ==> toks[i].sym == rhs[i] != EOF
  {}

  lemma ItemPhrase(f: Form)
    requires !f.Rel?
    ensures RhsOf(ItemRule(f)) == [LhsOf(RuleOf(f))] && LengthOf(ItemRule(f)) == 1 && LhsOf(ItemRule(f)) == 23
    ensures forall parent, t :: !Extends(ItemRule(f), parent, t)
  {}

  lemma MeridPhrase(f: Form, next: Terminal)
    requires HasMerid(f) && MayFollow(f, next)
    ensures var t := MeridTree(f);
      Wf(t) && Symbol(t) == O_MERID && Tokens(f) == Front(f) + Yield(t) && MaxMunch(t, RuleOf(f), next)
  {
    var t := MeridTree(f);
    if t.kids != [] {
      YieldOne(t.kids[0]);
    }
  }

  lemma FrontPhrase(f: Form)
    requires HasMerid(f)
    ensures var rhs, toks := RhsOf(RuleOf(f)), Front(f);
      && |rhs| == |toks| + 1 == LengthOf(RuleOf(f)) && rhs[|toks|] == O_MERID
      && forall i :: 0 <= i < |toks| ==> toks[i].sym == rhs[i] != EOF
    ensures forall parent, t :: !Extends(RuleOf(f), parent, t)
  {}

  lemma MeridReading(f: Form, next: Terminal)
    requires HasMerid(f) && MayFollow(f, next)
    ensures var t := InnerTree(f); Wf(t) && Yield(t) == Tokens(f) && MaxMunch(t, ItemRule(f), next)
  {
    hide RhsOf, LengthOf, LhsOf, Extends, Tokens, Front, MeridTree, RuleOf, HasMerid;
    MeridPhrase(f, next);
    FrontPhrase(f);
    MeridNode(RuleOf(f), Front(f), MeridTree(f), ItemRule(f), next);
  }

  lemma MeridNode(r: Rule, front: seq<Token>, m: Tree, parent: int, next: Terminal)
    requires |RhsOf(r)| == |front| + 1 && RhsOf(r)[|front|] == O_MERID == Symbol(m)
    requires forall i :: 0 <= i < |front| ==> front[i].sym == RhsOf(r)[i] != EOF
    requires Wf(m) && MaxMunch(m, r, next) && !Extends(r, parent, next)
    ensures var t := Node(r, Leaves(front) + [m]);
      Wf(t) && Yield(t) == front + Yield(m) && MaxMunch(t, parent, next)
  {
    hide RhsOf, Extends;
    LeavesWf(front);
    var leaves, kids := Leaves(front), Leaves(front) + [m];
    YieldConcat(leaves, [m]);
    YieldOne(m);
    forall i | 0 <= i < |kids| ensures KidMunch(kids, i, r, next) && Wf(kids[i]) && Symbol(kids[i]) == RhsOf(r)[i] {
      if i < |leaves| {
        assert kids[i] == Leaf(front[i]);
      } else {
        assert kids[i + 1..] == [];
      }
    }
  }

  lemma FormReading(f: Form, parent: int, next: Terminal)
    requires MayFollow(f, next)
    ensures var t := FormTree(f); Wf(t) && Symbol(t) == 23 && Yield(t) == Tokens(f) && MaxMunch(t, parent, next)
  {
    hide RhsOf, LengthOf, LhsOf, Extends, Tokens, RuleOf, ItemRule, HasMerid;
    if f.Rel? {
      Relative.ItemReading(f.item, parent, next);
      RelTokens(f);
    } else {
      ItemPhrase(f);
      if HasMerid(f) {
        MeridReading(f, next);
      } else {
        PlainPhrase(f);
        PlainFollow(f, next);
        LeafNode(RuleOf(f), Tokens(f), ItemRule(f), next);
      }
      ItemNode(ItemRule(f), InnerTree(f), parent, next);
    }
  }

  lemma RelTokens(f: Form)
    requires f.Rel?
    ensures Tokens(f) == Relative.ItemTokens(f.item)
  {}

  lemma PlainFollow(f: Form, next: Terminal)
    requires MayFollow(f, next) && !HasMerid(f) && !f.Rel?
    ensures !Extends(RuleOf(f), ItemRule(f), next)
  {}

  lemma ItemNode(r: Rule, kid: Tree, parent: int, next: Terminal)
    requires RhsOf(r) == [Symbol(kid)] && Wf(kid) && MaxMunch(kid, r, next) && !Extends(r, parent, next)
    ensures var t := Node(r, [kid]); Wf(t) && Yield(t) == Yield(kid) && MaxMunch(t, parent, next)
  {
    hide RhsOf, Extends;
    var kids := [kid];
    YieldOne(kid);
    assert kids[1..] == [];
    assert KidMunch(kids, 0, r, next);
  }

  /// Its value
  /// ---------

  // What the two rules of a form do to the control block.
  lemma TimeEffect(f: Form, v: seq<Value>, w: Value, s: Store)
    requires RuleOf(f) == 10 || RuleOf(f) == 12 || RuleOf(f) == 14
    requires IsForm(f) && v == ValuesOf(Tokens(f)) && |v| == LengthOf(RuleOf(f)) && LengthOf(ItemRule(f)) == 1
    ensures Perform(ItemRule(f), [w], Perform(RuleOf(f), v, s)).pc == Effect(f, s.pc)
  {
    hide ZoneMinutes;
    match f
    case ClockZone(_, _, z) => OffsetIs(z);
    case SecondsZone(_, _, _, z) => OffsetIs(z);
    case _ =>
  }

  lemma OffsetIs(z: Offset)
    requires z.Valid()
    ensures ZoneMinutes(z.Written().value) == z.Minutes()
  {
    var n := 100 * z.hours + z.minutes;
    assert TruncDiv(n, 100) == TruncDiv(-n, 100) * -1 == z.hours;
  }

  lemma ZoneEffect(f: Form, v: seq<Value>, w: Value, s: Store)
    requires 15 <= RuleOf(f) <= 22
    requires IsForm(f) && v == ValuesOf(Tokens(f)) && |v| == LengthOf(RuleOf(f)) && LengthOf(ItemRule(f)) == 1
    ensures Perform(ItemRule(f), [w], Perform(RuleOf(f), v, s)).pc == Effect(f, s.pc)
  {}

  lemma DateEffect(f: Form, v: seq<Value>, w: Value, s: Store)
    requires 23 <= RuleOf(f) <= 30
    requires IsForm(f) && v == ValuesOf(Tokens(f)) && |v| == LengthOf(RuleOf(f)) && LengthOf(ItemRule(f)) == 1
    ensures Perform(ItemRule(f), [w], Perform(RuleOf(f), v, s)).pc == Effect(f, s.pc)
  {}

  lemma NumberEffect(f: Form, v: seq<Value>, w: Value, s: Store)
    requires f.Lone? && IsForm(f) && v == [f.number]
    ensures LengthOf(51) == LengthOf(9) == 1 && Perform(9, [w], Perform(51, v, s)).pc == Effect(f, s.pc)
  {}

  lemma MeridEffect(f: Form, v: seq<Value>, m: Value, w: Value, s: Store)
    requires HasMerid(f) && v == ValuesOf(Front(f)) + [m] && m.value == Meridian(f)
    ensures |v| == LengthOf(RuleOf(f)) && LengthOf(ItemRule(f)) == 1
    ensures Perform(ItemRule(f), [w], Perform(RuleOf(f), v, s)).pc == Effect(f, s.pc)
  {}

  function Meridian(f: Form): int
  {
    match f
    case ClockMerid(_, _, p) => p.value
    case SecondsMerid(_, _, _, p) => p.value
    case _ => MER24
  }

  lemma WrittenMerid(p: Value, s: Store)
    ensures var t := Node(53, [Leaf(Token(T_MERIDIAN, p))]);
      Wf(t) ==> Eval(t, s).0.value == p.value && Eval(t, s).1.pc == s.pc
  {
    if Wf(Node(53, [Leaf(Token(T_MERIDIAN, p))])) {
      EvalOne(Leaf(Token(T_MERIDIAN, p)), s);
    }
  }

  lemma NoMerid(s: Store)
    ensures Eval(Node(52, []), s).0.value == MER24 && Eval(Node(52, []), s).1.pc == s.pc
  {}

  lemma MeridEval(f: Form, s: Store)
    requires HasMerid(f) && Wf(MeridTree(f))
    ensures Eval(MeridTree(f), s).0.value == Meridian(f) && Eval(MeridTree(f), s).1.pc == s.pc
  {
    hide Eval, Wf, HasMerid;
    match f
    case ClockMerid(_, _, p) => WrittenMerid(p, s);
    case SecondsMerid(_, _, _, p) => WrittenMerid(p, s);
    case _ => NoMerid(s);
  }

  lemma MeridNodeEval(f: Form, s: Store, w: Value)
    requires HasMerid(f) && Wf(InnerTree(f))
    ensures LengthOf(ItemRule(f)) == 1
    ensures Perform(ItemRule(f), [w], Eval(InnerTree(f), s).1).pc == Effect(f, s.pc)
  {
    hide RhsOf, LengthOf, LhsOf, Tokens, Front, MeridTree, Effect, Perform, HasMerid;
    var leaves, m := Leaves(Front(f)), MeridTree(f);
    var kids := leaves + [m];
    forall i | 0 <= i < |kids| ensures Wf(kids[i]) {}
    assert forall i :: 0 <= i < |leaves| ==> leaves[i] == kids[i];
    assert kids[|leaves|] == m;
    LeavesEval(Front(f), s);
    EvalConcat(leaves, [m], s);
    EvalOne(m, s);
    MeridEval(f, s);
    MeridEffect(f, ValuesOf(Front(f)) + [Eval(m, s).0], Eval(m, s).0, w, Eval(m, s).1);
  }

  lemma PlainEval(f: Form, s: Store, w: Value)
    requires !HasMerid(f) && !f.Rel? && IsForm(f) && Wf(InnerTree(f))
    ensures LengthOf(ItemRule(f)) == 1
    ensures Perform(ItemRule(f), [w], Eval(InnerTree(f), s).1).pc == Effect(f, s.pc)
  {
    hide RhsOf, LengthOf, LhsOf, Effect, Perform, Tokens, Wf;
    PlainPhrase(f);
    ItemPhrase(f);
    var r := RuleOf(f);
    LeafNodeEval(r, Tokens(f), s);
    var v := ValuesOf(Tokens(f));
    if r <= 14 {
      TimeEffect(f, v, w, s);
    } else if r <= 22 {
      ZoneEffect(f, v, w, s);
    } else if r <= 30 {
      DateEffect(f, v, w, s);
    } else {
      LoneToken(f);
      NumberEffect(f, v, w, s);
    }
  }

  lemma LoneToken(f: Form)
    requires f.Lone?
    ensures ValuesOf(Tokens(f)) == [f.number]
  {}

  lemma FormEval(f: Form, s: Store)
    requires IsForm(f) && Wf(FormTree(f))
    ensures Eval(FormTree(f), s).1.pc == Effect(f, s.pc)
  {
    hide RhsOf, LengthOf, LhsOf, Effect, Perform, Tokens, RuleOf, ItemRule, HasMerid, InnerTree;
    if f.Rel? {
      Relative.ItemEval(f.item, s);
      RelEffect(f, s.pc);
    } else {
      var inner := InnerTree(f);
      assert Wf(inner) by {
        assert FormTree(f).kids[0] == inner;
      }
      EvalOne(inner, s);
      if HasMerid(f) {
        MeridNodeEval(f, s, Eval(inner, s).0);
      } else {
        PlainEval(f, s, Eval(inner, s).0);
      }
    }
  }

  lemma RelEffect(f: Form, pc: Control)
    requires f.Rel?
    ensures Effect(f, pc) == Relative.Effect(pc, f.item)
  {}

  /// Many forms
  /// ----------

  function AllTokens(forms: seq<Form>): seq<Token>
  {
    if forms == [] then [] else AllTokens(forms[..|forms| - 1]) + Tokens(forms[|forms| - 1])
  }

  function EffectAll(forms: seq<Form>, pc: Control): Control
    requires forall f <- forms :: IsForm(f)
  {
    if forms == [] then pc else Effect(forms[|forms| - 1], EffectAll(forms[..|forms| - 1], pc))
  }

  function FirstSymbol(f: Form): Terminal
  {
    HeadOf(Tokens(f), EOF)
  }

  // No form is extended by the first token of the next one.
  predicate Apart(forms: seq<Form>, next: Terminal)
  {
    forms == []
    || (MayFollow(forms[|forms| - 1], next) && Apart(forms[..|forms| - 1], FirstSymbol(forms[|forms| - 1])))
  }

  function SpecTree(forms: seq<Form>): Tree
  {
    if forms == [] then Node(1, [])
    else Node(2, [SpecTree(forms[..|forms| - 1]), FormTree(forms[|forms| - 1])])
  }

  lemma FormHead(f: Form, next: Terminal)
    ensures HeadOf(Tokens(f), next) == FirstSymbol(f) && forall tok <- Tokens(f) :: tok.sym != EOF
  {
    if f.Rel? {
      Relative.ItemHead(f.item, next);
    }
  }

  lemma {:induction false} SpecReading(forms: seq<Form>, parent: int, next: Terminal)
    requires Apart(forms, next)
    ensures Wf(SpecTree(forms)) && Symbol(SpecTree(forms)) == SPEC && Yield(SpecTree(forms)) == AllTokens(forms)
    ensures MaxMunch(SpecTree(forms), parent, next)
    ensures forall tok <- AllTokens(forms) :: tok.sym != EOF
    decreases |forms|
  {
    hide FormTree, Tokens, MayFollow;
    if forms != [] {
      var front, last := forms[..|forms| - 1], forms[|forms| - 1];
      FormReading(last, 2, next);
      FormHead(last, next);
      SpecReading(front, 2, HeadOf(Tokens(last), next));
      SpecNode(SpecTree(front), FormTree(last), parent, next);
    }
  }

  lemma {:induction false} SpecEvalAll(forms: seq<Form>, s: Store)
    requires (forall f <- forms :: IsForm(f)) && Wf(SpecTree(forms))
    ensures Eval(SpecTree(forms), s).1.pc == EffectAll(forms, s.pc)
    decreases |forms|
  {
    hide FormTree, Effect, IsForm;
    if forms == [] {
      assert Perform(1, [], s).pc == s.pc;
    } else {
      hide Perform;
      var front, last := forms[..|forms| - 1], forms[|forms| - 1];
      var t := SpecTree(forms);
      assert t.kids[0] == SpecTree(front) && t.kids[1] == FormTree(last);
      SpecEvalAll(front, s);
      SpecEval(SpecTree(front), FormTree(last), s);
      FormEval(last, Eval(SpecTree(front), s).1);
    }
  }

  /** Any sequence of forms, none of which goes on with the first token of the next, is accepted, and sets what each
      of them says, in order. */
  lemma FormsAreRead(forms: seq<Form>, lval: Value, start: Store)
    requires (forall f <- forms :: IsForm(f)) && Apart(forms, EOF)
    ensures Valid(Init(AllTokens(forms), lval, start))
    ensures Run(Init(AllTokens(forms), lval, start)) == (0, EffectAll(forms, start.pc))
  {
    SpecReading(forms, 0, EOF);
    ReadingIsAccepted(SpecTree(forms), AllTokens(forms), lval, start);
    SpecEvalAll(forms, start);
  }
}
