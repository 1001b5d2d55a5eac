/** Which tokens extend a phrase, read off the rules of the grammar alone. */
module GetdatePhrases {
  import opened GetdateTables

  // Token `t` can be the first of symbol `x`.
  ghost predicate Starts(x: int, t: Terminal)
  {
    x == t || exists q: Rule :: LhsOf(q) == x && RhsOf(q) != [] && RhsOf(q)[0] == t
  }

  // The right-hand side of rule `q` goes on after `phrase` with `t`.
  ghost predicate ContinuesIn(q: Rule, phrase: seq<int>, t: Terminal)
  {
    |phrase| < |RhsOf(q)| && phrase == RhsOf(q)[..|phrase|] && Starts(RhsOf(q)[|phrase|], t)
  }

  ghost predicate Continues(phrase: seq<int>, t: Terminal)
  {
    exists q: Rule :: ContinuesIn(q, phrase, t)
  }

  predicate IsPrefix(r: Rule, q: Rule)
  {
    0 < |RhsOf(r)| < |RhsOf(q)| && RhsOf(r) == RhsOf(q)[..|RhsOf(r)|]
  }

  // Where one right-hand side is the front of another, the next symbol is a token that extends the phrase.
  predicate PrefixOk(r: Rule, q: Rule)
  {
    IsPrefix(r, q) ==> 0 <= RhsOf(q)[|RhsOf(r)|] < 22 && Extends(r, 0, RhsOf(q)[|RhsOf(r)|])
  }

  lemma Agree(a: seq<int>, b: seq<int>)
    ensures |a| < |b| && a == b[..|a|] ==>
      && (|a| > 0 ==> a[0] == b[0]) && (|a| > 1 ==> a[1] == b[1]) && (|a| > 2 ==> a[2] == b[2])
      && (|a| > 3 ==> a[3] == b[3]) && (|a| > 4 ==> a[4] == b[4])
  {}

  lemma Prefix0(r: Rule, q: Rule) requires 1 <= r < 3 ensures PrefixOk(r, q) { Agree(RhsOf(r), RhsOf(q)); }
  lemma Prefix1(r: Rule, q: Rule) requires 3 <= r < 5 ensures PrefixOk(r, q) { Agree(RhsOf(r), RhsOf(q)); }
  lemma Prefix2(r: Rule, q: Rule) requires 5 <= r < 8 ensures PrefixOk(r, q) { Agree(RhsOf(r), RhsOf(q)); }
  lemma Prefix3(r: Rule, q: Rule) requires 8 <= r < 10 ensures PrefixOk(r, q) { Agree(RhsOf(r), RhsOf(q)); }
  lemma Prefix4(r: Rule, q: Rule) requires 10 <= r < 12 ensures PrefixOk(r, q) { Agree(RhsOf(r), RhsOf(q)); }
  lemma Prefix5(r: Rule, q: Rule) requires 12 <= r < 16 ensures PrefixOk(r, q) { Agree(RhsOf(r), RhsOf(q)); }
  lemma Prefix6(r: Rule, q: Rule) requires 16 <= r < 19 ensures PrefixOk(r, q) { Agree(RhsOf(r), RhsOf(q)); }
  lemma Prefix7(r: Rule, q: Rule) requires 19 <= r < 22 ensures PrefixOk(r, q) { Agree(RhsOf(r), RhsOf(q)); }
  lemma Prefix8(r: Rule, q: Rule) requires 22 <= r < 27 ensures PrefixOk(r, q) { Agree(RhsOf(r), RhsOf(q)); }
  lemma Prefix9(r: Rule, q: Rule) requires 27 <= r < 33 ensures PrefixOk(r, q) { Agree(RhsOf(r), RhsOf(q)); }
  lemma Prefix10(r: Rule, q: Rule) requires 33 <= r < 37 ensures PrefixOk(r, q) { Agree(RhsOf(r), RhsOf(q)); }
  lemma Prefix11(r: Rule, q: Rule) requires 37 <= r < 42 ensures PrefixOk(r, q) { Agree(RhsOf(r), RhsOf(q)); }
  lemma Prefix12(r: Rule, q: Rule) requires 42 <= r < 46 ensures PrefixOk(r, q) { Agree(RhsOf(r), RhsOf(q)); }
  lemma Prefix13(r: Rule, q: Rule) requires 46 <= r < 49 ensures PrefixOk(r, q) { Agree(RhsOf(r), RhsOf(q)); }
  lemma Prefix14(r: Rule, q: Rule) requires 49 <= r < 51 ensures PrefixOk(r, q) { Agree(RhsOf(r), RhsOf(q)); }
  lemma Prefix15(r: Rule, q: Rule) requires 51 <= r < 54 ensures PrefixOk(r, q) { Agree(RhsOf(r), RhsOf(q)); }

  lemma PrefixExtends(r: Rule, q: Rule)
    ensures PrefixOk(r, q)
  {
    if r < 3 { Prefix0(r, q); }
    else if r < 5 { Prefix1(r, q); }
    else if r < 8 { Prefix2(r, q); }
    else if r < 10 { Prefix3(r, q); }
    else if r < 12 { Prefix4(r, q); }
    else if r < 16 { Prefix5(r, q); }
    else if r < 19 { Prefix6(r, q); }
    else if r < 22 { Prefix7(r, q); }
    else if r < 27 { Prefix8(r, q); }
    else if r < 33 { Prefix9(r, q); }
    else if r < 37 { Prefix10(r, q); }
    else if r < 42 { Prefix11(r, q); }
    else if r < 46 { Prefix12(r, q); }
    else if r < 49 { Prefix13(r, q); }
    else if r < 51 { Prefix14(r, q); }
    else { Prefix15(r, q); }
  }

  // A rule that goes on after a phrase of rule `r` with a token that extends it.
  function Longer(r: Rule, t: Terminal): Rule
  {
    match r
    case 15 => 16
    case 17 => 19
    case 20 => 21
    case 23 => 24
    case 27 => 28
    case 29 => if t == T_SNUMBER then 26 else 30
    case 32 => 31
    case _ =>
      match t
      case 5 => 22
      case 6 => 39
      case 8 => 42
      case 10 => 10
      case 11 => 45
      case 12 => 29
      case 13 => 36
      case 14 => 48
      case 15 => 33
      case 17 => 25
      case 19 => 11
      case _ => 23
  }

  lemma NumberContinues(parent: int, t: Terminal)
    requires Extends(51, parent, t)
    ensures ContinuesIn(Longer(51, t), [T_UNUMBER], t)
  {
    var rhs := RhsOf(Longer(51, t));
    assert |rhs| > 1 && rhs[0] == T_UNUMBER && rhs[1] == t;
    assert rhs[..1] == [T_UNUMBER];
  }

  lemma LongerContinues(r: Rule, parent: int, t: Terminal)
    requires Extends(r, parent, t) && r != 52
    ensures ContinuesIn(Longer(r, t), RhsOf(r), t)
  {
    if r == 51 {
      NumberContinues(parent, t);
      assert RhsOf(51) == [T_UNUMBER];
    } else {
      assert RhsOf(r) == RhsOf(Longer(r, t))[..|RhsOf(r)|];
    }
  }

  lemma NoRuleOfToken(x: int, t: Terminal)
    requires 0 <= x < 22 && Starts(x, t)
    ensures x == t
  {}

  /** A phrase with a nonempty right-hand side is extended by exactly the tokens with which some rule goes on
      after it. */
  lemma ExtendsNonempty(r: Rule, parent: int, t: Terminal)
    requires RhsOf(r) != []
    ensures Extends(r, parent, t) <==> Continues(RhsOf(r), t)
  {
    hide RhsOf, Extends, Starts;
    OnlyTwoEmpty(r);
    if Extends(r, parent, t) {
      LongerContinues(r, parent, t);
    }
    if Continues(RhsOf(r), t) {
      var q: Rule :| ContinuesIn(q, RhsOf(r), t);
      PrefixExtends(r, q);
      NoRuleOfToken(RhsOf(q)[|RhsOf(r)|], t);
      ExtendsAnyParent(r, 0, parent, t);
    }
  }

  lemma OnlyTwoEmpty(r: Rule)
    ensures RhsOf(r) == [] <==> r == 1 || r == 52
  {}

  // What comes before an o_merid in the rule around it.
  function BeforeMerid(parent: int): seq<int>
    requires parent == 11 || parent == 13
  {
    RhsOf(parent)[..|RhsOf(parent)| - 1]
  }

  lemma OnlyTwoEndInMerid(r: Rule)
    ensures O_MERID in RhsOf(r) <==> r == 11 || r == 13
    ensures r == 11 || r == 13 ==> RhsOf(r) == BeforeMerid(r) + [O_MERID]
  {}

  lemma MeridStarts(t: Terminal)
    ensures Starts(O_MERID, t) <==> t == T_MERIDIAN
  {
    assert LhsOf(53) == O_MERID && RhsOf(53) == [T_MERIDIAN];
  }

  lemma AfterMinutes(q: Rule)
    ensures BeforeMerid(11) == [T_UNUMBER, T_COLON, T_UNUMBER]
    ensures 3 < |RhsOf(q)| && RhsOf(q)[..3] == BeforeMerid(11) ==>
      q == 11 || q == 12 || q == 13 || q == 14
  {
    Agree(BeforeMerid(11), RhsOf(q));
  }

  lemma AfterSeconds(q: Rule)
    ensures BeforeMerid(13) == [T_UNUMBER, T_COLON, T_UNUMBER, T_COLON, T_UNUMBER]
    ensures 5 < |RhsOf(q)| && RhsOf(q)[..5] == BeforeMerid(13) ==> q == 13 || q == 14
  {}

  lemma TimeRules()
    ensures RhsOf(11) == BeforeMerid(11) + [O_MERID] && RhsOf(12) == BeforeMerid(11) + [T_SNUMBER]
    ensures RhsOf(13) == BeforeMerid(13) + [O_MERID] && RhsOf(14) == BeforeMerid(13) + [T_SNUMBER]
    ensures BeforeMerid(13) == BeforeMerid(11) + [T_COLON, T_UNUMBER] && |BeforeMerid(11)| == 3
  {}

  /** An empty o_merid is extended by exactly the tokens with which some rule goes on after what comes before it. */
  lemma ExtendsMerid(parent: int, t: Terminal)
    requires parent == 11 || parent == 13
    ensures Extends(52, parent, t) <==> Continues(BeforeMerid(parent), t)
  {
    hide RhsOf, Starts;
    var phrase := BeforeMerid(parent);
    TimeRules();
    MeridStarts(t);
    TokenStarts(T_SNUMBER, t);
    TokenStarts(T_COLON, t);
    if Extends(52, parent, t) {
      var q: Rule := if t == T_SNUMBER then parent + 1 else if t == T_COLON then 13 else parent;
      hide BeforeMerid;
      assert RhsOf(q)[..|phrase|] == phrase;
      assert ContinuesIn(q, phrase, t);
    }
    if Continues(phrase, t) {
      var q: Rule :| ContinuesIn(q, phrase, t);
      AfterMinutes(q);
      AfterSeconds(q);
    }
  }

  lemma TokenStarts(x: Terminal, t: Terminal)
    ensures Starts(x, t) <==> t == x
  {
    if Starts(x, t) {
      NoRuleOfToken(x, t);
    }
  }

  /** `Extends` is what the grammar says: a token extends a phrase exactly when some rule goes on with it after
      the phrase, or after what comes before the phrase if that is an empty o_merid. An empty spec is not extended. */
  lemma ExtendsOfGrammar(r: Rule, parent: int, t: Terminal)
    requires r == 52 ==> parent == 11 || parent == 13
    ensures RhsOf(r) != [] ==> (Extends(r, parent, t) <==> Continues(RhsOf(r), t))
    ensures r == 52 ==> (Extends(r, parent, t) <==> Continues(BeforeMerid(parent), t))
    ensures r == 1 ==> !Extends(r, parent, t)
  {
    hide RhsOf, Starts, Continues;
    OnlyTwoEmpty(r);
    if r == 52 {
      ExtendsMerid(parent, t);
    } else if r != 1 {
      ExtendsNonempty(r, parent, t);
    }
  }
}
