/** Servlet sessions: a table with lazy expiry, collected now and then. */
module Sessions {
  import opened Basics
  import opened JavaText
  import opened Numerals

  /// Identifiers
  /// -----------

  type Id = Text

  function IntText(n: int): Text
  {
    if n < 0 then [MINUS] + Decimal(-n) else Decimal(n)
  }

  const INTS: int := 0x1_0000_0000

  // The counter is a 32-bit int: what it holds after `n` steps.
  function Wrapped(n: nat): int
  {
    (n + INTS / 2) % INTS - INTS / 2
  }

  function IdOf(base: Text, n: nat): Id
  {
    base + IntText(Wrapped(n))
  }

  lemma IntTextInjective(a: int, b: int)
    requires IntText(a) == IntText(b)
    ensures a == b
  {
    hide Decimal;
    var s, t := IntText(a), IntText(b);
    assert a < 0 <==> s[0] == MINUS;
    assert b < 0 <==> t[0] == MINUS;
    if a < 0 {
      assert Decimal(-a) == s[1..] == t[1..] == Decimal(-b);
      DecimalInjective(-a, -b);
    } else {
      DecimalInjective(a, b);
    }
  }

  /** An identifier is the base and the counter in decimal, as a signed 32-bit integer. */
  lemma IdSpelled(base: Text, n: nat)
    ensures var text, r := IdOf(base, n)[|base|..], n % 0x1_0000_0000;
      var digits := if r < 0x8000_0000 then text else text[1..];
      && IdOf(base, n)[..|base|] == base && text != [] && digits != []
      && (r >= 0x8000_0000 ==> text[0] == '-' as int && ValueOf(digits) == 0x1_0000_0000 - r)
      && (r < 0x8000_0000 ==> ValueOf(digits) == r)
      && (r != 0 ==> digits[0] != '0' as int)
  {
    hide Wrapped, ValueOf, Padded;
    WrappedIs(n);
    var w := Wrapped(n);
    var size := if w < 0 then -w else w;
    PaddedValue(size, 1);
    assert IdOf(base, n)[|base|..] == IntText(w);
    assert w < 0 ==> IntText(w)[1..] == Decimal(size);
    if size > 0 {
      NoLeadingZero(size);
    }
  }

  lemma WrappedIs(n: nat)
    ensures var r := n % INTS; Wrapped(n) == if r < INTS / 2 then r else r - INTS
  {}

  lemma WrappedInjective(m: nat, n: nat)
    ensures Wrapped(m) == Wrapped(n) <==> m % INTS == n % INTS
  {
    hide Wrapped;
    WrappedIs(m);
    WrappedIs(n);
  }

  /** Two identifiers are the same exactly when the counter went all the way round between them. */
  lemma IdsDistinct(base: Text, m: nat, n: nat)
    ensures IdOf(base, m) == IdOf(base, n) <==> m % INTS == n % INTS
  {
    hide IntText, Wrapped;
    var a, b := Wrapped(m), Wrapped(n);
    WrappedInjective(m, n);
    if IdOf(base, m) == IdOf(base, n) {
      assert IntText(a) == IdOf(base, m)[|base|..] == IdOf(base, n)[|base|..] == IntText(b);
      IntTextInjective(a, b);
    }
  }

  /// Sessions
  /// --------

  // `names` are those of the attributes; times are in milliseconds and the interval in seconds.
  datatype Session = Session(id: Id, created: int, last: int, previous: int, isNew: bool, invalidated: bool,
                             interval: int, names: set<Text>)

  function NewSession(id: Id, now: int): Session
  {
    Session(id, now, now, now, true, false, 3600, {})
  }

  // Long division by 1000, which truncates.
  function Seconds(ms: int): int
  {
    if ms >= 0 then ms / 1000 else -(-ms / 1000)
  }

  predicate Expired(interval: int, last: int, now: int)
  {
    interval >= 0 && Seconds(now - last) >= interval
  }

  predicate Dead(s: Session, now: int)
  {
    s.invalidated || Expired(s.interval, s.last, now)
  }

  function Invalidated(s: Session): Session
  {
    s.(invalidated := true, names := {})
  }

  // A session after an access, and whether it may be used.
  function Accessed(s: Session, now: int): (Session, bool)
  {
    if s.invalidated then (s, false)
    else
      var s' := s.(previous := s.last, last := now);
      if Expired(s.interval, s.last, now) then (s', false) else (s'.(isNew := false), true)
  }

  lemma DeadStaysDead(s: Session, t: int, now: int)
    requires Dead(s, t) && t <= now
    ensures Dead(s, now)
  {}

  /// The table
  /// ---------

  // `issued` counts the identifiers given out.
  datatype Context = Context(table: map<Id, Session>, lastGarb: int, base: Text, issued: nat)

  // What one call reads off the clock: at the start, while it collects (only if the start was zero),
  // when it accesses a session and when it makes one.
  datatype Times = Times(now: int, again: Id -> int, access: int, create: int)

  ghost predicate InOrder(times: Times, since: int)
  {
    since <= times.now <= times.access <= times.create && forall id :: times.now <= times.again(id) <= times.access
  }

  const GARB_INTERVAL := 600

  function CheckTime(times: Times, id: Id): int
  {
    if times.now == 0 then times.again(id) else times.now
  }

  predicate CollectionDue(c: Context, now: int)
  {
    now - c.lastGarb > GARB_INTERVAL * 1000
  }

  function Collected(c: Context, times: Times): Context
  {
    if CollectionDue(c, times.now) then
      c.(lastGarb := times.now, table := map k | k in c.table && !Dead(c.table[k], CheckTime(times, k)) :: c.table[k])
    else c
  }

  // The session returned, as it is then; nothing for null.
  datatype Outcome = Outcome(context: Context, session: Option<Session>)

  function Made(c: Context, create: bool, now: int): Outcome
  {
    if create then
      var s := NewSession(IdOf(c.base, c.issued), now);
      Outcome(c.(table := c.table[s.id := s], issued := c.issued + 1), Some(s))
    else Outcome(c, None)
  }

  function Found(c: Context, id: Option<Id>, create: bool, times: Times): Outcome
  {
    if id.Some? && id.value in c.table then
      var (s, ok) := Accessed(c.table[id.value], times.access);
      if ok then Outcome(c.(table := c.table[id.value := s]), Some(s))
      else Made(c.(table := c.table - {id.value}), create, times.create)
    else Made(c, create, times.create)
  }

  /** getSession, with the periodic collection or without it. */
  function GetSession(c: Context, id: Option<Id>, create: bool, times: Times, collect: bool): Outcome
  {
    Found(if collect then Collected(c, times) else c, id, create, times)
  }

  /// Runs
  /// ----

  // What callers do: ask for a session, invalidate one, or change how long one may stay inactive.
  datatype Event =
    | Get(asked: Option<Id>, create: bool, times: Times)
    | Invalidate(id: Id)
    | SetInterval(id: Id, interval: int)

  function Change(c: Context, id: Id, s: Session): Context
  {
    if id in c.table then c.(table := c.table[id := s]) else c
  }

  function Handled(c: Context, e: Event, collect: bool): Context
  {
    match e
    case Get(id, create, times) => GetSession(c, id, create, times, collect).context
    case Invalidate(id) => if id in c.table then Change(c, id, Invalidated(c.table[id])) else c
    case SetInterval(id, n) => if id in c.table then Change(c, id, c.table[id].(interval := n)) else c
  }

  function Answer(c: Context, e: Event, collect: bool): seq<Option<Session>>
  {
    match e
    case Get(id, create, times) => [GetSession(c, id, create, times, collect).session]
    case _ => []
  }

  function Answers(c: Context, events: seq<Event>, collect: bool): seq<Option<Session>>
    decreases |events|
  {
    if events == [] then []
    else Answer(c, events[0], collect) + Answers(Handled(c, events[0], collect), events[1..], collect)
  }

  function TimeAfter(e: Event, t: int): int
  {
    if e.Get? then e.times.create else t
  }

  /// The collection does not show
  /// ----------------------------

  // The clock does not go back.
  ghost predicate InTime(e: Event, t: int)
  {
    e.Get? ==> InOrder(e.times, t)
  }

  ghost predicate ClockInOrder(events: seq<Event>, t: int)
    decreases |events|
  {
    events == [] || (InTime(events[0], t) && ClockInOrder(events[1..], TimeAfter(events[0], t)))
  }

  function TimeAfterAll(events: seq<Event>, t: int): int
    decreases |events|
  {
    if events == [] then t else TimeAfterAll(events[1..], TimeAfter(events[0], t))
  }

  // With the collection `a` is the table and without it `b`: a session that was collected lives again.
  predicate Revives(a: Context, b: Context, e: Event, t: int)
  {
    e.SetInterval? && e.id in b.table && e.id !in a.table && !Dead(b.table[e.id].(interval := e.interval), t)
  }

  // No change of interval revives a session that the collection has removed.
  predicate NeverRevives(a: Context, b: Context, events: seq<Event>, t: int)
    decreases |events|
  {
    events == []
    || (!Revives(a, b, events[0], t)
        && NeverRevives(Handled(a, events[0], true), Handled(b, events[0], false), events[1..],
                        TimeAfter(events[0], t)))
  }

  // A table and what the collection made of it: only dead sessions are missing.
  ghost predicate Purged(a: Context, b: Context, t: int)
  {
    && a.base == b.base && a.issued == b.issued
    && a.table.Keys <= b.table.Keys
    && (forall k <- a.table :: a.table[k] == b.table[k])
    && (forall k <- b.table :: k in a.table || Dead(b.table[k], t))
  }

  lemma PurgedLater(a: Context, b: Context, t: int, now: int)
    requires Purged(a, b, t) && t <= now
    ensures Purged(a, b, now)
  {
    forall k <- b.table ensures k in a.table || Dead(b.table[k], now) {
      if k !in a.table {
        DeadStaysDead(b.table[k], t, now);
      }
    }
  }

  lemma CollectedIsPurged(a: Context, b: Context, t: int, times: Times)
    requires Purged(a, b, t) && InOrder(times, t)
    ensures Purged(Collected(a, times), b, times.access)
  {
    hide Dead;
    PurgedLater(a, b, t, times.access);
    forall k <- b.table ensures k in Collected(a, times).table || Dead(b.table[k], times.access) {
      if k in a.table && Dead(a.table[k], CheckTime(times, k)) {
        DeadStaysDead(b.table[k], CheckTime(times, k), times.access);
      }
    }
  }

  lemma FoundInPurged(a: Context, b: Context, id: Option<Id>, create: bool, times: Times)
    requires Purged(a, b, times.access)
    ensures Found(a, id, create, times).session == Found(b, id, create, times).session
    ensures Purged(Found(a, id, create, times).context, Found(b, id, create, times).context, times.access)
  {
    if id.Some? && id.value in b.table && id.value !in a.table {
      assert !Accessed(b.table[id.value], times.access).1;
    }
  }

  lemma EventOnPurged(a: Context, b: Context, e: Event, t: int)
    requires Purged(a, b, t) && InTime(e, t) && !Revives(a, b, e, t)
    ensures Answer(a, e, true) == Answer(b, e, false)
    ensures Purged(Handled(a, e, true), Handled(b, e, false), TimeAfter(e, t))
  {
    match e
    case Get(id, create, times) =>
      hide Found, Collected, Purged;
      CollectedIsPurged(a, b, t, times);
      FoundInPurged(Collected(a, times), b, id, create, times);
      PurgedLater(Handled(a, e, true), Handled(b, e, false), times.access, times.create);
    case Invalidate(id) =>
    case SetInterval(id, n) =>
  }

  /** On an ordered clock, a run that revives no collected session gets the same sessions and nulls with the
      periodic collection as without it. */
  lemma {:induction false} CollectionIsInvisible(a: Context, b: Context, events: seq<Event>, t: int)
    requires Purged(a, b, t) && ClockInOrder(events, t) && NeverRevives(a, b, events, t)
    ensures Answers(a, events, true) == Answers(b, events, false)
    decreases |events|
  {
    hide Purged, InTime, Revives, Handled, Answer;
    if events != [] {
      var e := events[0];
      EventOnPurged(a, b, e, t);
      CollectionIsInvisible(Handled(a, e, true), Handled(b, e, false), events[1..], TimeAfter(e, t));
    }
  }

  lemma CollectionIsTransparent(c: Context, events: seq<Event>, t: int)
    requires ClockInOrder(events, t) && NeverRevives(c, c, events, t)
    ensures Answers(c, events, true) == Answers(c, events, false)
  {
    CollectionIsInvisible(c, c, events, t);
  }

  ghost predicate FixedIntervals(events: seq<Event>)
  {
    forall i | 0 <= i < |events| :: !events[i].SetInterval?
  }

  /** With intervals left alone, nothing is revived. */
  lemma {:induction false} FixedIntervalsNeverRevive(a: Context, b: Context, events: seq<Event>, t: int)
    requires FixedIntervals(events)
    ensures NeverRevives(a, b, events, t)
    decreases |events|
  {
    hide Handled;
    if events != [] {
      var e := events[0];
      FixedIntervalsNeverRevive(Handled(a, e, true), Handled(b, e, false), events[1..], TimeAfter(e, t));
    }
  }

  /// Exactly when the collection shows
  /// ---------------------------------

  // Whatever is asked for after the events, on an ordered clock and with intervals left alone, the answers agree.
  ghost predicate AgreeAfter(a: Context, b: Context, events: seq<Event>, t: int)
  {
    forall later :: ClockInOrder(later, TimeAfterAll(events, t)) && FixedIntervals(later) ==>
      Answers(a, events + later, true) == Answers(b, events + later, false)
  }

  lemma AnswersFirst(c: Context, e: Event, later: seq<Event>, collect: bool)
    ensures Answers(c, [e] + later, collect) == Answer(c, e, collect) + Answers(Handled(c, e, collect), later, collect)
  {
    hide Answer, Handled;
    assert ([e] + later)[1..] == later;
  }

  // The call that tells a revived session from one that is gone.
  lemma RevivalAnswers(a: Context, b: Context, e: Event, t: int) returns (later: seq<Event>)
    requires Revives(a, b, e, t)
    ensures ClockInOrder(later, t) && FixedIntervals(later)
    ensures Answers(a, [e] + later, true) != Answers(b, [e] + later, false)
  {
    hide Dead, Accessed;
    var times := Times(t, _ => t, t, t);
    var get := Get(Some(e.id), false, times);
    later := [get];
    assert later[1..] == [] && later == [get] + [];
    var d := Handled(b, e, false);
    AccessSucceeds(d.table[e.id], t);
    AnswersFirst(a, e, later, true);
    AnswersFirst(b, e, later, false);
    AnswersFirst(a, get, [], true);
    AnswersFirst(d, get, [], false);
    assert Handled(a, e, true) == a && Answer(a, e, true) == Answer(b, e, false) == [];
    assert Answer(a, get, true) == [None] && |Answer(d, get, false)| == 1 && Answer(d, get, false)[0].Some?;
    assert Answers(a, [e] + later, true) == [None];
    assert Answers(b, [e] + later, false)[0].Some?;
  }

  /** After a change of interval the answers agree on everything that may follow if and only if it revives no
      collected session. */
  lemma RevivalExactly(a: Context, b: Context, e: Event, t: int)
    requires Purged(a, b, t) && e.SetInterval?
    ensures AgreeAfter(a, b, [e], t) <==> !Revives(a, b, e, t)
  {
    hide Purged, Revives;
    TimeOfOne(e, t);
    if Revives(a, b, e, t) {
      var later := RevivalAnswers(a, b, e, t);
    } else {
      EventOnPurged(a, b, e, t);
      forall later | ClockInOrder(later, t) && FixedIntervals(later)
        ensures Answers(a, [e] + later, true) == Answers(b, [e] + later, false)
      {
        FixedIntervalsNeverRevive(Handled(a, e, true), Handled(b, e, false), later, t);
        CollectionIsInvisible(Handled(a, e, true), Handled(b, e, false), later, t);
        AnswersFirst(a, e, later, true);
        AnswersFirst(b, e, later, false);
      }
    }
  }

  lemma TimeOfOne(e: Event, t: int)
    ensures TimeAfterAll([e], t) == TimeAfter(e, t)
  {
    assert [e][1..] == [];
  }

  // The answers agree in the middle of a run too, whatever is asked for from there.
  ghost predicate AgreeThroughout(a: Context, b: Context, events: seq<Event>, t: int)
  {
    forall n: nat | n <= |events| :: AgreeAfter(a, b, events[..n], t)
  }

  lemma {:induction false} FrontNeverRevives(a: Context, b: Context, front: seq<Event>, rest: seq<Event>,
                                             later: seq<Event>, t: int)
    requires ClockInOrder(front + rest, t) && NeverRevives(a, b, front + rest, t)
    requires ClockInOrder(later, TimeAfterAll(front, t)) && FixedIntervals(later)
    ensures ClockInOrder(front + later, t) && NeverRevives(a, b, front + later, t)
    decreases |front|
  {
    hide Handled, InTime, Revives, FixedIntervals;
    if front == [] {
      assert front + later == later;
      FixedIntervalsNeverRevive(a, b, later, t);
    } else {
      var e := front[0];
      assert (front + rest)[1..] == front[1..] + rest && (front + later)[1..] == front[1..] + later;
      FrontNeverRevives(Handled(a, e, true), Handled(b, e, false), front[1..], rest, later, TimeAfter(e, t));
    }
  }

  // The first revival of a run shows.
  lemma {:induction false} FirstRevival(a: Context, b: Context, events: seq<Event>, t: int)
    returns (n: nat, later: seq<Event>)
    requires !NeverRevives(a, b, events, t)
    ensures n <= |events| && ClockInOrder(later, TimeAfterAll(events[..n], t)) && FixedIntervals(later)
    ensures Answers(a, events[..n] + later, true) != Answers(b, events[..n] + later, false)
    decreases |events|
  {
    hide Handled, Revives, Answer;
    var e := events[0];
    if Revives(a, b, e, t) {
      later := RevivalAnswers(a, b, e, t);
      n := 1;
      assert events[..1] == [e];
      TimeOfOne(e, t);
      RevivalKeepsTime(a, b, e, t);
    } else {
      var k;
      k, later := FirstRevival(Handled(a, e, true), Handled(b, e, false), events[1..], TimeAfter(e, t));
      n := k + 1;
      var front := events[1..][..k];
      assert events[..n] == [e] + front && events[..n][1..] == front && events[..n] + later == [e] + (front + later);
      AnswersFirst(a, e, front + later, true);
      AnswersFirst(b, e, front + later, false);
      AnswerIsShort(a, b, e);
    }
  }

  lemma RevivalKeepsTime(a: Context, b: Context, e: Event, t: int)
    requires Revives(a, b, e, t)
    ensures TimeAfter(e, t) == t
  {}

  // Both give the same number of answers, so that a difference further on remains one.
  lemma AnswerIsShort(a: Context, b: Context, e: Event)
    ensures |Answer(a, e, true)| == |Answer(b, e, false)|
    ensures forall x, y :: Answer(a, e, true) + x == Answer(b, e, false) + y ==> x == y
  {
    hide GetSession;
    forall x, y | Answer(a, e, true) + x == Answer(b, e, false) + y ensures x == y {
      var k := |Answer(a, e, true)|;
      assert x == (Answer(a, e, true) + x)[k..] && y == (Answer(b, e, false) + y)[k..];
    }
  }

  /** On an ordered clock, the answers agree throughout a run, whatever is asked for at any point of it, if and only
      if the run revives no collected session. */
  lemma TransparentExactly(a: Context, b: Context, events: seq<Event>, t: int)
    requires Purged(a, b, t) && ClockInOrder(events, t)
    ensures AgreeThroughout(a, b, events, t) <==> NeverRevives(a, b, events, t)
  {
    hide Purged, NeverRevives, ClockInOrder, FixedIntervals, Answers;
    if NeverRevives(a, b, events, t) {
      forall n: nat, later | n <= |events| && ClockInOrder(later, TimeAfterAll(events[..n], t)) && FixedIntervals(later)
        ensures Answers(a, events[..n] + later, true) == Answers(b, events[..n] + later, false)
      {
        assert events == events[..n] + events[n..];
        FrontNeverRevives(a, b, events[..n], events[n..], later, t);
        CollectionIsInvisible(a, b, events[..n] + later, t);
      }
    } else {
      var n, later := FirstRevival(a, b, events, t);
      assert !AgreeAfter(a, b, events[..n], t);
    }
  }

  /** Whenever a longer interval revives an expired session, a collection in between does show. */
  lemma RevivalShows(c: Context, id: Id, first: Times, n: int, second: Times)
    requires id in c.table && !c.table[id].invalidated
    requires CollectionDue(c, first.now) && Dead(c.table[id], CheckTime(first, id))
    requires !Dead(c.table[id].(interval := n), second.access)
    ensures var events := [Get(None, false, first), SetInterval(id, n), Get(Some(id), false, second)];
      && Answers(c, events, true) == [None, None]
      && Answers(c, events, false) == [None, Some(Accessed(c.table[id].(interval := n), second.access).0)]
  {
    hide Dead, Accessed;
    var e0, e1, e2 := Get(None, false, first), SetInterval(id, n), Get(Some(id), false, second);
    var events := [e0, e1, e2];
    assert events[1..] == [e1, e2] && [e1, e2][1..] == [e2] && [e2][1..] == [];
    var c1 := Collected(c, first);
    assert id !in c1.table;
    assert id !in Collected(c1, second).table;
    AccessSucceeds(c.table[id].(interval := n), second.access);
    assert Answers(c, events, true) == [None] + Answers(c1, [e1, e2], true);
    assert Answers(c1, [e1, e2], true) == Answers(c1, [e2], true);
    var c2 := Handled(c, e1, false);
    assert Answers(c, events, false) == [None] + Answers(c, [e1, e2], false);
    assert Answers(c, [e1, e2], false) == Answers(c2, [e2], false);
  }

  lemma AccessSucceeds(s: Session, now: int)
    ensures Accessed(s, now).1 <==> !Dead(s, now)
  {}

  /// Safety
  /// ------

  predicate Issued(c: Context, id: Id)
  {
    exists n: nat :: n < c.issued && id == IdOf(c.base, n)
  }

  // Each key is the identifier of its session, and was given out.
  ghost predicate Safe(c: Context)
  {
    forall k <- c.table :: c.table[k].id == k && Issued(c, k)
  }

  lemma IssuedStays(c: Context, d: Context, id: Id)
    requires Issued(c, id) && c.base == d.base && c.issued <= d.issued
    ensures Issued(d, id)
  {
    var n: nat :| n < c.issued && id == IdOf(c.base, n);
    assert n < d.issued;
  }

  lemma MadeIsIssued(c: Context, d: Context)
    requires c.base == d.base && d.issued == c.issued + 1
    ensures Issued(d, IdOf(c.base, c.issued))
  {}

  lemma EventKeepsSafe(c: Context, e: Event, collect: bool)
    requires Safe(c)
    ensures var d := Handled(c, e, collect); Safe(d) && d.base == c.base && c.issued <= d.issued
  {
    hide Issued, Dead, IdOf;
    var d := Handled(c, e, collect);
    forall k <- d.table ensures d.table[k].id == k && Issued(d, k) {
      if k in c.table {
        IssuedStays(c, d, k);
      }
      if d.issued == c.issued + 1 {
        MadeIsIssued(c, d);
      }
    }
  }

  /** A session that is returned is live, is in the table, and is the one asked for or a new one. */
  lemma ReturnsLive(c: Context, id: Option<Id>, create: bool, times: Times, collect: bool)
    requires Safe(c)
    ensures match GetSession(c, id, create, times, collect).session
      case None => !create
      case Some(s) =>
        var table := GetSession(c, id, create, times, collect).context.table;
        && s.id in table && table[s.id] == s && !s.invalidated && !Expired(s.interval, s.previous, s.last)
        && ((id == Some(s.id) && s.last == times.access)
            || (create && s == NewSession(IdOf(c.base, c.issued), times.create)))
  {
    hide IdOf;
  }

  // Not in the table, or there only to be dropped.
  ghost predicate Gone(c: Context, id: Id)
  {
    id in c.table ==> c.table[id].invalidated
  }

  lemma GoneStaysGone(c: Context, e: Event, id: Id, collect: bool)
    requires Safe(c) && Gone(c, id) && Issued(c, id) && Handled(c, e, collect).issued <= INTS
    ensures Gone(Handled(c, e, collect), id)
    ensures forall s <- Answer(c, e, collect) :: s.Some? ==> s.value.id != id
  {
    match e
    case Get(asked, create, times) =>
      hide Found, Collected, Dead, Safe, Gone, Issued, IdOf;
      CollectedKeeps(c, times, id);
      var d := if collect then Collected(c, times) else c;
      GoneInFound(d, asked, create, times, id);
    case Invalidate(_) =>
    case SetInterval(_, _) =>
  }

  lemma CollectedKeeps(c: Context, times: Times, id: Id)
    requires Safe(c) && Gone(c, id) && Issued(c, id)
    ensures var d := Collected(c, times); Safe(d) && Gone(d, id) && Issued(d, id)
  {
    hide Dead, IdOf, Issued;
    var d := Collected(c, times);
    IssuedStays(c, d, id);
    forall k <- d.table ensures d.table[k].id == k && Issued(d, k) {
      IssuedStays(c, d, k);
    }
  }

  lemma GoneInFound(c: Context, asked: Option<Id>, create: bool, times: Times, id: Id)
    requires Safe(c) && Gone(c, id) && Issued(c, id) && Found(c, asked, create, times).context.issued <= INTS
    ensures var r := Found(c, asked, create, times);
      Gone(r.context, id) && (r.session.Some? ==> r.session.value.id != id)
  {
    hide IdOf, Issued, Expired;
    if create {
      NewIdIsNew(c, id);
    }
  }

  lemma NewIdIsNew(c: Context, id: Id)
    requires Issued(c, id)
    ensures c.issued < INTS ==> IdOf(c.base, c.issued) != id
  {
    hide IdOf;
    var n: nat :| n < c.issued && id == IdOf(c.base, n);
    if c.issued < INTS {
      IdsDistinct(c.base, n, c.issued);
    }
  }

  function Final(c: Context, events: seq<Event>, collect: bool): Context
    decreases |events|
  {
    if events == [] then c else Final(Handled(c, events[0], collect), events[1..], collect)
  }

  /** However a run goes on, keys stay the identifiers of their sessions, and no session comes back
      after it was invalidated or dropped. */
  lemma {:induction false} GoneForever(c: Context, events: seq<Event>, id: Id, collect: bool)
    requires Safe(c) && Gone(c, id) && Issued(c, id) && Final(c, events, collect).issued <= INTS
    ensures Safe(Final(c, events, collect)) && Gone(Final(c, events, collect), id)
    ensures forall s <- Answers(c, events, collect) :: s.Some? ==> s.value.id != id
    decreases |events|
  {
    hide Safe, Gone, Issued, Handled, Answer;
    if events != [] {
      var e := events[0];
      var d := Handled(c, e, collect);
      IssuedGrows(d, events[1..], collect);
      EventKeepsSafe(c, e, collect);
      GoneStaysGone(c, e, id, collect);
      IssuedStays(c, d, id);
      GoneForever(d, events[1..], id, collect);
    }
  }

  lemma {:induction false} IssuedGrows(c: Context, events: seq<Event>, collect: bool)
    ensures c.issued <= Final(c, events, collect).issued
    decreases |events|
  {
    if events != [] {
      IssuedGrows(Handled(c, events[0], collect), events[1..], collect);
    }
  }
}
