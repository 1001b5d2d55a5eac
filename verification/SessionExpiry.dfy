/** How long a session lives, in milliseconds. */
module SessionExpiry {
  import opened Basics
  import opened Sessions

  /** If no collection is due and the clock has not gone back, a valid session in the table is returned exactly while
      its interval is negative or has not passed; otherwise it is dropped, and a new one is made if that was asked. */
  lemma ReturnedExactly(c: Context, id: Id, create: bool, times: Times)
    requires id in c.table && !c.table[id].invalidated
    requires c.table[id].last <= times.access && times.now - c.lastGarb <= 600000
    ensures var s, r := c.table[id], GetSession(c, Some(id), create, times, true);
      r == if s.interval < 0 || times.access - s.last < 1000 * s.interval then
             var t := s.(previous := s.last, last := times.access, isNew := false);
             Outcome(c.(table := c.table[id := t]), Some(t))
           else if create then
             var newId := IdOf(c.base, c.issued);
             var t := Session(newId, times.create, times.create, times.create, true, false, 3600, {});
             Outcome(c.(table := (c.table - {id})[newId := t], issued := c.issued + 1), Some(t))
           else Outcome(c.(table := c.table - {id}), None)
  {
    hide IdOf;
  }

  /** A session that was invalidated is dropped whenever it is asked for. */
  lemma InvalidIsDropped(c: Context, id: Id, times: Times, collect: bool)
    requires id in c.table
    ensures var d := Handled(c, Invalidate(id), collect);
      && d == c.(table := c.table[id := c.table[id].(invalidated := true, names := {})])
      && GetSession(d, Some(id), false, times, collect).session == None
      && id !in GetSession(d, Some(id), false, times, collect).context.table
  {}

  /** An access with the clock set back by less than a second ends a session of interval 0; any longer interval
      goes on. */
  lemma ClockSetBack(c: Context, id: Id, times: Times)
    requires id in c.table && !c.table[id].invalidated && c.table[id].interval >= 0
    requires times.access < c.table[id].last && times.now - c.lastGarb <= 600000
    ensures var s := c.table[id];
      GetSession(c, Some(id), false, times, true).session == None
      <==> s.interval == 0 && s.last - times.access < 1000
  {}

  // The time at which a collection looks at a session.
  function SeenAt(times: Times, id: Id): int
  {
    if times.now == 0 then times.again(id) else times.now
  }

  /** A collection is made when the last one is more than ten minutes past; it removes exactly the sessions that
      are invalid or whose interval has passed. */
  lemma CollectedExactly(c: Context, times: Times)
    requires forall k <- c.table :: c.table[k].last <= SeenAt(times, k)
    ensures var d := GetSession(c, None, false, times, true).context;
      if times.now - c.lastGarb <= 600000 then d == c
      else
        && d.base == c.base && d.issued == c.issued && d.lastGarb == times.now
        && (forall k :: k in d.table <==>
              && k in c.table && !c.table[k].invalidated
              && (c.table[k].interval < 0 || SeenAt(times, k) - c.table[k].last < 1000 * c.table[k].interval))
        && (forall k <- d.table :: k in c.table && d.table[k] == c.table[k])
  {}

  /** A new session is returned for an hour after it was made and not later, with collections or without. */
  lemma NewSessionLives(c: Context, times: Times, later: Times, collect: bool)
    requires InOrder(later, times.create)
    ensures var made := GetSession(c, None, true, times, collect);
      && made.session.Some?
      && var r := GetSession(made.context, Some(made.session.value.id), false, later, collect);
      && (r.session.Some? <==> later.access - times.create < 3600000)
      && (r.session.Some? ==> r.session.value.id == made.session.value.id && r.session.value.created == times.create)
  {
    hide IdOf;
    var made := GetSession(c, None, true, times, collect);
    var id := made.session.value.id;
    if collect {
      CollectedLater(made.context, id, later);
    }
  }

  lemma CollectedLater(c: Context, id: Id, times: Times)
    requires id in c.table && !c.table[id].invalidated && c.table[id].interval == 3600
    requires InOrder(times, c.table[id].last)
    ensures id in Collected(c, times).table ==> Collected(c, times).table[id] == c.table[id]
    ensures id !in Collected(c, times).table ==> times.access - c.table[id].last >= 3600000
  {}

  /** After a change of its interval the session lives as long as the new one says. */
  lemma IntervalCounts(c: Context, id: Id, n: int, times: Times)
    requires id in c.table && !c.table[id].invalidated
    requires c.table[id].last <= times.access && times.now - c.lastGarb <= 600000
    ensures var d := Handled(c, SetInterval(id, n), true);
      GetSession(d, Some(id), false, times, true).session.Some? <==> n < 0 || times.access - c.table[id].last < 1000 * n
  {
    ReturnedExactly(Handled(c, SetInterval(id, n), true), id, false, times);
  }
}
