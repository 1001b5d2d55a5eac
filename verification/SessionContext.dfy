/** The session classes, which update their fields in place. */
module SessionContext {
  import opened Basics
  import opened JavaText
  import opened Sessions

  class IDGenerator {
    const base: Text
    // Steps taken so far; the counter itself is Wrapped(steps).
    var steps: nat

    constructor (base: Text)
      ensures this.base == base && steps == 0
    {
      this.base, steps := base, 0;
    }

    method Generate() returns (id: Id)
      modifies this`steps
      ensures id == IdOf(base, old(steps)) && steps == old(steps) + 1
    {
      id := base + IntText(Wrapped(steps));
      steps := steps + 1;
    }
  }

  class CaudiumSession {
    const id: Id
    const creationTime: int
    var lastAccessedTime: int
    var previousAccessedTime: int
    var isNew: bool
    var invalidated: bool
    var maxInactiveInterval: int
    var names: set<Text>

    ghost function Value(): Session
      reads this
    {
      Session(id, creationTime, lastAccessedTime, previousAccessedTime, isNew, invalidated, maxInactiveInterval, names)
    }

    constructor (id: Id, now: int)
      ensures Value() == NewSession(id, now)
    {
      this.id, creationTime, lastAccessedTime, previousAccessedTime := id, now, now, now;
      isNew, invalidated, maxInactiveInterval, names := true, false, 3600, {};
    }

    // `again` is the clock, in case the caller gives no time.
    method IsInvalidOrExpired(now: int, again: int) returns (b: bool)
      ensures b == Dead(Value(), if now == 0 then again else now)
    {
      var time := if now == 0 then again else now;
      b := invalidated || (maxInactiveInterval >= 0 && Seconds(time - lastAccessedTime) >= maxInactiveInterval);
    }

    method Access(now: int) returns (ok: bool)
      modifies this
      ensures (Value(), ok) == Accessed(old(Value()), now)
    {
      if invalidated {
        return false;
      }
      previousAccessedTime := lastAccessedTime;
      lastAccessedTime := now;
      if maxInactiveInterval >= 0 && Seconds(lastAccessedTime - previousAccessedTime) >= maxInactiveInterval {
        return false;
      }
      isNew := false;
      ok := true;
    }

    // Throws if the session is invalid already.
    method Invalidate() returns (threw: bool)
      modifies this
      ensures threw == old(invalidated) && Value() == if threw then old(Value()) else Invalidated(old(Value()))
    {
      if invalidated {
        return true;
      }
      invalidated := true;
      names := {};
      threw := false;
    }

    method SetMaxInactiveInterval(interval: int)
      modifies this
      ensures Value() == old(Value()).(interval := interval)
    {
      maxInactiveInterval := interval;
    }
  }

  class CaudiumSessionContext {
    var sessions: map<Id, CaudiumSession>
    var lastGarbTime: int
    const generator: IDGenerator

    // Each key is the identifier of its session.
    ghost predicate Valid()
      reads this, sessions.Values
    {
      forall k <- sessions :: sessions[k].id == k
    }

    ghost function Table(): map<Id, Session>
      reads this`sessions, sessions.Values
    {
      map k | k in sessions :: sessions[k].Value()
    }

    ghost function State(): Context
      reads this, sessions.Values, generator
    {
      Context(Table(), lastGarbTime, generator.base, generator.steps)
    }

    constructor (generator: IDGenerator, now: int)
      ensures Valid() && State() == Context(map[], now, generator.base, generator.steps) && this.generator == generator
    {
      sessions, lastGarbTime, this.generator := map[], now, generator;
    }

    // A session that was in the table is still there, or it is invalid.
    ghost predicate KeptOrInvalid(k: Id, was: CaudiumSession)
      reads this, was
    {
      (k in sessions && sessions[k] == was) || was.invalidated
    }

    // Takes a session off the table; it is invalidated unless it was invalid already, so that this never throws.
    method Drop(k: Id) returns (threw: bool)
      requires Valid() && k in sessions
      modifies this`sessions, sessions[k]
      ensures !threw && Valid() && sessions == old(sessions) - {k} && old(sessions)[k].invalidated
      ensures Table() == old(Table()) - {k}
    {
      threw := false;
      var session := sessions[k];
      sessions := sessions - {k};
      if !session.invalidated {
        threw := session.Invalidate();
      }
      TableWithout(k);
    }

    twostate lemma TableWithout(k: Id)
      requires old(Valid()) && k in old(sessions) && sessions == old(sessions) - {k}
      requires forall j <- sessions :: sessions[j].Value() == old(sessions[j].Value())
      ensures Table() == old(Table()) - {k}
    {}

    // What is in the table was there before, and what was there and is not any more is invalid.
    ghost predicate Descends(first: map<Id, CaudiumSession>)
      reads this, first.Values
    {
      && (forall k <- sessions :: k in first && sessions[k] == first[k])
      && (forall k <- first :: first[k].id == k && (k in sessions || first[k].invalidated))
    }

    method CollectOne(garbId: Id, times: Times, ghost first: map<Id, CaudiumSession>) returns (threw: bool)
      requires Valid() && garbId in sessions && Descends(first)
      modifies this`sessions, sessions[garbId]
      ensures !threw && Valid() && Descends(first) && sessions.Keys >= old(sessions).Keys - {garbId}
      ensures Table() == if Dead(old(Table())[garbId], CheckTime(times, garbId)) then old(Table()) - {garbId}
                         else old(Table())
    {
      hide Dead;
      var dead := sessions[garbId].IsInvalidOrExpired(times.now, times.again(garbId));
      threw := false;
      if dead {
        threw := Drop(garbId);
      }
    }

    method CollectAll(times: Times) returns (threw: bool)
      requires Valid()
      modifies this`sessions, sessions.Values
      ensures !threw && Valid()
      ensures Purging(Table(), old(Table()), {}, times) && Descends(old(sessions))
    {
      var todo := sessions.Keys;
      ghost var first, was := sessions, Table();
      assert was.Keys == todo;
      PurgingStart(was, times);
      assert Descends(first);
      hide *;
      threw := false;
      while todo != {} && !threw
        invariant !threw && Valid() && todo <= sessions.Keys
        invariant Purging(Table(), was, todo, times) && Descends(first)
        decreases |todo|
      {
        var garbId :| garbId in todo;
        TableHas(garbId, first);
        PurgingStep(Table(), was, todo, garbId, times);
        threw := CollectOne(garbId, times, first);
        todo := todo - {garbId};
      }
    }

    lemma TableHas(k: Id, first: map<Id, CaudiumSession>)
      requires k in sessions && Descends(first)
      ensures k in Table() && sessions[k] in first.Values
    {}

    method Collect(times: Times) returns (threw: bool)
      requires Valid()
      modifies this`sessions, this`lastGarbTime, sessions.Values
      ensures !threw && Valid() && State() == Collected(old(State()), times)
      ensures forall k <- old(sessions) :: KeptOrInvalid(k, old(sessions)[k])
      ensures forall k <- sessions :: k in old(sessions) && sessions[k] == old(sessions)[k]
    {
      hide Dead, Purging, Table;
      ghost var start := State();
      if times.now - lastGarbTime <= GARB_INTERVAL * 1000 {
        assert Collected(start, times) == start;
        return false;
      }
      lastGarbTime := times.now;
      threw := CollectAll(times);
      TableCollected(Table(), start, times);
    }

    // The session under a key if it may be used; otherwise it is dropped.
    method Lookup(k: Id, now: int) returns (r: CaudiumSession?, threw: bool)
      requires Valid() && k in sessions
      modifies this`sessions, sessions[k]
      ensures !threw && Valid()
      ensures var (s, ok) := Accessed(old(sessions[k].Value()), now);
        if ok then
          r == old(sessions)[k] && r.Value() == s && sessions == old(sessions) && Table() == old(Table())[k := s]
        else
          && r == null && sessions == old(sessions) - {k} && Table() == old(Table()) - {k}
          && old(sessions)[k].invalidated
    {
      hide Accessed;
      var session := sessions[k];
      var ok := session.Access(now);
      if ok {
        return session, false;
      }
      threw := Drop(k);
      r := null;
    }

    method Create(now: int) returns (r: CaudiumSession)
      requires Valid()
      modifies this`sessions, generator`steps
      ensures Valid() && fresh(r) && r.Value() == NewSession(IdOf(generator.base, old(generator.steps)), now)
      ensures generator.steps == old(generator.steps) + 1
      ensures sessions == old(sessions)[r.id := r] && Table() == old(Table())[r.id := r.Value()]
    {
      hide IdOf;
      var newId := generator.Generate();
      r := new CaudiumSession(newId, now);
      sessions := sessions[newId := r];
    }

    // What follows the collection.
    method Find(id: Option<Id>, create: bool, times: Times) returns (r: CaudiumSession?, threw: bool)
      requires Valid()
      modifies this`sessions, sessions.Values, generator`steps
      ensures !threw && Valid()
      ensures Outcome(State(), if r == null then None else Some(r.Value())) == Found(old(State()), id, create, times)
      ensures r != null ==> r.id in sessions && sessions[r.id] == r
      ensures r == null || fresh(r) || (id == Some(r.id) && r.id in old(sessions) && r == old(sessions)[r.id])
      ensures forall k <- old(sessions) ::
        KeptOrInvalid(k, old(sessions)[k]) || (create && k == IdOf(generator.base, old(generator.steps)))
    {
      hide Accessed, IdOf, Found, NewSession, Made;
      ghost var start := State();
      FoundCases(start, id, create, times);
      MadeCases(start, create, times.create);
      r, threw := null, false;
      if id != None && id.value in sessions {
        MadeCases(start.(table := start.table - {id.value}), create, times.create);
        r, threw := Lookup(id.value, times.access);
        if r != null || threw {
          return;
        }
      }
      if create {
        r := Create(times.create);
      }
    }

    /** getSession: the state changes as specified. The exception of a session that is invalidated twice
        would reach the caller, and never does. */
    method Get(id: Option<Id>, create: bool, times: Times) returns (r: CaudiumSession?, threw: bool)
      requires Valid()
      modifies this`sessions, this`lastGarbTime, sessions.Values, generator`steps
      ensures !threw && Valid()
      ensures Outcome(State(), if r == null then None else Some(r.Value()))
           == GetSession(old(State()), id, create, times, true)
      ensures r != null ==> r.id in sessions && sessions[r.id] == r
      ensures r == null || fresh(r) || (id == Some(r.id) && r.id in old(sessions) && r == old(sessions)[r.id])
      ensures forall k <- old(sessions) ::
        KeptOrInvalid(k, old(sessions)[k]) || (create && k == IdOf(generator.base, old(generator.steps)))
    {
      hide Collected, Found, IdOf;
      r := null;
      threw := Collect(times);
      if !threw {
        r, threw := Find(id, create, times);
      }
    }
  }

  // A table on its way to the collected one, with some keys left to look at.
  ghost predicate Purging(table: map<Id, Session>, was: map<Id, Session>, todo: set<Id>, times: Times)
  {
    && table.Keys <= was.Keys
    && (forall k <- table :: table[k] == was[k])
    && (forall k <- was :: if k in todo then k in table else k in table <==> !Dead(was[k], CheckTime(times, k)))
  }

  lemma PurgingStart(was: map<Id, Session>, times: Times)
    ensures Purging(was, was, was.Keys, times)
  {}

  lemma PurgingStep(table: map<Id, Session>, was: map<Id, Session>, todo: set<Id>, k: Id, times: Times)
    requires Purging(table, was, todo, times) && k in todo && k in table
    ensures Purging(if Dead(table[k], CheckTime(times, k)) then table - {k} else table, was, todo - {k}, times)
  {}

  lemma TableCollected(table: map<Id, Session>, c: Context, times: Times)
    requires Purging(table, c.table, {}, times) && CollectionDue(c, times.now)
    ensures Collected(c, times) == c.(lastGarb := times.now, table := table)
  {
    hide Dead;
    assert table == Collected(c, times).table;
  }

  lemma FoundCases(c: Context, id: Option<Id>, create: bool, times: Times)
    ensures id.None? || id.value !in c.table ==> Found(c, id, create, times) == Made(c, create, times.create)
    ensures id.Some? && id.value in c.table ==>
      var (s, ok) := Accessed(c.table[id.value], times.access);
      Found(c, id, create, times)
      == if ok then Outcome(c.(table := c.table[id.value := s]), Some(s))
         else Made(c.(table := c.table - {id.value}), create, times.create)
  {
    hide Accessed, Made;
  }

  lemma MadeCases(c: Context, create: bool, now: int)
    ensures !create ==> Made(c, create, now) == Outcome(c, None)
    ensures create ==>
      var id := IdOf(c.base, c.issued);
      var s := NewSession(id, now);
      s.id == id && Made(c, create, now) == Outcome(c.(table := c.table[id := s], issued := c.issued + 1), Some(s))
  {
    hide IdOf;
  }
}
