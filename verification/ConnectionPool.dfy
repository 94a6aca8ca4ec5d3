/** The connection pool: at most `maxSize` connections, and a shutdown that closes them, with
    every interleaving of the atomic sections of its operations. */
module ConnectionPool {
  import opened Bytes

  type Cid = nat

  const FIRST_ID: Cid := 1000000

  /** Where the one shutdown is: it has not begun, waits for the lock, walks over the map with the lock
      in hand (`todo` is still to visit), or is done. Connections up to `cut` were made before its walk. */
  datatype Closing = NotBegun | Waiting | Walking(todo: set<Cid>, cut: Cid) | Over(cut: Cid)

  /** `registered` are the keys of the map of weak references, `alive` the connections that still have
      an owner, `closed` those that were told to close. `getters` threads have found the pool open and
      wait for the lock to register; the destructors of `freeing` wait for it to unregister. */
  datatype Pool = Pool(maxSize: nat, down: bool, registered: set<Cid>, alive: set<Cid>, closed: set<Cid>,
                       lastId: Cid, getters: nat, freeing: set<Cid>, closing: Closing)

  function Empty(maxSize: nat): Pool {
    Pool(maxSize, false, {}, {}, {}, FIRST_ID, 0, {}, NotBegun)
  }

  datatype Event =
    | CheckOpen                          // getConnection reads the flag
    | Register                           // ... and, under the lock, makes a connection
    | Release(id: Cid)                   // the last owner lets go; the destructor reads the flag
    | Unregister(id: Cid)                // ... and, under the lock, erases the entry
    | SetDown                            // shutdown exchanges the flag
    | BeginWalk                          // ... takes the lock
    | Visit(id: Cid, last: bool)         // ... closes a connection, perhaps being left its last owner
    | EndWalk                            // ... and releases the lock

  predicate Locked(p: Pool) {
    p.closing.Walking?
  }

  /** One atomic step; an event that cannot happen in a state does nothing. */
  function Step(p: Pool, e: Event): Pool {
    match e
    case CheckOpen => if p.down then p else p.(getters := p.getters + 1)
    case Register =>
      if p.getters == 0 || Locked(p) then p
      else
        var served := p.(getters := p.getters - 1);
        if |p.registered| < p.maxSize then
          var id := p.lastId + 1;
          served.(lastId := id, registered := p.registered + {id}, alive := p.alive + {id})
        else served
    case Release(id) =>
      if id !in p.alive then p
      else p.(alive := p.alive - {id}, freeing := if p.down then p.freeing else p.freeing + {id})
    case Unregister(id) =>
      if id !in p.freeing || Locked(p) then p
      else p.(freeing := p.freeing - {id}, registered := p.registered - {id})
    case SetDown => if p.down then p else p.(down := true, closing := Waiting)
    case BeginWalk => if p.closing.Waiting? then p.(closing := Walking(p.registered, p.lastId)) else p
    case Visit(id, last) =>
      if !Locked(p) || id !in p.closing.todo then p
      else
        var visited := p.(closing := p.closing.(todo := p.closing.todo - {id}));
        if id !in p.alive then visited
        else visited.(closed := p.closed + {id}, alive := if last then p.alive - {id} else p.alive)
    case EndWalk => if Locked(p) && p.closing.todo == {} then p.(closing := Over(p.closing.cut)) else p
  }

  function Run(p: Pool, events: seq<Event>): Pool {
    if events == [] then p else Step(Run(p, events[..|events| - 1]), events[|events| - 1])
  }

  // ---------- safety over all runs ----------

  ghost predicate Inv(p: Pool) {
    && p.alive <= p.registered && |p.registered| <= p.maxSize
    && p.freeing !! p.alive
    && (!p.down ==> p.registered == p.alive + p.freeing)
    && (forall id | id in p.registered :: id <= p.lastId)
    && (forall id | id in p.freeing :: id <= p.lastId)
    && (forall id | id in p.closed :: id <= p.lastId)
    && p.down == !p.closing.NotBegun?
    && (p.closing.Walking? ==>
          && p.closing.todo <= p.registered && p.closing.cut == p.lastId
          && forall id | id in p.alive - p.closing.todo :: id in p.closed)
    && (p.closing.Over? ==>
          && p.closing.cut <= p.lastId
          && forall id | id in p.alive && id <= p.closing.cut :: id in p.closed)
  }

  lemma StepKeepsInv(p: Pool, e: Event)
    requires Inv(p)
    ensures Inv(Step(p, e))
  {
    match e {
      case Register => RegisterKeepsInv(p);
      case Release(id) => ReleaseKeepsInv(p, id);
      case Unregister(id) => UnregisterKeepsInv(p, id);
      case Visit(id, last) => VisitKeepsInv(p, id, last);
      case CheckOpen =>
      case SetDown =>
      case BeginWalk =>
      case EndWalk =>
    }
  }

  lemma RegisterKeepsInv(p: Pool)
    requires Inv(p)
    ensures Inv(Step(p, Register))
  {
    var q, id := Step(p, Register), p.lastId + 1;
    if q.lastId == id {
      assert id !in p.registered;
      assert !p.down ==> q.registered == q.alive + q.freeing;
    }
  }

  lemma ReleaseKeepsInv(p: Pool, id: Cid)
    requires Inv(p)
    ensures Inv(Step(p, Release(id)))
  {
  }

  lemma UnregisterKeepsInv(p: Pool, id: Cid)
    requires Inv(p)
    ensures Inv(Step(p, Unregister(id)))
  {
    Fewer(p.registered - {id}, p.registered);
  }

  lemma VisitKeepsInv(p: Pool, id: Cid, last: bool)
    requires Inv(p)
    ensures Inv(Step(p, Visit(id, last)))
  {
  }

  lemma Fewer(a: set<Cid>, b: set<Cid>)
    requires a <= b
    ensures |a| <= |b|
  {
    assert b == a + (b - a);
  }

  /** While the pool is open, its map holds exactly the live connections and those about to unregister, so
      that a connection's end makes room for another. */
  lemma EndMakesRoom(maxSize: nat, events: seq<Event>, id: Cid)
    requires var p := Run(Empty(maxSize), events); !p.down && id in p.alive
    ensures var p := Run(Empty(maxSize), events);
      var q := Step(Step(p, Release(id)), Unregister(id));
      && p.registered == p.alive + p.freeing
      && q.registered == p.registered - {id} && |q.registered| < maxSize && id !in q.alive && id !in q.freeing
      && Step(Step(q, CheckOpen), Register).alive == q.alive + {p.lastId + 1}
  {
    hide Run, Step, Inv;
    LimitAndShutdown(maxSize, events);
    SameLimit(maxSize, events);
    EndUnregisters(Run(Empty(maxSize), events), id);
  }

  lemma EndUnregisters(p: Pool, id: Cid)
    requires Inv(p) && !p.down && id in p.alive
    ensures var q := Step(Step(p, Release(id)), Unregister(id));
      && p.registered == p.alive + p.freeing
      && q == p.(registered := p.registered - {id}, alive := p.alive - {id}) && |q.registered| < p.maxSize
      && id !in q.freeing
      && Step(Step(q, CheckOpen), Register).alive == q.alive + {p.lastId + 1}
  {
    hide Step;
    var q := p.(registered := p.registered - {id}, alive := p.alive - {id});
    assert p.registered == q.registered + {id};
    assert p.registered == p.alive + p.freeing && |p.registered| <= p.maxSize && id !in p.freeing && !Locked(p);
    hide Inv;
    Unregistered(p, id);
    RegisterOpens(q);
  }

  lemma Unregistered(p: Pool, id: Cid)
    requires !p.down && !Locked(p) && id in p.alive && id !in p.freeing
    ensures Step(Step(p, Release(id)), Unregister(id)) == p.(registered := p.registered - {id}, alive := p.alive - {id})
  {
    assert p.freeing + {id} - {id} == p.freeing;
  }

  lemma RegisterOpens(p: Pool)
    requires !p.down && !Locked(p) && |p.registered| < p.maxSize
    ensures Step(Step(p, CheckOpen), Register).alive == p.alive + {p.lastId + 1}
  {
  }

  /** In every interleaving, also of those that race with a shutdown, the live connections never
      exceed `maxSize`; and once a shutdown is over, every live connection that was registered
      when it took the lock has been closed. */
  lemma {:induction false} LimitAndShutdown(maxSize: nat, events: seq<Event>)
    ensures var p := Run(Empty(maxSize), events);
      && Inv(p)
      && |p.alive| <= maxSize
      && (p.closing.Over? ==> forall id | id in p.alive && id <= p.closing.cut :: id in p.closed)
    decreases |events|
  {
    if events != [] {
      var before := Run(Empty(maxSize), events[..|events| - 1]);
      LimitAndShutdown(maxSize, events[..|events| - 1]);
      StepKeepsInv(before, events[|events| - 1]);
    }
    var p := Run(Empty(maxSize), events);
    Fewer(p.alive, p.registered);
    SameLimit(maxSize, events);
  }

  lemma {:induction false} SameLimit(maxSize: nat, events: seq<Event>)
    ensures Run(Empty(maxSize), events).maxSize == maxSize
    decreases |events|
  {
    if events != [] {
      SameLimit(maxSize, events[..|events| - 1]);
    }
  }

  /** While the shutdown walks over the map, no step of any thread alters the map: registering and
      unregistering need the lock, and a connection that dies in the walk does not unregister. */
  lemma WalkSeesOneMap(p: Pool, e: Event)
    requires Inv(p) && Locked(p)
    ensures Step(p, e).registered == p.registered
    ensures e.Visit? ==> Step(p, e).freeing == p.freeing
  {
  }

  /** After the flag is set no thread finds the pool open: at most as many connections are made as
      threads had found it open before. */
  lemma {:induction false} OnlyRacersRegister(p: Pool, events: seq<Event>)
    requires p.down
    ensures var q := Run(p, events);
      q.down && q.lastId + q.getters <= p.lastId + p.getters
    decreases |events|
  {
    if events != [] {
      OnlyRacersRegister(p, events[..|events| - 1]);
    }
  }

  /** A shutdown that is over has closed every live connection. */
  ghost predicate NoneEscapes(p: Pool) {
    forall events :: var q := Run(p, events); q.closing.Over? ==> q.alive <= q.closed
  }

  /** No thread that has found the pool open can still register a connection: there is none, or the
      entries that stay in the map fill it. */
  predicate Tight(p: Pool) {
    p.getters == 0 || |p.registered - p.freeing| >= p.maxSize
  }

  /** What a tight pool keeps when its flag is set. */
  ghost predicate Sealed(p: Pool, q: Pool) {
    && Inv(q) && q.down && q.lastId == p.lastId && q.maxSize == p.maxSize
    && (p.getters == 0 ==> q.getters == 0)
    && p.registered - p.freeing <= q.registered && p.registered - p.freeing !! q.freeing
    && (q.closing.Over? ==> q.closing.cut == q.lastId)
  }

  lemma StaysSealed(p: Pool, q: Pool, e: Event)
    requires Tight(p) && Sealed(p, q)
    ensures Sealed(p, Step(q, e))
  {
    hide Inv;
    StepKeepsInv(q, e);
    CutAtWalk(q);
    if e.Register? {
      Fewer(p.registered - p.freeing, q.registered);
    }
  }

  lemma CutAtWalk(q: Pool)
    requires Inv(q)
    ensures q.closing.Walking? ==> q.closing.cut == q.lastId
  {
  }

  lemma {:induction false} RunStaysSealed(p: Pool, q: Pool, events: seq<Event>)
    requires Tight(p) && Sealed(p, q)
    ensures Sealed(p, Run(q, events))
    decreases |events|
  {
    if events != [] {
      RunStaysSealed(p, q, events[..|events| - 1]);
      StaysSealed(p, Run(q, events[..|events| - 1]), events[|events| - 1]);
    }
  }

  lemma {:induction false} RunConcat(p: Pool, a: seq<Event>, b: seq<Event>)
    ensures Run(p, a + b) == Run(Run(p, a), b)
    decreases |b|
  {
    if b == [] {
      assert a + b == a;
    } else {
      var n := |b| - 1;
      assert (a + b)[..|a| + n] == a + b[..n];
      RunConcat(p, a, b[..n]);
    }
  }

  lemma RunOne(p: Pool, e: Event)
    ensures Run(p, [e]) == Step(p, e)
  {
    assert [e][..0] == [];
  }

  /** All destructors that wait for the lock take their turns. */
  lemma Drain(q: Pool) returns (events: seq<Event>)
    requires !Locked(q)
    ensures Run(q, events) == q.(freeing := {}, registered := q.registered - q.freeing)
    decreases |q.freeing|
  {
    if q.freeing == {} {
      events := [];
      assert q.registered - q.freeing == q.registered;
    } else {
      var id :| id in q.freeing;
      var next := Step(q, Unregister(id));
      assert q.freeing == next.freeing + {id};
      var rest := Drain(next);
      events := [Unregister(id)] + rest;
      RunOne(q, Unregister(id));
      RunConcat(q, [Unregister(id)], rest);
      assert next.registered - next.freeing == q.registered - q.freeing;
    }
  }

  /** A walk that leaves no connection without an owner. */
  lemma WalkAll(q: Pool) returns (events: seq<Event>)
    requires Locked(q)
    ensures Run(q, events) == q.(closing := Walking({}, q.closing.cut), closed := q.closed + (q.alive * q.closing.todo))
    decreases if Locked(q) then |q.closing.todo| else 0
  {
    if q.closing.todo == {} {
      events := [];
      assert q.closed + (q.alive * q.closing.todo) == q.closed;
    } else {
      var id :| id in q.closing.todo;
      var next := Step(q, Visit(id, false));
      assert q.closing.todo == next.closing.todo + {id};
      var rest := WalkAll(next);
      events := [Visit(id, false)] + rest;
      RunOne(q, Visit(id, false));
      RunConcat(q, [Visit(id, false)], rest);
      assert next.closed + (next.alive * next.closing.todo) == q.closed + (q.alive * q.closing.todo);
    }
  }

  /** The rest of a shutdown. */
  lemma ShutsDown(q: Pool) returns (events: seq<Event>)
    requires q.closing.Waiting?
    ensures Run(q, events) == q.(closing := Over(q.lastId), closed := q.closed + (q.alive * q.registered))
  {
    hide Run;
    var walking := Step(q, BeginWalk);
    var visits := WalkAll(walking);
    events := [BeginWalk] + visits + [EndWalk];
    RunOne(q, BeginWalk);
    RunConcat(q, [BeginWalk], visits);
    RunOne(Run(walking, visits), EndWalk);
    RunConcat(q, [BeginWalk] + visits, [EndWalk]);
  }

  /** If the pool is not tight, its destructors may run, the shutdown too, and then a connection that
      is never closed registers. */
  lemma OneEscapes(p: Pool) returns (events: seq<Event>)
    requires Inv(p) && !p.down && !Tight(p)
    ensures var q := Run(Step(p, SetDown), events);
      q.closing.Over? && p.lastId + 1 in q.alive && p.lastId + 1 !in q.closed
  {
    hide Run;
    var down := Step(p, SetDown);
    var a := Drain(down);
    var drained := down.(freeing := {}, registered := down.registered - down.freeing);
    var b := ShutsDown(drained);
    var over := drained.(closing := Over(down.lastId), closed := down.closed + (down.alive * drained.registered));
    events := a + b + [Register];
    RunConcat(down, a, b);
    RunOne(over, Register);
    RunConcat(down, a + b, [Register]);
  }

  /** Every shutdown that begins now closes every live connection, whatever races with it, if and only
      if no thread that has found the pool open can still register. */
  lemma ShutdownClosesAll(p: Pool)
    requires Inv(p) && !p.down
    ensures NoneEscapes(Step(p, SetDown)) <==> Tight(p)
  {
    var down := Step(p, SetDown);
    if Tight(p) {
      forall events | Run(down, events).closing.Over?
        ensures Run(down, events).alive <= Run(down, events).closed
      {
        RunStaysSealed(p, down, events);
      }
    } else {
      var events := OneEscapes(p);
      assert !(Run(down, events).alive <= Run(down, events).closed);
    }
  }

  /** A racing connection that escapes the shutdown: it is alive and never closed. */
  lemma RacerEscapes()
    ensures var p := Run(Empty(200), [CheckOpen, SetDown, BeginWalk, EndWalk, Register]);
      p.closing.Over? && p.alive == {FIRST_ID + 1} && p.closed == {}
  {
    var p0, e := Empty(200), [CheckOpen, SetDown, BeginWalk, EndWalk, Register];
    assert Run(p0, e[..0]) == p0;
    RunSnoc(p0, e, 0);
    RunSnoc(p0, e, 1);
    RunSnoc(p0, e, 2);
    assert Run(p0, e[..3]).closing == Walking({}, FIRST_ID);
    RunSnoc(p0, e, 3);
    RunSnoc(p0, e, 4);
    assert e[..5] == e;
  }

  lemma RunSnoc(p: Pool, events: seq<Event>, i: nat)
    requires i < |events|
    ensures Run(p, events[..i + 1]) == Step(Run(p, events[..i]), events[i])
  {
    assert events[..i + 1][..i] == events[..i];
  }

  // ---------- the pool as the program runs it: one method for each atomic section ----------

  class ConnectionPool {
    var maxSize: nat
    var fshutdown: bool
    var connections: set<Cid>
    // The connections themselves and the threads inside the operations.
    var alive: set<Cid>
    var closed: set<Cid>
    var lastId: Cid
    var getters: nat
    var freeing: set<Cid>
    var closing: Closing

    ghost function Value(): Pool
      reads this
    {
      Pool(maxSize, fshutdown, connections, alive, closed, lastId, getters, freeing, closing)
    }

    constructor (maxSize: nat)
      ensures Value() == Empty(maxSize)
    {
      this.maxSize, fshutdown, connections := maxSize, false, {};
      alive, closed, lastId, getters, freeing, closing := {}, {}, FIRST_ID, 0, {}, NotBegun;
    }

    /** The beginning of `getConnection`: no connection once the pool is shut down. */
    method GetConnectionBegins() returns (open: bool)
      modifies this
      ensures Value() == Step(old(Value()), CheckOpen) && open == !fshutdown
    {
      if fshutdown {
        return false;
      }
      getters := getters + 1;
      return true;
    }

    /** Its rest, under the lock. */
    method GetConnection() returns (connection: Option<Cid>)
      requires getters > 0 && !closing.Walking?
      modifies this
      ensures Value() == Step(old(Value()), Register)
      ensures connection.Some? == (|old(connections)| < maxSize)
      ensures connection.Some? ==> connection.value in alive * connections && connection.value > old(lastId)
    {
      getters := getters - 1;
      connection := None;
      if |connections| < maxSize {
        lastId := lastId + 1;
        alive := alive + {lastId};
        connections := connections + {lastId};
        connection := Some(lastId);
      }
    }

    /** The destructor of a connection calls `freeConnection`, which begins with the flag. */
    method FreeConnectionBegins(id: Cid)
      requires id in alive
      modifies this
      ensures Value() == Step(old(Value()), Release(id))
    {
      alive := alive - {id};
      if fshutdown {
        return;
      }
      freeing := freeing + {id};
    }

    method FreeConnection(id: Cid) returns (found: bool)
      requires id in freeing && !closing.Walking?
      modifies this
      ensures Value() == Step(old(Value()), Unregister(id))
      ensures found == (id in old(connections))
    {
      freeing := freeing - {id};
      found := id in connections;
      if found {
        connections := connections - {id};
      }
    }

    method ShutdownBegins() returns (first: bool)
      modifies this
      ensures Value() == Step(old(Value()), SetDown) && first == !old(fshutdown)
    {
      first := !fshutdown;
      fshutdown := true;
      if first {
        closing := Waiting;
      }
    }

    /** The walk, with the lock in hand; `last` lists the connections whose other owners let go while
        the walk holds them. */
    method Shutdown(last: set<Cid>)
      requires Inv(Value()) && closing.Waiting?
      modifies this
      ensures Inv(Value()) && closing == Over(lastId) && lastId == old(lastId)
      ensures connections == old(connections) && freeing == old(freeing)
      ensures closed == old(closed) + old(alive) && alive == old(alive) - last
    {
      hide Inv, Step;
      ghost var now := Value();
      LiveAreRegistered(now);
      StepKeepsInv(now, BeginWalk);
      BeginsWalk(now);
      closing := Walking(connections, lastId);
      var todo := connections;
      while todo != {}
        invariant todo <= connections
        invariant Inv(Value()) && closing == Walking(todo, lastId) && lastId == old(lastId)
        invariant connections == old(connections) && freeing == old(freeing) && fshutdown
        invariant closed == old(closed) + (old(alive) - todo)
        invariant alive == old(alive) - (last - todo)
        decreases todo
      {
        var id :| id in todo;
        now := Value();
        StepKeepsInv(now, Visit(id, id in last));
        Visits(now, id, id in last);
        todo := todo - {id};
        closing := Walking(todo, lastId);
        if id in alive {
          closed := closed + {id};
          if id in last {
            alive := alive - {id};
          }
        }
        assert Value() == Step(now, Visit(id, id in last));
      }
      now := Value();
      StepKeepsInv(now, EndWalk);
      EndsWalk(now);
      closing := Over(lastId);
    }
  }

  lemma LiveAreRegistered(p: Pool)
    requires Inv(p)
    ensures p.alive <= p.registered && (p.closing.Waiting? ==> p.down)
  {
  }

  lemma BeginsWalk(p: Pool)
    requires p.closing.Waiting?
    ensures Step(p, BeginWalk) == p.(closing := Walking(p.registered, p.lastId))
  {
  }

  lemma Visits(p: Pool, id: Cid, last: bool)
    requires p.closing.Walking? && id in p.closing.todo
    ensures Step(p, Visit(id, last)) ==
            p.(closing := Walking(p.closing.todo - {id}, p.closing.cut),
               closed := if id in p.alive then p.closed + {id} else p.closed,
               alive := if id in p.alive && last then p.alive - {id} else p.alive)
  {
  }

  lemma EndsWalk(p: Pool)
    requires p.closing.Walking? && p.closing.todo == {}
    ensures Step(p, EndWalk) == p.(closing := Over(p.closing.cut))
  {
  }
}
