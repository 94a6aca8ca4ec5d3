/** The live-capture grabber: a bounded number of capture servers, a shutdown that waits for the last
    of them, and the table of sniffers that captures share. */
module LiveCapture {
  import opened Bytes

  type Sid = nat

  /** The one thread in `shutdown`: not there, asleep on the condition, woken, or gone. */
  datatype Waiter = Away | Asleep | Woken | Gone

  /** Servers that were opened and not yet destroyed: `opening` are counted but not yet connected to
      the grabber, `serving` are, and the destructors of `ending` wait to report their end. */
  datatype Grabber = Grabber(limit: nat, captures: int, opening: set<Sid>, serving: set<Sid>,
                             ending: set<Sid>, lastId: Sid, waiter: Waiter)

  function Fresh(limit: nat): Grabber {
    Grabber(limit, 0, {}, {}, {}, 0, Away)
  }

  datatype Event =
    | Open(created: bool)      // the locked section of open, in which the server may fail to start
    | Connect(id: Sid)         // its end connects the server's termination to the grabber
    | Destroy(id: Sid)         // the last owner of a server lets go
    | Terminated(id: Sid)      // ... and the server's destructor reports, under the lock
    | ShutDown                 // shutdown takes the lock and looks at the counter
    | Wake                     // ... and looks again, notified or not

  function Look(g: Grabber): Grabber {
    g.(waiter := if g.captures == 0 then Gone else Asleep)
  }

  /** One atomic step. While the grabber is being destroyed nobody can open a capture. */
  function Step(g: Grabber, e: Event): Grabber {
    match e
    case Open(created) =>
      if g.captures >= g.limit || !created || g.waiter != Away then g
      else
        var id := g.lastId + 1;
        g.(captures := g.captures + 1, lastId := id, opening := g.opening + {id})
    case Connect(id) =>
      if id in g.opening then g.(opening := g.opening - {id}, serving := g.serving + {id}) else g
    case Destroy(id) =>
      if id in g.serving then g.(serving := g.serving - {id}, ending := g.ending + {id}) else g
    case Terminated(id) =>
      if id !in g.ending then g
      else
        var left := g.(captures := g.captures - 1, ending := g.ending - {id});
        if left.captures == 0 && left.waiter == Asleep then left.(waiter := Woken) else left
    case ShutDown => if g.waiter == Away then Look(g) else g
    case Wake => if g.waiter == Asleep || g.waiter == Woken then Look(g) else g
  }

  function Run(g: Grabber, events: seq<Event>): Grabber {
    if events == [] then g else Step(Run(g, events[..|events| - 1]), events[|events| - 1])
  }

  /** The counter counts the servers opened and not yet destroyed, stays within the limit, and no
      wake-up is lost: whoever sleeps has something to wait for. */
  ghost predicate Inv(g: Grabber) {
    && g.captures == |g.opening| + |g.serving| + |g.ending| <= g.limit
    && g.opening !! g.serving && g.opening !! g.ending && g.serving !! g.ending
    && (forall id | id in g.opening :: id <= g.lastId)
    && (forall id | id in g.serving :: id <= g.lastId)
    && (forall id | id in g.ending :: id <= g.lastId)
    && (g.waiter == Asleep ==> g.captures > 0)
    && (g.waiter == Gone ==> g.captures == 0)
  }

  lemma StepKeepsInv(g: Grabber, e: Event)
    requires Inv(g)
    ensures Inv(Step(g, e))
  {
    match e {
      case Open(created) => OpenKeepsInv(g, created);
      case Connect(id) => ConnectKeepsInv(g, id);
      case Destroy(id) => DestroyKeepsInv(g, id);
      case Terminated(id) => TerminatedKeepsInv(g, id);
      case ShutDown =>
      case Wake =>
    }
  }

  lemma OpenKeepsInv(g: Grabber, created: bool)
    requires Inv(g)
    ensures Inv(Step(g, Open(created)))
  {
    Moves({}, g.opening, g.lastId + 1);
  }

  lemma ConnectKeepsInv(g: Grabber, id: Sid)
    requires Inv(g)
    ensures Inv(Step(g, Connect(id)))
  {
    Moves(g.opening, g.serving, id);
  }

  lemma DestroyKeepsInv(g: Grabber, id: Sid)
    requires Inv(g)
    ensures Inv(Step(g, Destroy(id)))
  {
    Moves(g.serving, g.ending, id);
  }

  lemma TerminatedKeepsInv(g: Grabber, id: Sid)
    requires Inv(g)
    ensures Inv(Step(g, Terminated(id)))
  {
    Moves(g.ending, {}, id);
  }

  lemma Moves(from: set<Sid>, to: set<Sid>, id: Sid)
    ensures id in from ==> |from - {id}| == |from| - 1
    ensures id !in to ==> |to + {id}| == |to| + 1
  {
  }

  /** In every interleaving the counter equals the number of servers opened and not yet destroyed and
      never exceeds the limit, and a shutdown that has returned has left no server behind. */
  lemma {:induction false} CountedAndLimited(limit: nat, events: seq<Event>)
    ensures var g := Run(Fresh(limit), events);
      && Inv(g) && g.limit == limit
      && 0 <= g.captures <= limit
      && (g.waiter == Gone ==> g.opening == {} && g.serving == {} && g.ending == {})
    decreases |events|
  {
    if events != [] {
      var before := Run(Fresh(limit), events[..|events| - 1]);
      CountedAndLimited(limit, events[..|events| - 1]);
      StepKeepsInv(before, events[|events| - 1]);
    }
  }

  /** A shutdown that waits is let go by the last server: when nothing is left to destroy, the waiter
      is not asleep, and its next look at the counter lets it return. */
  lemma LastServerLetsGo(limit: nat, events: seq<Event>)
    requires var g := Run(Fresh(limit), events);
      g.waiter != Away && g.opening == {} && g.serving == {} && g.ending == {}
    ensures var g := Run(Fresh(limit), events);
      g.waiter != Asleep && Step(g, Wake).waiter == Gone
  {
    CountedAndLimited(limit, events);
  }

  /** Once returned, a shutdown stays returned, at zero. */
  lemma {:induction false} GoneIsFinal(g: Grabber, events: seq<Event>)
    requires Inv(g) && g.waiter == Gone
    ensures Run(g, events) == g
    decreases |events|
  {
    if events != [] {
      GoneIsFinal(g, events[..|events| - 1]);
    }
  }

  /** A server's life: opened, connected, destroyed and reported, it leaves the grabber as it was, but for the
      notification that the last one gives. */
  lemma ServerLife(g: Grabber)
    requires Inv(g) && g.waiter == Away && g.captures < g.limit
    ensures var id, one := g.lastId + 1, Step(g, Open(true));
      && one == g.(captures := g.captures + 1, lastId := id, opening := g.opening + {id})
      && Step(Step(Step(one, Connect(id)), Destroy(id)), Terminated(id)) == g.(lastId := id)
  {
    var id, one := g.lastId + 1, Step(g, Open(true));
    OpenKeepsInv(g, true);
    EndOf(one, id);
    assert one.opening - {id} == g.opening;
  }

  /** A server that fails to start, or is one too many, changes nothing. */
  lemma RefusedOpen(g: Grabber, created: bool)
    requires !created || g.captures >= g.limit
    ensures Step(g, Open(created)) == g
  {
  }

  /** The end of a server that is being opened. */
  lemma EndOf(g: Grabber, id: Sid)
    requires Inv(g) && id in g.opening
    ensures var r := Step(Step(Step(g, Connect(id)), Destroy(id)), Terminated(id));
      r == g.(captures := g.captures - 1, opening := g.opening - {id},
              waiter := if g.waiter == Asleep && g.captures == 1 then Woken else g.waiter)
  {
    assert g.serving + {id} - {id} == g.serving && g.ending + {id} - {id} == g.ending;
  }

  lemma {:induction false} RunConcat(g: Grabber, a: seq<Event>, b: seq<Event>)
    ensures Run(g, a + b) == Run(Run(g, a), b)
    decreases |b|
  {
    if b == [] {
      assert a + b == a;
    } else {
      var n := |b| - 1;
      assert (a + b)[..|a| + n] == a + b[..n];
      RunConcat(g, a, b[..n]);
    }
  }

  lemma RunOne(g: Grabber, e: Event)
    ensures Run(g, [e]) == Step(g, e)
  {
    assert [e][..0] == [];
  }

  /** From every state of a shutdown there is a way for it to return: its servers end, and it looks again. */
  lemma ShutdownCanReturn(g: Grabber) returns (events: seq<Event>)
    requires Inv(g) && g.waiter != Away
    ensures Run(g, events).waiter == Gone
    decreases 3 * |g.opening| + 2 * |g.serving| + |g.ending|
  {
    hide Run;
    if g.waiter == Gone {
      events := [];
      NoEvents(g);
    } else {
      var e :=
        if g.opening != {} then var id :| id in g.opening; Connect(id)
        else if g.serving != {} then var id :| id in g.serving; Destroy(id)
        else if g.ending != {} then var id :| id in g.ending; Terminated(id)
        else Wake;
      var next := Step(g, e);
      StepKeepsInv(g, e);
      if e.Connect? {
        Moves(g.opening, g.serving, e.id);
      } else if e.Destroy? {
        Moves(g.serving, g.ending, e.id);
      } else if e.Terminated? {
        Moves(g.ending, {}, e.id);
      }
      RunOne(g, e);
      if e == Wake {
        events := [e];
      } else {
        var rest := ShutdownCanReturn(next);
        events := [e] + rest;
        RunConcat(g, [e], rest);
      }
    }
  }

  lemma NoEvents(g: Grabber)
    ensures Run(g, []) == g
  {
  }

  // ---------- sniffers ----------

  /** For each capture its sniffer, as a weak reference: nothing once the sniffer is gone. */
  type Table = map<string, Option<nat>>

  /** A weak reference can be locked: its sniffer has an owner, or is the one held right now. */
  predicate Lives(ref: Option<nat>, held: Option<nat>, alive: set<nat>) {
    ref.Some? && (ref.value in alive || ref == held)
  }

  /** The table without the entries whose sniffer is gone. */
  function Swept(table: Table, held: Option<nat>, alive: set<nat>): Table {
    map n | n in table && Lives(table[n], held, alive) :: table[n]
  }

  /** A request for the sniffer of a capture, when `alive` have an owner and the factory would make `created`. */
  datatype Request = Request(name: string, created: Option<nat>, alive: set<nat>)

  function Granted(table: Table, q: Request): Option<nat> {
    if q.name in table && table[q.name].Some? && table[q.name].value in q.alive then table[q.name] else q.created
  }

  function Asked(table: Table, q: Request): Table {
    Swept(table[q.name := Granted(table, q)], Granted(table, q), q.alive)
  }

  function AllAsked(table: Table, qs: seq<Request>): Table {
    if qs == [] then table else Asked(AllAsked(table, qs[..|qs| - 1]), qs[|qs| - 1])
  }

  /** The table after a request: the capture has the sniffer that was granted, every other what it had, and
      there is no entry whose sniffer is gone. */
  lemma AfterRequest(table: Table, q: Request, n: string)
    ensures var granted, after := Granted(table, q), Asked(table, q);
      && (q.name in after <==> granted.Some?) && (granted.Some? ==> after[q.name] == granted)
      && (n != q.name ==>
            && (n in after <==> n in table && table[n].Some? && (table[n].value in q.alive || table[n] == granted))
            && (n in after ==> after[n] == table[n]))
  {
  }

  /** As long as a sniffer has an owner, every request for its capture is granted the same one, whatever else is
      requested meanwhile; so there is never a second one for the capture. */
  lemma {:induction false} SharedWhileAlive(table: Table, name: string, id: nat, qs: seq<Request>)
    requires name in table && table[name] == Some(id)
    requires forall q | q in qs :: id in q.alive
    ensures name in AllAsked(table, qs) && AllAsked(table, qs)[name] == Some(id)
    ensures forall i | 0 <= i < |qs| && qs[i].name == name :: Granted(AllAsked(table, qs[..i]), qs[i]) == Some(id)
    decreases |qs|
  {
    hide Asked, Granted;
    if qs != [] {
      var n := |qs| - 1;
      var before, q := AllAsked(table, qs[..n]), qs[n];
      SharedWhileAlive(table, name, id, qs[..n]);
      assert forall i | 0 <= i < n :: qs[..n][..i] == qs[..i] && qs[..n][i] == qs[i];
      AfterRequest(before, q, name);
      GrantsOwned(before, q, id);
    }
  }

  lemma GrantsOwned(table: Table, q: Request, id: nat)
    ensures q.name in table && table[q.name] == Some(id) && id in q.alive ==> Granted(table, q) == Some(id)
    ensures !(q.name in table && table[q.name].Some? && table[q.name].value in q.alive) ==> Granted(table, q) == q.created
  {
  }

  // ---------- the grabber as the program runs it: one method for each atomic section ----------

  datatype Opened = Server(id: Sid) | TooMany | NotCreated

  class LiveGrabber {
    const limit: nat
    var captures: int
    var opening: set<Sid>
    var serving: set<Sid>
    var ending: set<Sid>
    var lastId: Sid
    var waiter: Waiter
    var sniffers: Table

    ghost function Value(): Grabber
      reads this
    {
      Grabber(limit, captures, opening, serving, ending, lastId, waiter)
    }

    constructor (limit: nat)
      ensures Value() == Fresh(limit) && sniffers == map[]
    {
      this.limit, captures, opening, serving, ending, lastId, waiter := limit, 0, {}, {}, {}, 0, Away;
      sniffers := map[];
    }

    method OpenServer(created: bool) returns (r: Opened)
      requires waiter == Away
      modifies this
      ensures Value() == Step(old(Value()), Open(created)) && sniffers == old(sniffers)
      ensures r.TooMany? == (old(captures) >= limit)
      ensures r.NotCreated? == (old(captures) < limit && !created)
      ensures if r.Server? then r.id == old(lastId) + 1 == lastId && opening == old(opening) + {r.id} else unchanged(this)
    {
      if captures >= limit {
        return TooMany;
      }
      if !created {
        return NotCreated;
      }
      captures := captures + 1;
      lastId := lastId + 1;
      opening := opening + {lastId};
      return Server(lastId);
    }

    /** The handler of a server's termination. */
    method OnTerminate(id: Sid)
      requires id in ending
      modifies this
      ensures Value() == Step(old(Value()), Terminated(id)) && sniffers == old(sniffers)
    {
      ending := ending - {id};
      captures := captures - 1;
      if captures == 0 {
        if waiter == Asleep {
          waiter := Woken; // the notification
        }
      }
    }

    /** One look of the waiting loop in `shutdown`. */
    method LookAgain() returns (done: bool)
      requires waiter != Gone
      modifies this
      ensures Value() == Step(old(Value()), if old(waiter) == Away then ShutDown else Wake)
      ensures done == (waiter == Gone) && sniffers == old(sniffers)
    {
      done := captures == 0;
      waiter := if done then Gone else Asleep;
    }

    /** The sniffer of a capture, `created` being the new one that the factory makes, if it makes one,
        and `alive` the sniffers that have an owner. A live sniffer is shared, so that there is never a
        second one for the capture; entries whose sniffer is gone are dropped. */
    method Sniffer(name: string, created: Option<nat>, alive: set<nat>) returns (r: Option<nat>)
      modifies this`sniffers
      ensures var q := Request(name, created, alive);
        r == Granted(old(sniffers), q) && sniffers == Asked(old(sniffers), q)
    {
      var ptr := if name in sniffers && sniffers[name].Some? && sniffers[name].value in alive
                 then sniffers[name] else None;
      if ptr.None? {
        ptr := created;
      }
      sniffers := sniffers[name := ptr];
      ghost var full := sniffers;
      var todo := sniffers.Keys;
      while todo != {}
        invariant todo <= full.Keys
        invariant sniffers.Keys <= full.Keys && forall n | n in sniffers :: sniffers[n] == full[n]
        invariant forall n | n in full.Keys :: n in sniffers <==> n in todo || Lives(full[n], ptr, alive)
        decreases todo
      {
        var s :| s in todo;
        todo := todo - {s};
        if !Lives(sniffers[s], ptr, alive) {
          sniffers := sniffers - {s};
        }
      }
      return ptr;
    }
  }
}
