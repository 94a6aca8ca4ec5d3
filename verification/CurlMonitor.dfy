/** The socket monitor under libcurl: an interest mask for each socket, one-shot waits armed on the
    event loop, and a completion handler inside which libcurl changes the masks again. */
module CurlMonitor {

  const POLL_IN: bv8 := 1
  const POLL_OUT: bv8 := 2
  const POLL_INOUT: bv8 := 3
  const POLL_REMOVE: bv8 := 4

  datatype Dir = In | Out

  function Bit(d: Dir): bv8 {
    if d == In then POLL_IN else POLL_OUT
  }

  predicate Wants(mask: bv8, d: Dir) {
    mask & Bit(d) == Bit(d)
  }

  /** Whether `update` arms a wait: the new mask asks for the direction, the previous one did not. */
  predicate Arms(what: bv8, prev: bv8, d: Dir) {
    Wants(what, d) && !Wants(prev, d)
  }

  lemma OneBit(mask: bv8, d: Dir)
    ensures Wants(mask, d) <==> mask & Bit(d) != 0
    ensures !Wants(0, d)
  {
  }

  /** Taking one direction's bit out of a mask. */
  lemma Without(mask: bv8, d: Dir, e: Dir)
    ensures Wants(mask & !Bit(d), e) <==> Wants(mask, e) && e != d
  {
  }

  // ---------- the monitor as a value ----------

  /** A socket: its interest mask, the waits outstanding on the event loop, of which a direction can have
      several, and the directions whose last wait has ended in an error, with none armed since. */
  datatype Sock = Sock(handle: int, mask: bv8, waits: multiset<Dir>, errored: set<Dir>)

  /** Every socket ever opened, by number, and the numbers of those that are registered. A socket that is no
      longer registered lives on while it has waits. */
  datatype Monitor = Monitor(sockets: map<int, nat>, known: seq<Sock>) {
    ghost predicate Valid() {
      forall s | s in sockets :: sockets[s] < |known| && known[sockets[s]].handle == s
    }

    function Of(s: int): Sock
      requires Valid() && s in sockets
    {
      known[sockets[s]]
    }

    function With(i: nat, k: Sock): (m: Monitor)
      requires Valid() && i < |known| && k.handle == known[i].handle
      ensures m.Valid()
    {
      this.(known := known[i := k])
    }
  }

  const EMPTY := Monitor(map[], [])

  /** What libcurl calls while it processes: `attached` says that it passes the pointer it was given
      for the socket, which is its registered object as long as there is one. `queued` are the waits that
      have been completed by then, if the call is going to cancel them. */
  datatype Callback =
    | Poll(s: int, what: bv8, attached: bool, queued: multiset<Dir>)
    | CloseSocket(s: int)
    | OpenSocket(s: int)

  /** What the event loop can run: callbacks from a timer or a new transfer, or the completion of a
      wait on one of the sockets ever opened, with the callbacks made while it is processed. */
  datatype Event =
    | Timer(callbacks: seq<Callback>)
    | Completion(index: nat, d: Dir, error: bool, callbacks: seq<Callback>)

  function Armed(k: Sock, d: Dir): Sock {
    k.(waits := k.waits + multiset{d}, errored := k.errored - {d})
  }

  function Updated(k: Sock, what: bv8, prev: bv8): Sock {
    var a := k.(mask := what);
    var b := if Arms(what, prev, In) then Armed(a, In) else a;
    if Arms(what, prev, Out) then Armed(b, Out) else b
  }

  function Acted(k: Sock, what: bv8, attached: bool, queued: multiset<Dir>): Sock {
    if what == POLL_IN || what == POLL_OUT || what == POLL_INOUT then Updated(k, what, if attached then k.mask else 0)
    else if what == POLL_REMOVE && attached && k.mask != 0 then k.(mask := 0, waits := k.waits * queued)
    else k
  }

  function Called(m: Monitor, c: Callback): (r: Monitor)
    requires m.Valid()
    ensures r.Valid() && |m.known| <= |r.known|
    ensures forall i | 0 <= i < |m.known| :: r.known[i].handle == m.known[i].handle
  {
    match c
    case Poll(s, what, attached, queued) =>
      if s in m.sockets then m.With(m.sockets[s], Acted(m.Of(s), what, attached, queued)) else m
    case CloseSocket(s) => m.(sockets := m.sockets - {s})
    case OpenSocket(s) => Monitor(m.sockets[s := |m.known|], m.known + [Sock(s, 0, multiset{}, {})])
  }

  function AllCalled(m: Monitor, callbacks: seq<Callback>): (r: Monitor)
    requires m.Valid()
    ensures r.Valid() && |m.known| <= |r.known|
    ensures forall i | 0 <= i < |m.known| :: r.known[i].handle == m.known[i].handle
  {
    if callbacks == [] then m
    else Called(AllCalled(m, callbacks[..|callbacks| - 1]), callbacks[|callbacks| - 1])
  }

  /** A wait has come to its end; an error is remembered if no other wait is left. */
  function WaitEnded(k: Sock, d: Dir, error: bool): Sock {
    k.(waits := k.waits - multiset{d}, errored := if error && k.waits[d] <= 1 then k.errored + {d} else k.errored)
  }

  /** The completion of a wait on socket `i`: libcurl processes, and then the handler's own update arms the
      direction again, if the mask still asks for it, and those that the mask did not ask for before. */
  function Completed(m: Monitor, i: nat, d: Dir, error: bool, callbacks: seq<Callback>): (r: Monitor)
    requires m.Valid() && i < |m.known|
    ensures r.Valid() && |m.known| <= |r.known|
  {
    var prev := m.known[i].mask;
    var p := AllCalled(m.With(i, WaitEnded(m.known[i], d, error)), callbacks);
    var k := p.known[i];
    if !error && k.handle in p.sockets && k.mask != 0 then p.With(i, Updated(k, k.mask, prev & !Bit(d))) else p
  }

  lemma OpenedIs(m: Monitor, s: int)
    requires m.Valid()
    ensures Called(m, OpenSocket(s)) == Monitor(m.sockets[s := |m.known|], m.known + [Sock(s, 0, multiset{}, {})])
  {
  }

  lemma CompletedIs(m: Monitor, i: nat, d: Dir, error: bool, p: Monitor, callbacks: seq<Callback>)
    requires m.Valid() && i < |m.known|
    requires p == AllCalled(m.With(i, WaitEnded(m.known[i], d, error)), callbacks)
    ensures Completed(m, i, d, error, callbacks) ==
            var k := p.known[i];
            if !error && k.handle in p.sockets && k.mask != 0
            then p.With(i, Updated(k, k.mask, m.known[i].mask & !Bit(d))) else p
  {
    hide Updated;
  }

  /** A completion can only happen to a wait. */
  predicate Happens(m: Monitor, e: Event) {
    e.Timer? || (e.index < |m.known| && m.known[e.index].waits[e.d] > 0)
  }

  function Handled(m: Monitor, e: Event): (r: Monitor)
    requires m.Valid()
    ensures r.Valid()
  {
    if !Happens(m, e) then m
    else match e
      case Timer(callbacks) => AllCalled(m, callbacks)
      case Completion(index, d, error, callbacks) => Completed(m, index, d, error, callbacks)
  }

  function RunOf(m: Monitor, events: seq<Event>): (r: Monitor)
    requires m.Valid()
    ensures r.Valid()
  {
    if events == [] then m else Handled(RunOf(m, events[..|events| - 1]), events[|events| - 1])
  }

  // ---------- what one callback does ----------

  /** Direction by direction: the new mask, and a wait more for each direction that is newly asked for. */
  lemma UpdateByDirection(k: Sock, what: bv8, prev: bv8, d: Dir)
    ensures var u := Updated(k, what, prev);
      && u.mask == what && u.handle == k.handle
      && u.waits[d] == k.waits[d] + (if Arms(what, prev, d) then 1 else 0)
      && (d in u.errored <==> d in k.errored && !Arms(what, prev, d))
  {
    hide Arms;
  }

  /** A request for a registered socket: its mask becomes what is asked for, and each direction asked for
      has a wait more, unless libcurl had it already; a removal leaves only waits that are completed. */
  lemma RequestIsHeeded(m: Monitor, s: int, what: bv8, attached: bool, queued: multiset<Dir>, d: Dir)
    requires m.Valid() && s in m.sockets
    ensures var was, r := m.Of(s), Called(m, Poll(s, what, attached, queued));
      && r.sockets == m.sockets && |r.known| == |m.known|
      && (forall i | 0 <= i < |m.known| && i != m.sockets[s] :: r.known[i] == m.known[i])
      && if what in {1, 2, 3} then
           && r.Of(s).mask == what
           && r.Of(s).waits[d] == was.waits[d] + (if what & Bit(d) != 0 && !(attached && was.mask & Bit(d) != 0) then 1 else 0)
         else if what == 4 && attached then
           && r.Of(s).mask == 0
           && r.Of(s).waits == if was.mask == 0 then was.waits else was.waits * queued
         else r == m
  {
    OneBit(what, d);
    OneBit(m.Of(s).mask, d);
    UpdateByDirection(m.Of(s), what, if attached then m.Of(s).mask else 0, d);
  }

  /** Opening and closing: a closed socket is not registered, an opened one is, without a mask or waits, and
      no other changes. */
  lemma OpenAndClose(m: Monitor, s: int, t: int)
    requires m.Valid()
    ensures var r := Called(m, CloseSocket(s));
      && r.known == m.known && (t in r.sockets <==> t in m.sockets && t != s)
      && (t in r.sockets ==> r.Of(t) == m.Of(t))
    ensures var r := Called(m, OpenSocket(s));
      && m.known <= r.known && (t in r.sockets <==> t in m.sockets || t == s)
      && (t in r.sockets ==> r.Of(t) == if t == s then Sock(s, 0, multiset{}, {}) else m.Of(t))
  {
  }

  // ---------- what libcurl has asked for ----------

  /** Whether the last time that a socket was opened or closed it was opened. */
  predicate IsOpen(history: seq<Callback>, s: int) {
    history != [] &&
    var c := history[|history| - 1];
    c == OpenSocket(s) || (c != CloseSocket(s) && IsOpen(history[..|history| - 1], s))
  }

  /** The last request for a socket since it was opened: 0 if there is none, or if it was for removal. */
  function Asked(history: seq<Callback>, s: int): bv8 {
    if history == [] then 0 as bv8
    else
      match history[|history| - 1]
      case OpenSocket(t) => if t == s then 0 as bv8 else Asked(history[..|history| - 1], s)
      case CloseSocket(_) => Asked(history[..|history| - 1], s)
      case Poll(t, what, attached, _) =>
        if t == s && what in {1, 2, 3} then what
        else if t == s && what == 4 && attached then 0 as bv8
        else Asked(history[..|history| - 1], s)
  }

  /** A socket is registered if and only if it is open, and its mask is what was asked for last. */
  ghost predicate Heeds(m: Monitor, history: seq<Callback>)
    requires m.Valid()
  {
    && (forall s :: s in m.sockets <==> IsOpen(history, s))
    && (forall s | s in m.sockets :: m.Of(s).mask == Asked(history, s))
  }

  lemma CallIsHeeded(m: Monitor, history: seq<Callback>, c: Callback)
    requires m.Valid() && Heeds(m, history)
    ensures Heeds(Called(m, c), history + [c])
  {
    var r, more := Called(m, c), history + [c];
    assert more[..|history|] == history;
    forall s
      ensures s in r.sockets <==> IsOpen(more, s)
      ensures s in r.sockets ==> r.Of(s).mask == Asked(more, s)
    {
      OpenAndClose(m, c.s, s);
      if c.Poll? && c.s in m.sockets {
        RequestIsHeeded(m, c.s, c.what, c.attached, c.queued, In);
      }
    }
  }

  lemma {:induction false} CallsAreHeeded(m: Monitor, history: seq<Callback>, callbacks: seq<Callback>)
    requires m.Valid() && Heeds(m, history)
    ensures Heeds(AllCalled(m, callbacks), history + callbacks)
    decreases |callbacks|
  {
    hide Called, Heeds;
    if callbacks == [] {
      assert history + callbacks == history;
    } else {
      var n := |callbacks| - 1;
      CallsAreHeeded(m, history, callbacks[..n]);
      CallIsHeeded(AllCalled(m, callbacks[..n]), history + callbacks[..n], callbacks[n]);
      assert history + callbacks[..n] + [callbacks[n]] == history + callbacks;
    }
  }

  /** All callbacks made in a run: those of timers, and those of completions of waits that there are. */
  function Made(m: Monitor, events: seq<Event>): seq<Callback>
    requires m.Valid()
  {
    if events == [] then []
    else
      var before, e := events[..|events| - 1], events[|events| - 1];
      Made(m, before) + if Happens(RunOf(m, before), e) then e.callbacks else []
  }

  lemma SameMasks(m: Monitor, history: seq<Callback>, i: nat, k: Sock)
    requires m.Valid() && Heeds(m, history) && i < |m.known|
    requires k.handle == m.known[i].handle && k.mask == m.known[i].mask
    ensures Heeds(m.With(i, k), history)
  {
  }

  lemma EventIsHeeded(m: Monitor, history: seq<Callback>, e: Event)
    requires m.Valid() && Heeds(m, history)
    ensures Heeds(Handled(m, e), history + if Happens(m, e) then e.callbacks else [])
  {
    hide Heeds, Updated, AllCalled;
    if !Happens(m, e) {
      assert history + [] == history;
    } else if e.Timer? {
      CallsAreHeeded(m, history, e.callbacks);
    } else {
      var i := e.index;
      var ended := m.With(i, WaitEnded(m.known[i], e.d, e.error));
      SameMasks(m, history, i, WaitEnded(m.known[i], e.d, e.error));
      CallsAreHeeded(ended, history, e.callbacks);
      var p := AllCalled(ended, e.callbacks);
      var k := p.known[i];
      var prev := m.known[i].mask & !Bit(e.d);
      UpdateByDirection(k, k.mask, prev, In);
      SameMasks(p, history + e.callbacks, i, Updated(k, k.mask, prev));
    }
  }

  /** Over every run: a socket is registered if and only if it was opened and not closed since, and its mask is
      what libcurl asked for last. */
  lemma {:induction false} RunIsHeeded(events: seq<Event>)
    ensures Heeds(RunOf(EMPTY, events), Made(EMPTY, events))
    decreases |events|
  {
    hide Heeds, Handled, Happens;
    if events == [] {
      NothingAsked();
    } else {
      var n := |events| - 1;
      RunIsHeeded(events[..n]);
      EventIsHeeded(RunOf(EMPTY, events[..n]), Made(EMPTY, events[..n]), events[n]);
    }
  }

  lemma NothingAsked()
    ensures Heeds(EMPTY, [])
  {
  }

  // ---------- no wake-up is lost ----------

  /** If the mask asks for a direction, no wait for it is outstanding exactly if the last one ended in
      an error. */
  predicate Covered(k: Sock, d: Dir) {
    Wants(k.mask, d) ==> (k.waits[d] == 0 <==> d in k.errored)
  }

  ghost predicate Quiet(m: Monitor)
    requires m.Valid()
  {
    forall s, d | s in m.sockets :: Covered(m.Of(s), d)
  }

  /** The same but for one direction of one socket, whose wait is just being handled. */
  ghost predicate QuietBut(m: Monitor, i: nat, but: Dir)
    requires m.Valid()
  {
    forall s, d | s in m.sockets && (m.sockets[s] != i || d != but) :: Covered(m.Of(s), d)
  }

  /** No wait of a known socket has ended in an error. */
  ghost predicate Unerring(m: Monitor) {
    forall i | 0 <= i < |m.known| :: m.known[i].errored == {}
  }

  lemma ActionKeepsCovered(k: Sock, what: bv8, attached: bool, queued: multiset<Dir>, d: Dir)
    requires Covered(k, d)
    ensures Covered(Acted(k, what, attached, queued), d)
  {
    OneBit(0, d);
    UpdateByDirection(k, what, if attached then k.mask else 0, d);
  }

  lemma ActionKeepsUnerring(k: Sock, what: bv8, attached: bool, queued: multiset<Dir>)
    requires k.errored == {}
    ensures Acted(k, what, attached, queued).errored == {}
  {
  }

  /** The socket that is registered after a callback, and what it was before. */
  lemma AfterCall(m: Monitor, c: Callback, s: int)
    requires m.Valid() && s in Called(m, c).sockets
    ensures var r := Called(m, c);
      if c == OpenSocket(s) then r.Of(s) == Sock(s, 0, multiset{}, {}) && r.sockets[s] == |m.known|
      else
        && s in m.sockets && r.sockets[s] == m.sockets[s]
        && r.Of(s) == if c.Poll? && c.s == s then Acted(m.Of(s), c.what, c.attached, c.queued) else m.Of(s)
  {
    hide Acted;
  }

  lemma CallKeepsUnerring(m: Monitor, c: Callback)
    requires m.Valid() && Unerring(m)
    ensures Unerring(Called(m, c))
  {
    hide Acted;
    if c.Poll? && c.s in m.sockets {
      ActionKeepsUnerring(m.Of(c.s), c.what, c.attached, c.queued);
    }
  }

  /** Any callback keeps covered what was covered, whichever wait is just being handled. */
  lemma CallKeepsQuiet(m: Monitor, c: Callback, i: nat, but: Dir)
    requires m.Valid()
    ensures QuietBut(m, i, but) && i < |m.known| ==> QuietBut(Called(m, c), i, but)
    ensures Quiet(m) ==> Quiet(Called(m, c))
  {
    hide Covered, Acted, Called;
    var r := Called(m, c);
    forall s, d | s in r.sockets
      ensures c == OpenSocket(s) ==> Covered(r.Of(s), d) && r.sockets[s] == |m.known|
      ensures c != OpenSocket(s) ==> s in m.sockets && r.sockets[s] == m.sockets[s]
      ensures c != OpenSocket(s) ==> Covered(m.Of(s), d) ==> Covered(r.Of(s), d)
    {
      AfterCall(m, c, s);
      if c == OpenSocket(s) {
        NewIsCovered(s, d);
      } else if c.Poll? && c.s == s && Covered(m.Of(s), d) {
        ActionKeepsCovered(m.Of(s), c.what, c.attached, c.queued, d);
      }
    }
  }

  lemma NewIsCovered(s: int, d: Dir)
    ensures Covered(Sock(s, 0, multiset{}, {}), d)
  {
    OneBit(0, d);
  }

  lemma {:induction false} CallsKeepQuiet(m: Monitor, callbacks: seq<Callback>, i: nat, but: Dir)
    requires m.Valid()
    ensures QuietBut(m, i, but) && i < |m.known| ==> QuietBut(AllCalled(m, callbacks), i, but)
    ensures Quiet(m) ==> Quiet(AllCalled(m, callbacks))
    ensures Unerring(m) ==> Unerring(AllCalled(m, callbacks))
    decreases |callbacks|
  {
    hide Called, Quiet, QuietBut, Unerring;
    if callbacks != [] {
      var n := |callbacks| - 1;
      var before := AllCalled(m, callbacks[..n]);
      CallsKeepQuiet(m, callbacks[..n], i, but);
      CallKeepsQuiet(before, callbacks[n], i, but);
      if Unerring(before) {
        CallKeepsUnerring(before, callbacks[n]);
      }
    }
  }

  lemma EndIsQuietBut(m: Monitor, i: nat, d: Dir, error: bool)
    requires m.Valid() && Quiet(m) && i < |m.known| && m.known[i].waits[d] > 0
    ensures var ended := m.With(i, WaitEnded(m.known[i], d, error));
      && QuietBut(ended, i, d) && (error ==> Quiet(ended))
      && (!error && Unerring(m) ==> Unerring(ended))
  {
    hide Covered, WaitEnded;
    var k, u := m.known[i], WaitEnded(m.known[i], d, error);
    SameMask(k, d, error);
    var ended := m.With(i, u);
    forall s, e | s in m.sockets && (m.sockets[s] != i || e != d || error)
      ensures Covered(ended.Of(s), e)
    {
      assert Covered(m.Of(s), e);
      if m.sockets[s] == i {
        EndKeepsCovered(k, d, error, e);
      }
    }
  }

  lemma EndKeepsCovered(k: Sock, d: Dir, error: bool, e: Dir)
    requires Covered(k, e) && k.waits[d] > 0 && (e != d || error)
    ensures Covered(WaitEnded(k, d, error), e)
  {
  }

  lemma SameMask(k: Sock, d: Dir, error: bool)
    ensures var u := WaitEnded(k, d, error);
      u.mask == k.mask && u.handle == k.handle && (!error ==> u.errored == k.errored)
  {
  }

  lemma RearmCovers(k: Sock, prev: bv8, d: Dir, e: Dir)
    requires Covered(k, e) || e == d
    ensures Covered(Updated(k, k.mask, prev & !Bit(d)), e)
  {
    hide Updated;
    Without(prev, d, e);
    UpdateByDirection(k, k.mask, prev & !Bit(d), e);
  }

  /** The handler's own update closes the gap that its wait has left. */
  lemma RearmIsQuiet(m: Monitor, i: nat, d: Dir, prev: bv8)
    requires m.Valid() && QuietBut(m, i, d) && i < |m.known|
    ensures var k := m.known[i];
      var r := m.With(i, Updated(k, k.mask, prev & !Bit(d)));
      Quiet(r) && (Unerring(m) ==> Unerring(r))
  {
    hide Covered;
    var k := m.known[i];
    var u := Updated(k, k.mask, prev & !Bit(d));
    var r := m.With(i, u);
    forall s, e | s in m.sockets
      ensures Covered(r.Of(s), e)
    {
      if m.sockets[s] == i {
        assert e == d || Covered(m.Of(s), e);
        RearmCovers(k, prev, d, e);
      } else {
        assert Covered(m.Of(s), e);
      }
    }
  }

  /** Where the handler does not update, nothing is left uncovered. */
  lemma NoRearmIsQuiet(m: Monitor, i: nat, d: Dir)
    requires m.Valid() && QuietBut(m, i, d) && i < |m.known|
    requires m.known[i].handle !in m.sockets || m.known[i].mask == 0
    ensures Quiet(m)
  {
    OneBit(0, d);
  }

  /** No wake-up is lost over a completion, whatever libcurl calls meanwhile. */
  lemma CompletionKeepsQuiet(m: Monitor, i: nat, d: Dir, error: bool, callbacks: seq<Callback>)
    requires m.Valid() && Quiet(m) && i < |m.known| && m.known[i].waits[d] > 0
    ensures Quiet(Completed(m, i, d, error, callbacks))
    ensures !error && Unerring(m) ==> Unerring(Completed(m, i, d, error, callbacks))
  {
    hide Quiet, QuietBut, Unerring, WaitEnded, Updated, AllCalled;
    hide Completed;
    SameMask(m.known[i], d, error);
    var ended := m.With(i, WaitEnded(m.known[i], d, error));
    EndIsQuietBut(m, i, d, error);
    CallsKeepQuiet(ended, callbacks, i, d);
    var p := AllCalled(ended, callbacks);
    CompletedIs(m, i, d, error, p, callbacks);
    if !error {
      if p.known[i].handle in p.sockets && p.known[i].mask != 0 {
        RearmIsQuiet(p, i, d, m.known[i].mask);
      } else {
        NoRearmIsQuiet(p, i, d);
      }
    }
  }

  lemma EndCounts(k: Sock, d: Dir, error: bool, e: Dir)
    requires k.waits[d] > 0
    ensures var u := WaitEnded(k, d, error);
      u.waits[e] == k.waits[e] - (if e == d then 1 else 0) && u.mask == k.mask && u.handle == k.handle
  {
  }

  lemma Rearmed(k: Sock, d: Dir, e: Dir)
    ensures var u := Updated(k, k.mask, k.mask & !Bit(d));
      u.mask == k.mask && u.waits[e] == k.waits[e] + if e == d && Wants(k.mask, d) then 1 else 0
  {
    hide Updated;
    Without(k.mask, d, e);
    UpdateByDirection(k, k.mask, k.mask & !Bit(d), e);
  }

  lemma CompletionStaysQuiet(m: Monitor, i: nat, d: Dir, error: bool, callbacks: seq<Callback>)
    requires m.Valid() && i < |m.known| && m.known[i].waits[d] > 0
    ensures Quiet(m) ==> Quiet(Completed(m, i, d, error, callbacks))
  {
    hide Quiet;
    if Quiet(m) {
      CompletionKeepsQuiet(m, i, d, error, callbacks);
    }
  }

  /** What a completion makes of its socket, if libcurl calls nothing. */
  function Alone(k: Sock, d: Dir, error: bool, registered: bool): (u: Sock)
    ensures u.handle == k.handle
  {
    var ended := WaitEnded(k, d, error);
    if !error && registered && k.mask != 0 then Updated(ended, k.mask, k.mask & !Bit(d)) else ended
  }

  lemma CompletedAlone(m: Monitor, i: nat, d: Dir, error: bool)
    requires m.Valid() && i < |m.known|
    ensures var k := m.known[i];
      Completed(m, i, d, error, []) == m.With(i, Alone(k, d, error, k.handle in m.sockets))
  {
    hide Completed, WaitEnded, Updated;
    var k := m.known[i];
    var ended := WaitEnded(k, d, error);
    SameMask(k, d, error);
    var p := m.With(i, ended);
    assert p == AllCalled(p, []);
    CompletedIs(m, i, d, error, p, []);
    var u := Updated(ended, k.mask, k.mask & !Bit(d));
    UpdateByDirection(ended, k.mask, k.mask & !Bit(d), d);
    assert m.known[i := ended][i := u] == m.known[i := u];
  }

  /** If libcurl calls nothing, exactly this wait is armed again, unless it ended in an error, or is no longer
      asked for, or the socket is gone. */
  lemma QuietCompletion(m: Monitor, i: nat, d: Dir, error: bool, e: Dir)
    requires m.Valid() && i < |m.known| && m.known[i].waits[d] > 0
    ensures var k, r := m.known[i], Completed(m, i, d, error, []);
      var again := !error && k.handle in m.sockets && Wants(k.mask, d);
      && r.sockets == m.sockets && |r.known| == |m.known|
      && (forall j | 0 <= j < |m.known| && j != i :: r.known[j] == m.known[j])
      && r.known[i].mask == k.mask
      && r.known[i].waits[e] == k.waits[e] - if e == d && !again then 1 else 0
  {
    hide Wants, Completed, Alone;
    var k := m.known[i];
    CompletedAlone(m, i, d, error);
    AloneCounts(k, d, error, k.handle in m.sockets, e);
  }

  lemma AloneCounts(k: Sock, d: Dir, error: bool, registered: bool, e: Dir)
    requires k.waits[d] > 0
    ensures var u := Alone(k, d, error, registered);
      && u.mask == k.mask
      && u.waits[e] == k.waits[e] - if e == d && !(!error && registered && Wants(k.mask, d)) then 1 else 0
  {
    hide Wants, WaitEnded, Updated;
    EndCounts(k, d, error, e);
    Rearmed(WaitEnded(k, d, error), d, e);
    OneBit(0, d);
  }

  /** In every state that a run can reach, no wake-up is lost: a direction of a registered socket's mask lacks
      a wait if and only if its last one ended in an error. */
  lemma {:induction false} RunKeepsQuiet(m: Monitor, events: seq<Event>)
    requires m.Valid() && Quiet(m)
    ensures Quiet(RunOf(m, events))
    ensures Unerring(m) && (forall e | e in events && e.Completion? :: !e.error) ==> Unerring(RunOf(m, events))
    decreases |events|
  {
    hide Quiet, Unerring, Completed, AllCalled;
    if events != [] {
      var n := |events| - 1;
      var before, e := RunOf(m, events[..n]), events[n];
      RunKeepsQuiet(m, events[..n]);
      if e.Timer? {
        CallsKeepQuiet(before, e.callbacks, 0, In);
      } else if Happens(before, e) {
        CompletionKeepsQuiet(before, e.index, e.d, e.error, e.callbacks);
      }
    }
  }

  /** The whole of it, from a new service on: the sockets opened and not closed are registered; what libcurl
      asked for last is their mask; and as long as no wait ends in an error, every direction that it asks
      for has a wait. */
  lemma RunServesRequests(events: seq<Event>, s: int, d: Dir)
    requires forall e | e in events && e.Completion? :: !e.error
    ensures var m, history := RunOf(EMPTY, events), Made(EMPTY, events);
      && (s in m.sockets <==> IsOpen(history, s))
      && (IsOpen(history, s) ==> m.Of(s).mask == Asked(history, s))
      && (IsOpen(history, s) && Asked(history, s) & Bit(d) != 0 ==> m.Of(s).waits[d] > 0)
  {
    var m := RunOf(EMPTY, events);
    RunIsHeeded(events);
    RunKeepsQuiet(EMPTY, events);
    if s in m.sockets {
      OneBit(m.Of(s).mask, d);
      assert Covered(m.Of(s), d);
    }
  }

  // ---------- the service as the program runs it ----------

  class Socket {
    const handle: int
    var mask: bv8
    var waits: multiset<Dir>
    ghost var errored: set<Dir>

    ghost function Value(): Sock
      reads this
    {
      Sock(handle, mask, waits, errored)
    }

    constructor (handle: int)
      ensures Value() == Sock(handle, 0, multiset{}, {})
    {
      this.handle, mask, waits, errored := handle, 0, multiset{}, {};
    }

    method Wait(d: Dir)
      modifies this`waits, this`errored
      ensures waits == old(waits) + multiset{d}
      ensures errored == old(errored) - {d}
    {
      waits := waits + multiset{d};
      errored := errored - {d};
    }

    /** Outstanding waits end as aborted, which their handlers ignore; but those in `queued` have been
        completed already, and their handlers will run. */
    method Cancel(queued: multiset<Dir>)
      modifies this`waits
      ensures waits == old(waits) * queued
    {
      waits := waits * queued;
    }
  }

  ghost function Values(known: seq<Socket>): (values: seq<Sock>)
    reads set sock | sock in known
    ensures |values| == |known| && forall i | 0 <= i < |known| :: values[i] == known[i].Value()
  {
    if known == [] then [] else Values(known[..|known| - 1]) + [known[|known| - 1].Value()]
  }

  class Service {
    var sockets: map<int, Socket>
    /** Every socket ever opened. */
    var known: seq<Socket>
    ghost var numbers: map<int, nat>

    ghost function Known(): set<Socket>
      reads this
    {
      set sock | sock in known
    }

    ghost predicate Valid()
      reads this, Known()
    {
      && (forall i, j | 0 <= i < j < |known| :: known[i] != known[j])
      && numbers.Keys == sockets.Keys
      && forall s | s in sockets ::
           numbers[s] < |known| && known[numbers[s]] == sockets[s] && sockets[s].handle == s
    }

    ghost function Value(): (m: Monitor)
      requires Valid()
      reads this, Known()
      ensures m.Valid()
    {
      Monitor(numbers, Values(known))
    }

    /** Only socket `i` has changed. */
    twostate lemma OneChanged(i: nat)
      requires old(Valid()) && unchanged(this) && i < |known|
      requires forall j | 0 <= j < |known| && j != i :: unchanged(known[j])
      ensures Valid() && Value() == old(Value()).With(i, known[i].Value())
    {
    }

    constructor ()
      ensures Valid() && Value() == EMPTY && known == []
    {
      sockets, known, numbers := map[], [], map[];
    }

    method Update(sock: Socket, what: bv8, prev: bv8)
      modifies sock
      ensures sock.Value() == Updated(old(sock.Value()), what, prev)
    {
      OneBit(prev, In);
      OneBit(prev, Out);
      sock.mask := what;
      if what & POLL_IN == POLL_IN && prev & POLL_IN == 0 {
        sock.Wait(In);
      }
      if what & POLL_OUT == POLL_OUT && prev & POLL_OUT == 0 {
        sock.Wait(Out);
      }
    }

    method Add(s: int, what: bv8)
      requires Valid()
      modifies if s in sockets then {sockets[s]} else {}
      ensures s in sockets ==> sockets[s].Value() == Updated(old(sockets[s].Value()), what, 0)
    {
      if s in sockets {
        Update(sockets[s], what, 0);
      }
    }

    /** What libcurl asks of a socket: to watch it as `what` says, or to stop watching it. */
    method Action(s: int, what: bv8, attached: bool, queued: multiset<Dir>)
      requires Valid()
      modifies if s in sockets then {sockets[s]} else {}
      ensures s in sockets ==> sockets[s].Value() == Acted(old(sockets[s].Value()), what, attached, queued)
    {
      if what == POLL_IN || what == POLL_OUT || what == POLL_INOUT {
        if !attached {
          Add(s, what);
        } else if s in sockets {
          Update(sockets[s], what, sockets[s].mask);
        }
      } else if what == POLL_REMOVE {
        if attached && s in sockets && sockets[s].mask != 0 {
          sockets[s].mask := 0;
          sockets[s].Cancel(queued);
        }
      }
    }

    method Close(s: int) returns (closed: bool)
      requires Valid()
      modifies this`sockets, this`numbers
      ensures Valid() && Value() == Called(old(Value()), CloseSocket(s))
      ensures closed == (s in old(sockets)) && sockets == old(sockets) - {s}
    {
      closed := s in sockets;
      sockets, numbers := sockets - {s}, numbers - {s};
    }

    method Open(s: int)
      requires Valid()
      modifies this
      ensures Valid() && Value() == Called(old(Value()), OpenSocket(s))
      ensures s in sockets && fresh(sockets[s]) && sockets == old(sockets)[s := sockets[s]]
      ensures known == old(known) + [sockets[s]]
    {
      hide Called, Values;
      ghost var before := Value();
      var sock := new Socket(s);
      sockets, known, numbers := sockets[s := sock], known + [sock], numbers[s := |known|];
      OpenedIs(before, s);
      assert Values(old(known)) == before.known;
    }

    method Call(c: Callback)
      requires Valid()
      modifies this, Known()
      ensures Valid() && Value() == Called(old(Value()), c)
      ensures Quiet(old(Value())) ==> Quiet(Value())
      ensures old(known) <= known && fresh(Known() - old(Known()))
    {
      hide Values, Acted, Quiet;
      ghost var before := Value();
      match c {
        case Poll(s, what, attached, queued) =>
          Action(s, what, attached, queued);
          if s in sockets {
            OneChanged(numbers[s]);
          }
        case CloseSocket(s) => var _ := Close(s);
        case OpenSocket(s) => Open(s);
      }
      CallKeepsQuiet(before, c, 0, In);
    }

    /** A run of libcurl over an event: it makes any callbacks, in any order. */
    method Process(callbacks: seq<Callback>)
      requires Valid()
      modifies this, Known()
      ensures Valid() && Value() == AllCalled(old(Value()), callbacks)
      ensures Quiet(old(Value())) ==> Quiet(Value())
      ensures old(known) <= known && fresh(Known() - old(Known()))
    {
      hide Called, Values, Quiet;
      ghost var before := Value();
      for i := 0 to |callbacks|
        invariant Valid() && Value() == AllCalled(before, callbacks[..i])
        invariant old(known) <= known && fresh(Known() - old(Known()))
      {
        Call(callbacks[i]);
        assert callbacks[..i + 1][..i] == callbacks[..i];
      }
      assert callbacks[..|callbacks|] == callbacks;
      CallsKeepQuiet(before, callbacks, 0, In);
    }

    /** The completion handler of a wait on `sock`. */
    method OnWait(sock: Socket, d: Dir, error: bool, callbacks: seq<Callback>, ghost i: nat)
      requires Valid() && i < |known| && sock == known[i] && sock.waits[d] > 0
      modifies this, Known()
      ensures Valid() && Value() == Completed(old(Value()), i, d, error, callbacks)
      ensures Quiet(old(Value())) ==> Quiet(Value())
      ensures old(known) <= known && fresh(Known() - old(Known()))
    {
      hide Values, Updated, AllCalled, Completed, Quiet, WaitEnded, Wants, Arms, Bit;
      ghost var before := Value();
      var prev := sock.mask;
      WaitEndsAndProcess(sock, d, error, callbacks, i);
      CompletedIs(before, i, d, error, Value(), callbacks);
      CompletionStaysQuiet(before, i, d, error, callbacks);
      if !error && sock.handle in sockets && sock.mask != 0 {
        Rearm(sock, prev & !Bit(d), i);
      }
    }

    /** The first part of it. */
    method WaitEndsAndProcess(sock: Socket, d: Dir, error: bool, callbacks: seq<Callback>, ghost i: nat)
      requires Valid() && i < |known| && sock == known[i] && sock.waits[d] > 0
      modifies this, Known()
      ensures Valid() && Value() == AllCalled(old(Value()).With(i, WaitEnded(old(sock.Value()), d, error)), callbacks)
      ensures old(known) <= known && fresh(Known() - old(Known()))
    {
      hide Values, AllCalled, WaitEnded, Quiet;
      WaitEnds(sock, d, error, i);
      Process(callbacks);
    }

    /** A wait has come to its end. */
    method WaitEnds(sock: Socket, d: Dir, error: bool, ghost i: nat)
      requires Valid() && i < |known| && sock == known[i] && sock.waits[d] > 0
      modifies sock`waits, sock`errored
      ensures Valid() && Value() == old(Value()).With(i, WaitEnded(old(sock.Value()), d, error))
    {
      hide Values;
      sock.waits := sock.waits - multiset{d};
      if error && sock.waits[d] == 0 {
        sock.errored := sock.errored + {d};
      }
      OneChanged(i);
    }

    /** The handler's own update. */
    method Rearm(sock: Socket, prev: bv8, ghost i: nat)
      requires Valid() && i < |known| && sock == known[i]
      modifies sock
      ensures Valid()
      ensures Value() == old(Value()).With(i, Updated(old(sock.Value()), old(sock.mask), prev))
    {
      hide Values, Updated;
      Update(sock, sock.mask, prev);
      OneChanged(i);
    }

    /** Every run of the event loop, where an event that cannot happen, for want of a wait, is passed over. No
        wake-up is lost; and a new service serves all requests. */
    method Run(events: seq<Event>)
      requires Valid()
      modifies this, Known()
      ensures Valid() && Value() == RunOf(old(Value()), events)
      ensures Quiet(old(Value())) ==> Quiet(Value())
      ensures old(Value()) == EMPTY ==> Heeds(Value(), Made(EMPTY, events))
    {
      hide Values, Completed, AllCalled, Quiet, Heeds;
      ghost var before := Value();
      for i := 0 to |events|
        invariant Valid() && Value() == RunOf(before, events[..i])
        invariant old(known) <= known && fresh(Known() - old(Known()))
      {
        assert events[..i + 1][..i] == events[..i];
        match events[i] {
          case Timer(callbacks) =>
            Process(callbacks);
          case Completion(index, d, error, callbacks) =>
            if index < |known| && known[index].waits[d] > 0 {
              OnWait(known[index], d, error, callbacks, index);
            }
        }
      }
      assert events[..|events|] == events;
      RunIsHeeded(events);
      if Quiet(before) {
        RunKeepsQuiet(before, events);
      }
    }
  }

  /** The exception is real: after a wait ends in an error, a socket can stay registered with a mask
      that asks for a direction on which nothing waits. */
  lemma ErrorEndsMonitoring(s: int)
    ensures var m := RunOf(EMPTY, [Timer([OpenSocket(s), Poll(s, POLL_IN, false, multiset{})]), Completion(0, In, true, [])]);
      s in m.sockets && Wants(m.Of(s).mask, In) && m.Of(s).waits[In] == 0
  {
    var asks := [OpenSocket(s), Poll(s, POLL_IN, false, multiset{})];
    var events := [Timer(asks), Completion(0, In, true, [])];
    assert asks[..1] == [OpenSocket(s)] && [OpenSocket(s)][..0] == [] && events[..1] == [Timer(asks)] && [Timer(asks)][..0] == [];
    var m := AllCalled(EMPTY, asks);
    assert AllCalled(EMPTY, asks[..1]) == Called(EMPTY, asks[0]);
    assert m == Called(Called(EMPTY, asks[0]), asks[1]);
    hide Called, AllCalled;
    OpenAndClose(EMPTY, s, s);
    RequestIsHeeded(Called(EMPTY, asks[0]), s, POLL_IN, false, multiset{}, In);
    assert RunOf(EMPTY, events[..1]) == m;
    QuietCompletion(m, 0, In, true, In);
  }

  /** Duplicate waits occur: dropping a direction and asking for it again arms a second wait. */
  lemma WaitsCanBeDoubled(s: int)
    ensures var m := AllCalled(EMPTY, [OpenSocket(s), Poll(s, POLL_IN, false, multiset{}), Poll(s, POLL_OUT, true, multiset{}),
                                       Poll(s, POLL_INOUT, true, multiset{})]);
      s in m.sockets && m.Of(s).waits[In] == 2
  {
    var cs := [OpenSocket(s), Poll(s, POLL_IN, false, multiset{}), Poll(s, POLL_OUT, true, multiset{}), Poll(s, POLL_INOUT, true, multiset{})];
    assert cs[..4][..3] == cs[..3] && cs[..3][..2] == cs[..2] && cs[..2][..1] == cs[..1] && cs[..1][..0] == [] && cs[..4] == cs;
    var m1 := AllCalled(EMPTY, cs[..1]);
    var m2 := AllCalled(EMPTY, cs[..2]);
    var m3 := AllCalled(EMPTY, cs[..3]);
    RequestIsHeeded(m1, s, POLL_IN, false, multiset{}, In);
    RequestIsHeeded(m2, s, POLL_OUT, true, multiset{}, In);
    RequestIsHeeded(m3, s, POLL_INOUT, true, multiset{}, In);
  }
}
