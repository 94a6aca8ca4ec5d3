/** The serialised write queue of a connection: messages are posted from anywhere, handled one at a
    time on the connection's strand, and sent one after the other. */
module WriteQueue {

  /** What a send does: it completes later, or right away by calling its handler inline. */
  datatype Reply = Later | Sent | Failed

  /** `started` lists the sends begun, `done` the messages whose send completed. */
  datatype Conn<M> = Conn(queue: seq<M>, inFlight: bool, dead: bool, started: seq<M>, done: seq<M>)

  function Idle<M>(): Conn<M> {
    Conn([], false, false, [], [])
  }

  // ---------- what each step does to a connection ----------

  /** Starts the send of the queue's front. `replies` says what this send, and those it leads to, do;
      a send with no reply listed completes later. */
  function Start<M>(c: Conn<M>, replies: seq<Reply>): Conn<M>
    requires c.queue != []
    decreases |c.queue|, 1
  {
    var sending := c.(inFlight := true, started := c.started + [c.queue[0]]);
    if replies == [] || replies[0] == Later then sending
    else Complete(sending, replies[0] == Failed, replies[1..])
  }

  /** The completion handler of a send. */
  function Complete<M>(c: Conn<M>, error: bool, replies: seq<Reply>): Conn<M>
    requires c.queue != []
    decreases |c.queue|, 0
  {
    var ended := c.(inFlight := false);
    if error then ended.(dead := true)
    else
      var popped := ended.(queue := c.queue[1..], done := c.done + [c.queue[0]]);
      if popped.queue == [] then popped else Start(popped, replies)
  }

  function Post<M>(c: Conn<M>, m: M, replies: seq<Reply>): Conn<M> {
    var queued := c.(queue := c.queue + [m]);
    if |queued.queue| > 1 then queued else Start(queued, replies)
  }

  datatype Event<M> = Posted(m: M, replies: seq<Reply>) | Completed(error: bool, replies: seq<Reply>)

  /** One atomic step; only a send in flight can complete. */
  function Step<M>(c: Conn<M>, e: Event<M>): Conn<M> {
    match e
    case Posted(m, replies) => Post(c, m, replies)
    case Completed(error, replies) =>
      if c.inFlight && c.queue != [] then Complete(c, error, replies) else c
  }

  function Run<M>(c: Conn<M>, events: seq<Event<M>>): Conn<M> {
    if events == [] then c else Step(Run(c, events[..|events| - 1]), events[|events| - 1])
  }

  function PostedIn<M>(events: seq<Event<M>>): seq<M> {
    if events == [] then []
    else
      var last := events[|events| - 1];
      PostedIn(events[..|events| - 1]) + if last.Posted? then [last.m] else []
  }

  // ---------- safety over all runs ----------

  /** A connection to which `posted` has been posted: completed messages and queue make up what was
      posted, in order; the messages whose send was begun are the completed ones and, while the queue
      is not empty, its front; and that one is in flight unless its send failed. */
  ghost predicate Consistent<M>(c: Conn<M>, posted: seq<M>) {
    && c.done + c.queue == posted
    && c.started == c.done + (if c.queue == [] then [] else [c.queue[0]])
    && c.inFlight == (c.queue != [] && !c.dead)
    && (c.dead ==> c.queue != [])
  }

  /** Between steps of one handler: the queue's front is about to be sent. */
  ghost predicate AboutToStart<M>(c: Conn<M>, posted: seq<M>) {
    c.done + c.queue == posted && c.started == c.done && c.queue != [] && !c.dead && !c.inFlight
  }

  lemma {:induction false} StartKeeps<M>(c: Conn<M>, replies: seq<Reply>, posted: seq<M>)
    requires AboutToStart(c, posted)
    ensures Consistent(Start(c, replies), posted)
    decreases |c.queue|, 1
  {
    var sending := c.(inFlight := true, started := c.started + [c.queue[0]]);
    assert Consistent(sending, posted);
    if replies != [] && replies[0] != Later {
      CompleteKeeps(sending, replies[0] == Failed, replies[1..], posted);
    }
  }

  lemma {:induction false} CompleteKeeps<M>(c: Conn<M>, error: bool, replies: seq<Reply>, posted: seq<M>)
    requires Consistent(c, posted) && c.inFlight
    ensures Consistent(Complete(c, error, replies), posted)
    decreases |c.queue|, 0
  {
    if !error {
      var popped := c.(inFlight := false, queue := c.queue[1..], done := c.done + [c.queue[0]]);
      assert popped.done + popped.queue == posted;
      if popped.queue != [] {
        StartKeeps(popped, replies, posted);
      }
    }
  }

  lemma PostKeeps<M>(c: Conn<M>, m: M, replies: seq<Reply>, posted: seq<M>)
    requires Consistent(c, posted)
    ensures Consistent(Post(c, m, replies), posted + [m])
  {
    var queued := c.(queue := c.queue + [m]);
    assert queued.done + queued.queue == posted + [m];
    if |queued.queue| == 1 {
      StartKeeps(queued, replies, posted + [m]);
    }
  }

  /** In every interleaving of posts and completions, with any sends completing inline, the
      connection is consistent with what was posted. */
  lemma {:induction false} AllRunsConsistent<M>(events: seq<Event<M>>)
    ensures Consistent(Run(Idle(), events), PostedIn(events))
    decreases |events|
  {
    if events != [] {
      var before, last := events[..|events| - 1], events[|events| - 1];
      AllRunsConsistent(before);
      var c := Run(Idle(), before);
      match last {
        case Posted(m, replies) => PostKeeps(c, m, replies, PostedIn(before));
        case Completed(error, replies) =>
          if c.inFlight {
            CompleteKeeps(c, error, replies, PostedIn(before));
          }
      }
    }
  }

  /** After the first error no further send starts, whatever is posted. */
  lemma {:induction false} ErrorIsFinal<M>(c: Conn<M>, posted: seq<M>, events: seq<Event<M>>)
    requires Consistent(c, posted) && c.dead
    ensures Run(c, events) == c.(queue := c.queue + PostedIn(events))
    decreases |events|
  {
    if events != [] {
      ErrorIsFinal(c, posted, events[..|events| - 1]);
    } else {
      assert c.queue + PostedIn(events) == c.queue;
    }
  }

  // ---------- inline completions ----------

  /** Completions that arrive one by one, later. */
  function Deliver<M>(c: Conn<M>, replies: seq<Reply>): Conn<M>
    decreases |replies|
  {
    if replies == [] || replies[0] == Later || !c.inFlight || c.queue == [] then c
    else Deliver(Complete(c, replies[0] == Failed, []), replies[1..])
  }

  /** A send that completes inline has the effect of one that completes later. */
  lemma {:induction false} InlineIsLater<M>(c: Conn<M>, replies: seq<Reply>)
    requires c.queue != []
    ensures Start(c, replies) == Deliver(Start(c, []), replies)
    decreases |c.queue|
  {
    if replies != [] && replies[0] == Sent && |c.queue| > 1 {
      var sending := Start(c, []);
      var popped := sending.(inFlight := false, queue := c.queue[1..], done := c.done + [c.queue[0]]);
      InlineIsLater(popped, replies[1..]);
      assert Complete(sending, false, []) == Start(popped, []);
    } else if replies != [] && replies[0] != Later {
      assert !Start(c, replies).inFlight;
      assert Deliver(Complete(Start(c, []), replies[0] == Failed, []), replies[1..]) ==
             Complete(Start(c, []), replies[0] == Failed, []);
    }
  }

  lemma InlinePostIsLater<M>(c: Conn<M>, m: M, replies: seq<Reply>)
    requires c.queue == []
    ensures Post(c, m, replies) == Deliver(Post(c, m, []), replies)
  {
    InlineIsLater(c.(queue := c.queue + [m]), replies);
  }

  // ---------- what has been sent ----------

  /** How many messages have been posted, how many sends have succeeded, and whether one has failed. */
  datatype Count = Count(posted: nat, sent: nat, failed: bool) {
    predicate Sending() {
      sent < posted && !failed
    }

    /** Sends that end with these results, one after the other, as long as there is something to send. */
    function Ended(replies: seq<Reply>): Count
      decreases |replies|
    {
      if replies == [] || !Sending() then this
      else match replies[0]
        case Later => this
        case Failed => this.(failed := true)
        case Sent => this.(sent := sent + 1).Ended(replies[1..])
    }

    function After<M>(e: Event<M>): Count {
      match e
      case Posted(_, replies) =>
        var more := this.(posted := posted + 1);
        if Sending() || failed then more else more.Ended(replies)
      case Completed(error, replies) => Ended([if error then Failed else Sent] + replies)
    }
  }

  function Counted<M>(events: seq<Event<M>>): Count {
    if events == [] then Count(0, 0, false)
    else Counted(events[..|events| - 1]).After(events[|events| - 1])
  }

  /** A connection that has got as far as a count says with these messages. */
  ghost predicate Shows<M>(c: Conn<M>, messages: seq<M>, n: Count) {
    && n.posted == |messages| && n.sent <= n.posted && (n.failed ==> n.sent < n.posted)
    && c.queue == messages[n.sent..] && c.done == messages[..n.sent]
    && c.started == messages[..if n.sent < n.posted then n.sent + 1 else n.sent]
    && c.inFlight == n.Sending() && c.dead == n.failed
  }

  lemma {:induction false} StartShows<M>(c: Conn<M>, replies: seq<Reply>, messages: seq<M>, n: Count)
    requires n.posted == |messages| && n.Sending() && !c.dead && c.started == c.done
    requires c.queue == messages[n.sent..] && c.done == messages[..n.sent]
    ensures Shows(Start(c, replies), messages, n.Ended(replies))
    decreases |c.queue|, 1
  {
    var sending := c.(inFlight := true, started := c.started + [c.queue[0]]);
    assert Shows(sending, messages, n);
    if replies != [] && replies[0] != Later {
      assert [replies[0]] + replies[1..] == replies;
      CompleteShows(sending, replies[0] == Failed, replies[1..], messages, n);
    }
  }

  lemma {:induction false} CompleteShows<M>(c: Conn<M>, error: bool, replies: seq<Reply>, messages: seq<M>, n: Count)
    requires Shows(c, messages, n) && c.inFlight
    ensures Shows(Complete(c, error, replies), messages, n.Ended([if error then Failed else Sent] + replies))
    decreases |c.queue|, 0
  {
    var all := [if error then Failed else Sent] + replies;
    assert all[1..] == replies;
    if !error {
      var popped := c.(inFlight := false, queue := c.queue[1..], done := c.done + [c.queue[0]]);
      assert popped.queue == messages[n.sent + 1..] && popped.done == messages[..n.sent + 1];
      if popped.queue != [] {
        StartShows(popped, replies, messages, n.(sent := n.sent + 1));
      }
    }
  }

  lemma PostShows<M>(c: Conn<M>, m: M, replies: seq<Reply>, messages: seq<M>, n: Count)
    requires Shows(c, messages, n)
    ensures Shows(Post(c, m, replies), messages + [m], n.After(Posted(m, replies)))
  {
    var queued, more := c.(queue := c.queue + [m]), messages + [m];
    assert queued.queue == more[n.sent..] && more[..n.sent] == messages[..n.sent];
    if |queued.queue| == 1 {
      StartShows(queued, replies, more, n.(posted := n.posted + 1));
    } else {
      assert more[..n.sent + 1] == messages[..n.sent + 1];
    }
  }

  /** The whole state after any run, from three numbers: what was posted is sent in order, as far as sends have
      succeeded; the next is in flight, unless a send has failed, after which nothing is. */
  lemma {:induction false} RunShows<M>(events: seq<Event<M>>)
    ensures Shows(Run(Idle(), events), PostedIn(events), Counted(events))
    decreases |events|
  {
    hide Post, Complete;
    if events != [] {
      var n := |events| - 1;
      RunShows(events[..n]);
      var c, messages, count := Run(Idle(), events[..n]), PostedIn(events[..n]), Counted(events[..n]);
      match events[n] {
        case Posted(m, replies) => PostShows(c, m, replies, messages, count);
        case Completed(error, replies) =>
          assert messages + [] == messages;
          if c.inFlight {
            CompleteShows(c, error, replies, messages, count);
          }
      }
    }
  }

  // ---------- the connection as the program runs it ----------

  class BaseConnection<M> {
    var queue: seq<M>
    // The environment's side: the send outstanding and its history.
    var inFlight: bool
    var dead: bool
    var started: seq<M>
    var done: seq<M>

    ghost function Value(): Conn<M>
      reads this
    {
      Conn(queue, inFlight, dead, started, done)
    }

    constructor ()
      ensures Value() == Idle()
    {
      queue, inFlight, dead, started, done := [], false, false, [], [];
    }

    /** Runs on the strand for each message posted. */
    method Write(m: M, replies: seq<Reply>)
      modifies this
      ensures Value() == Post(old(Value()), m, replies)
    {
      queue := queue + [m];
      if |queue| > 1 {
        return;
      }
      WriteFront(replies);
    }

    method WriteFront(replies: seq<Reply>)
      requires queue != []
      modifies this
      ensures Value() == Start(old(Value()), replies)
      decreases |queue|, 1
    {
      inFlight, started := true, started + [queue[0]];
      if replies != [] && replies[0] != Later {
        OnSent(replies[0] == Failed, replies[1..]);
      }
    }

    /** The handler of a send. */
    method OnSent(error: bool, replies: seq<Reply>)
      requires queue != []
      modifies this
      ensures Value() == Complete(old(Value()), error, replies)
      decreases |queue|, 0
    {
      inFlight := false;
      if !error {
        done := done + [queue[0]];
        queue := queue[1..];
        if queue != [] {
          WriteFront(replies);
        }
      } else {
        dead := true;
      }
    }

    method RunAll(events: seq<Event<M>>)
      requires Value() == Idle()
      modifies this
      ensures Value() == Run(Idle(), events) && Consistent(Value(), PostedIn(events))
      ensures Shows(Value(), PostedIn(events), Counted(events))
    {
      for i := 0 to |events|
        invariant Value() == Run(Idle(), events[..i])
      {
        assert events[..i + 1][..i] == events[..i];
        match events[i] {
          case Posted(m, replies) => Write(m, replies);
          case Completed(error, replies) =>
            if inFlight && queue != [] {
              OnSent(error, replies);
            }
        }
      }
      assert events[..|events|] == events;
      AllRunsConsistent(events);
      RunShows(events);
    }
  }
}
