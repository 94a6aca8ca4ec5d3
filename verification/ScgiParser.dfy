/** The SCGI parser as the program runs it: one object per connection, fed whatever chunk the
    socket returned, copying message bodies in bulk. Proved against the deframer of `ScgiFraming`. */
module ScgiParser {
  import opened Bytes
  import opened ScgiFraming

  /** A parser's state: what the deframer sees, and `nread`, which the deframer's state fixes except
      after a refusal. There it keeps the value it had when the last part of the body arrived. */
  datatype Concrete = Concrete(v: View, nread: nat) {
    ghost predicate Valid() {
      v.phase.Refused? || nread == NreadOf(v, nread)
    }
  }

  function NreadOf(v: View, kept: nat): nat {
    match v.phase
    case InHeader(n) => n
    case InBody(got) => HEADER_SIZE + |got|
    case InSkip(k) => HEADER_SIZE + k
    case BadMarker => HEADER_SIZE
    case Refused => kept
  }

  datatype Fields = Fields(header: seq<byte>, msgbuf: seq<byte>, failed: bool, skipmsg: bool,
                           msgsize: nat, nread: nat)

  /** What the program's fields hold in each state. */
  function FieldsOf(c: Concrete): Fields {
    var h := c.v.header;
    match c.v.phase
    case InHeader(_) => Fields(h, [], false, false, 0, c.nread)
    case InBody(got) => Fields(h, got + Zeros(SizeOf(h) - |got|), false, false, |got|, c.nread)
    case InSkip(k) => Fields(h, [], false, true, k, c.nread)
    case BadMarker => Fields(h, [], true, false, 0, c.nread)
    case Refused => Fields(h, [], true, false, SizeOf(h), c.nread)
  }

  /** How many body bytes of the message that `w` refused had arrived before the chunk that took
      the parser from `v` to `w`. */
  function Carried(v: View, w: View): nat {
    if v.phase.InBody? && |w.log| == |v.log| + 1 then |v.phase.got| else 0
  }

  /** The parser after one chunk. */
  function After(d: Dispatcher, c: Concrete, chunk: seq<byte>): Concrete {
    var w := Run(d, c.v, chunk);
    Concrete(w, NreadOf(w, if c.v.Dead() then c.nread else HEADER_SIZE + Carried(c.v, w)))
  }

  /** The bulk reader: turns until the bytes are used up or the parser has failed. */
  function Turns(d: Dispatcher, c: Concrete, bytes: seq<byte>): Concrete
    decreases |bytes|, if c.v.phase.InHeader? then c.v.phase.filled else 0
  {
    if bytes == [] || c.v.Dead() then c
    else
      var (w, n) := Turn(d, c.v, bytes);
      var next := Concrete(w, NreadOf(w, c.nread));
      if w.Dead() then next else Turns(d, next, bytes[n..])
  }

  lemma TurnsOfNothing(d: Dispatcher, c: Concrete, bytes: seq<byte>)
    requires bytes == []
    ensures Turns(d, c, bytes) == c
  {
  }

  lemma TurnsUnfold(d: Dispatcher, c: Concrete, chunk: seq<byte>, i: nat, n: nat, next: Concrete)
    requires i < |chunk| && !c.v.Dead()
    requires (next.v, n) == Turn(d, c.v, chunk[i..]) && next.nread == NreadOf(next.v, c.nread)
    ensures i + n <= |chunk|
    ensures Turns(d, c, chunk[i..]) == if next.v.Dead() then next else Turns(d, next, chunk[i + n..])
  {
    assert chunk[i..][n..] == chunk[i + n..];
  }

  lemma {:induction false} TurnsIsRun(d: Dispatcher, c: Concrete, bytes: seq<byte>)
    requires c.Valid()
    ensures Turns(d, c, bytes).Valid()
    ensures Turns(d, c, bytes).v == Run(d, c.v, bytes)
    decreases |bytes|, if c.v.phase.InHeader? then c.v.phase.filled else 0
  {
    if c.v.Dead() {
      FailureIsFinal(d, c.v, bytes);
    } else if bytes != [] {
      TurnIsRun(d, c.v, bytes);
      var (w, n) := Turn(d, c.v, bytes);
      if !w.Dead() {
        TurnsIsRun(d, Concrete(w, NreadOf(w, c.nread)), bytes[n..]);
      }
    }
  }

  /** From inside a header, a refused message arrives wholly in the chunk that completes it. */
  lemma {:induction false} NothingCarried(d: Dispatcher, c: Concrete, bytes: seq<byte>)
    requires c.Valid() && c.v.phase.InHeader?
    requires Turns(d, c, bytes).v.phase.Refused?
    ensures Turns(d, c, bytes).nread == HEADER_SIZE
    ensures |Turns(d, c, bytes).v.log| > |c.v.log|
    decreases |bytes|, c.v.phase.filled
  {
    TurnEnds(d, c.v, bytes);
    var (w, n) := Turn(d, c.v, bytes);
    if !w.Dead() {
      NothingCarried(d, Concrete(w, NreadOf(w, c.nread)), bytes[n..]);
    }
  }

  /** The bulk reader refines the byte-at-a-time deframer. */
  lemma TurnsIsAfter(d: Dispatcher, c: Concrete, bytes: seq<byte>)
    requires c.Valid()
    ensures Turns(d, c, bytes) == After(d, c, bytes)
  {
    TurnsIsRun(d, c, bytes);
    if !c.v.Dead() && bytes != [] {
      var (w, n) := Turn(d, c.v, bytes);
      TurnEnds(d, c.v, bytes);
      var next := Concrete(w, NreadOf(w, c.nread));
      if !w.Dead() && n < |bytes| && Turns(d, next, bytes[n..]).v.phase.Refused? {
        NothingCarried(d, next, bytes[n..]);
      }
    }
  }

  // ---------- chunk independence of every field ----------

  /** The cut between `a` and `b` falls inside the body of a message that is then refused. */
  predicate CutsRefusedBody(d: Dispatcher, c: Concrete, a: seq<byte>, b: seq<byte>) {
    var middle, end := Run(d, c.v, a), Run(d, c.v, a + b);
    a != [] && middle.phase.InBody? && end.phase.Refused? && |end.log| == |middle.log| + 1
  }

  /** Two chunks leave the parser as their concatenation does: the same messages in the same order,
      the same closes, the same failure flag and the same value in every field. The one exception is
      `nread` after a refusal of a message whose body the cut divides. */
  lemma ChunkIndependence(d: Dispatcher, c: Concrete, a: seq<byte>, b: seq<byte>)
    requires c.Valid()
    ensures After(d, After(d, c, a), b).v == After(d, c, a + b).v
    ensures After(d, After(d, c, a), b) == After(d, c, a + b) <==> !CutsRefusedBody(d, c, a, b)
  {
    RunConcat(d, c.v, a, b);
    FailureIsFinal(d, c.v, a);
    var middle := Run(d, c.v, a);
    FailureIsFinal(d, middle, b);
    if a == [] {
      assert a + b == b;
    } else if c.v.phase.InBody? && middle.log == c.v.log {
      BodyGrows(d, c.v, a);
    }
  }

  /** The exception does occur: a two-byte message, refused, with the cut between its bytes. */
  lemma RefusalShowsTheCut()
    ensures var d: Dispatcher := log => Rejected;
      var a, b := HeaderBytes(2) + [1], [1];
      var c := Concrete(INITIAL, 0);
      && After(d, After(d, c, a), b).nread == HEADER_SIZE + 1
      && After(d, c, a + b).nread == HEADER_SIZE
  {
    var d: Dispatcher := log => Rejected;
    var h, a, b := HeaderBytes(2), HeaderBytes(2) + [1], [1];
    HeaderRoundTrip(2);
    HeaderIsRead(d, INITIAL, h);
    var judged := Run(d, INITIAL, h);
    RunConcat(d, INITIAL, h, [1]);
    BodyAfterHeader(d, judged, [1]);
    RunConcat(d, INITIAL, a, b);
    assert TakeBody(d, Run(d, INITIAL, a), [1], 1).phase == Refused;
    assert Run(d, Run(d, INITIAL, a), b).phase == Refused;
  }

  class Parser {
    const dispatcher: Dispatcher
    var header: seq<byte>
    var msgbuf: seq<byte>
    var failed: bool
    var skipmsg: bool
    var msgsize: nat
    var nread: nat
    /** The effects the parser has on its surroundings: messages handed to the dispatcher, and
        calls of `close` on the connection. */
    var log: seq<Message>
    var closes: nat

    ghost predicate Valid()
      reads this
    {
      && |header| == HEADER_SIZE
      && (failed ==> msgbuf == [] && !skipmsg)
      && (failed && msgsize == 0 ==> !ValidMarker(header) && nread == HEADER_SIZE)
      && (failed && msgsize > 0 ==>
            && ValidMarker(header) && msgsize == SizeOf(header) <= MAX_MSG_SIZE
            && HEADER_SIZE <= nread < HEADER_SIZE + msgsize)
      && (!failed && nread <= HEADER_SIZE ==> msgsize == 0 && !skipmsg && msgbuf == [])
      && (!failed && nread > HEADER_SIZE ==>
            && ValidMarker(header) && nread == HEADER_SIZE + msgsize && msgsize < SizeOf(header)
            && skipmsg == Overflow(header)
            && (skipmsg ==> msgbuf == [])
            && (!skipmsg ==> |msgbuf| == SizeOf(header) <= MAX_MSG_SIZE && msgbuf[msgsize..] == Zeros(|msgbuf| - msgsize)))
    }

    ghost function Abstract(): View
      requires Valid()
      reads this
    {
      var phase :=
        if failed then (if msgsize == 0 then BadMarker else Refused)
        else if nread <= HEADER_SIZE then InHeader(nread)
        else if skipmsg then InSkip(msgsize)
        else InBody(msgbuf[..msgsize]);
      View(header, phase, log, closes)
    }

    ghost function State(): Concrete
      requires Valid()
      reads this
    {
      Concrete(Abstract(), nread)
    }

    ghost function Snapshot(): Fields
      reads this
    {
      Fields(header, msgbuf, failed, skipmsg, msgsize, nread)
    }

    /** The state determines every field, so contracts may speak of the state alone. */
    lemma StateFixesFields()
      requires Valid()
      ensures State().Valid() && Snapshot() == FieldsOf(State())
    {
      if !failed && nread > HEADER_SIZE && !skipmsg {
        assert msgbuf == msgbuf[..msgsize] + msgbuf[msgsize..];
      }
    }

    constructor (d: Dispatcher)
      ensures Valid() && dispatcher == d
      ensures Abstract() == INITIAL
    {
      dispatcher := d;
      header := HeaderBytes(0);
      msgbuf, failed, skipmsg, msgsize, nread := [], false, false, 0, 0;
      log, closes := [], 0;
    }

    /** Hands `msgbuf` to the dispatcher, an exception counting as a refusal. */
    method OnMessage() returns (ret: bool)
      modifies this`log
      ensures log == old(log) + [msgbuf]
      ensures ret == dispatcher(log).Accepted?
    {
      log := log + [msgbuf];
      var verdict := dispatcher(log);
      ret := false;
      match verdict {
        case Accepted => ret := true;
        case Rejected => ret := false;
        case Threw =>
      }
    }

    /** A message is due, its header has been judged and `msgbuf` has its final size. */
    ghost predicate Judged()
      reads this
    {
      && |header| == HEADER_SIZE && !failed
      && ValidMarker(header) && nread == HEADER_SIZE + msgsize && msgsize < SizeOf(header)
      && skipmsg == Overflow(header)
      && (skipmsg ==> msgbuf == [])
      && (!skipmsg ==> |msgbuf| == SizeOf(header) && msgbuf[msgsize..] == Zeros(|msgbuf| - msgsize))
    }

    /** The deframer's view of a judged parser; the header may have been judged just now. */
    ghost function Pending(): View
      requires Judged()
      reads this
    {
      var phase :=
        if msgsize == 0 then InHeader(HEADER_SIZE)
        else if skipmsg then InSkip(msgsize)
        else InBody(msgbuf[..msgsize]);
      View(header, phase, log, closes)
    }

    /** Takes the next part of a due message out of `chunk`, and dispatches a complete one. */
    method Absorb(chunk: seq<byte>, i: nat) returns (needs: nat, ret: bool)
      requires i < |chunk| && Judged()
      modifies this
      ensures Valid() && ret == !failed
      ensures 0 < needs <= |chunk| - i
      ensures needs == |chunk| - i || needs == SizeOf(old(header)) - old(msgsize)
      ensures needs <= SizeOf(old(header)) - old(msgsize)
      ensures Abstract() == TakePart(dispatcher, old(Pending()), chunk[i..i + needs])
      ensures failed ==> nread == old(nread)
    {
      ghost var before := Pending();
      needs := SizeOf(header) - msgsize;
      if needs > |chunk| - i {
        needs := |chunk| - i;
      }
      if !skipmsg {
        msgbuf := msgbuf[..msgsize] + chunk[i..i + needs] + msgbuf[msgsize + needs..];
        assert msgbuf[..msgsize + needs] == Received(before) + chunk[i..i + needs];
      }
      msgsize := msgsize + needs;
      if msgsize == SizeOf(header) {
        if !skipmsg {
          assert msgbuf == Received(before) + chunk[i..i + needs];
          ret := OnMessage();
          msgbuf := [];
          if !ret {
            closes := closes + 1;
            failed := true;
            return;
          }
        } else {
          skipmsg := false;
        }
        msgsize, nread := 0, 0;
      } else {
        nread := nread + needs;
      }
      ret := true;
    }

    /** Looks at a complete header: closes on a bad marker, drops an empty message, and otherwise
        prepares to skip or to receive what the header announces. */
    method Judge() returns (due: bool)
      requires Valid() && !failed && nread == HEADER_SIZE
      modifies this
      ensures header == old(header) && log == old(log)
      ensures due ==> Judged() && Pending() == old(Abstract())
      ensures !due ==> Valid() && failed == !ValidMarker(header)
      ensures !due && failed ==> Abstract() == old(Abstract()).(phase := BadMarker, closes := old(closes) + 1)
      ensures !due && !failed ==> SizeOf(header) == 0 && Abstract() == old(Abstract()).(phase := InHeader(0))
    {
      if !ValidMarker(header) {
        closes := closes + 1;
        failed := true;
        return false;
      }
      if Overflow(header) {
        skipmsg := true;
      } else {
        skipmsg := false;
        msgsize := 0;
        msgbuf := Zeros(SizeOf(header)); // a resize of the empty buffer
        if SizeOf(header) == 0 {
          nread := 0;
          return false;
        }
      }
      return true;
    }

    /** A complete header has arrived: judge it, and take what is there of the message. Returns how
        many bytes that consumed, which is none for an empty message and for a bad marker. */
    method Resume(chunk: seq<byte>, i: nat) returns (n: nat)
      requires Valid() && !failed && nread >= HEADER_SIZE && i < |chunk|
      modifies this
      ensures Valid()
      ensures (Abstract(), n) == Turn(dispatcher, old(Abstract()), chunk[i..])
      ensures nread == NreadOf(Abstract(), old(nread))
      ensures n == 0 && !failed ==> nread < old(nread)
    {
      if nread == HEADER_SIZE {
        var due := Judge();
        if !due {
          return 0;
        }
      }
      var ret;
      n, ret := Absorb(chunk, i);
      assert chunk[i..][..n] == chunk[i..i + n];
    }

    /** The body of the loop, at `chunk[i]`. */
    method TakeTurn(chunk: seq<byte>, i: nat) returns (n: nat)
      requires Valid() && !failed && i < |chunk|
      modifies this
      ensures Valid() && i + n <= |chunk|
      ensures Turns(dispatcher, old(State()), chunk[i..]) ==
              if failed then State() else Turns(dispatcher, State(), chunk[i + n..])
      ensures n == 0 && !failed ==> nread < old(nread)
    {
      ghost var before := State();
      if nread < HEADER_SIZE {
        header := header[nread := chunk[i]];
        nread := nread + 1;
        n := 1;
      } else {
        n := Resume(chunk, i);
      }
      TurnsUnfold(dispatcher, before, chunk, i, n, State());
    }

    /** The loop over a chunk. */
    method TakeTurns(chunk: seq<byte>) returns (ok: bool)
      requires Valid() && !failed
      modifies this
      ensures Valid()
      ensures State() == Turns(dispatcher, old(State()), chunk)
      ensures ok == !failed
    {
      hide Turns;
      ghost var goal := Turns(dispatcher, State(), chunk);
      var i := 0;
      assert chunk[i..] == chunk;
      while i < |chunk|
        invariant 0 <= i <= |chunk| && !failed && Valid()
        invariant Turns(dispatcher, State(), chunk[i..]) == goal
        decreases |chunk| - i, nread
      {
        var n := TakeTurn(chunk, i);
        if failed {
          return false;
        }
        i := i + n;
      }
      TurnsOfNothing(dispatcher, State(), chunk[i..]);
      return true;
    }

    method Process(chunk: seq<byte>) returns (ok: bool)
      requires Valid()
      modifies this
      ensures Valid()
      ensures State() == After(dispatcher, old(State()), chunk)
      ensures ok == !failed
    {
      StateFixesFields();
      TurnsIsAfter(dispatcher, State(), chunk);
      if failed {
        return false;
      }
      ok := TakeTurns(chunk);
    }

    /** The read loop: process what each read returns until one is not processed. */
    method Read(chunks: seq<seq<byte>>) returns (ok: bool)
      requires Valid()
      modifies this
      ensures Valid()
      ensures Abstract() == RunChunks(dispatcher, old(Abstract()), chunks)
      ensures chunks != [] ==> ok == !failed
      ensures old(Abstract()) == INITIAL ==>
                && Reading(log, failed) == Messages(dispatcher, [], Flatten(chunks))
                && closes == if failed then 1 else 0
    {
      EveryListOfReads(dispatcher, chunks);
      ghost var start := Abstract();
      ok := true;
      var i := 0;
      while i < |chunks|
        invariant 0 <= i <= |chunks| && Valid()
        invariant RunChunks(dispatcher, Abstract(), chunks[i..]) == RunChunks(dispatcher, start, chunks)
        invariant i > 0 ==> ok && !failed
      {
        ok := Process(chunks[i]);
        i := i + 1;
        if !ok {
          RunChunksFlattens(dispatcher, Abstract(), chunks[i..]);
          FailureIsFinal(dispatcher, Abstract(), Flatten(chunks[i..]));
          return;
        }
      }
    }
  }
}
