/** The SCGI wire format, independent of how bytes arrive: a reference deframer that
    looks at one byte at a time, and what it makes of a stream of frames. */
module ScgiFraming {
  import opened Bytes

  const HEADER_SIZE := 8
  const MARKER: u32 := 0xFB
  const MAX_MSG_SIZE := 1024 * 1024

  type Message = seq<byte>

  datatype Verdict = Accepted | Rejected | Threw

  /** The dispatcher's answer to the newest message, given everything dispatched so far
      (the newest message comes last). */
  type Dispatcher = seq<Message> -> Verdict

  function HeaderBytes(size: u32): (h: seq<byte>)
    ensures |h| == HEADER_SIZE
  {
    Le32(MARKER) + Le32(size)
  }

  function SizeOf(h: seq<byte>): u32
    requires |h| == HEADER_SIZE
  {
    Le32At(h, 4)
  }

  predicate ValidMarker(h: seq<byte>)
    requires |h| == HEADER_SIZE
  {
    Le32At(h, 0) == MARKER
  }

  predicate Overflow(h: seq<byte>)
    requires |h| == HEADER_SIZE
  {
    SizeOf(h) > MAX_MSG_SIZE
  }

  lemma HeaderRoundTrip(size: u32)
    ensures ValidMarker(HeaderBytes(size)) && SizeOf(HeaderBytes(size)) == size
  {
    Le32RoundTrip(MARKER);
    Le32RoundTrip(size);
    var h := HeaderBytes(size);
    assert h[..4] == Le32(MARKER) && h[4..] == Le32(size);
  }

  /** Where the deframer is. A complete header stays `InHeader(HEADER_SIZE)`: it is only
      judged when one more byte is there. */
  datatype Phase =
    | InHeader(filled: nat)
    | InBody(got: seq<byte>)
    | InSkip(skipped: nat)
    | BadMarker
    | Refused

  datatype RawView = View(header: seq<byte>, phase: Phase, log: seq<Message>, closes: nat) {
    ghost predicate Valid() {
      && |header| == HEADER_SIZE
      && match phase
         case InHeader(n) => n <= HEADER_SIZE
         case InBody(got) => ValidMarker(header) && !Overflow(header) && 0 < |got| < SizeOf(header)
         case InSkip(k) => ValidMarker(header) && Overflow(header) && 0 < k < SizeOf(header)
         case BadMarker => !ValidMarker(header)
         case Refused => ValidMarker(header) && 0 < SizeOf(header) <= MAX_MSG_SIZE
    }

    predicate Dead() {
      phase.BadMarker? || phase.Refused?
    }
  }

  const INITIAL: RawView := View(HeaderBytes(0), InHeader(0), [], 0)

  type View = v: RawView | v.Valid() witness INITIAL

  function TakeHeader(v: View, n: nat, c: byte): View
    requires n < HEADER_SIZE
  {
    v.(header := v.header[n := c], phase := InHeader(n + 1))
  }

  function Dispatch(d: Dispatcher, v: View, msg: Message): View
    requires ValidMarker(v.header) && !Overflow(v.header) && 0 < |msg| == SizeOf(v.header)
  {
    var log := v.log + [msg];
    if d(log).Accepted?
    then v.(phase := InHeader(0), log := log)
    else v.(phase := Refused, log := log, closes := v.closes + 1)
  }

  function TakeBody(d: Dispatcher, v: View, got: seq<byte>, c: byte): View
    requires ValidMarker(v.header) && !Overflow(v.header) && |got| < SizeOf(v.header)
  {
    if |got| + 1 == SizeOf(v.header) then Dispatch(d, v, got + [c]) else v.(phase := InBody(got + [c]))
  }

  function TakeSkip(v: View, k: nat): View
    requires ValidMarker(v.header) && Overflow(v.header) && k < SizeOf(v.header)
  {
    v.(phase := if k + 1 == SizeOf(v.header) then InHeader(0) else InSkip(k + 1))
  }

  /** One byte of the stream. */
  function Step(d: Dispatcher, v: View, c: byte): View {
    match v.phase
    case InHeader(n) =>
      if n < HEADER_SIZE then TakeHeader(v, n, c)
      else if !ValidMarker(v.header) then v.(phase := BadMarker, closes := v.closes + 1)
      else if SizeOf(v.header) == 0 then TakeHeader(v, 0, c)
      else if Overflow(v.header) then TakeSkip(v, 0)
      else TakeBody(d, v, [], c)
    case InBody(got) => TakeBody(d, v, got, c)
    case InSkip(k) => TakeSkip(v, k)
    case BadMarker => v
    case Refused => v
  }

  function Run(d: Dispatcher, v: View, bytes: seq<byte>): View
    decreases |bytes|
  {
    if bytes == [] then v else Run(d, Step(d, v, bytes[0]), bytes[1..])
  }

  function RunChunks(d: Dispatcher, v: View, chunks: seq<seq<byte>>): View
    decreases |chunks|
  {
    if chunks == [] then v else RunChunks(d, Run(d, v, chunks[0]), chunks[1..])
  }

  // ---------- chunk independence of the abstract state ----------

  lemma {:induction false} RunConcat(d: Dispatcher, v: View, a: seq<byte>, b: seq<byte>)
    ensures Run(d, Run(d, v, a), b) == Run(d, v, a + b)
    decreases |a|
  {
    if a == [] {
      assert a + b == b;
    } else {
      var next := Step(d, v, a[0]);
      var all := a + b;
      assert all[0] == a[0] && all[1..] == a[1..] + b;
      RunConcat(d, next, a[1..], b);
      assert Run(d, v, all) == Run(d, next, all[1..]);
    }
  }

  lemma {:induction false} RunChunksFlattens(d: Dispatcher, v: View, chunks: seq<seq<byte>>)
    ensures RunChunks(d, v, chunks) == Run(d, v, Flatten(chunks))
    decreases |chunks|
  {
    if chunks != [] {
      RunChunksFlattens(d, Run(d, v, chunks[0]), chunks[1..]);
      RunConcat(d, v, chunks[0], Flatten(chunks[1..]));
    }
  }

  // ---------- what runs keep ----------

  /** Nothing is dispatched and nothing is closed after a failure; the log only grows; and the
      connection is closed exactly once, by the step that fails. */
  lemma {:induction false} FailureIsFinal(d: Dispatcher, v: View, bytes: seq<byte>)
    ensures var w := Run(d, v, bytes);
      && v.log <= w.log
      && (v.Dead() ==> w == v)
      && w.closes == v.closes + (if w.Dead() && !v.Dead() then 1 else 0)
      && (w.phase.Refused? && !v.Dead() ==> |w.log| > |v.log|)
    decreases |bytes|
  {
    if bytes != [] {
      FailureIsFinal(d, Step(d, v, bytes[0]), bytes[1..]);
    }
  }

  /** While nothing is dispatched, a body only grows by the bytes that arrive. */
  lemma {:induction false} BodyGrows(d: Dispatcher, v: View, a: seq<byte>)
    requires v.phase.InBody?
    requires Run(d, v, a).log == v.log
    ensures Run(d, v, a).phase == InBody(v.phase.got + a)
    decreases |a|
  {
    if a == [] {
      assert v.phase.got + a == v.phase.got;
    } else {
      var next := Step(d, v, a[0]);
      FailureIsFinal(d, next, a[1..]);
      assert next.phase == InBody(v.phase.got + [a[0]]);
      BodyGrows(d, next, a[1..]);
      assert v.phase.got + a == v.phase.got + [a[0]] + a[1..];
    }
  }

  // ---------- runs of bytes inside one frame ----------

  lemma {:induction false} HeaderFills(d: Dispatcher, v: View, n: nat, bytes: seq<byte>)
    requires v.phase == InHeader(n) && n + |bytes| <= HEADER_SIZE
    ensures Run(d, v, bytes) ==
            v.(header := v.header[..n] + bytes + v.header[n + |bytes|..], phase := InHeader(n + |bytes|))
    decreases |bytes|
  {
    if bytes == [] {
      assert v.header == v.header[..n] + bytes + v.header[n..];
    } else {
      var next := TakeHeader(v, n, bytes[0]);
      HeaderFills(d, next, n + 1, bytes[1..]);
      assert next.header[..n + 1] + bytes[1..] == v.header[..n] + bytes;
      assert next.header[n + |bytes|..] == v.header[n + |bytes|..];
    }
  }

  lemma {:induction false} BodyCopies(d: Dispatcher, v: View, bytes: seq<byte>)
    requires v.phase.InBody? && |v.phase.got| + |bytes| <= SizeOf(v.header)
    ensures Run(d, v, bytes) ==
            var got := v.phase.got + bytes;
            if |got| == SizeOf(v.header) then Dispatch(d, v, got) else v.(phase := InBody(got))
    decreases |bytes|
  {
    if bytes == [] {
      assert v.phase.got + bytes == v.phase.got;
    } else {
      assert v.phase.got + bytes == v.phase.got + [bytes[0]] + bytes[1..];
      var next := TakeBody(d, v, v.phase.got, bytes[0]);
      if |bytes| == 1 {
        assert bytes == [bytes[0]];
      } else {
        BodyCopies(d, next, bytes[1..]);
      }
    }
  }

  lemma {:induction false} SkipCounts(d: Dispatcher, v: View, bytes: seq<byte>)
    requires v.phase.InSkip? && v.phase.skipped + |bytes| <= SizeOf(v.header)
    ensures Run(d, v, bytes) ==
            var k := v.phase.skipped + |bytes|;
            v.(phase := if k == SizeOf(v.header) then InHeader(0) else InSkip(k))
    decreases |bytes|
  {
    if |bytes| == 1 {
      assert bytes[1..] == [];
    } else if bytes != [] {
      SkipCounts(d, TakeSkip(v, v.phase.skipped), bytes[1..]);
    }
  }

  /** The bulk form of a judged header followed by (part of) the message it announces. */
  lemma BodyAfterHeader(d: Dispatcher, v: View, bytes: seq<byte>)
    requires v.phase == InHeader(HEADER_SIZE) && ValidMarker(v.header) && !Overflow(v.header)
    requires 0 < |bytes| <= SizeOf(v.header)
    ensures Run(d, v, bytes) ==
            if |bytes| == SizeOf(v.header) then Dispatch(d, v, bytes) else v.(phase := InBody(bytes))
  {
    var next := TakeBody(d, v, [], bytes[0]);
    assert Run(d, v, bytes) == Run(d, next, bytes[1..]);
    assert bytes == [bytes[0]] + bytes[1..];
    if |bytes| == 1 {
      assert [] + [bytes[0]] == bytes && bytes[1..] == [];
    } else {
      assert [] + [bytes[0]] == [bytes[0]];
      BodyCopies(d, next, bytes[1..]);
      assert next.phase.got + bytes[1..] == bytes;
    }
  }

  lemma SkipAfterHeader(d: Dispatcher, v: View, bytes: seq<byte>)
    requires v.phase == InHeader(HEADER_SIZE) && ValidMarker(v.header) && Overflow(v.header)
    requires 0 < |bytes| <= SizeOf(v.header)
    ensures Run(d, v, bytes) ==
            v.(phase := if |bytes| == SizeOf(v.header) then InHeader(0) else InSkip(|bytes|))
  {
    var next := TakeSkip(v, 0);
    assert Run(d, v, bytes) == Run(d, next, bytes[1..]);
    if |bytes| == 1 {
      assert bytes[1..] == [];
    } else {
      assert next == v.(phase := InSkip(1));
      SkipCounts(d, next, bytes[1..]);
    }
  }

  /** A message is due: its header is complete, and it is not complete itself. */
  predicate Due(v: View) {
    || v.phase.InBody?
    || v.phase.InSkip?
    || (v.phase == InHeader(HEADER_SIZE) && ValidMarker(v.header) && SizeOf(v.header) > 0)
  }

  function Received(v: View): (got: seq<byte>)
    ensures Due(v) ==> |got| < SizeOf(v.header)
  {
    if v.phase.InBody? then v.phase.got else []
  }

  function Skipped(v: View): (k: nat)
    ensures Due(v) ==> k < SizeOf(v.header)
  {
    if v.phase.InSkip? then v.phase.skipped else 0
  }

  /** Bulk reading: a part of a due message, taken at once. */
  function TakePart(d: Dispatcher, v: View, part: seq<byte>): View
    requires Due(v) && 0 < |part| <= SizeOf(v.header) - |Received(v)| - Skipped(v)
  {
    if Overflow(v.header) then
      var k := Skipped(v) + |part|;
      v.(phase := if k == SizeOf(v.header) then InHeader(0) else InSkip(k))
    else
      var got := Received(v) + part;
      if |got| == SizeOf(v.header) then Dispatch(d, v, got) else v.(phase := InBody(got))
  }

  lemma PartIsRead(d: Dispatcher, v: View, part: seq<byte>)
    requires Due(v) && 0 < |part| <= SizeOf(v.header) - |Received(v)| - Skipped(v)
    ensures Run(d, v, part) == TakePart(d, v, part)
  {
    if v.phase.InBody? {
      BodyCopies(d, v, part);
    } else if v.phase.InSkip? {
      SkipCounts(d, v, part);
    } else if Overflow(v.header) {
      SkipAfterHeader(d, v, part);
    } else {
      BodyAfterHeader(d, v, part);
      assert Received(v) + part == part;
    }
  }

  /** One turn of the bulk reader: the new state, and the bytes consumed. */
  function Turn(d: Dispatcher, v: View, bytes: seq<byte>): (r: (View, nat))
    requires !v.Dead() && bytes != []
    ensures r.1 <= |bytes|
  {
    if v.phase.InHeader? && v.phase.filled < HEADER_SIZE then
      (TakeHeader(v, v.phase.filled, bytes[0]), 1)
    else if v.phase.InHeader? && !ValidMarker(v.header) then
      (v.(phase := BadMarker, closes := v.closes + 1), 0)
    else if v.phase.InHeader? && SizeOf(v.header) == 0 then
      (v.(phase := InHeader(0)), 0)
    else
      var due := SizeOf(v.header) - |Received(v)| - Skipped(v);
      var n := if due > |bytes| then |bytes| else due;
      (TakePart(d, v, bytes[..n]), n)
  }

  /** A turn that leaves bytes over ends inside a header, so only the first turn of a chunk can be
      in the middle of a message. */
  lemma TurnEnds(d: Dispatcher, v: View, bytes: seq<byte>)
    requires !v.Dead() && bytes != []
    ensures var (w, n) := Turn(d, v, bytes);
      && v.log <= w.log
      && (w.phase.Refused? ==> !v.phase.InSkip? && |w.log| == |v.log| + 1)
      && (!w.Dead() && n < |bytes| ==> w.phase.InHeader?)
      && (!w.Dead() && n < |bytes| && v.phase.InBody? ==> |w.log| > |v.log|)
  {
  }

  /** A turn stands for as many single steps. */
  lemma TurnIsRun(d: Dispatcher, v: View, bytes: seq<byte>)
    requires !v.Dead() && bytes != []
    ensures var (w, n) := Turn(d, v, bytes);
      Run(d, v, bytes) == if w.Dead() then w else Run(d, w, bytes[n..])
  {
    var (w, n) := Turn(d, v, bytes);
    if v.phase.InHeader? && v.phase.filled < HEADER_SIZE {
    } else if v.phase.InHeader? && !ValidMarker(v.header) {
      FailureIsFinal(d, w, bytes[1..]);
    } else if v.phase.InHeader? && SizeOf(v.header) == 0 {
      BoundaryIsFresh(d, v, bytes);
    } else {
      assert bytes == bytes[..n] + bytes[n..];
      PartIsRead(d, v, bytes[..n]);
      RunConcat(d, v, bytes[..n], bytes[n..]);
      FailureIsFinal(d, w, bytes[n..]);
    }
  }

  // ---------- framing round trip ----------

  /** What `Message` puts on the wire for a payload; the length field truncates to 32 bits. */
  function Frame(payload: Message): seq<byte> {
    HeaderBytes(|payload| % 0x1_0000_0000) + payload
  }

  function Frames(payloads: seq<Message>): seq<byte> {
    if payloads == [] then [] else Frame(payloads[0]) + Frames(payloads[1..])
  }

  /** The payloads a receiver is handed: those of 1 byte to 1 MiB. */
  function Deliverable(payloads: seq<Message>): seq<Message> {
    if payloads == [] then []
    else (if 0 < |payloads[0]| <= MAX_MSG_SIZE then [payloads[0]] else []) + Deliverable(payloads[1..])
  }

  /** Between frames: nothing pending, or a pending header that announces nothing. */
  ghost predicate AtBoundary(v: View) {
    || v.phase == InHeader(0)
    || (v.phase == InHeader(HEADER_SIZE) && ValidMarker(v.header) && SizeOf(v.header) == 0)
  }

  ghost predicate AcceptsAll(d: Dispatcher) {
    forall log :: d(log) == Accepted
  }

  /** Any bytes after a boundary are read as they would be by a parser that has just been made. */
  lemma BoundaryIsFresh(d: Dispatcher, v: View, bytes: seq<byte>)
    requires AtBoundary(v) && bytes != []
    ensures Run(d, v, bytes) == Run(d, v.(phase := InHeader(0)), bytes)
  {
    assert Step(d, v, bytes[0]) == Step(d, v.(phase := InHeader(0)), bytes[0]);
  }

  lemma HeaderIsRead(d: Dispatcher, v: View, h: seq<byte>)
    requires AtBoundary(v) && |h| == HEADER_SIZE
    ensures Run(d, v, h) == v.(header := h, phase := InHeader(HEADER_SIZE))
  {
    var start := v.(phase := InHeader(0));
    BoundaryIsFresh(d, v, h);
    HeaderFills(d, start, 0, h);
    assert v.header[..0] + h + v.header[HEADER_SIZE..] == h;
  }

  /** A header and the payload it announces: a payload of 1 byte to 1 MiB is dispatched, and unless it is
      accepted the connection is closed; any other is passed over. */
  lemma PayloadIsJudged(d: Dispatcher, v: View, h: seq<byte>, payload: Message)
    requires AtBoundary(v)
    requires |h| == HEADER_SIZE && ValidMarker(h) && SizeOf(h) == |payload|
    ensures var w := Run(d, v, h + payload);
      if 0 < |payload| <= 1048576 then
        && w.log == v.log + [payload]
        && (w.Dead() <==> d(w.log) != Accepted)
        && w.closes == v.closes + (if d(w.log) == Accepted then 0 else 1)
        && (d(w.log) == Accepted ==> AtBoundary(w))
      else AtBoundary(w) && w.log == v.log && w.closes == v.closes
  {
    var judged := v.(header := h, phase := InHeader(HEADER_SIZE));
    HeaderIsRead(d, v, h);
    RunConcat(d, v, h, payload);
    if |payload| > MAX_MSG_SIZE {
      SkipAfterHeader(d, judged, payload);
    } else if payload != [] {
      BodyAfterHeader(d, judged, payload);
    }
  }

  lemma FrameIsJudged(d: Dispatcher, v: View, payload: Message)
    requires AtBoundary(v) && |payload| < 0x1_0000_0000
    ensures var w := Run(d, v, Frame(payload));
      if 0 < |payload| <= 1048576 then
        && w.log == v.log + [payload]
        && (w.Dead() <==> d(w.log) != Accepted)
        && w.closes == v.closes + (if d(w.log) == Accepted then 0 else 1)
        && (d(w.log) == Accepted ==> AtBoundary(w))
      else AtBoundary(w) && w.log == v.log && w.closes == v.closes
  {
    hide Run, HeaderBytes, ValidMarker, SizeOf, AtBoundary;
    HeaderRoundTrip(|payload|);
    PayloadIsJudged(d, v, HeaderBytes(|payload|), payload);
  }

  lemma PayloadIsRead(d: Dispatcher, v: View, h: seq<byte>, payload: Message)
    requires AtBoundary(v) && AcceptsAll(d)
    requires |h| == HEADER_SIZE && ValidMarker(h) && SizeOf(h) == |payload|
    ensures var w := Run(d, v, h + payload);
      && AtBoundary(w)
      && w.log == v.log + Deliverable([payload])
      && w.closes == v.closes
  {
    hide Run, ValidMarker, SizeOf, AtBoundary;
    PayloadIsJudged(d, v, h, payload);
    assert Deliverable([payload][1..]) == [];
  }

  lemma FrameIsRead(d: Dispatcher, v: View, payload: Message)
    requires AtBoundary(v) && |payload| < 0x1_0000_0000 && AcceptsAll(d)
    ensures var w := Run(d, v, Frame(payload));
      && AtBoundary(w)
      && w.log == v.log + Deliverable([payload])
      && w.closes == v.closes
  {
    hide Run, HeaderBytes, ValidMarker, SizeOf, Deliverable;
    HeaderRoundTrip(|payload|);
    PayloadIsRead(d, v, HeaderBytes(|payload|), payload);
  }

  /** From `log` on, `end` has gone through `all` in order, up to and including the first that is not accepted. */
  ghost predicate GoneThrough(d: Dispatcher, log: seq<Message>, all: seq<Message>, end: seq<Message>) {
    var n := |end| - |log|;
    && 0 <= n <= |all| && end == log + all[..n]
    && (forall i | 0 < i < n :: d(log + all[..i]) == Accepted)
    && (n == |all| || (n > 0 && d(end) != Accepted))
  }

  /** A stream of frames dispatches the payloads of 1 byte to 1 MiB, in order and unchanged, up to and
      including the first that is not accepted; and the connection is closed if and only if there is one. */
  lemma {:induction false} FramesAreJudged(d: Dispatcher, v: View, payloads: seq<Message>)
    requires AtBoundary(v)
    requires forall p | p in payloads :: |p| < 0x1_0000_0000
    ensures var w := Run(d, v, Frames(payloads));
      && GoneThrough(d, v.log, Deliverable(payloads), w.log)
      && (w.Dead() <==> |w.log| > |v.log| && d(w.log) != Accepted)
      && (!w.Dead() ==> AtBoundary(w))
      && w.closes == v.closes + (if w.Dead() then 1 else 0)
    decreases |payloads|
  {
    hide Run, Frame, Deliverable, AtBoundary, GoneThrough;
    AtBoundaryLives(v);
    if payloads == [] {
      NoFrames(d, v);
      NothingToDo(d, v.log);
    } else {
      var first, rest := payloads[0], payloads[1..];
      var between := Run(d, v, Frame(first));
      FrameIsJudged(d, v, first);
      FirstDeliverable(payloads);
      OneDeliverable(first);
      RunConcat(d, v, Frame(first), Frames(rest));
      if !(0 < |first| <= 1048576) {
        AtBoundaryLives(between);
        assert Deliverable(payloads) == Deliverable(rest);
        FramesAreJudged(d, between, rest);
      } else if between.Dead() {
        FailureIsFinal(d, between, Frames(rest));
        RefusedFirst(d, v.log, first, Deliverable(rest));
      } else {
        FramesAreJudged(d, between, rest);
        AcceptedFirst(d, v.log, first, Deliverable(rest), Run(d, between, Frames(rest)).log);
      }
    }
  }

  lemma AtBoundaryLives(v: View)
    requires AtBoundary(v)
    ensures !v.Dead()
  {
  }

  lemma OneDeliverable(payload: Message)
    ensures Deliverable([payload]) == if 0 < |payload| <= 1048576 then [payload] else []
  {
    assert Deliverable([payload][1..]) == [];
  }

  lemma NothingToDo(d: Dispatcher, log: seq<Message>)
    ensures GoneThrough(d, log, [], log)
  {
    assert log + [] == log;
  }

  lemma RefusedFirst(d: Dispatcher, log: seq<Message>, first: Message, rest: seq<Message>)
    requires d(log + [first]) != Accepted
    ensures GoneThrough(d, log, [first] + rest, log + [first])
  {
    assert ([first] + rest)[..1] == [first];
  }

  lemma AcceptedFirst(d: Dispatcher, log: seq<Message>, first: Message, rest: seq<Message>, end: seq<Message>)
    requires d(log + [first]) == Accepted && GoneThrough(d, log + [first], rest, end)
    ensures GoneThrough(d, log, [first] + rest, end) && |end| > |log|
    ensures |end| == |log| + 1 ==> d(end) == Accepted
  {
    var all, n := [first] + rest, |end| - |log|;
    assert all[..n] == [first] + rest[..n - 1];
    forall i | 0 < i < n
      ensures d(log + all[..i]) == Accepted
    {
      assert log + all[..i] == log + [first] + rest[..i - 1];
    }
    assert n == 1 ==> end == log + [first];
  }

  lemma NoFrames(d: Dispatcher, v: View)
    ensures Run(d, v, []) == v && Deliverable([]) == []
  {
  }

  lemma FirstDeliverable(payloads: seq<Message>)
    requires payloads != []
    ensures Deliverable(payloads) == Deliverable([payloads[0]]) + Deliverable(payloads[1..])
  {
    assert Deliverable([payloads[0]][1..]) == [];
  }

  /** Framing round trip: a stream of frames delivers exactly the payloads of 1 byte to 1 MiB, in
      order and unchanged, and ends where the next frame may begin. */
  lemma {:induction false} FramesAreRead(d: Dispatcher, v: View, payloads: seq<Message>)
    requires AtBoundary(v) && AcceptsAll(d)
    requires forall p | p in payloads :: |p| < 0x1_0000_0000
    ensures var w := Run(d, v, Frames(payloads));
      && AtBoundary(w)
      && w.log == v.log + Deliverable(payloads)
      && w.closes == v.closes
    decreases |payloads|
  {
    hide Run, Frame, Deliverable, AtBoundary;
    if payloads != [] {
      var first, rest := payloads[0], payloads[1..];
      var between := Run(d, v, Frame(first));
      FrameIsRead(d, v, first);
      FramesAreRead(d, between, rest);
      assert Run(d, v, Frames(payloads)) == Run(d, between, Frames(rest)) by {
        RunConcat(d, v, Frame(first), Frames(rest));
      }
      FirstDeliverable(payloads);
      assert v.log + (Deliverable([first]) + Deliverable(rest)) == v.log + Deliverable([first]) + Deliverable(rest);
    } else {
      NoFrames(d, v);
    }
  }

  /** The same through any chunking of the stream and one further byte, which the parser takes as
      the first byte of the next header. */
  lemma RoundTrip(d: Dispatcher, payloads: seq<Message>, chunks: seq<seq<byte>>, next: byte)
    requires AcceptsAll(d)
    requires forall p | p in payloads :: |p| < 0x1_0000_0000
    requires Flatten(chunks) == Frames(payloads) + [next]
    ensures var w := RunChunks(d, INITIAL, chunks);
      && w.log == Deliverable(payloads)
      && w.closes == 0
      && w.phase == InHeader(1)
      && w.header[0] == next
  {
    RunChunksFlattens(d, INITIAL, chunks);
    FramesAreRead(d, INITIAL, payloads);
    var between := Run(d, INITIAL, Frames(payloads));
    RunConcat(d, INITIAL, Frames(payloads), [next]);
    BoundaryIsFresh(d, between, [next]);
    assert Run(d, between, [next]) == Step(d, between.(phase := InHeader(0)), next);
  }

  // ---------- every stream ----------

  /** What has become of a stream: the messages dispatched, and whether the connection was closed. */
  datatype Reading = Reading(log: seq<Message>, closed: bool)

  /** The format, whole messages at a time: a header is looked at when something follows it, and has to
      carry the marker; a message counts when it is complete. */
  function Messages(d: Dispatcher, log: seq<Message>, stream: seq<byte>): Reading
    decreases |stream|
  {
    if |stream| <= 8 then Reading(log, false)
    else if stream[..4] != [0xFB, 0, 0, 0] then Reading(log, true)
    else
      var end := 8 + Le32At(stream, 4);
      if |stream| < end then Reading(log, false)
      else if end == 8 || end > 8 + 1048576 then Messages(d, log, stream[end..])
      else
        var more := log + [stream[8..end]];
        if d(more) == Accepted then Messages(d, more, stream[end..]) else Reading(more, true)
  }

  /** Every byte string, well-formed or not, is read as its messages. */
  lemma {:induction false} EveryStream(d: Dispatcher, v: View, stream: seq<byte>)
    requires AtBoundary(v)
    ensures var w := Run(d, v, stream);
      && Reading(w.log, w.Dead()) == Messages(d, v.log, stream)
      && w.closes == v.closes + (if w.Dead() then 1 else 0)
    decreases |stream|
  {
    hide Run, AtBoundary;
    AtBoundaryLives(v);
    if |stream| <= HEADER_SIZE {
      ShortStream(d, v, stream);
    } else {
      var h := stream[..HEADER_SIZE];
      assert SizeOf(h) == Le32At(stream, 4);
      MarkerBytes(h);
      assert stream[..4] == h[..4];
      if !ValidMarker(h) {
        BadMarkerCloses(d, v, h, stream[HEADER_SIZE..]);
        assert stream == h + stream[HEADER_SIZE..];
      } else {
        var end := HEADER_SIZE + SizeOf(h);
        if |stream| < end {
          PartOfMessage(d, v, h, stream[HEADER_SIZE..]);
          assert stream == h + stream[HEADER_SIZE..];
        } else {
          var payload, rest := stream[HEADER_SIZE..end], stream[end..];
          assert stream == h + payload + rest;
          PayloadIsJudged(d, v, h, payload);
          RunConcat(d, v, h + payload, rest);
          var w := Run(d, v, h + payload);
          if w.Dead() {
            FailureIsFinal(d, w, rest);
          } else {
            EveryStream(d, w, rest);
          }
        }
      }
    }
  }

  /** So is every list of reads of a new connection. */
  lemma EveryListOfReads(d: Dispatcher, chunks: seq<seq<byte>>)
    ensures var w := RunChunks(d, INITIAL, chunks);
      && Reading(w.log, w.Dead()) == Messages(d, [], Flatten(chunks))
      && w.closes == if w.Dead() then 1 else 0
  {
    RunChunksFlattens(d, INITIAL, chunks);
    EveryStream(d, INITIAL, Flatten(chunks));
  }

  lemma MarkerBytes(h: seq<byte>)
    requires |h| == HEADER_SIZE
    ensures ValidMarker(h) <==> h[..4] == [0xFB, 0, 0, 0]
  {
    if h[..4] == [0xFB, 0, 0, 0] {
      assert h[0] == h[..4][0] && h[1] == h[..4][1] && h[2] == h[..4][2] && h[3] == h[..4][3];
    }
  }

  lemma ShortStream(d: Dispatcher, v: View, stream: seq<byte>)
    requires AtBoundary(v) && |stream| <= HEADER_SIZE
    ensures var w := Run(d, v, stream);
      w.log == v.log && w.closes == v.closes && !w.Dead()
  {
    if stream != [] {
      BoundaryIsFresh(d, v, stream);
      HeaderFills(d, v.(phase := InHeader(0)), 0, stream);
    }
  }

  /** A header without the marker closes the connection, whatever follows it. */
  lemma BadMarkerCloses(d: Dispatcher, v: View, h: seq<byte>, rest: seq<byte>)
    requires AtBoundary(v) && |h| == HEADER_SIZE && !ValidMarker(h) && rest != []
    ensures var w := Run(d, v, h + rest);
      w.Dead() && w.log == v.log && w.closes == v.closes + 1
  {
    HeaderIsRead(d, v, h);
    RunConcat(d, v, h, rest);
    var complete := v.(header := h, phase := InHeader(HEADER_SIZE));
    FailureIsFinal(d, Step(d, complete, rest[0]), rest[1..]);
  }

  lemma PartOfMessage(d: Dispatcher, v: View, h: seq<byte>, part: seq<byte>)
    requires AtBoundary(v) && |h| == HEADER_SIZE && ValidMarker(h) && 0 < |part| < SizeOf(h)
    ensures var w := Run(d, v, h + part);
      w.log == v.log && w.closes == v.closes && !w.Dead()
  {
    var complete := v.(header := h, phase := InHeader(HEADER_SIZE));
    HeaderIsRead(d, v, h);
    RunConcat(d, v, h, part);
    if Overflow(h) {
      SkipAfterHeader(d, complete, part);
    } else {
      BodyAfterHeader(d, complete, part);
    }
  }

  /** Why the round trip asks for payloads under 4 GiB: for a longer one the length field wraps, and
      if it wraps to a deliverable length the receiver is handed that prefix as a message. */
  lemma LongPayloadIsCut(d: Dispatcher, v: View, payload: Message)
    requires AtBoundary(v) && AcceptsAll(d) && |payload| >= 0x1_0000_0000
    requires 0 < |payload| % 0x1_0000_0000 <= MAX_MSG_SIZE
    ensures Deliverable([payload]) == []
    ensures v.log + [payload[..|payload| % 0x1_0000_0000]] <= Run(d, v, Frame(payload)).log
  {
    var size := |payload| % 0x1_0000_0000;
    HeaderRoundTrip(size);
    HeaderIsRead(d, v, HeaderBytes(size));
    var judged := Run(d, v, HeaderBytes(size));
    BodyAfterHeader(d, judged, payload[..size]);
    RunConcat(d, judged, payload[..size], payload[size..]);
    RunConcat(d, v, HeaderBytes(size), payload);
    assert payload[..size] + payload[size..] == payload;
    FailureIsFinal(d, Run(d, judged, payload[..size]), payload[size..]);
    assert Deliverable([payload][1..]) == [];
  }

  /** Frames of payloads of these lengths deliver what is deliverable, whatever the payloads are. */
  ghost predicate AllSurvive(lengths: seq<nat>) {
    forall d, payloads | AcceptsAll(d) && HaveLengths(payloads, lengths) ::
      var w := Run(d, INITIAL, Frames(payloads));
      AtBoundary(w) && w.log == Deliverable(payloads) && w.closes == 0
  }

  predicate HaveLengths(payloads: seq<Message>, lengths: seq<nat>) {
    |payloads| == |lengths| && forall i | 0 <= i < |payloads| :: |payloads[i]| == lengths[i]
  }

  /** A payload of a length that wraps, and that does not survive: it is cut, or where the receiver takes
      it to be at an end, it goes on with a frame of its own. */
  function Imposter(n: nat): (p: Message)
    requires n >= 0x1_0000_0000
    ensures |p| == n
  {
    var size := n % 0x1_0000_0000;
    if 0 < size <= MAX_MSG_SIZE then seq(n, i => 7) else Zeros(size) + Frame([7]) + Zeros(n - size - 9)
  }

  lemma ImposterSpeaks(d: Dispatcher, v: View, n: nat) returns (message: Message)
    requires AtBoundary(v) && AcceptsAll(d) && n >= 0x1_0000_0000
    ensures v.log + [message] <= Run(d, v, Frame(Imposter(n))).log && message != [] && message[0] == 7
  {
    hide Run, Zeros, HeaderBytes, ValidMarker, SizeOf;
    var size, p := n % 0x1_0000_0000, Imposter(n);
    if 0 < size <= MAX_MSG_SIZE {
      message := p[..size];
      LongPayloadIsCut(d, v, p);
    } else {
      message := [7];
      var h, tail := HeaderBytes(size), Zeros(n - size - 9);
      var w := Run(d, v, h + Zeros(size));
      HeaderRoundTrip(size);
      PayloadIsRead(d, v, h, Zeros(size));
      FrameIsRead(d, w, [7]);
      assert Deliverable([Zeros(size)][1..]) == [] && Deliverable([[7]][1..]) == [];
      FailureIsFinal(d, Run(d, w, Frame([7])), tail);
      RunConcat(d, w, Frame([7]), tail);
      RunConcat(d, v, h + Zeros(size), Frame([7]) + tail);
      assert h + p == h + Zeros(size) + (Frame([7]) + tail);
    }
  }

  function Blank(lengths: seq<nat>): (payloads: seq<Message>)
    ensures HaveLengths(payloads, lengths)
  {
    seq(|lengths|, i requires 0 <= i < |lengths| => Zeros(lengths[i]))
  }

  lemma {:induction false} DeliversZeros(payloads: seq<Message>)
    requires forall p | p in payloads :: p == Zeros(|p|)
    ensures forall p | p in Deliverable(payloads) :: p == Zeros(|p|)
    decreases |payloads|
  {
    if payloads != [] {
      assert payloads[0] in payloads;
      DeliversZeros(payloads[1..]);
    }
  }

  /** Payloads of given lengths, one of which wraps, that do not survive. */
  lemma Breaks(d: Dispatcher, v: View, lengths: seq<nat>) returns (payloads: seq<Message>)
    requires AtBoundary(v) && AcceptsAll(d) && exists n :: n in lengths && n >= 0x1_0000_0000
    ensures HaveLengths(payloads, lengths)
    ensures Run(d, v, Frames(payloads)).log != v.log + Deliverable(payloads)
    decreases |lengths|
  {
    hide Run, Frame, Deliverable, AtBoundary, Zeros;
    var n, rest := lengths[0], lengths[1..];
    if n < 0x1_0000_0000 {
      var first := Zeros(n);
      FrameIsRead(d, v, first);
      assert forall m | m in lengths && m != n :: m in rest;
      var others := Breaks(d, Run(d, v, Frame(first)), rest);
      payloads := [first] + others;
      FirstDeliverable(payloads);
      RunConcat(d, v, Frame(first), Frames(others));
      assert v.log + (Deliverable([first]) + Deliverable(others)) == v.log + Deliverable([first]) + Deliverable(others);
    } else {
      var others := Blank(rest);
      payloads := [Imposter(n)] + others;
      var message := ImposterSpeaks(d, v, n);
      RunConcat(d, v, Frame(Imposter(n)), Frames(others));
      FailureIsFinal(d, Run(d, v, Frame(Imposter(n))), Frames(others));
      assert Run(d, v, Frames(payloads)).log[|v.log|] == message;
      FirstDeliverable(payloads);
      NotDelivered(Imposter(n));
      DeliversZeros(others);
      assert Deliverable(payloads) == Deliverable(others);
    }
  }

  lemma NotDelivered(p: Message)
    requires |p| > MAX_MSG_SIZE
    ensures Deliverable([p]) == []
  {
    assert Deliverable([p][1..]) == [];
  }

  /** Frames of payloads of given lengths deliver them, whatever they are, if and only if every length fits
      its field. */
  lemma SurvivalByLengths(lengths: seq<nat>)
    ensures AllSurvive(lengths) <==> forall n | n in lengths :: n < 0x1_0000_0000
  {
    hide Run, Frames, Deliverable;
    if forall n | n in lengths :: n < 0x1_0000_0000 {
      forall d, payloads | AcceptsAll(d) && HaveLengths(payloads, lengths)
        ensures var w := Run(d, INITIAL, Frames(payloads));
          AtBoundary(w) && w.log == Deliverable(payloads) && w.closes == 0
      {
        assert forall p | p in payloads :: |p| in lengths;
        FramesAreRead(d, INITIAL, payloads);
        assert INITIAL.log + Deliverable(payloads) == Deliverable(payloads);
      }
    } else {
      var d := (log: seq<Message>) => Accepted;
      var payloads := Breaks(d, INITIAL, lengths);
      assert INITIAL.log + Deliverable(payloads) == Deliverable(payloads);
    }
  }
}
