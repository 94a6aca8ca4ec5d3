/** Reassembly of VoIPmonitor blocks from the segments of one TCP stream. */
module VoipReassembler {
  import opened Bytes
  import opened PayloadStack
  import opened VoipBlock

  datatype Phase = WaitHeader | ReadHeader | ReadBody

  datatype RawState = State(phase: Phase, buffer: seq<byte>, dataSize: nat)

  const FRESH := State(WaitHeader, [], 0)
  const CLEARED := State(ReadHeader, [], 0)

  /** While a body is awaited, `dataSize` is the length of a whole block. */
  type State = st: RawState | st.phase.ReadBody? ==> st.dataSize >= HEADER witness CLEARED

  /** What lies in memory after a segment's bytes. A segment shorter than a block header that arrives
      where a header is expected is read past its end, so these bytes stand in for the rest. */
  type Beyond = s: seq<byte> | |s| == HEADER witness Zeros(HEADER)

  datatype Segment = Segment(data: seq<byte>, beyond: Beyond)

  datatype Parsing = Parsing(state: State, result: Outcome<seq<Packet>>)

  datatype Reaction = Reaction(state: State, packets: seq<Packet>)

  /** A header is expected at the start of `payload`. */
  function ParseHeader(snappy: Snappy, st: State, payload: seq<byte>, beyond: Beyond): Parsing {
    var h := (payload + beyond)[..HEADER];
    if !HeaderOk(h) then Parsing(st, Threw)
    else if Total(h) > |payload| then Parsing(State(ReadBody, st.buffer + payload, Total(h)), Done([]))
    else
      assert payload[..HEADER] == h;
      SameHeader(payload, h);
      Parsing(st, Contents(payload, snappy))
  }

  function Parse(snappy: Snappy, st: State, seg: Segment): Parsing {
    match st.phase
    case WaitHeader =>
      if |seg.data| < HEADER then Parsing(st, Done([]))
      else ParseHeader(snappy, st.(phase := ReadHeader), seg.data, seg.beyond)
    case ReadHeader => ParseHeader(snappy, st, seg.data, seg.beyond)
    case ReadBody =>
      var buffer := st.buffer + seg.data;
      if |buffer| < st.dataSize then Parsing(st.(buffer := buffer), Done([]))
      else ParseHeader(snappy, State(ReadHeader, buffer, st.dataSize), buffer, seg.beyond)
  }

  /** One segment: an exception or a non-empty result clears the stream, an empty result does not. */
  function React(snappy: Snappy, st: State, seg: Segment): Reaction {
    var p := Parse(snappy, st, seg);
    match p.result
    case Threw => Reaction(CLEARED, [])
    case Done(packets) => Reaction(if packets != [] then CLEARED else p.state, packets)
  }

  datatype History = History(state: State, outputs: seq<seq<Packet>>)

  /** A whole stream of segments, with the output of each. */
  function Replay(snappy: Snappy, st: State, segs: seq<Segment>): History
    decreases |segs|
  {
    if segs == [] then History(st, [])
    else
      var r := React(snappy, st, segs[0]);
      var rest := Replay(snappy, r.state, segs[1..]);
      History(rest.state, [r.packets] + rest.outputs)
  }

  // ---------- segmentation independence ----------

  function Joined(segs: seq<Segment>): seq<byte> {
    if segs == [] then [] else segs[0].data + Joined(segs[1..])
  }

  function Delivered(result: Outcome<seq<Packet>>): seq<Packet> {
    match result
    case Done(packets) => packets
    case Threw => []
  }

  function Silence(n: nat): seq<seq<Packet>> {
    seq(n, i => [])
  }

  /** Nothing is buffered and nothing is awaited. */
  predicate Idle(st: State) {
    !st.phase.ReadBody? && st.buffer == [] && st.dataSize == 0
  }

  /** The last segment completes the block; those before it, together, do not. */
  predicate CompletedByLast(start: seq<byte>, segs: seq<Segment>, total: nat) {
    && segs != []
    && |start + Joined(segs)| >= total
    && |start + Joined(segs[..|segs| - 1])| < total
  }

  predicate Block(bytes: seq<byte>) {
    |bytes| >= HEADER && HeaderOk(bytes) && |bytes| >= Total(bytes)
  }

  lemma ParseHeaderOfBlock(snappy: Snappy, st: State, block: seq<byte>, beyond: Beyond)
    requires Block(block)
    ensures ParseHeader(snappy, st, block, beyond) == Parsing(st, Contents(block, snappy))
  {
    assert (block + beyond)[..HEADER] == block[..HEADER];
    SameHeader(block, (block + beyond)[..HEADER]);
  }

  /** Bytes that are no header: another title, no packets, no data, or data that grows when compressed. */
  predicate NoHeader(h: seq<byte>)
    requires |h| >= HEADER
  {
    h[..16] != TITLE || Le32At(h, 28) == 0 || Le32At(h, 20) == 0 || Le32At(h, 24) > Le32At(h, 20)
  }

  /** Where a header is expected, a segment that does not begin with one is dropped, and clears the stream. */
  lemma NoiseIsDropped(snappy: Snappy, st: State, seg: Segment)
    requires !st.phase.ReadBody? && |seg.data| >= HEADER && NoHeader(seg.data)
    ensures React(snappy, st, seg) == Reaction(CLEARED, [])
  {
    hide Le32At, HeaderOk, Contents, Total;
    var h := (seg.data + seg.beyond)[..HEADER];
    assert h == seg.data[..HEADER];
    WhichHeader(seg.data);
    SameHeader(seg.data, h);
  }

  /** A new stream ignores segments that are shorter than a header; later they are looked at, together with
      what lies behind them in memory, and are dropped or taken for the beginning of a block. */
  lemma ShortSegment(snappy: Snappy, st: State, seg: Segment)
    requires !st.phase.ReadBody? && |seg.data| < HEADER
    ensures var h := (seg.data + seg.beyond)[..HEADER];
      React(snappy, st, seg) ==
      if st.phase.WaitHeader? then Reaction(st, [])
      else if NoHeader(h) then Reaction(CLEARED, [])
      else Reaction(State(ReadBody, st.buffer + seg.data, Total(h)), [])
  {
    hide Le32At, HeaderOk, Contents, Total;
    WhichHeader((seg.data + seg.beyond)[..HEADER]);
  }

  lemma {:induction false} ShortSegmentsIgnored(snappy: Snappy, segs: seq<Segment>)
    requires forall seg | seg in segs :: |seg.data| < HEADER
    ensures Replay(snappy, FRESH, segs) == History(FRESH, Silence(|segs|))
    decreases |segs|
  {
    hide React;
    if segs != [] {
      ShortSegment(snappy, FRESH, segs[0]);
      ShortSegmentsIgnored(snappy, segs[1..]);
      assert Silence(|segs|) == [[]] + Silence(|segs| - 1);
    }
  }

  /** How a stream reacts to a segment that has the whole block ... */
  lemma WholeBlockArrives(snappy: Snappy, st: State, seg: Segment)
    requires !st.phase.ReadBody? && Block(seg.data)
    ensures var contents := Contents(seg.data, snappy);
      React(snappy, st, seg) ==
      Reaction(if contents == Done([]) then st.(phase := ReadHeader) else CLEARED, Delivered(contents))
  {
    hide Contents, HeaderOk, Total;
    ParseHeaderOfBlock(snappy, st.(phase := ReadHeader), seg.data, seg.beyond);
  }

  /** ... to one that has the beginning of a block ... */
  lemma BlockBegins(snappy: Snappy, st: State, seg: Segment, block: seq<byte>)
    requires !st.phase.ReadBody? && Block(block)
    requires HEADER <= |seg.data| < Total(block) && seg.data <= block
    ensures React(snappy, st, seg) == Reaction(State(ReadBody, st.buffer + seg.data, Total(block)), [])
  {
    hide Contents;
    assert (seg.data + seg.beyond)[..HEADER] == block[..HEADER];
    SameHeader(block, (seg.data + seg.beyond)[..HEADER]);
  }

  /** ... to one in its middle ... */
  lemma BodyGrows(snappy: Snappy, st: State, seg: Segment)
    requires st.phase.ReadBody? && |st.buffer + seg.data| < st.dataSize
    ensures React(snappy, st, seg) == Reaction(st.(buffer := st.buffer + seg.data), [])
  {
    hide ParseHeader;
  }

  /** ... and to the one that completes it. */
  lemma BlockCompletes(snappy: Snappy, st: State, seg: Segment)
    requires st.phase.ReadBody? && |st.buffer + seg.data| >= st.dataSize
    requires Block(st.buffer + seg.data)
    ensures var all := st.buffer + seg.data;
      React(snappy, st, seg) ==
      Reaction(if Contents(all, snappy) == Done([]) then State(ReadHeader, all, st.dataSize) else CLEARED,
               Delivered(Contents(all, snappy)))
  {
    hide Contents, HeaderOk, Total;
    var all := st.buffer + seg.data;
    ParseHeaderOfBlock(snappy, State(ReadHeader, all, st.dataSize), all, seg.beyond);
  }

  /** What is left of a block, in any number of segments, while its beginning is buffered. */
  lemma {:induction false} RestOfBlock(snappy: Snappy, st: State, segs: seq<Segment>)
    requires st.phase.ReadBody? && CompletedByLast(st.buffer, segs, st.dataSize)
    requires Block(st.buffer + Joined(segs))
    ensures var all := st.buffer + Joined(segs);
      Replay(snappy, st, segs) ==
      History(if Contents(all, snappy) == Done([]) then State(ReadHeader, all, st.dataSize) else CLEARED,
              Silence(|segs| - 1) + [Delivered(Contents(all, snappy))])
    decreases |segs|
  {
    hide React, Contents, HeaderOk, Total;
    var buffer := st.buffer + segs[0].data;
    assert st.buffer + Joined(segs) == buffer + Joined(segs[1..]);
    if |segs| == 1 {
      assert buffer + Joined(segs[1..]) == buffer;
      BlockCompletes(snappy, st, segs[0]);
      assert Replay(snappy, CLEARED, segs[1..]) == History(CLEARED, []);
      assert Silence(0) == [];
    } else {
      var front := segs[..|segs| - 1];
      assert front[0] == segs[0] && front[1..] == segs[1..][..|segs| - 2];
      assert st.buffer + Joined(front) == buffer + Joined(front[1..]);
      BodyGrows(snappy, st, segs[0]);
      RestOfBlock(snappy, st.(buffer := buffer), segs[1..]);
      assert Silence(|segs| - 1) == [[]] + Silence(|segs| - 2);
    }
  }

  /** Segments that hold one block, the first of them at least its header, and end with it. */
  predicate CutBlock(segs: seq<Segment>) {
    && segs != [] && |segs[0].data| >= HEADER
    && Block(Joined(segs)) && CompletedByLast([], segs, Total(Joined(segs)))
  }

  /** Segmentation independence: a block cut into any segments, the first of them holding at least
      its header, gives nothing until its last segment and then what it gives in one piece. The
      stream ends up as if the block had come in one piece if and only if the block did come in one
      piece, or is malformed, or gives a packet: otherwise the block stays in the buffer. */
  lemma SegmentationIndependence(snappy: Snappy, st: State, segs: seq<Segment>, beyond: Beyond)
    requires Idle(st) && CutBlock(segs)
    ensures var all := Joined(segs);
      var cut, whole := Replay(snappy, st, segs), React(snappy, st, Segment(all, beyond));
      && cut.outputs == Silence(|segs| - 1) + [whole.packets]
      && whole == Reaction(CLEARED, Delivered(Contents(all, snappy)))
      && (cut.state == whole.state <==> |segs| == 1 || Contents(all, snappy) != Done([]))
      && (cut.state == whole.state || cut.state == State(ReadHeader, all, Total(all)))
  {
    hide React, Contents, HeaderOk, Total;
    var all, first := Joined(segs), segs[0];
    WholeBlockArrives(snappy, st, Segment(all, beyond));
    if |segs| == 1 {
      assert Joined(segs[1..]) == [] && first.data == all;
      WholeBlockArrives(snappy, st, first);
      assert Replay(snappy, CLEARED, segs[1..]) == History(CLEARED, []);
      assert Silence(0) == [];
    } else {
      var front := segs[..|segs| - 1];
      assert front[0] == first && front[1..] == segs[1..][..|segs| - 2];
      assert [] + Joined(front) == first.data + Joined(front[1..]);
      BlockBegins(snappy, st, first, all);
      assert [] + first.data == first.data;
      RestOfBlock(snappy, State(ReadBody, first.data, Total(all)), segs[1..]);
      assert Silence(|segs| - 1) == [[]] + Silence(|segs| - 2);
    }
  }

  lemma {:induction false} ReplayConcat(snappy: Snappy, st: State, a: seq<Segment>, b: seq<Segment>)
    ensures var front := Replay(snappy, st, a);
      var back := Replay(snappy, front.state, b);
      Replay(snappy, st, a + b) == History(back.state, front.outputs + back.outputs)
    decreases |a|
  {
    hide React;
    if a == [] {
      assert a + b == b;
    } else {
      assert (a + b)[0] == a[0] && (a + b)[1..] == a[1..] + b;
      ReplayConcat(snappy, React(snappy, st, a[0]).state, a[1..], b);
    }
  }

  /** A segment, of at least the length of a header, that does not begin with one. */
  predicate Noise(segs: seq<Segment>) {
    |segs| == 1 && |segs[0].data| >= HEADER && NoHeader(segs[0].data)
  }

  /** A cut block, unless it comes in several segments and is without packets; or noise. */
  predicate Item(snappy: Snappy, segs: seq<Segment>) {
    Noise(segs) || (CutBlock(segs) && (|segs| == 1 || Contents(Joined(segs), snappy) != Done([])))
  }

  /** Nothing for noise, and nothing for every segment of a block but its last, which gives what the block
      contains. */
  function OutputsOf(snappy: Snappy, segs: seq<Segment>): seq<seq<Packet>> {
    if CutBlock(segs) then Silence(|segs| - 1) + [Delivered(Contents(Joined(segs), snappy))] else Silence(|segs|)
  }

  function AllOutputs(snappy: Snappy, items: seq<seq<Segment>>): seq<seq<Packet>> {
    if items == [] then [] else OutputsOf(snappy, items[0]) + AllOutputs(snappy, items[1..])
  }

  /** A whole stream of blocks, each cut anywhere, and of segments between them that are no blocks, gives
      what each of the blocks contains, in order, if none that comes in several segments is without packets. */
  lemma {:induction false} BlocksArrive(snappy: Snappy, st: State, items: seq<seq<Segment>>)
    requires Idle(st) && forall segs | segs in items :: Item(snappy, segs)
    ensures Replay(snappy, st, Flatten(items)) ==
            History(if items == [] then st else CLEARED, AllOutputs(snappy, items))
    decreases |items|
  {
    hide React, Contents, CutBlock, Noise;
    if items != [] {
      assert items[0] in items;
      if Noise(items[0]) {
        NoiseArrives(snappy, st, items[0]);
      } else {
        BlockArrives(snappy, st, items[0]);
      }
      BlocksArrive(snappy, CLEARED, items[1..]);
      ReplayConcat(snappy, st, items[0], Flatten(items[1..]));
    }
  }

  /** The same from the beginning of a stream, whatever short segments come first. */
  lemma StreamArrives(snappy: Snappy, short: seq<Segment>, items: seq<seq<Segment>>)
    requires forall seg | seg in short :: |seg.data| < HEADER
    requires forall segs | segs in items :: Item(snappy, segs)
    ensures Replay(snappy, FRESH, short + Flatten(items)).outputs == Silence(|short|) + AllOutputs(snappy, items)
  {
    hide Replay, Item, AllOutputs;
    ShortSegmentsIgnored(snappy, short);
    BlocksArrive(snappy, FRESH, items);
    ReplayConcat(snappy, FRESH, short, Flatten(items));
  }

  lemma NoiseArrives(snappy: Snappy, st: State, segs: seq<Segment>)
    requires !st.phase.ReadBody? && Noise(segs)
    ensures Replay(snappy, st, segs) == History(CLEARED, OutputsOf(snappy, segs))
  {
    hide React;
    BlockIsNoNoise(segs);
    NoiseIsDropped(snappy, st, segs[0]);
    assert Replay(snappy, CLEARED, segs[1..]) == History(CLEARED, []);
    assert Silence(1) == [[]];
  }

  lemma BlockIsNoNoise(segs: seq<Segment>)
    ensures !CutBlock(segs) || !Noise(segs)
  {
    if |segs| == 1 {
      assert Joined(segs) == segs[0].data + Joined(segs[1..]) && Joined(segs[1..]) == [];
      if |segs[0].data| >= HEADER {
        WhichHeader(segs[0].data);
      }
    }
  }

  lemma BlockArrives(snappy: Snappy, st: State, segs: seq<Segment>)
    requires Idle(st) && CutBlock(segs)
    ensures Replay(snappy, st, segs).outputs == OutputsOf(snappy, segs)
    ensures Replay(snappy, st, segs).state ==
            if |segs| == 1 || Contents(Joined(segs), snappy) != Done([]) then CLEARED
            else State(ReadHeader, Joined(segs), Total(Joined(segs)))
  {
    hide React, Contents, Replay, Block, CompletedByLast;
    BlockIsNoNoise(segs);
    SegmentationIndependence(snappy, st, segs, Zeros(HEADER));
  }

  /** What a block that stays in the buffer does: the next block that needs two segments is lost,
      whatever packets it holds, because the bytes parsed on its completion are the old block's. */
  lemma StaleBlockHidesTheNext(snappy: Snappy, stale: seq<byte>, dataSize: nat, first: Segment, second: Segment)
    requires Block(stale) && Contents(stale, snappy) == Done([])
    requires Block(first.data + second.data)
    requires HEADER <= |first.data| < Total(first.data + second.data)
    ensures var r := Replay(snappy, State(ReadHeader, stale, dataSize), [first, second]);
      && r.outputs == [[], []]
      && r.state.phase == ReadHeader
      && r.state.buffer == stale + first.data + second.data
  {
    hide React, Contents, HeaderOk, Total;
    var st, block := State(ReadHeader, stale, dataSize), first.data + second.data;
    BlockBegins(snappy, st, first, block);
    var body := State(ReadBody, stale + first.data, Total(block));
    assert body.buffer + second.data == stale + block;
    TrailingBytesDropped(stale, block, snappy);
    BlockCompletes(snappy, body, second);
    assert [first, second][1..] == [second];
    assert Replay(snappy, State(ReadHeader, stale + block, Total(block)), [second][1..]).outputs == [];
  }

  /** So a stream loses a block behind one that came in several segments and gave no packet ... */
  lemma NextIsLost(snappy: Snappy, silent: seq<Segment>, first: Segment, second: Segment)
    requires CutBlock(silent) && |silent| > 1 && Contents(Joined(silent), snappy) == Done([])
    requires Block(first.data + second.data)
    requires HEADER <= |first.data| < Total(first.data + second.data)
    ensures Replay(snappy, CLEARED, silent + [first, second]).outputs == Silence(|silent| + 2)
  {
    hide React, Contents, Replay, HeaderOk, Total;
    var stale := Joined(silent);
    BlockArrives(snappy, CLEARED, silent);
    StaleBlockHidesTheNext(snappy, stale, Total(stale), first, second);
    ReplayConcat(snappy, CLEARED, silent, [first, second]);
    assert Silence(|silent| + 2) == Silence(|silent| - 1) + [[]] + [[], []];
  }

  /** ... and there are such blocks: one packet, of one byte. */
  function SilentBlock(): (block: seq<byte>)
    ensures |block| == HEADER + 5
  {
    TITLE + Zeros(4) + Le32(1) + Le32(0) + Le32(1) + Zeros(32) + Le32(0) + [0]
  }

  lemma SilentBlockIsSilent(snappy: Snappy, a: Beyond, b: Beyond)
    ensures Contents(SilentBlock(), snappy) == Done([])
    ensures var block := SilentBlock();
      var cut := [Segment(block[..HEADER], a), Segment(block[HEADER..], b)];
      Joined(cut) == block && CutBlock(cut)
  {
    hide SilentBlock, HeaderOk, Total, Contents;
    var block := SilentBlock();
    SilentHeader();
    SilentContents(snappy);
    var first, second := Segment(block[..HEADER], a), Segment(block[HEADER..], b);
    JoinedTwo(first, second);
    assert [first, second][..1] == [first] && [first][1..] == [];
    assert [] + first.data == first.data && [] + block == block;
  }

  lemma JoinedTwo(first: Segment, second: Segment)
    ensures Joined([first, second]) == first.data + second.data && Joined([first]) == first.data
  {
    assert [first, second][1..] == [second] && [second][1..] == [] && [first][1..] == [];
    assert Joined([second]) == second.data + [];
  }

  lemma SilentHeader()
    ensures var block := SilentBlock();
      HeaderOk(block) && Size(block) == 1 && SizeCompress(block) == 0 && Count(block) == 1 && Total(block) == |block|
    ensures Le32At(SilentBlock(), HEADER) == 0
  {
    var block := SilentBlock();
    assert block[..|TITLE|] == TITLE;
    assert block[20..24] == Le32(1) && block[24..28] == Le32(0) && block[28..32] == Le32(1);
    assert forall k | 20 <= k < 32 :: block[k] == block[20..32][k - 20];
  }

  lemma SilentContents(snappy: Snappy)
    ensures Contents(SilentBlock(), snappy) == Done([])
  {
    hide SilentBlock, HeaderOk, PacketsIn;
    var block := SilentBlock();
    SilentHeader();
    assert Offsets(block) == [0];
    var slices := Slices(Stored(block), [0]);
    TooShort(slices[0], Mode(block));
    NextPacket(slices, 0, slices[0], Mode(block));
    NoPackets(slices[1..], Mode(block));
    assert slices[0..] == slices;
  }

  lemma TooShort(slice: seq<byte>, mode: byte)
    requires |slice| <= PKTHDR_PLUS
    ensures PacketIn(slice, mode).offset == |slice|
  {
  }

  // ---------- the reassembler as the program runs it ----------

  class Reassembler {
    const stream: string
    const snappy: Snappy
    var buffer: seq<byte>
    var dataSize: nat
    var phase: Phase

    ghost predicate Valid()
      reads this
    {
      phase.ReadBody? ==> dataSize >= HEADER
    }

    ghost function Value(): State
      requires Valid()
      reads this
    {
      State(phase, buffer, dataSize)
    }

    constructor (stream: string, snappy: Snappy)
      ensures Valid() && Value() == FRESH
      ensures this.stream == stream && this.snappy == snappy
    {
      this.stream, this.snappy := stream, snappy;
      buffer, dataSize, phase := [], 0, WaitHeader;
    }

    method Process(seg: Segment) returns (result: seq<Packet>)
      requires Valid()
      modifies this
      ensures Valid()
      ensures Reaction(Value(), result) == React(snappy, old(Value()), seg)
    {
      result := [];
      var r := ParsePayload(seg.data, seg.beyond);
      match r {
        case Done(packets) => result := packets;
        case Threw => Reset();
      }
      if result != [] {
        Reset();
      }
    }

    method Reset()
      modifies this
      ensures Valid() && Value() == CLEARED
    {
      phase := ReadHeader;
      buffer := [];
      dataSize := 0;
    }

    method ParsePayload(payload: seq<byte>, beyond: Beyond) returns (r: Outcome<seq<Packet>>)
      requires Valid()
      modifies this
      ensures Valid()
      ensures Parsing(Value(), r) == Parse(snappy, old(Value()), Segment(payload, beyond))
      decreases if phase == ReadHeader then 0 else 1
    {
      if phase == WaitHeader {
        if |payload| < HEADER {
          return Done([]); // skip this packet
        }
        phase := ReadHeader;
        r := ParsePayload(payload, beyond);
        return;
      } else if phase == ReadBody {
        buffer := buffer + payload;
        if |buffer| >= dataSize {
          phase := ReadHeader;
          r := ParsePayload(buffer, beyond);
          return;
        }
        return Done([]);
      }
      var h := (payload + beyond)[..HEADER];
      if h[..|TITLE|] != TITLE {
        return Threw;
      }
      if Count(h) == 0 {
        return Threw;
      }
      var stored := if SizeCompress(h) != 0 then SizeCompress(h) else Size(h);
      if stored == 0 || SizeCompress(h) > Size(h) {
        return Threw;
      }
      var offsetsSize := Count(h) * 4;
      if HEADER + offsetsSize + stored > |payload| {
        phase := ReadBody;
        dataSize := HEADER + offsetsSize + stored;
        buffer := buffer + payload;
        return Done([]);
      }
      assert payload[..HEADER] == h;
      SameHeader(payload, h);
      r := Unwrap(payload);
    }

    /** The part of parsing that has the whole block in hand. */
    method Unwrap(payload: seq<byte>) returns (r: Outcome<seq<Packet>>)
      requires Block(payload)
      ensures r == Contents(payload, snappy)
    {
      hide PacketsIn, Slices, Offsets, Stored, Total;
      var offsets := Offsets(payload);
      var lastOffset: u32 := 0;
      for i := 0 to |offsets|
        invariant Ascending(offsets[..i])
        invariant lastOffset == if i == 0 then 0 else offsets[i - 1]
      {
        if lastOffset > offsets[i] {
          return Threw;
        }
        lastOffset := offsets[i];
      }
      assert offsets[..|offsets|] == offsets;
      if lastOffset >= Size(payload) {
        return Threw;
      }
      var stored := Stored(payload);
      if StoredSize(payload) < Size(payload) {
        var data := Decompress(stored, Size(payload));
        match data {
          case None => return Threw;
          case Some(unpacked) =>
            var packets := Packets(unpacked, offsets, Mode(payload));
            return Done(packets);
        }
      }
      var packets := Packets(stored, offsets, Mode(payload));
      return Done(packets);
    }

    /** Unpacks `stored` and accepts the result only at exactly the announced size. */
    method Decompress(stored: seq<byte>, maxSize: nat) returns (r: Option<seq<byte>>)
      ensures r == match snappy(stored)
                   case Some(data) => if |data| == maxSize then Some(data) else None
                   case None => None
    {
      r := snappy(stored);
      if r.Some? && |r.value| != maxSize {
        r := None;
      }
    }

    method Packets(data: seq<byte>, offsets: seq<u32>, mode: byte) returns (result: seq<Packet>)
      requires OffsetsOk(offsets, |data|)
      ensures result == PacketsIn(Slices(data, offsets), mode)
    {
      hide PacketIn, PacketsIn;
      ghost var slices := Slices(data, offsets);
      result := [];
      assert slices[0..] == slices;
      for i := 0 to |offsets|
        invariant result + PacketsIn(slices[i..], mode) == PacketsIn(slices, mode)
      {
        var size := if i == |offsets| - 1 then |data| - offsets[i] else offsets[i + 1] - offsets[i];
        assert offsets[i] + size <= |data|; // the guard below never fails
        if offsets[i] + size <= |data| {
          var pkt := data[offsets[i]..offsets[i] + size];
          NextPacket(slices, i, pkt, mode);
          var info := new PacketInfo();
          var p := Payload(pkt, mode, info);
          if p < |pkt| {
            result := result + [Packet(pkt[p..], info.value)];
          }
        }
      }
      NoPackets(slices[|offsets|..], mode);
    }

    method Payload(data: seq<byte>, mode: byte, info: PacketInfo) returns (offset: nat)
      requires info.value == NOTHING_KNOWN
      modifies info
      ensures Parsed(offset, info.value) == PacketIn(data, mode)
    {
      var hsize := if mode == MODE_PLUS2 then PKTHDR_PLUS2 else PKTHDR_PLUS;
      if hsize < |data| {
        var caplen := Le32At(data, 8);
        var ipOffset: u16 := data[24] as int + 0x100 * data[25] as int;
        if caplen < |data| && ipOffset < |data| {
          hsize := |data| - caplen; // alignment bug workaround
          var cap := hsize + ipOffset;
          if cap < |data| {
            info.value := info.value.(sec := Le32At(data, 0));
            info.value := info.value.(usec := Le32At(data, 4));
            offset := SmartPayload(DLT_RAW, data[cap..], info);
            return cap + offset;
          }
        }
      }
      return |data|;
    }
  }
}
