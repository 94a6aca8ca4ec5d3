/** Demultiplexing: every TCP stream has a reassembler of its own, found by a text key. */
module VoipStreams {
  import opened Bytes
  import opened VoipBlock
  import opened VoipReassembler

  /** The ends of a TCP stream; the addresses are in text form. */
  datatype Ends = Ends(srcAddr: string, srcPort: u16, dstAddr: string, dstPort: u16)

  datatype Arrival = Arrival(ends: Ends, seg: Segment)

  // ---------- the key ----------

  function Digit(n: nat): char
    requires n < 10
  {
    '0' + n as char
  }

  function Decimal(n: nat): (s: string)
    ensures s != [] && forall c | c in s :: '0' <= c <= '9'
  {
    if n < 10 then [Digit(n)] else Decimal(n / 10) + [Digit(n % 10)]
  }

  function Key(e: Ends): string {
    e.srcAddr + ":" + Decimal(e.srcPort) + "-->" + e.dstAddr + ":" + Decimal(e.dstPort)
  }

  /** The text of an IPv4 or IPv6 address, or the empty text: hexadecimal digits, dots and colons. */
  predicate AddressText(s: string) {
    forall c | c in s :: '0' <= c <= '9' || 'a' <= c <= 'f' || 'A' <= c <= 'F' || c == '.' || c == ':'
  }

  predicate WellFormed(e: Ends) {
    AddressText(e.srcAddr) && AddressText(e.dstAddr)
  }

  lemma {:induction false} DecimalInjective(m: nat, n: nat)
    requires Decimal(m) == Decimal(n)
    ensures m == n
  {
    var a, b := Decimal(m), Decimal(n);
    assert a[|a| - 1] == Digit(m % 10) && b[|b| - 1] == Digit(n % 10);
    if m >= 10 && n >= 10 {
      assert a[..|a| - 1] == Decimal(m / 10) && b[..|b| - 1] == Decimal(n / 10);
      DecimalInjective(m / 10, n / 10);
    }
  }

  /** A separator that occurs in neither tail splits two equal texts at the same place. */
  lemma SplitAtLast(a: string, x: string, b: string, y: string, sep: char)
    requires a + [sep] + x == b + [sep] + y
    requires sep !in x && sep !in y
    ensures a == b && x == y
  {
    var s, t := a + [sep] + x, b + [sep] + y;
    assert s[|a|] == sep && t[|b|] == sep && |a| == |b|;
    assert s[..|a|] == a && t[..|b|] == b && s[|a| + 1..] == x && t[|b| + 1..] == y;
  }

  lemma SplitAtFirst(a: string, x: string, b: string, y: string, sep: char)
    requires a + [sep] + x == b + [sep] + y
    requires sep !in a && sep !in b
    ensures a == b && x == y
  {
    var s, t := a + [sep] + x, b + [sep] + y;
    assert s[|a|] == sep && t[|b|] == sep && |a| == |b|;
    assert s[..|a|] == a && t[..|b|] == b && s[|a| + 1..] == x && t[|b| + 1..] == y;
  }

  lemma EndInjective(addr: string, port: nat, addr': string, port': nat)
    requires addr + ":" + Decimal(port) == addr' + ":" + Decimal(port')
    ensures addr == addr' && port == port'
  {
    SplitAtLast(addr, Decimal(port), addr', Decimal(port'), ':');
    DecimalInjective(port, port');
  }

  /** Different ends have different keys, although IPv6 addresses contain the key's own colons. */
  lemma KeyInjective(e: Ends, f: Ends)
    requires WellFormed(e) && WellFormed(f) && Key(e) == Key(f)
    ensures e == f
  {
    var left, right := e.srcAddr + ":" + Decimal(e.srcPort), e.dstAddr + ":" + Decimal(e.dstPort);
    var left', right' := f.srcAddr + ":" + Decimal(f.srcPort), f.dstAddr + ":" + Decimal(f.dstPort);
    assert Key(e) == left + "-" + ("->" + right) && Key(f) == left' + "-" + ("->" + right');
    SplitAtFirst(left, "->" + right, left', "->" + right', '-');
    assert ("->" + right)[2..] == right && ("->" + right')[2..] == right';
    EndInjective(e.srcAddr, e.srcPort, f.srcAddr, f.srcPort);
    EndInjective(e.dstAddr, e.dstPort, f.dstAddr, f.dstPort);
  }

  // ---------- many streams ----------

  type Streams = map<string, State>

  function StateOf(streams: Streams, key: string): State {
    if key in streams then streams[key] else FRESH
  }

  datatype Traffic = Traffic(streams: Streams, outputs: seq<seq<Packet>>)

  /** All streams together, with the output of each arrival. */
  function Demux(snappy: Snappy, streams: Streams, arrivals: seq<Arrival>): (t: Traffic)
    ensures |t.outputs| == |arrivals|
    decreases |arrivals|
  {
    if arrivals == [] then Traffic(streams, [])
    else
      var key := Key(arrivals[0].ends);
      var r := React(snappy, StateOf(streams, key), arrivals[0].seg);
      var rest := Demux(snappy, streams[key := r.state], arrivals[1..]);
      Traffic(rest.streams, [r.packets] + rest.outputs)
  }

  /** The segments of one stream ... */
  function SegmentsOf(ends: Ends, arrivals: seq<Arrival>): seq<Segment> {
    if arrivals == [] then []
    else (if arrivals[0].ends == ends then [arrivals[0].seg] else []) + SegmentsOf(ends, arrivals[1..])
  }

  /** ... and the outputs at its arrivals. */
  function OutputsOf(ends: Ends, arrivals: seq<Arrival>, outputs: seq<seq<Packet>>): seq<seq<Packet>>
    requires |arrivals| == |outputs|
  {
    if arrivals == [] then []
    else (if arrivals[0].ends == ends then [outputs[0]] else []) + OutputsOf(ends, arrivals[1..], outputs[1..])
  }

  /** Streams do not interfere: in any interleaving, what one stream gives, and the state it ends in,
      are those of a reassembler that has only seen that stream's segments. */
  lemma {:induction false} StreamsDoNotInterfere(snappy: Snappy, streams: Streams, arrivals: seq<Arrival>, ends: Ends)
    requires WellFormed(ends) && forall a | a in arrivals :: WellFormed(a.ends)
    ensures var all := Demux(snappy, streams, arrivals);
      var alone := Replay(snappy, StateOf(streams, Key(ends)), SegmentsOf(ends, arrivals));
      && OutputsOf(ends, arrivals, all.outputs) == alone.outputs
      && StateOf(all.streams, Key(ends)) == alone.state
    decreases |arrivals|
  {
    hide React, Key, WellFormed;
    if arrivals != [] {
      var a, key := arrivals[0], Key(arrivals[0].ends);
      var r := React(snappy, StateOf(streams, key), a.seg);
      var next := streams[key := r.state];
      assert a in arrivals;
      StreamsDoNotInterfere(snappy, next, arrivals[1..], ends);
      assert Demux(snappy, streams, arrivals).outputs[1..] == Demux(snappy, next, arrivals[1..]).outputs;
      if a.ends == ends {
        assert SegmentsOf(ends, arrivals)[1..] == SegmentsOf(ends, arrivals[1..]);
      } else {
        if key == Key(ends) {
          KeyInjective(a.ends, ends);
        }
        assert StateOf(next, Key(ends)) == StateOf(streams, Key(ends));
        assert SegmentsOf(ends, arrivals) == SegmentsOf(ends, arrivals[1..]);
      }
    }
  }

  /** So, from the beginning, every stream is read as by a new reassembler. */
  lemma EveryStreamAlone(snappy: Snappy, arrivals: seq<Arrival>, ends: Ends)
    requires WellFormed(ends) && forall a | a in arrivals :: WellFormed(a.ends)
    ensures OutputsOf(ends, arrivals, Demux(snappy, map[], arrivals).outputs) ==
            Replay(snappy, State(WaitHeader, [], 0), SegmentsOf(ends, arrivals)).outputs
  {
    StreamsDoNotInterfere(snappy, map[], arrivals, ends);
  }

  // ---------- the parser as the program runs it ----------

  class VoIP {
    const snappy: Snappy
    var reasms: map<string, Reassembler>

    ghost predicate Valid()
      reads this, reasms.Values
    {
      && (forall k | k in reasms :: reasms[k].Valid() && reasms[k].snappy == snappy)
      && (forall k, l | k in reasms && l in reasms && k != l :: reasms[k] != reasms[l])
    }

    ghost function Value(): Streams
      requires Valid()
      reads this, reasms.Values
    {
      map k | k in reasms :: reasms[k].Value()
    }

    constructor (snappy: Snappy)
      ensures Valid() && fresh(reasms.Values)
      ensures Value() == map[] && this.snappy == snappy
    {
      this.snappy, reasms := snappy, map[];
    }

    /** The stream's reassembler, made when the stream is first seen. */
    method FindReassembler(ends: Ends) returns (r: Reassembler)
      requires Valid()
      modifies this
      ensures Valid() && Key(ends) in reasms && reasms[Key(ends)] == r
      ensures fresh(reasms.Values - old(reasms.Values))
      ensures Value() == old(Value())[Key(ends) := StateOf(old(Value()), Key(ends))]
    {
      var key := Key(ends);
      if key in reasms {
        return reasms[key];
      }
      r := new Reassembler(key, snappy);
      reasms := reasms[key := r];
    }

    /** Feeds one segment to its stream. */
    method Feed(a: Arrival) returns (res: seq<Packet>)
      requires Valid()
      modifies this, reasms.Values
      ensures Valid() && fresh(reasms.Values - old(reasms.Values))
      ensures var r := React(snappy, StateOf(old(Value()), Key(a.ends)), a.seg);
        res == r.packets && Value() == old(Value())[Key(a.ends) := r.state]
    {
      hide React, Key;
      ghost var key, before := Key(a.ends), Value();
      var r := FindReassembler(a.ends);
      assert Value()[key] == r.Value() == StateOf(before, key);
      label Found:
      res := r.Process(a.seg);
      forall k | k in reasms && k != key
        ensures reasms[k].Valid() && reasms[k].Value() == old@Found(reasms[k].Value())
      {
        assert reasms[k] != r;
      }
      assert Value() == before[key := r.Value()];
    }

    method Packets(arrivals: seq<Arrival>) returns (result: seq<Packet>)
      requires Valid()
      modifies this, reasms.Values
      ensures Valid() && fresh(reasms.Values - old(reasms.Values))
      ensures var t := Demux(snappy, old(Value()), arrivals);
        result == Flatten(t.outputs) && Value() == t.streams
    {
      hide React, Key;
      result := [];
      ghost var goal := Demux(snappy, Value(), arrivals);
      for i := 0 to |arrivals|
        invariant Valid() && fresh(reasms.Values - old(reasms.Values))
        invariant var rest := Demux(snappy, Value(), arrivals[i..]);
          result + Flatten(rest.outputs) == Flatten(goal.outputs) && rest.streams == goal.streams
      {
        assert arrivals[i..][1..] == arrivals[i + 1..];
        var res := Feed(arrivals[i]);
        result := result + res;
      }
    }
  }
}
