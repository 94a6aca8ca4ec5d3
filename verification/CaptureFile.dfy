/** Writing captured packets to a pcap file, and what a reader of the file finds in it. */
module CaptureFile {
  import opened Bytes
  import opened PayloadStack
  import opened IpPacket

  const FILE_HEADER := 24
  const RECORD_HEADER := 16
  const MAGIC: u32 := 0xa1b2c3d4

  datatype Record = Record(sec: u32, usec: u32, packet: seq<byte>)

  function FileHeader(datalink: u32): (s: seq<byte>)
    ensures |s| == FILE_HEADER
  {
    Le32(MAGIC) + [2, 0, 4, 0] + Le32(0) + Le32(0) + Le32(0xFFFF) + Le32(datalink)
  }

  /** The length field of a record, which has 32 bits. */
  function Announced(packet: seq<byte>): u32 {
    |packet| % 0x1_0000_0000
  }

  function RecordHeader(r: Record): (s: seq<byte>)
    ensures |s| == RECORD_HEADER
  {
    Le32(r.sec) + Le32(r.usec) + Le32(Announced(r.packet)) + Le32(Announced(r.packet))
  }

  function RecordBytes(r: Record): seq<byte> {
    RecordHeader(r) + r.packet
  }

  function RecordsBytes(records: seq<Record>): seq<byte> {
    if records == [] then [] else RecordBytes(records[0]) + RecordsBytes(records[1..])
  }

  /** A reader: records until the bytes run out, the last one possibly cut short and then ignored. */
  function ReadRecords(bytes: seq<byte>): seq<Record>
    decreases |bytes|
  {
    if |bytes| < RECORD_HEADER then []
    else
      var end := RECORD_HEADER + Le32At(bytes, 8);
      if |bytes| < end then []
      else [Record(Le32At(bytes, 0), Le32At(bytes, 4), bytes[RECORD_HEADER..end])] + ReadRecords(bytes[end..])
  }

  datatype Capture = Capture(datalink: u32, records: seq<Record>)

  function ReadFile(bytes: seq<byte>): Option<Capture> {
    if |bytes| < FILE_HEADER || Le32At(bytes, 0) != MAGIC then None
    else Some(Capture(Le32At(bytes, 20), ReadRecords(bytes[FILE_HEADER..])))
  }

  /** Every packet is shorter than 4 GiB. */
  predicate Fits(records: seq<Record>) {
    forall r | r in records :: |r.packet| < 0x1_0000_0000
  }

  lemma AnnouncedExact(packet: seq<byte>)
    ensures Announced(packet) <= |packet|
    ensures Announced(packet) == |packet| <==> |packet| < 0x1_0000_0000
  {
  }

  // ---------- round trip ----------

  lemma LengthIsRead(r: Record, rest: seq<byte>)
    ensures var bytes := RecordHeader(r) + rest;
      && Le32At(bytes, 0) == r.sec && Le32At(bytes, 4) == r.usec
      && Le32At(bytes, 8) == Le32At(bytes, 12) == Announced(r.packet)
  {
    hide Announced;
    Le32RoundTrip(r.sec);
    Le32RoundTrip(r.usec);
    Le32RoundTrip(Announced(r.packet));
    var bytes := RecordHeader(r) + rest;
    assert bytes[0..4] == Le32(r.sec) && bytes[4..8] == Le32(r.usec) && bytes[8..12] == Le32(Announced(r.packet));
    assert bytes[12..16] == Le32(Announced(r.packet));
    Le32Slice(bytes, 0);
    Le32Slice(bytes, 4);
    Le32Slice(bytes, 8);
    Le32Slice(bytes, 12);
  }

  lemma Le32Slice(s: seq<byte>, at: nat)
    requires at + 4 <= |s|
    ensures Le32At(s[at..at + 4], 0) == Le32At(s, at)
  {
  }

  /** What is left of a record is not taken for one, unless it has the announced length. */
  lemma CutShortIsIgnored(r: Record, tail: seq<byte>)
    requires tail < RecordBytes(r)
    ensures ReadRecords(tail) == [] <==> |tail| < RECORD_HEADER + Announced(r.packet)
  {
    hide Le32At, RecordHeader, Announced;
    if |tail| >= RECORD_HEADER {
      assert tail == RecordHeader(r) + tail[RECORD_HEADER..];
      LengthIsRead(r, tail[RECORD_HEADER..]);
    }
  }

  lemma RecordIsRead(r: Record, rest: seq<byte>)
    ensures ReadRecords(RecordBytes(r) + rest) == [r] + ReadRecords(rest) <==> |r.packet| < 0x1_0000_0000
    ensures var read := ReadRecords(RecordBytes(r) + rest);
      read != [] && read[0] == r ==> |r.packet| < 0x1_0000_0000
  {
    hide Le32At, RecordHeader, Announced;
    var bytes, end := RecordBytes(r) + rest, RECORD_HEADER + Announced(r.packet);
    assert bytes == RecordHeader(r) + (r.packet + rest);
    LengthIsRead(r, r.packet + rest);
    AnnouncedExact(r.packet);
    assert |bytes[RECORD_HEADER..end]| == Announced(r.packet);
    assert ([r] + ReadRecords(rest))[0] == r;
    if |r.packet| < 0x1_0000_0000 {
      assert bytes[RECORD_HEADER..end] == r.packet && bytes[end..] == rest;
    }
  }

  lemma {:induction false} RecordsAreRead(records: seq<Record>, tail: seq<byte>)
    ensures ReadRecords(RecordsBytes(records) + tail) == records <==> Fits(records) && ReadRecords(tail) == []
    decreases |records|
  {
    hide ReadRecords, RecordBytes;
    if records == [] {
      assert RecordsBytes(records) + tail == tail;
    } else {
      var r, rest := records[0], RecordsBytes(records[1..]) + tail;
      RecordsAreRead(records[1..], tail);
      RecordIsRead(r, rest);
      assert RecordsBytes(records) + tail == RecordBytes(r) + rest;
      assert records == [r] + records[1..];
      assert ([r] + ReadRecords(rest))[1..] == ReadRecords(rest);
    }
  }

  /** A capture file holds exactly the packets that were written, in order, if and only if all are
      shorter than 4 GiB and what a failed write left behind is no record. */
  lemma FileRoundTrip(datalink: u32, records: seq<Record>, tail: seq<byte>)
    ensures ReadFile(FileHeader(datalink) + RecordsBytes(records) + tail) == Some(Capture(datalink, records)) <==>
            Fits(records) && ReadRecords(tail) == []
  {
    hide Le32At, Le32, ReadRecords;
    var bytes := FileHeader(datalink) + RecordsBytes(records) + tail;
    assert bytes[0..4] == Le32(MAGIC) && bytes[20..24] == Le32(datalink);
    Le32Slice(bytes, 0);
    Le32Slice(bytes, 20);
    Le32RoundTrip(MAGIC);
    Le32RoundTrip(datalink);
    assert bytes[FILE_HEADER..] == RecordsBytes(records) + tail;
    RecordsAreRead(records, tail);
  }

  /** The file header: the magic number, version 2.4, no time zone, no accuracy, at most 65535 bytes of each
      packet, and the link type. */
  lemma FileHeaderIsRead(datalink: u32)
    ensures var h := FileHeader(datalink);
      && h[..4] == [0xd4, 0xc3, 0xb2, 0xa1] && h[4..8] == [2, 0, 4, 0]
      && Le32At(h, 8) == 0 && Le32At(h, 12) == 0 && Le32At(h, 16) == 65535 && Le32At(h, 20) == datalink
  {
    hide Le32At;
    var h := FileHeader(datalink);
    assert h[8..12] == Le32(0) && h[12..16] == Le32(0) && h[16..20] == Le32(0xFFFF) && h[20..24] == Le32(datalink);
    Le32Slice(h, 8);
    Le32Slice(h, 12);
    Le32Slice(h, 16);
    Le32Slice(h, 20);
    Le32RoundTrip(0);
    Le32RoundTrip(0xFFFF);
    Le32RoundTrip(datalink);
    assert h[..4] == Le32(MAGIC);
  }

  // ---------- byte accounting ----------

  function AnnouncedTotal(records: seq<Record>): nat {
    if records == [] then 0 else RECORD_HEADER + Announced(records[0].packet) + AnnouncedTotal(records[1..])
  }

  lemma {:induction false} TotalIsExact(records: seq<Record>)
    ensures AnnouncedTotal(records) <= |RecordsBytes(records)|
    ensures AnnouncedTotal(records) == |RecordsBytes(records)| <==> Fits(records)
  {
    hide RecordHeader, Announced;
    if records != [] {
      TotalIsExact(records[1..]);
      AnnouncedExact(records[0].packet);
      assert Fits(records) <==> |records[0].packet| < 0x1_0000_0000 && Fits(records[1..]) by {
        assert records == [records[0]] + records[1..];
      }
    }
  }

  lemma {:induction false} RecordsAppend(records: seq<Record>, r: Record)
    ensures RecordsBytes(records + [r]) == RecordsBytes(records) + RecordBytes(r)
    ensures AnnouncedTotal(records + [r]) == AnnouncedTotal(records) + RECORD_HEADER + Announced(r.packet)
  {
    hide RecordBytes, Announced;
    if records == [] {
      assert (records + [r])[1..] == [];
      assert RecordsBytes(records + [r]) == RecordBytes(r) + [];
    } else {
      assert (records + [r])[0] == records[0] && (records + [r])[1..] == records[1..] + [r];
      RecordsAppend(records[1..], r);
    }
  }

  // ---------- the stream as the program runs it ----------

  /** An output stream onto something with limited room. The write that does not fit stores what
      does, and the stream is not good, and takes nothing, from then on. */
  class Sink {
    var bytes: seq<byte>
    var room: nat
    var good: bool

    constructor (room: nat)
      ensures bytes == [] && good && this.room == room
    {
      bytes, good, this.room := [], true, room;
    }

    method Write(data: seq<byte>)
      modifies this
      ensures good == (old(good) && |data| <= old(room))
      ensures good ==> bytes == old(bytes) + data
      ensures !good && old(good) ==> old(bytes) <= bytes && bytes[|old(bytes)|..] < data
      ensures !old(good) ==> bytes == old(bytes)
    {
      if good {
        if |data| <= room {
          bytes, room := bytes + data, room - |data|;
        } else {
          bytes, room, good := bytes + data[..room], 0, false;
        }
      }
    }
  }

  datatype Failure = BadPacket(error: Error) | BadDatalink | StreamFailed

  class OStream {
    const datalink: u32
    const sout: Sink
    /** What the stream held before the file began. */
    ghost const base: seq<byte>
    var total: nat
    /** The packets whose writing succeeded ... */
    ghost var written: seq<Record>
    /** ... and the one whose writing failed half-way, with what it left behind. */
    ghost var failed: Option<Record>
    ghost var tail: seq<byte>

    ghost predicate Valid()
      reads this, sout
    {
      && sout.bytes == base + FileHeader(datalink) + RecordsBytes(written) + tail
      && (failed.None? ==> tail == [])
      && (failed.Some? ==> !sout.good && tail < RecordBytes(failed.value))
      && total == FILE_HEADER + AnnouncedTotal(written) + (if |tail| < RECORD_HEADER then 0 else RECORD_HEADER)
    }

    constructor (sink: Sink, datalink: u32)
      modifies sink
      ensures sout == sink && this.datalink == datalink && base == old(sink.bytes)
      ensures sink.good ==> Valid() && written == [] && failed == None
      ensures sink.good == (old(sink.good) && old(sink.room) >= FILE_HEADER)
    {
      sout, this.datalink, base, total := sink, datalink, sink.bytes, 0;
      written, failed, tail := [], None, [];
      new;
      sink.Write(FileHeader(datalink));
      total := total + FILE_HEADER;
    }

    /** Writes one packet; `flow` is the next number of the program-wide packet sequence. */
    method Write(sec: u32, usec: u32, r: Request, flow: u32) returns (failure: Option<Failure>)
      requires Valid() && r.Valid() && r.datalink == datalink
      modifies this, sout
      ensures Valid()
      ensures match Headers(r, flow)
              case Err(e) => failure == Some(BadPacket(e)) && unchanged(this) && unchanged(sout)
              case Ok(headers) =>
                var record := Record(sec, usec, headers + r.data);
                if failure == None
                then sout.good && written == old(written) + [record] && failed == None
                else failure == Some(StreamFailed) && !sout.good && written == old(written)
                     && failed == (if old(sout.good) then Some(record) else old(failed))
      ensures failure == None ==> old(sout.good)
    {
      hide Headers, RecordHeader, FileHeader, RecordBytes, RecordsBytes, AnnouncedTotal;
      var packet := new IPPacket(r, flow);
      var error := packet.Build();
      if error.Some? {
        return Some(BadPacket(error.value));
      }
      failure := Emit(sec, usec, packet);
    }

    /** The record header, then the packet. */
    method Emit(sec: u32, usec: u32, packet: IPPacket) returns (failure: Option<Failure>)
      requires Valid() && packet.Valid() && packet.currentOffset <= BUFFER_SIZE
      modifies this, sout
      ensures Valid()
      ensures var record := Record(sec, usec, packet.Serialized());
        if failure == None then sout.good && written == old(written) + [record] && failed == None
        else failure == Some(StreamFailed) && !sout.good && written == old(written)
             && failed == (if old(sout.good) then Some(record) else old(failed))
      ensures failure == None ==> old(sout.good)
    {
      hide RecordHeader, FileHeader, Announced, RecordBytes, RecordsBytes, AnnouncedTotal, Le32;
      ghost var good, before := sout.good, sout.bytes;
      ghost var record := Record(sec, usec, packet.Serialized());
      var size := packet.currentOffset + |packet.r.data|;
      var len: u32 := size % 0x1_0000_0000;
      HeaderFields(record, len);
      sout.Write(Le32(sec) + Le32(usec) + Le32(len) + Le32(len));
      if !sout.good {
        if good {
          CutInHeader(before, sout.bytes, record);
          failed, tail := Some(record), sout.bytes[|before|..];
        }
        return Some(StreamFailed);
      }
      total := total + RECORD_HEADER;
      var ok := Serialize(packet);
      if !ok {
        CutInPacket(before, sout.bytes, record);
        failed, tail := Some(record), sout.bytes[|before|..];
        return Some(StreamFailed);
      }
      Whole(before, sout.bytes, record);
      RecordsAppend(written, record);
      Appended(base + FileHeader(datalink), RecordsBytes(written), before, RecordBytes(record), sout.bytes);
      total := total + len;
      written := written + [record];
      return None;
    }

    /** The headers from the packet's buffer, then the data if that went well. */
    method Serialize(packet: IPPacket) returns (ok: bool)
      requires packet.Valid() && packet.currentOffset <= BUFFER_SIZE && sout.good
      modifies sout
      ensures ok == sout.good
      ensures ok ==> sout.bytes == old(sout.bytes) + packet.Serialized()
      ensures !ok ==> old(sout.bytes) <= sout.bytes && sout.bytes[|old(sout.bytes)|..] < packet.Serialized()
    {
      ghost var before := sout.bytes;
      sout.Write(packet.buf[..packet.currentOffset]);
      if !sout.good {
        return false;
      }
      sout.Write(packet.r.data);
      return sout.good;
    }

    /** At any time, whatever has failed, the file holds exactly the packets whose writing succeeded, if
        and only if these are shorter than 4 GiB and the one that failed was cut short of its announced
        length, which is so if it is shorter than 4 GiB too. */
    lemma Readable()
      requires Valid()
      ensures base <= sout.bytes
      ensures ReadFile(sout.bytes[|base|..]) == Some(Capture(datalink, written)) <==>
              && Fits(written)
              && (failed.Some? ==> |tail| < RECORD_HEADER + Announced(failed.value.packet))
      ensures failed.Some? && Fits([failed.value]) ==> |tail| < RECORD_HEADER + Announced(failed.value.packet)
    {
      hide FileHeader, RecordsBytes, ReadFile, RecordHeader, Announced;
      var file := FileHeader(datalink) + RecordsBytes(written) + tail;
      assert sout.bytes == base + file && sout.bytes[|base|..] == file;
      FileRoundTrip(datalink, written, tail);
      if failed.Some? {
        CutShortIsIgnored(failed.value, tail);
        AnnouncedExact(failed.value.packet);
        assert failed.value in [failed.value];
      }
    }

    /** `total` counts the bytes emitted if and only if all packets are shorter than 4 GiB. */
    lemma TotalCounts()
      requires Valid() && sout.good
      ensures |base| + total == |sout.bytes| <==> Fits(written)
      ensures |base| + total <= |sout.bytes|
    {
      TotalIsExact(written);
    }
  }

  /** Opens a capture file on a stream, unless the link type cannot be written or the stream fails. */
  method Open(sink: Sink, datalink: u32) returns (out: OStream?, failure: Option<Failure>)
    modifies sink
    ensures failure == Some(BadDatalink) <==> datalink !in {DLT_RAW, DLT_NULL, DLT_LOOP, DLT_EN10MB}
    ensures failure == Some(BadDatalink) ==> unchanged(sink)
    ensures failure == Some(StreamFailed) ==> !sink.good
    ensures failure == None ==>
              && out != null && out.Valid() && out.sout == sink && sink.good
              && out.datalink == datalink && out.base == old(sink.bytes)
              && out.written == [] && out.failed == None && out.total == FILE_HEADER
    ensures failure == None || failure == Some(BadDatalink) || failure == Some(StreamFailed)
  {
    if datalink != DLT_RAW && datalink != DLT_NULL && datalink != DLT_LOOP && datalink != DLT_EN10MB {
      return null, Some(BadDatalink);
    }
    out := new OStream(sink, datalink);
    if !sink.good {
      return null, Some(StreamFailed);
    }
    failure := None;
  }

  // What reaches the sink when the write of a record stops in its header, stops in its packet, or
  // goes through.

  lemma CutInHeader(before: seq<byte>, after: seq<byte>, r: Record)
    requires before <= after && after[|before|..] < RecordHeader(r)
    ensures after == before + after[|before|..]
    ensures after[|before|..] < RecordBytes(r) && |after[|before|..]| < RECORD_HEADER
  {
    hide RecordHeader;
  }

  lemma CutInPacket(before: seq<byte>, after: seq<byte>, r: Record)
    requires before + RecordHeader(r) <= after && after[|before| + RECORD_HEADER..] < r.packet
    ensures after == before + after[|before|..]
    ensures after[|before|..] < RecordBytes(r) && |after[|before|..]| >= RECORD_HEADER
  {
    hide RecordHeader;
    assert after[|before|..] == RecordHeader(r) + after[|before| + RECORD_HEADER..];
  }

  lemma Whole(before: seq<byte>, after: seq<byte>, r: Record)
    requires after == before + RecordHeader(r) + r.packet
    ensures after == before + RecordBytes(r)
  {
    hide RecordHeader;
  }

  lemma Appended(front: seq<byte>, records: seq<byte>, before: seq<byte>, record: seq<byte>, after: seq<byte>)
    requires before == front + records + [] && after == before + record
    ensures after == front + (records + record) + []
  {
  }

  lemma HeaderFields(r: Record, len: u32)
    requires len == |r.packet| % 0x1_0000_0000
    ensures len == Announced(r.packet)
    ensures RecordHeader(r) == Le32(r.sec) + Le32(r.usec) + Le32(len) + Le32(len)
  {
  }
}
