/** A VoIPmonitor block: a header, a table of packet offsets and the (possibly compressed) packet
    data. What a complete block contains, and that its slices cover the data exactly. */
module VoipBlock {
  import opened Bytes
  import opened PayloadStack

  const HEADER := 64
  const TITLE: seq<byte> := [112, 99, 97, 112, 95, 98, 108, 111, 99, 107, 95, 115, 116, 111, 114, 101] // pcap_block_store
  const PKTHDR_PLUS := 34
  const PKTHDR_PLUS2 := 58
  const MODE_PLUS2 := 1

  datatype Outcome<+T> = Done(value: T) | Threw

  datatype Packet = Packet(data: seq<byte>, info: Info)

  /** The decompressor: the output for a valid input, and nothing for an invalid one. */
  type Snappy = seq<byte> -> Option<seq<byte>>

  // ---------- the header ----------

  function Size(h: seq<byte>): u32 requires |h| >= HEADER { Le32At(h, 20) }

  function SizeCompress(h: seq<byte>): u32 requires |h| >= HEADER { Le32At(h, 24) }

  function Count(h: seq<byte>): u32 requires |h| >= HEADER { Le32At(h, 28) }

  function Mode(h: seq<byte>): byte requires |h| >= HEADER { h[46] }

  /** The number of data bytes that follow the offset table. */
  function StoredSize(h: seq<byte>): u32
    requires |h| >= HEADER
  {
    if SizeCompress(h) != 0 then SizeCompress(h) else Size(h)
  }

  predicate HeaderOk(h: seq<byte>)
    requires |h| >= HEADER
  {
    && h[..|TITLE|] == TITLE
    && Count(h) != 0
    && StoredSize(h) != 0
    && SizeCompress(h) <= Size(h)
  }

  /** The length of the whole block, as its header announces it. */
  function Total(h: seq<byte>): (total: nat)
    requires |h| >= HEADER
    ensures total >= HEADER
  {
    HEADER + 4 * Count(h) + StoredSize(h)
  }

  // ---------- offsets and slices ----------

  function Offsets(block: seq<byte>): (offsets: seq<u32>)
    requires |block| >= HEADER && |block| >= Total(block)
    ensures |offsets| == Count(block)
  {
    seq(Count(block), i requires 0 <= i < Count(block) => Le32At(block, HEADER + 4 * i))
  }

  predicate Ascending(offsets: seq<u32>) {
    forall i, j | 0 <= i < j < |offsets| :: offsets[i] <= offsets[j]
  }

  predicate OffsetsOk(offsets: seq<u32>, size: nat) {
    offsets != [] && Ascending(offsets) && offsets[|offsets| - 1] < size
  }

  /** Packet `i` runs to the next packet's offset, the last one to the end of the data. */
  function SliceEnd(offsets: seq<u32>, size: nat, i: nat): nat
    requires i < |offsets|
  {
    if i + 1 == |offsets| then size else offsets[i + 1]
  }

  function Slice(data: seq<byte>, offsets: seq<u32>, i: nat): seq<byte>
    requires i < |offsets| && OffsetsOk(offsets, |data|)
  {
    data[offsets[i]..SliceEnd(offsets, |data|, i)]
  }

  function Slices(data: seq<byte>, offsets: seq<u32>): (slices: seq<seq<byte>>)
    requires OffsetsOk(offsets, |data|)
    ensures |slices| == |offsets|
  {
    seq(|offsets|, i requires 0 <= i < |offsets| => Slice(data, offsets, i))
  }

  /** The slices are contiguous and cover the data from the first offset to its end. */
  lemma SlicesPartition(data: seq<byte>, offsets: seq<u32>)
    requires OffsetsOk(offsets, |data|)
    ensures Flatten(Slices(data, offsets)) == data[offsets[0]..]
  {
    SlicesFrom(data, offsets, 0);
    assert Slices(data, offsets)[0..] == Slices(data, offsets);
  }

  lemma {:induction false} SlicesFrom(data: seq<byte>, offsets: seq<u32>, i: nat)
    requires OffsetsOk(offsets, |data|) && i < |offsets|
    ensures Flatten(Slices(data, offsets)[i..]) == data[offsets[i]..]
    decreases |offsets| - i
  {
    var slices := Slices(data, offsets);
    assert slices[i..][0] == slices[i] && slices[i..][1..] == slices[i + 1..];
    if i + 1 < |offsets| {
      SlicesFrom(data, offsets, i + 1);
    } else {
      assert slices[i + 1..] == [];
    }
  }

  /** The offset table of pieces laid end to end, the first of them at `from`. */
  function OffsetsFor(pieces: seq<seq<byte>>, from: nat): (offsets: seq<u32>)
    requires from + |Flatten(pieces)| < 0x1_0000_0000
    ensures |offsets| == |pieces|
    decreases |pieces|
  {
    if pieces == [] then [] else [from] + OffsetsFor(pieces[1..], from + |pieces[0]|)
  }

  lemma {:induction false} OffsetsForBounds(pieces: seq<seq<byte>>, from: nat)
    requires from + |Flatten(pieces)| < 0x1_0000_0000
    ensures var offsets := OffsetsFor(pieces, from);
      && Ascending(offsets)
      && (forall i | 0 <= i < |pieces| :: from <= offsets[i])
      && (pieces != [] ==> offsets[|pieces| - 1] == from + |Flatten(pieces)| - |pieces[|pieces| - 1]|)
    decreases |pieces|
  {
    if pieces != [] {
      hide Ascending;
      var rest, next := pieces[1..], from + |pieces[0]|;
      OffsetsForBounds(rest, next);
      LowestFirst(from, OffsetsFor(rest, next));
      assert rest != [] ==> rest[|rest| - 1] == pieces[|pieces| - 1];
    }
  }

  lemma LowestFirst(first: u32, offsets: seq<u32>)
    requires Ascending(offsets) && forall i | 0 <= i < |offsets| :: first <= offsets[i]
    ensures Ascending([first] + offsets) && forall i | 0 <= i < |offsets| + 1 :: first <= ([first] + offsets)[i]
  {
  }

  lemma {:induction false} PieceAt(before: seq<byte>, pieces: seq<seq<byte>>, i: nat)
    requires |before| + |Flatten(pieces)| < 0x1_0000_0000 && i < |pieces|
    ensures var data, offsets := before + Flatten(pieces), OffsetsFor(pieces, |before|);
      && offsets[i] <= SliceEnd(offsets, |data|, i) <= |data|
      && data[offsets[i]..SliceEnd(offsets, |data|, i)] == pieces[i]
    decreases |pieces|
  {
    var rest := pieces[1..];
    assert before + Flatten(pieces) == (before + pieces[0]) + Flatten(rest);
    if i > 0 {
      PieceAt(before + pieces[0], rest, i - 1);
    } else if rest == [] {
      assert before + Flatten(pieces) == before + pieces[0];
    } else {
      assert OffsetsFor(pieces, |before|)[1] == |before + pieces[0]|;
    }
  }

  /** Slicing undoes laying pieces end to end: every piece comes back, if the last is not empty. */
  lemma SlicesOfJoined(pieces: seq<seq<byte>>)
    requires pieces != [] && pieces[|pieces| - 1] != [] && |Flatten(pieces)| < 0x1_0000_0000
    ensures OffsetsOk(OffsetsFor(pieces, 0), |Flatten(pieces)|)
    ensures Slices(Flatten(pieces), OffsetsFor(pieces, 0)) == pieces
  {
    hide OffsetsFor;
    var data, offsets := Flatten(pieces), OffsetsFor(pieces, 0);
    OffsetsForBounds(pieces, 0);
    forall i | 0 <= i < |pieces|
      ensures Slices(data, offsets)[i] == pieces[i]
    {
      PieceAt([], pieces, i);
      assert [] + data == data;
    }
  }

  // ---------- packets ----------

  /** The packet in a slice, if it carries a payload. */
  function PacketIn(slice: seq<byte>, mode: byte): (r: Parsed)
    ensures r.offset <= |slice|
  {
    var hsize := if mode == MODE_PLUS2 then PKTHDR_PLUS2 else PKTHDR_PLUS;
    if hsize < |slice| then
      var caplen := Le32At(slice, 8);
      var ipOffset: u16 := slice[24] as int + 0x100 * slice[25] as int;
      if caplen < |slice| && ipOffset < |slice| && ipOffset < caplen then
        var cap := |slice| - caplen + ipOffset;
        var info := NOTHING_KNOWN.(sec := Le32At(slice, 0), usec := Le32At(slice, 4));
        var r := SmartParse(DLT_RAW, slice[cap..], info);
        Parsed(cap + r.offset, r.info)
      else Parsed(|slice|, NOTHING_KNOWN)
    else Parsed(|slice|, NOTHING_KNOWN)
  }

  /** A captured packet in a slice is read as the parsers read it by itself: `header` is the capture
      header, of whatever length, and `link` the link-layer header that the capture kept. */
  lemma CapturedPacketIsRead(header: seq<byte>, link: seq<byte>, packet: seq<byte>, mode: byte)
    requires |header| >= 26 && packet != []
    requires |header| + |link| + |packet| > if mode == MODE_PLUS2 then PKTHDR_PLUS2 else PKTHDR_PLUS
    requires Le32At(header, 8) == |link| + |packet|
    requires header[24] as int + 0x100 * header[25] as int == |link|
    ensures var slice := header + link + packet;
      var info := NOTHING_KNOWN.(sec := Le32At(header, 0), usec := Le32At(header, 4));
      var alone := SmartParse(DLT_RAW, packet, info);
      && slice[PacketIn(slice, mode).offset..] == packet[alone.offset..]
      && PacketIn(slice, mode).info == alone.info
  {
    hide SmartParse;
    var slice := header + link + packet;
    assert slice[|header| + |link|..] == packet;
    assert Le32At(slice, 0) == Le32At(header, 0) && Le32At(slice, 4) == Le32At(header, 4);
    assert Le32At(slice, 8) == Le32At(header, 8) && slice[24] == header[24] && slice[25] == header[25];
  }

  /** A slice that is no longer than its capture header, or says that it holds more than there is or that its
      packet begins behind the end, has no packet. */
  lemma NoPacketIn(slice: seq<byte>, mode: byte)
    requires |slice| <= (if mode == 1 then 58 else 34) ||
             (var caplen, at := Le32At(slice, 8), slice[24] as int + 0x100 * slice[25] as int;
              caplen >= |slice| || at >= |slice| || at >= caplen)
    ensures PacketIn(slice, mode) == Parsed(|slice|, NOTHING_KNOWN)
  {
  }

  function PacketsIn(slices: seq<seq<byte>>, mode: byte): seq<Packet> {
    if slices == [] then []
    else
      var slice := slices[0];
      var r := PacketIn(slice, mode);
      (if r.offset < |slice| then [Packet(slice[r.offset..], r.info)] else []) + PacketsIn(slices[1..], mode)
  }

  lemma NoPackets(slices: seq<seq<byte>>, mode: byte)
    requires slices == []
    ensures PacketsIn(slices, mode) == []
  {
  }

  lemma NextPacket(slices: seq<seq<byte>>, i: nat, pkt: seq<byte>, mode: byte)
    requires i < |slices| && slices[i] == pkt
    ensures var r := PacketIn(pkt, mode);
      PacketsIn(slices[i..], mode) ==
      (if r.offset < |pkt| then [Packet(pkt[r.offset..], r.info)] else []) + PacketsIn(slices[i + 1..], mode)
  {
    assert slices[i..][1..] == slices[i + 1..];
  }

  /** What the parts of a block stand for: the offsets are checked against the size, compressed data
      is unpacked to exactly that size, and every slice with a payload gives a packet. */
  function Unpack(offsets: seq<u32>, stored: seq<byte>, size: u32, mode: byte, snappy: Snappy): Outcome<seq<Packet>> {
    if !OffsetsOk(offsets, size) then Threw
    else if |stored| == size then Done(PacketsIn(Slices(stored, offsets), mode))
    else
      match snappy(stored)
      case Some(data) => if |data| == size then Done(PacketsIn(Slices(data, offsets), mode)) else Threw
      case None => Threw
  }

  /** The data bytes as they are in the block. */
  function Stored(block: seq<byte>): (stored: seq<byte>)
    requires |block| >= HEADER && |block| >= Total(block)
    ensures |stored| == StoredSize(block)
  {
    block[HEADER + 4 * Count(block)..Total(block)]
  }

  function Contents(block: seq<byte>, snappy: Snappy): Outcome<seq<Packet>>
    requires |block| >= HEADER && HeaderOk(block) && |block| >= Total(block)
  {
    Unpack(Offsets(block), Stored(block), Size(block), Mode(block), snappy)
  }

  /** On both the raw and the compressed path, the data that is cut into slices has exactly the size
      that the header announces, and the slices cover it from the first offset to the end. */
  lemma ContentsCoverData(block: seq<byte>, snappy: Snappy)
    requires |block| >= HEADER && HeaderOk(block) && |block| >= Total(block)
    requires Contents(block, snappy).Done?
    ensures exists data: seq<byte> ::
              && |data| == Size(block) && OffsetsOk(Offsets(block), |data|)
              && (data == Stored(block) || snappy(Stored(block)) == Some(data))
              && Contents(block, snappy) == Done(PacketsIn(Slices(data, Offsets(block)), Mode(block)))
              && Flatten(Slices(data, Offsets(block))) == data[Offsets(block)[0]..]
  {
    hide Slices, PacketsIn, HeaderOk;
    var stored := Stored(block);
    var data := if |stored| == Size(block) then stored else snappy(stored).value;
    SlicesPartition(data, Offsets(block));
  }

  lemma SameHeader(a: seq<byte>, b: seq<byte>)
    requires |a| >= HEADER && |b| >= HEADER && a[..HEADER] == b[..HEADER]
    ensures HeaderOk(a) == HeaderOk(b) && Total(a) == Total(b)
    ensures Size(a) == Size(b) && StoredSize(a) == StoredSize(b) && Count(a) == Count(b) && Mode(a) == Mode(b)
  {
    assert forall k | 0 <= k < HEADER :: a[k] == a[..HEADER][k] && b[k] == b[..HEADER][k];
    assert a[..|TITLE|] == a[..HEADER][..|TITLE|] && b[..|TITLE|] == b[..HEADER][..|TITLE|];
  }

  /** A block is known by its first `Total` bytes: what follows them does not change its contents. */
  lemma TrailingBytesDropped(block: seq<byte>, trailing: seq<byte>, snappy: Snappy)
    requires |block| >= HEADER && HeaderOk(block) && |block| >= Total(block)
    ensures HeaderOk(block + trailing)
    ensures Total(block + trailing) == Total(block)
    ensures Contents(block + trailing, snappy) == Contents(block, snappy)
  {
    var more := block + trailing;
    assert more[..HEADER] == block[..HEADER];
    SameHeader(more, block);
    assert Offsets(more) == Offsets(block);
    assert Stored(more) == Stored(block);
  }

  predicate IsSuffix(part: seq<byte>, slice: seq<byte>) {
    |part| <= |slice| && slice[|slice| - |part|..] == part
  }

  /** Every packet of a block is a non-empty piece of the data, the end of one of its slices. */
  lemma {:induction false} PacketsAreSuffixes(slices: seq<seq<byte>>, mode: byte, k: nat)
    requires k < |PacketsIn(slices, mode)|
    ensures PacketsIn(slices, mode)[k].data != []
    ensures exists i :: 0 <= i < |slices| && IsSuffix(PacketsIn(slices, mode)[k].data, slices[i])
  {
    hide PacketIn;
    var r := PacketIn(slices[0], mode);
    if r.offset < |slices[0]| && k == 0 {
      assert IsSuffix(slices[0][r.offset..], slices[0]);
    } else {
      var j := if r.offset < |slices[0]| then k - 1 else k;
      PacketsAreSuffixes(slices[1..], mode, j);
      var data := PacketsIn(slices[1..], mode)[j].data;
      var i :| 0 <= i < |slices[1..]| && IsSuffix(data, slices[1..][i]);
      assert IsSuffix(data, slices[i + 1]);
    }
  }

  // ---------- blocks as bytes ----------

  /** Which 64 bytes are a header: the title, a positive size and count, and a compressed size that is not
      greater than the size. */
  lemma WhichHeader(h: seq<byte>)
    requires |h| >= HEADER
    ensures HeaderOk(h) <==>
            h[..16] == TITLE && Le32At(h, 20) > 0 && Le32At(h, 28) > 0 && Le32At(h, 24) <= Le32At(h, 20)
  {
  }

  function Table(offsets: seq<u32>): (t: seq<byte>)
    ensures |t| == 4 * |offsets|
  {
    if offsets == [] then [] else Le32(offsets[0]) + Table(offsets[1..])
  }

  lemma {:induction false} TableAt(offsets: seq<u32>, i: nat)
    requires i < |offsets|
    ensures Le32At(Table(offsets), 4 * i) == offsets[i]
    decreases i
  {
    hide Le32At, Le32;
    var t := Table(offsets);
    if i == 0 {
      Le32RoundTrip(offsets[0]);
      assert t[..4] == Le32(offsets[0]);
      Le32Within(t, 0, Le32(offsets[0]), 0);
    } else {
      TableAt(offsets[1..], i - 1);
      assert t[4..] == Table(offsets[1..]);
      Le32Within(t, 4, Table(offsets[1..]), 4 * i - 4);
    }
  }

  lemma Le32Within(s: seq<byte>, start: nat, part: seq<byte>, at: nat)
    requires start + |part| <= |s| && s[start..start + |part|] == part && at + 4 <= |part|
    ensures Le32At(s, start + at) == Le32At(part, at)
  {
    assert forall k | 0 <= k < |part| :: s[start + k] == part[k];
  }

  /** The header and the offset table of a block. The 4, 14 and 17 bytes that nothing looks at are arbitrary. */
  function Front(size: u32, compressed: u32, mode: byte, offsets: seq<u32>, a: seq<byte>, b: seq<byte>, c: seq<byte>): (s: seq<byte>)
    requires |a| == 4 && |b| == 14 && |c| == 17 && |offsets| < 0x1_0000_0000
    ensures |s| == HEADER + 4 * |offsets|
  {
    TITLE + a + Le32(size) + Le32(compressed) + Le32(|offsets|) + b + [mode] + c + Table(offsets)
  }

  lemma FrontIsRead(size: u32, compressed: u32, mode: byte, offsets: seq<u32>, a: seq<byte>, b: seq<byte>, c: seq<byte>, rest: seq<byte>)
    requires |a| == 4 && |b| == 14 && |c| == 17 && |offsets| < 0x1_0000_0000
    ensures var block := Front(size, compressed, mode, offsets, a, b, c) + rest;
      && block[..16] == TITLE && Mode(block) == mode
      && Size(block) == size && SizeCompress(block) == compressed && Count(block) == |offsets|
  {
    hide Le32At, Le32, Table;
    var block := Front(size, compressed, mode, offsets, a, b, c) + rest;
    Le32RoundTrip(size);
    Le32RoundTrip(compressed);
    Le32RoundTrip(|offsets|);
    assert block[20..24] == Le32(size) && block[24..28] == Le32(compressed) && block[28..32] == Le32(|offsets|);
    Le32Within(block, 20, Le32(size), 0);
    Le32Within(block, 24, Le32(compressed), 0);
    Le32Within(block, 28, Le32(|offsets|), 0);
  }

  lemma TableIsRead(front: seq<byte>, offsets: seq<u32>, rest: seq<byte>)
    requires |front| == HEADER
    ensures var block := front + Table(offsets) + rest;
      forall i | 0 <= i < |offsets| :: Le32At(block, HEADER + 4 * i) == offsets[i]
  {
    hide Le32At, Table;
    var block := front + Table(offsets) + rest;
    assert block[HEADER..HEADER + 4 * |offsets|] == Table(offsets);
    forall i | 0 <= i < |offsets|
      ensures Le32At(block, HEADER + 4 * i) == offsets[i]
    {
      TableAt(offsets, i);
      Le32Within(block, HEADER, Table(offsets), 4 * i);
    }
  }

  /** The packet in a slice, or none. */
  function PacketOf(slice: seq<byte>, mode: byte): seq<Packet> {
    var r := PacketIn(slice, mode);
    if r.offset < |slice| then [Packet(slice[r.offset..], r.info)] else []
  }

  function PacketsOf(slices: seq<seq<byte>>, mode: byte): seq<seq<Packet>> {
    seq(|slices|, i requires 0 <= i < |slices| => PacketOf(slices[i], mode))
  }

  lemma {:induction false} PacketsInOrder(slices: seq<seq<byte>>, mode: byte)
    ensures PacketsIn(slices, mode) == Flatten(PacketsOf(slices, mode))
    decreases |slices|
  {
    hide PacketIn;
    if slices != [] {
      PacketsInOrder(slices[1..], mode);
      assert PacketsOf(slices, mode)[1..] == PacketsOf(slices[1..], mode);
    }
  }

  /** Stored data for `data`: as it is, or what the decompressor makes into it. */
  predicate Stores(stored: seq<byte>, compressed: u32, data: seq<byte>, snappy: Snappy) {
    || (stored == data && (compressed == 0 || compressed == |data|))
    || (0 < compressed == |stored| < |data| && snappy(stored) == Some(data))
  }

  /** A block of pieces laid end to end gives the packets of the pieces, in order, whether its data is
      compressed or not. */
  lemma BlockHolds(pieces: seq<seq<byte>>, compressed: u32, stored: seq<byte>, mode: byte, a: seq<byte>, b: seq<byte>, c: seq<byte>, snappy: Snappy)
    requires |a| == 4 && |b| == 14 && |c| == 17
    requires pieces != [] && pieces[|pieces| - 1] != []
    requires |pieces| < 0x1_0000_0000 && |Flatten(pieces)| < 0x1_0000_0000
    requires Stores(stored, compressed, Flatten(pieces), snappy)
    ensures var block := Front(|Flatten(pieces)|, compressed, mode, OffsetsFor(pieces, 0), a, b, c) + stored;
      && HeaderOk(block) && |block| == Total(block)
      && Contents(block, snappy) == Done(Flatten(PacketsOf(pieces, mode)))
  {
    hide Front, Table, OffsetsFor, OffsetsOk, Slices, PacketsIn, PacketsOf, Flatten;
    var data, offsets := Flatten(pieces), OffsetsFor(pieces, 0);
    var block := Front(|data|, compressed, mode, offsets, a, b, c) + stored;
    LastIsThere(pieces);
    FrontIsRead(|data|, compressed, mode, offsets, a, b, c, stored);
    WhichHeader(block);
    BlockOffsets(|data|, compressed, mode, offsets, a, b, c, stored);
    assert Stored(block) == stored;
    SlicesOfJoined(pieces);
    PacketsInOrder(pieces, mode);
  }

  lemma LastIsThere(pieces: seq<seq<byte>>)
    requires pieces != [] && pieces[|pieces| - 1] != []
    ensures Flatten(pieces) != []
    decreases |pieces|
  {
    if |pieces| > 1 {
      LastIsThere(pieces[1..]);
    }
  }

  lemma BlockOffsets(size: u32, compressed: u32, mode: byte, offsets: seq<u32>, a: seq<byte>, b: seq<byte>, c: seq<byte>, rest: seq<byte>)
    requires |a| == 4 && |b| == 14 && |c| == 17 && |offsets| < 0x1_0000_0000
    requires var block := Front(size, compressed, mode, offsets, a, b, c) + rest; Count(block) == |offsets| && |block| >= Total(block)
    ensures Offsets(Front(size, compressed, mode, offsets, a, b, c) + rest) == offsets
  {
    hide Le32At, Le32, Table, Total, Count;
    var front := TITLE + a + Le32(size) + Le32(compressed) + Le32(|offsets|) + b + [mode] + c;
    TableIsRead(front, offsets, rest);
    assert Front(size, compressed, mode, offsets, a, b, c) == front + Table(offsets);
  }

  /** The offset table of a block is accepted as its bytes say. */
  lemma WhichOffsets(block: seq<byte>)
    requires |block| >= HEADER && HeaderOk(block) && |block| >= Total(block)
    ensures var n := Le32At(block, 28);
      OffsetsOk(Offsets(block), Size(block)) <==>
      && (forall i, j | 0 <= i < j < n :: Le32At(block, 64 + 4 * i) <= Le32At(block, 64 + 4 * j))
      && Le32At(block, 64 + 4 * (n - 1)) < Le32At(block, 20)
  {
    hide Le32At;
    var n, offsets := Le32At(block, 28), Offsets(block);
    assert forall i | 0 <= i < n :: offsets[i] == Le32At(block, 64 + 4 * i);
    if Ascending(offsets) {
      forall i, j | 0 <= i < j < n
        ensures Le32At(block, 64 + 4 * i) <= Le32At(block, 64 + 4 * j)
      {
        assert offsets[i] <= offsets[j];
      }
    }
  }

  /** A block is refused if and only if its offsets descend, or the last is not below the size, or its
      data cannot be made into data of that size. */
  lemma WhenRefused(block: seq<byte>, snappy: Snappy)
    requires |block| >= HEADER && HeaderOk(block) && |block| >= Total(block)
    ensures var n, size := Le32At(block, 28), Le32At(block, 20);
      var stored := block[64 + 4 * n..Total(block)];
      Contents(block, snappy) == Threw <==>
      || !(forall i, j | 0 <= i < j < n :: Le32At(block, 64 + 4 * i) <= Le32At(block, 64 + 4 * j))
      || Le32At(block, 64 + 4 * (n - 1)) >= size
      || (|stored| < size && (snappy(stored) == None || |snappy(stored).value| != size))
  {
    hide Le32At, OffsetsOk, Offsets, Slices, PacketsIn;
    WhichOffsets(block);
  }
}
