/** Building a UDP packet around captured data: what the bytes of the packet are, and the object
    that writes them into its buffer. */
module IpPacket {
  import opened Bytes
  import opened Checksum
  import opened PayloadStack

  const AF_INET := 2
  const AF_INET6 := 10
  const BUFFER_SIZE := 1024

  datatype Error = UnsupportedDatalink | UnsupportedFamily | BadSource | BadDestination

  datatype Result<+T> = Ok(value: T) | Err(error: Error)

  /** What to send. An address is what the text converts to in the family, if it converts. */
  datatype Request = Request(datalink: int, af: int,
                             srcAddr: Option<seq<byte>>, srcPort: u16,
                             dstAddr: Option<seq<byte>>, dstPort: u16,
                             data: seq<byte>,
                             srcMac: Option<seq<byte>>, dstMac: Option<seq<byte>>) {
    /** Addresses have their family's length, and a MAC address is 6 bytes. */
    predicate Valid() {
      && (srcAddr.Some? && af == AF_INET ==> |srcAddr.value| == 4)
      && (dstAddr.Some? && af == AF_INET ==> |dstAddr.value| == 4)
      && (srcAddr.Some? && af == AF_INET6 ==> |srcAddr.value| == 16)
      && (dstAddr.Some? && af == AF_INET6 ==> |dstAddr.value| == 16)
      && (srcMac.Some? ==> |srcMac.value| == 6)
      && (dstMac.Some? ==> |dstMac.value| == 6)
    }

    predicate Supported() {
      datalink == DLT_RAW || datalink == DLT_NULL || datalink == DLT_LOOP || datalink == DLT_EN10MB
    }
  }

  // ---------- the bytes of a packet ----------

  // The default MAC addresses are arrays of 16-bit numbers, of which the first 6 bytes are copied.
  const SRC_MAC: seq<byte> := [0x00, 0, 0x16, 0, 0x3e, 0]
  const DST_MAC: seq<byte> := [0x00, 0, 0x1f, 0, 0x12, 0]

  function LinkBytes(r: Request): (s: seq<byte>)
    requires r.Valid() && r.Supported() && (r.af == AF_INET || r.af == AF_INET6)
    ensures |s| == DatalinkHeader(r.datalink, 0)
  {
    var family := if r.af == AF_INET then 2 else 24;
    if r.datalink == DLT_RAW then []
    else if r.datalink == DLT_NULL then [family, 0, 0, 0]
    else if r.datalink == DLT_LOOP then [0, 0, 0, family]
    else
      (if r.dstMac.Some? then r.dstMac.value else DST_MAC) +
      (if r.srcMac.Some? then r.srcMac.value else SRC_MAC) +
      if r.af == AF_INET then [0x08, 0x00] else [0x86, 0xDD]
  }

  /** The IPv4 header up to the addresses. */
  function Ip4Fixed(len: u16, id: u16, check: u16): (s: seq<byte>)
    ensures |s| == 12
  {
    [0x45, 0] + Be16(len) + Be16(id) + [0, 0, 0xFF, PROTO_UDP] + Be16(check)
  }

  function Ip4Bytes(len: u16, id: u16, check: u16, src: seq<byte>, dst: seq<byte>): (s: seq<byte>)
    requires |src| == 4 && |dst| == 4
    ensures |s| == IP_HEADER
  {
    Ip4Fixed(len, id, check) + src + dst
  }

  function Ip4Header(len: u16, id: u16, src: seq<byte>, dst: seq<byte>): (s: seq<byte>)
    requires |src| == 4 && |dst| == 4
    ensures |s| == IP_HEADER
  {
    Ip4Bytes(len, id, CheckSum(Ip4Bytes(len, id, 0, src, dst)), src, dst)
  }

  /** The flow label as the bit fields store it: the low 20 bits of the swapped sequence number. */
  function FlowBytes(flow: u32): (s: seq<byte>)
    ensures |s| == 3
  {
    var a, b := flow / 0x1_0000 % 0x100, flow / 0x100 % 0x100;
    [0, a % 16 * 16, b % 16 * 16 + a / 16]
  }

  function Ip6Header(len: u16, flow: u32, src: seq<byte>, dst: seq<byte>): (s: seq<byte>)
    requires |src| == 16 && |dst| == 16
    ensures |s| == IP6_HEADER
  {
    [0x60] + FlowBytes(flow) + Be16(len) + [PROTO_UDP, 32] + src + dst
  }

  function UdpBytes(srcPort: u16, dstPort: u16, len: u16, check: u16): (s: seq<byte>)
    ensures |s| == UDP_HEADER
  {
    Be16(srcPort) + Be16(dstPort) + Be16(len) + Be16(check)
  }

  function Pseudo4(src: seq<byte>, dst: seq<byte>, len: u16): seq<byte> {
    src + dst + [0, PROTO_UDP] + Be16(len)
  }

  function Pseudo6(src: seq<byte>, dst: seq<byte>): seq<byte> {
    src + dst + [PROTO_UDP, 0, 0, 0, 0, 0, 0, 0]
  }

  /** Addition in a 16-bit variable, where the carry is lost. */
  function Add16(a: u16, b: u16): u16 {
    (a + b) % 0x1_0000
  }

  /** The UDP checksum by parts: the three complemented sums are added in 16 bits, and a zero is
      replaced by one. */
  function UdpCheck(pseudo: seq<byte>, header: seq<byte>, data: seq<byte>): u16 {
    var u := Add16(Add16(CheckSum(pseudo), CheckSum(header)), CheckSum(data));
    if u == 0 then 1 else u
  }

  function UdpLength(r: Request): u16 {
    (UDP_HEADER + |r.data|) % 0x1_0000
  }

  function UdpHeader(pseudo: seq<byte>, r: Request): (s: seq<byte>)
    ensures |s| == UDP_HEADER
  {
    var unchecked := UdpBytes(r.srcPort, r.dstPort, UdpLength(r), 0);
    UdpBytes(r.srcPort, r.dstPort, UdpLength(r), UdpCheck(pseudo, unchecked, r.data))
  }

  function PseudoHeader(r: Request): seq<byte>
    requires r.srcAddr.Some? && r.dstAddr.Some?
  {
    if r.af == AF_INET then Pseudo4(r.srcAddr.value, r.dstAddr.value, UdpLength(r))
    else Pseudo6(r.srcAddr.value, r.dstAddr.value)
  }

  function IpHeader(r: Request, flow: u32): (s: seq<byte>)
    requires r.Valid() && r.srcAddr.Some? && r.dstAddr.Some? && (r.af == AF_INET || r.af == AF_INET6)
    ensures |s| == if r.af == AF_INET then IP_HEADER else IP6_HEADER
  {
    var src, dst := r.srcAddr.value, r.dstAddr.value;
    if r.af == AF_INET
    then Ip4Header((IP_HEADER + UDP_HEADER + |r.data|) % 0x1_0000, flow % 0x1_0000, src, dst)
    else Ip6Header((IP6_HEADER + UDP_HEADER + |r.data|) % 0x1_0000, flow, src, dst)
  }

  /** Everything in front of the data, or why there is no packet. */
  function Headers(r: Request, flow: u32): Result<seq<byte>>
    requires r.Valid()
  {
    if !r.Supported() then Err(UnsupportedDatalink)
    else if r.af != AF_INET && r.af != AF_INET6 then Err(UnsupportedFamily)
    else if r.srcAddr.None? then Err(BadSource)
    else if r.dstAddr.None? then Err(BadDestination)
    else Ok(LinkBytes(r) + IpHeader(r, flow) + UdpHeader(PseudoHeader(r), r))
  }

  lemma NoCarry(u: u16)
    ensures u % 0x1_0000 + u / 0x1_0000 == u
  {
  }

  lemma Ip4Patches(len: u16, id: u16, check: u16, src: seq<byte>, dst: seq<byte>)
    requires |src| == 4 && |dst| == 4
    ensures Ip4Bytes(len, id, 0, src, dst) ==
            Ip4Bytes(0, id, 0, src, dst)[..2] + Be16(len) + Ip4Bytes(0, id, 0, src, dst)[4..]
    ensures Ip4Bytes(len, id, check, src, dst) ==
            Ip4Bytes(len, id, 0, src, dst)[..10] + Be16(check) + Ip4Bytes(len, id, 0, src, dst)[12..]
  {
    hide Be16;
  }

  lemma Ip6Patch(len: u16, flow: u32, src: seq<byte>, dst: seq<byte>)
    requires |src| == 16 && |dst| == 16
    ensures Ip6Header(len, flow, src, dst) ==
            Ip6Header(0, flow, src, dst)[..4] + Be16(len) + Ip6Header(0, flow, src, dst)[6..]
  {
    hide Be16, FlowBytes;
  }

  /** Two bytes changed inside a stretch of a buffer. */
  lemma Patched(was: seq<byte>, now: seq<byte>, start: nat, at: nat, end: nat, two: seq<byte>)
    requires |was| == |now| && |two| == 2 && start + at + 2 <= end <= |was|
    requires now[..start + at + 2] == was[..start + at] + two
    requires now[start + at + 2..] == was[start + at + 2..]
    ensures now[..start] == was[..start] && now[end..] == was[end..]
    ensures now[start..end] == was[start..end][..at] + two + was[start..end][at + 2..]
  {
    var i, before, after := start + at, was[start..end], now[start..end];
    Pointwise(was, now, i, two);
    assert forall k | 0 <= k < end - start :: after[k] == now[start + k] && before[k] == was[start + k];
    var whole := before[..at] + two + before[at + 2..];
    assert |whole| == |after|;
    assert forall k | 0 <= k < |after| :: whole[k] == if at <= k < at + 2 then two[k - at] else before[k];
  }

  lemma Pointwise(was: seq<byte>, now: seq<byte>, i: nat, two: seq<byte>)
    requires |was| == |now| && |two| == 2 && i + 2 <= |was|
    requires now[..i + 2] == was[..i] + two && now[i + 2..] == was[i + 2..]
    ensures forall k | 0 <= k < |was| :: now[k] == if i <= k < i + 2 then two[k - i] else was[k]
  {
    forall k | 0 <= k < |was|
      ensures now[k] == if i <= k < i + 2 then two[k - i] else was[k]
    {
      if k < i + 2 {
        assert now[k] == now[..i + 2][k];
      } else {
        assert now[k] == now[i + 2..][k - i - 2];
      }
    }
  }

  lemma Parts(s: seq<byte>, i: nat, j: nat, a: seq<byte>, b: seq<byte>, c: seq<byte>)
    requires i == |a| && j == |a| + |b| && j + |c| <= |s| && s[..j + |c|] == a + b + c
    ensures s[..i] == a && s[i..j] == b && s[j..][..|c|] == c
  {
    var t := s[..j + |c|];
    assert t[..i] == a && t[i..j] == b && t[j..] == c;
  }

  lemma Rejoin(s: seq<byte>, i: nat, j: nat, k: nat)
    requires i <= j <= k <= |s|
    ensures s[..k] == s[..i] + s[i..j] + s[j..][..k - j]
  {
  }

  // ---------- the packet as the program builds it ----------

  class IPPacket {
    const r: Request
    /** The next number of the program-wide packet sequence. */
    const flow: u32
    const buf: array<byte>
    var pseudo: seq<byte>
    var currentOffset: nat
    var ipOffset: nat

    ghost predicate Valid()
      reads this
    {
      r.Valid() && buf.Length == BUFFER_SIZE
    }

    constructor (r: Request, flow: u32)
      requires r.Valid()
      ensures Valid() && fresh(buf)
      ensures this.r == r && this.flow == flow && currentOffset == 0
    {
      this.r, this.flow := r, flow;
      buf := new byte[BUFFER_SIZE];
      pseudo, currentOffset, ipOffset := [], 0, 0;
    }

    /** What `serialize` writes. */
    ghost function Serialized(): seq<byte>
      requires Valid() && currentOffset <= BUFFER_SIZE
      reads this, buf
    {
      buf[..currentOffset] + r.data
    }

    method Put(at: nat, bytes: seq<byte>)
      requires at + |bytes| <= buf.Length
      modifies buf
      ensures buf[..at + |bytes|] == old(buf[..at]) + bytes
      ensures buf[at + |bytes|..] == old(buf[at + |bytes|..])
    {
      forall k | 0 <= k < |bytes| {
        buf[at + k] := bytes[k];
      }
    }

    /** A 16-bit number, stored as a little-endian host stores it. */
    method Put16(at: nat, value: u16)
      requires at + 2 <= buf.Length
      modifies buf
      ensures buf[..at + 2] == old(buf[..at]) + [value % 0x100, value / 0x100]
      ensures buf[at + 2..] == old(buf[at + 2..])
    {
      Put(at, [value % 0x100, value / 0x100]);
    }

    method WriteDataLink() returns (n: Result<nat>)
      requires Valid() && currentOffset == 0
      modifies buf
      ensures n.Err? ==> n == Err(UnsupportedDatalink) && !r.Supported()
      ensures n.Ok? ==> r.Supported() && n.value <= 14
      ensures n.Ok? && (r.af == AF_INET || r.af == AF_INET6) ==> buf[..n.value] == LinkBytes(r)
    {
      if r.datalink == DLT_RAW {
        return Ok(0);
      } else if r.datalink == DLT_NULL || r.datalink == DLT_LOOP {
        var hdr := if r.af == AF_INET then 2 else if r.af == AF_INET6 then 24 else 0;
        Put(0, if r.datalink == DLT_LOOP then [0, 0, 0, hdr] else [hdr, 0, 0, 0]);
        return Ok(4);
      } else if r.datalink == DLT_EN10MB {
        Put(0, if r.dstMac.Some? then r.dstMac.value else DST_MAC);
        Put(6, if r.srcMac.Some? then r.srcMac.value else SRC_MAC);
        if r.af == AF_INET {
          Put16(12, Swap16(0x0800));
        } else if r.af == AF_INET6 {
          Put16(12, Swap16(0x86DD));
        } else {
          Put16(12, Swap16(0x9000));
        }
        return Ok(14);
      }
      return Err(UnsupportedDatalink);
    }

    /** The fields are written in the order they lie in memory. */
    method WriteIP4Fixed()
      requires Valid() && currentOffset + IP_HEADER <= BUFFER_SIZE
      modifies buf
      ensures buf[..currentOffset + 12] == old(buf[..currentOffset]) + Ip4Fixed(0, flow % 0x1_0000, 0)
    {
      hide Swap16;
      var ip := currentOffset;
      ghost var front := buf[..ip];
      Put(ip, [4 * 16 + IP_HEADER / 4, 0]);
      Put16(ip + 2, 0);
      assert buf[..ip + 4] == front + [0x45, 0, 0, 0];
      SwapStores(flow % 0x1_0000);
      Put16(ip + 4, Swap16(flow % 0x1_0000));
      Put16(ip + 6, 0);
      Put(ip + 8, [0xFF, PROTO_UDP]);
      Put16(ip + 10, 0);
      ghost var id := Be16(flow % 0x1_0000);
      assert buf[..ip + 12] == front + ([0x45, 0, 0, 0] + id + [0, 0, 0xFF, PROTO_UDP, 0, 0]);
      assert Ip4Fixed(0, flow % 0x1_0000, 0) == [0x45, 0, 0, 0] + id + [0, 0, 0xFF, PROTO_UDP, 0, 0];
    }

    method WriteIP4Header()
      requires Valid() && r.af == AF_INET && currentOffset + IP_HEADER <= BUFFER_SIZE
      requires r.srcAddr.Some? && r.dstAddr.Some?
      modifies this`pseudo, buf
      ensures buf[..currentOffset + IP_HEADER] ==
              old(buf[..currentOffset]) + Ip4Bytes(0, flow % 0x1_0000, 0, r.srcAddr.value, r.dstAddr.value)
      ensures pseudo == Pseudo4(r.srcAddr.value, r.dstAddr.value, 0)
    {
      hide Ip4Fixed;
      var ip, src, dst := currentOffset, r.srcAddr.value, r.dstAddr.value;
      WriteIP4Fixed();
      Put(ip + 12, src);
      Put(ip + 16, dst);
      pseudo := src + dst + [0, PROTO_UDP, 0, 0];
      assert [0, PROTO_UDP, 0, 0] == [0, PROTO_UDP] + Be16(0);
    }

    method WriteIP6Header()
      requires Valid() && r.af == AF_INET6 && currentOffset + IP6_HEADER <= BUFFER_SIZE
      requires r.srcAddr.Some? && r.dstAddr.Some?
      modifies this`pseudo, buf
      ensures buf[..currentOffset + IP6_HEADER] ==
              old(buf[..currentOffset]) + Ip6Header(0, flow, r.srcAddr.value, r.dstAddr.value)
      ensures pseudo == Pseudo6(r.srcAddr.value, r.dstAddr.value)
    {
      hide FlowBytes;
      var ip, src, dst := currentOffset, r.srcAddr.value, r.dstAddr.value;
      Put(ip, [0x60]);
      Put(ip + 1, FlowBytes(flow));
      Put16(ip + 4, 0);
      Put(ip + 6, [PROTO_UDP, 32]);
      Put(ip + 8, src);
      Put(ip + 24, dst);
      assert Be16(0) == [0, 0];
      pseudo := src + dst + [PROTO_UDP, 0, 0, 0, 0, 0, 0, 0];
    }

    /** The IP header without its lengths and checksum, which are filled in at the end. */
    function BlankIpHeader(): (s: seq<byte>)
      requires r.Valid() && r.srcAddr.Some? && r.dstAddr.Some? && (r.af == AF_INET || r.af == AF_INET6)
      ensures |s| == if r.af == AF_INET then IP_HEADER else IP6_HEADER
    {
      if r.af == AF_INET then Ip4Bytes(0, flow % 0x1_0000, 0, r.srcAddr.value, r.dstAddr.value)
      else Ip6Header(0, flow, r.srcAddr.value, r.dstAddr.value)
    }

    method WriteIPHeader() returns (n: Result<nat>)
      requires Valid() && currentOffset + IP6_HEADER <= BUFFER_SIZE
      modifies this`ipOffset, this`pseudo, buf
      ensures ipOffset == currentOffset
      ensures r.af != AF_INET && r.af != AF_INET6 ==> n == Err(UnsupportedFamily)
      ensures (r.af == AF_INET || r.af == AF_INET6) ==>
                if r.srcAddr.None? then n == Err(BadSource)
                else if r.dstAddr.None? then n == Err(BadDestination)
                else
                  && n == Ok(|BlankIpHeader()|)
                  && buf[..currentOffset + n.value] == old(buf[..currentOffset]) + BlankIpHeader()
                  && pseudo == (if r.af == AF_INET then Pseudo4(r.srcAddr.value, r.dstAddr.value, 0)
                                else Pseudo6(r.srcAddr.value, r.dstAddr.value))
    {
      hide Ip4Bytes, Ip6Header;
      ipOffset := currentOffset;
      if r.af == AF_INET || r.af == AF_INET6 {
        if r.srcAddr.None? {
          return Err(BadSource);
        }
        if r.dstAddr.None? {
          return Err(BadDestination);
        }
        if r.af == AF_INET {
          WriteIP4Header();
          return Ok(IP_HEADER);
        }
        WriteIP6Header();
        return Ok(IP6_HEADER);
      }
      return Err(UnsupportedFamily);
    }

    /** Adds up the three partial checksums in a 16-bit variable. */
    method SumUDP(header: seq<byte>) returns (check: u16)
      requires |header| == UDP_HEADER
      ensures check == Swap16(UdpCheck(pseudo, header, r.data))
    {
      hide Swap16, CheckSum, Add16;
      var x16 := CalcCheckSum(pseudo);
      SwapTwice(CheckSum(pseudo));
      var u: u16 := Swap16(x16);
      x16 := CalcCheckSum(header);
      SwapTwice(CheckSum(header));
      u := Add16(u, Swap16(x16));
      x16 := CalcCheckSum(r.data);
      SwapTwice(CheckSum(r.data));
      u := Add16(u, Swap16(x16));
      NoCarry(u);
      check := Swap16(u % 0x1_0000 + u / 0x1_0000);
      SwapTwice(u);
      if check == 0 {
        check := Swap16(1);
      }
    }

    method WriteUDPHeader()
      requires Valid() && currentOffset + UDP_HEADER <= BUFFER_SIZE
      requires r.srcAddr.Some? && r.dstAddr.Some?
      requires r.af == AF_INET ==> pseudo == Pseudo4(r.srcAddr.value, r.dstAddr.value, 0)
      requires r.af != AF_INET ==> pseudo == Pseudo6(r.srcAddr.value, r.dstAddr.value)
      modifies this`pseudo, buf
      ensures buf[..currentOffset + UDP_HEADER] ==
              old(buf[..currentOffset]) + UdpHeader(PseudoHeader(r), r)
    {
      hide Swap16, CheckSum, Be16, UdpCheck;
      var udp, len := currentOffset, (UDP_HEADER + |r.data|) % 0x1_0000;
      ghost var front := buf[..udp];
      ghost var ports := Be16(r.srcPort) + Be16(r.dstPort) + Be16(len);
      SwapStores(r.srcPort);
      Put16(udp, Swap16(r.srcPort));
      SwapStores(r.dstPort);
      Put16(udp + 2, Swap16(r.dstPort));
      SwapStores(len);
      Put16(udp + 4, Swap16(len));
      assert buf[..udp + 6] == front + ports;
      ZeroField();
      Put16(udp + 6, 0);
      assert buf[..udp + 8] == front + (ports + Be16(0));
      assert buf[udp..udp + 8] == buf[..udp + 8][udp..];
      assert buf[..udp + 6] == buf[..udp + 8][..udp + 6] == front + ports;
      if r.af == AF_INET {
        pseudo := pseudo[..|pseudo| - 2] + [Swap16(len) % 0x100, Swap16(len) / 0x100];
      }
      assert pseudo == PseudoHeader(r);
      var check := SumUDP(buf[udp..udp + 8]);
      SwapStores(UdpCheck(pseudo, ports + Be16(0), r.data));
      Put16(udp + 6, check);
      assert buf[..udp + 8] == front + (ports + [check % 0x100, check / 0x100]);
    }

    /** Stores a 16-bit number over bytes `at` and `at + 1` of the header that starts at `start`. */
    method PatchHeader(start: nat, at: nat, end: nat, value: u16)
      requires start + at + 2 <= end <= buf.Length
      modifies buf
      ensures buf[..start] == old(buf[..start]) && buf[end..] == old(buf[end..])
      ensures buf[start..end] ==
              old(buf[start..end])[..at] + [value % 0x100, value / 0x100] + old(buf[start..end])[at + 2..]
    {
      ghost var was := buf[..];
      Put16(start + at, value);
      Patched(was, buf[..], start, at, end, [value % 0x100, value / 0x100]);
    }

    method Finalize()
      requires Valid() && r.srcAddr.Some? && r.dstAddr.Some? && (r.af == AF_INET || r.af == AF_INET6)
      requires ipOffset + |BlankIpHeader()| + UDP_HEADER == currentOffset <= BUFFER_SIZE
      requires buf[ipOffset..ipOffset + |BlankIpHeader()|] == BlankIpHeader()
      modifies buf
      ensures buf[..ipOffset] == old(buf[..ipOffset])
      ensures buf[ipOffset..ipOffset + |BlankIpHeader()|] == IpHeader(r, flow)
      ensures buf[ipOffset + |BlankIpHeader()|..] == old(buf[ipOffset + |BlankIpHeader()|..])
    {
      hide Swap16, CheckSum, Be16, Ip4Bytes, Ip6Header;
      var size := currentOffset + |r.data|;
      var len := (size - ipOffset) % 0x1_0000;
      ghost var src, dst, id := r.srcAddr.value, r.dstAddr.value, flow % 0x1_0000;
      SwapStores(len);
      if r.af == AF_INET {
        ghost var check0 := CheckSum(Ip4Bytes(len, id, 0, src, dst));
        Ip4Patches(len, id, check0, src, dst);
        PatchHeader(ipOffset, 2, ipOffset + IP_HEADER, Swap16(len));
        var check := CalcCheckSum(buf[ipOffset..ipOffset + IP_HEADER]);
        SwapStores(check0);
        PatchHeader(ipOffset, 10, ipOffset + IP_HEADER, check);
      } else {
        Ip6Patch(len, flow, src, dst);
        PatchHeader(ipOffset, 4, ipOffset + IP6_HEADER, Swap16(len));
      }
    }

    /** The work of the program's constructor, an exception being an error result. */
    method Build() returns (error: Option<Error>)
      requires Valid() && currentOffset == 0
      modifies this, buf
      ensures Valid() && currentOffset <= BUFFER_SIZE
      ensures match Headers(r, flow)
              case Ok(headers) => error == None && Serialized() == headers + r.data
              case Err(e) => error == Some(e)
    {
      hide LinkBytes, IpHeader, UdpHeader, BlankIpHeader;
      var link := WriteDataLink();
      if link.Err? {
        return Some(link.error);
      }
      currentOffset := currentOffset + link.value;
      var ip := WriteIPHeader();
      if ip.Err? {
        return Some(ip.error);
      }
      currentOffset := currentOffset + ip.value;
      WriteUDPHeader();
      ghost var udp, written := currentOffset, buf[..];
      currentOffset := currentOffset + UDP_HEADER;
      Parts(written, ipOffset, udp, LinkBytes(r), BlankIpHeader(), UdpHeader(PseudoHeader(r), r));
      Finalize();
      Rejoin(buf[..], ipOffset, udp, udp + UDP_HEADER);
      assert buf[udp..][..UDP_HEADER] == written[udp..][..UDP_HEADER];
      return None;
    }
  }
}
