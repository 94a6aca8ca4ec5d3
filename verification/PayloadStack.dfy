/** Header stripping: how the packet parsers walk from a captured frame to its payload. A parser
    returns a pointer into the frame, here an offset, and fills in the packet's description; an
    offset equal to the length means that there is no payload. */
module PayloadStack {
  import opened Bytes

  const DLT_NULL := 0
  const DLT_EN10MB := 1
  const DLT_RAW := 12
  const DLT_LOOP := 108
  const DLT_LINUX_SLL := 113

  const PROTO_IP := 0
  const PROTO_TCP := 6
  const PROTO_UDP := 17

  const IP_HEADER := 20
  const IP6_HEADER := 40
  const UDP_HEADER := 8
  const TCP_HEADER := 20

  /** What is known about a packet. Addresses are kept as bytes. */
  datatype Info = Info(ip: int, proto: int, sec: u32, usec: u32,
                       srcAddr: seq<byte>, srcPort: u16, dstAddr: seq<byte>, dstPort: u16)

  const NOTHING_KNOWN := Info(0, PROTO_IP, 0, 0, [], 0, [], 0)

  datatype Parsed = Parsed(offset: nat, info: Info)

  function DatalinkHeader(datalink: int, len: nat): nat {
    if datalink == DLT_RAW then 0
    else if datalink == DLT_NULL || datalink == DLT_LOOP then 4
    else if datalink == DLT_EN10MB then 14
    else if datalink == DLT_LINUX_SLL then 16
    else len
  }

  function DatalinkOffset(datalink: int, len: nat): (offset: nat)
    ensures offset <= len
  {
    if DatalinkHeader(datalink, len) < len then DatalinkHeader(datalink, len) else len
  }

  function IpParse(datalink: int, data: seq<byte>, info: Info): (r: Parsed)
    ensures r.offset <= |data|
    ensures r.offset < |data| || r.info == info
  {
    var p := DatalinkOffset(datalink, |data|);
    if p + IP_HEADER < |data| then
      var version := data[p] / 16;
      var ihl := data[p] % 16 * 4;
      if version == 4 && p + ihl < |data| then
        Parsed(p + ihl, info.(ip := version, proto := data[p + 9],
                              srcAddr := data[p + 12..p + 16], dstAddr := data[p + 16..p + 20]))
      else if version == 6 && p + IP6_HEADER < |data| then
        Parsed(p + IP6_HEADER, info.(ip := version, proto := data[p + 6],
                                     srcAddr := data[p + 8..p + 24], dstAddr := data[p + 24..p + 40]))
      else Parsed(|data|, info)
    else Parsed(|data|, info)
  }

  function WithPorts(data: seq<byte>, p: nat, info: Info): Info
    requires p + 4 <= |data|
  {
    info.(srcPort := Be16At(data, p), dstPort := Be16At(data, p + 2))
  }

  function UdpParse(datalink: int, data: seq<byte>, info: Info): (r: Parsed)
    ensures r.offset <= |data|
  {
    var ip := IpParse(datalink, data, info);
    var p := ip.offset;
    if p + UDP_HEADER < |data| && p + Be16At(data, p + 4) <= |data|
    then Parsed(p + UDP_HEADER, WithPorts(data, p, ip.info))
    else Parsed(|data|, ip.info)
  }

  function TcpParse(datalink: int, data: seq<byte>, info: Info): (r: Parsed)
    ensures r.offset <= |data|
  {
    var ip := IpParse(datalink, data, info);
    var p := ip.offset;
    if p + TCP_HEADER < |data| && p + data[p + 12] / 16 * 4 < |data|
    then Parsed(p + data[p + 12] / 16 * 4, WithPorts(data, p, ip.info))
    else Parsed(|data|, ip.info)
  }

  function SmartParse(datalink: int, data: seq<byte>, info: Info): (r: Parsed)
    ensures r.offset <= |data|
  {
    var ip := IpParse(datalink, data, info);
    if ip.info.proto == PROTO_TCP then TcpParse(datalink, data, ip.info)
    else if ip.info.proto == PROTO_UDP then UdpParse(datalink, data, ip.info)
    else ip
  }

  // ---------- what the parsers find in a well-formed packet ----------

  /** An IP header, with options in the case of IPv4, and the protocol it names. */
  predicate IpHeaderOk(ip: seq<byte>) {
    && |ip| >= IP_HEADER
    && if ip[0] / 16 == 4 then ip[0] % 16 * 4 == |ip| else ip[0] / 16 == 6 && |ip| == IP6_HEADER
  }

  function ProtocolOf(ip: seq<byte>): byte
    requires IpHeaderOk(ip)
  {
    if ip[0] / 16 == 4 then ip[9] else ip[6]
  }

  /** What an IP header tells about its packet. */
  function Addressed(ip: seq<byte>, info: Info): Info
    requires IpHeaderOk(ip)
  {
    var ends := if ip[0] / 16 == 4 then (ip[12..16], ip[16..20]) else (ip[8..24], ip[24..40]);
    info.(ip := ip[0] / 16, proto := ProtocolOf(ip), srcAddr := ends.0, dstAddr := ends.1)
  }

  lemma HeaderIsRead(datalink: int, link: seq<byte>, ip: seq<byte>, rest: seq<byte>, info: Info)
    requires IpHeaderOk(ip) && rest != [] && |link| == DatalinkHeader(datalink, |link + ip + rest|)
    ensures IpParse(datalink, link + ip + rest, info) == Parsed(|link| + |ip|, Addressed(ip, info))
  {
    var data, p := link + ip + rest, |link|;
    assert DatalinkOffset(datalink, |data|) == p;
    assert data[p] == ip[0] && data[p + 9] == ip[9] && data[p + 6] == ip[6];
    if ip[0] / 16 == 4 {
      assert data[p + 12..p + 16] == ip[12..16] && data[p + 16..p + 20] == ip[16..20];
    } else {
      assert data[p + 8..p + 24] == ip[8..24] && data[p + 24..p + 40] == ip[24..40];
    }
  }

  /** A TCP segment behind any link header, over either family, options in both headers allowed: the
      parsers find its data and its ports. */
  lemma TcpSegmentIsRead(datalink: int, link: seq<byte>, ip: seq<byte>, tcp: seq<byte>, payload: seq<byte>, info: Info)
    requires IpHeaderOk(ip) && ProtocolOf(ip) == PROTO_TCP
    requires |tcp| >= TCP_HEADER && tcp[12] / 16 * 4 == |tcp| && payload != []
    requires |link| == DatalinkHeader(datalink, |link + ip + (tcp + payload)|)
    ensures var data := link + ip + (tcp + payload);
      var r := SmartParse(datalink, data, info);
      && data[r.offset..] == payload
      && r.info == Addressed(ip, info).(srcPort := Be16At(tcp, 0), dstPort := Be16At(tcp, 2))
  {
    hide IpParse, IpHeaderOk, DatalinkHeader;
    var data := link + ip + (tcp + payload);
    HeaderIsRead(datalink, link, ip, tcp + payload, info);
    HeaderIsRead(datalink, link, ip, tcp + payload, Addressed(ip, info));
    Behind(link + ip, tcp, payload);
    assert data == link + ip + tcp + payload;
  }

  /** A UDP datagram likewise, if and only if the length it announces is there. */
  lemma UdpDatagramIsRead(datalink: int, link: seq<byte>, ip: seq<byte>, udp: seq<byte>, payload: seq<byte>, info: Info)
    requires IpHeaderOk(ip) && ProtocolOf(ip) == PROTO_UDP
    requires |udp| == UDP_HEADER && payload != []
    requires |link| == DatalinkHeader(datalink, |link + ip + (udp + payload)|)
    ensures var data := link + ip + (udp + payload);
      var r := SmartParse(datalink, data, info);
      && data[r.offset..] == (if Be16At(udp, 4) <= |udp + payload| then payload else [])
      && r.info == if Be16At(udp, 4) <= |udp + payload|
                   then Addressed(ip, info).(srcPort := Be16At(udp, 0), dstPort := Be16At(udp, 2))
                   else Addressed(ip, info)
  {
    hide IpParse, IpHeaderOk, DatalinkHeader;
    var data := link + ip + (udp + payload);
    HeaderIsRead(datalink, link, ip, udp + payload, info);
    HeaderIsRead(datalink, link, ip, udp + payload, Addressed(ip, info));
    Behind(link + ip, udp, payload);
    assert data == link + ip + udp + payload;
  }

  /** Any other protocol's data is what is behind the IP header. */
  lemma OtherIsRead(datalink: int, link: seq<byte>, ip: seq<byte>, payload: seq<byte>, info: Info)
    requires IpHeaderOk(ip) && ProtocolOf(ip) != PROTO_TCP && ProtocolOf(ip) != PROTO_UDP && payload != []
    requires |link| == DatalinkHeader(datalink, |link + ip + payload|)
    ensures var data := link + ip + payload;
      var r := SmartParse(datalink, data, info);
      data[r.offset..] == payload && r.info == Addressed(ip, info)
  {
    hide IpParse, IpHeaderOk, DatalinkHeader;
    HeaderIsRead(datalink, link, ip, payload, info);
  }

  /** Nothing else is taken for an IP packet: a frame that is cut short in a header, another version, another link
      type, or a header with nothing behind it has no payload, and tells nothing. */
  lemma NothingElseIsIp(datalink: int, data: seq<byte>, info: Info)
    ensures var link := if datalink == 12 then 0 else if datalink == 0 || datalink == 108 then 4
                        else if datalink == 1 then 14 else if datalink == 113 then 16 else |data|;
      IpParse(datalink, data, info) != Parsed(|data|, info) ==>
        && link + 20 < |data|
        && ((data[link] / 16 == 4 && link + data[link] % 16 * 4 < |data|)
            || (data[link] / 16 == 6 && link + 40 < |data|))
  {
  }

  /** What is behind an IP header is a segment or datagram if and only if it is longer than its header. */
  lemma WhenTransportIsFound(datalink: int, data: seq<byte>, info: Info)
    ensures var ip, r := IpParse(datalink, data, info), SmartParse(datalink, data, info);
      var rest := data[ip.offset..];
      && (ip.info.proto == 6 ==>
            (r.offset < |data| <==> |rest| > 20 && rest[12] / 16 * 4 < |rest|))
      && (ip.info.proto == 17 ==>
            (r.offset < |data| <==> |rest| > 8 && Be16At(rest, 4) <= |rest|))
      && (r.offset == |data| && ip.info.proto in {6, 17} ==> r.info == ip.info)
  {
    hide IpParse;
    ParseTwice(datalink, data, info);
  }

  /** Parsing the IP header a second time, as the transport parsers do, changes nothing. */
  lemma ParseTwice(datalink: int, data: seq<byte>, info: Info)
    ensures IpParse(datalink, data, IpParse(datalink, data, info).info) == IpParse(datalink, data, info)
  {
  }

  lemma Behind(front: seq<byte>, header: seq<byte>, payload: seq<byte>)
    requires |header| >= UDP_HEADER
    ensures var data := front + header + payload;
      && data[|front| + |header|..] == payload
      && (forall k | 0 <= k < |header| :: data[|front| + k] == header[k])
      && (forall k | 0 <= k <= |header| - 2 :: Be16At(data, |front| + k) == Be16At(header, k))
  {
  }

  /** The description a caller passes in and the parsers fill in place. */
  class PacketInfo {
    var value: Info

    constructor ()
      ensures value == NOTHING_KNOWN
    {
      value := NOTHING_KNOWN;
    }
  }

  method IpPayload(datalink: int, data: seq<byte>, info: PacketInfo) returns (offset: nat)
    modifies info
    ensures Parsed(offset, info.value) == IpParse(datalink, data, old(info.value))
  {
    var p := DatalinkOffset(datalink, |data|);
    if p + IP_HEADER < |data| {
      var version := data[p] / 16;
      if version == 4 {
        offset := data[p] % 16 * 4;
        if p + offset < |data| {
          info.value := info.value.(ip := version);
          info.value := info.value.(proto := data[p + 9]);
          info.value := info.value.(srcAddr := data[p + 12..p + 16]);
          info.value := info.value.(dstAddr := data[p + 16..p + 20]);
          return p + offset;
        }
      } else if version == 6 {
        offset := IP6_HEADER;
        if p + offset < |data| {
          info.value := info.value.(ip := version);
          info.value := info.value.(proto := data[p + 6]);
          info.value := info.value.(srcAddr := data[p + 8..p + 24]);
          info.value := info.value.(dstAddr := data[p + 24..p + 40]);
          return p + offset;
        }
      }
    }
    return |data|;
  }

  method UdpPayload(datalink: int, data: seq<byte>, info: PacketInfo) returns (offset: nat)
    modifies info
    ensures Parsed(offset, info.value) == UdpParse(datalink, data, old(info.value))
  {
    var p := IpPayload(datalink, data, info);
    if p + UDP_HEADER < |data| {
      if p + Be16At(data, p + 4) <= |data| {
        info.value := info.value.(srcPort := Be16At(data, p));
        info.value := info.value.(dstPort := Be16At(data, p + 2));
        return p + UDP_HEADER;
      }
    }
    return |data|;
  }

  method TcpPayload(datalink: int, data: seq<byte>, info: PacketInfo) returns (offset: nat)
    modifies info
    ensures Parsed(offset, info.value) == TcpParse(datalink, data, old(info.value))
  {
    var p := IpPayload(datalink, data, info);
    if p + TCP_HEADER < |data| {
      offset := data[p + 12] / 16 * 4;
      if p + offset < |data| {
        info.value := info.value.(srcPort := Be16At(data, p));
        info.value := info.value.(dstPort := Be16At(data, p + 2));
        return p + offset;
      }
    }
    return |data|;
  }

  method SmartPayload(datalink: int, data: seq<byte>, info: PacketInfo) returns (offset: nat)
    modifies info
    ensures Parsed(offset, info.value) == SmartParse(datalink, data, old(info.value))
  {
    offset := IpPayload(datalink, data, info);
    if info.value.proto == PROTO_TCP {
      offset := TcpPayload(datalink, data, info);
    } else if info.value.proto == PROTO_UDP {
      offset := UdpPayload(datalink, data, info);
    }
  }
}
