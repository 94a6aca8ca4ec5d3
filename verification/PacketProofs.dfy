/** What the packets that `IpPacket` builds are good for: the parsers recover everything from them,
    the IP checksum is right, and the UDP checksum is right in exactly the cases given here. */
module PacketProofs {
  import opened Bytes
  import opened Checksum
  import opened PayloadStack
  import opened IpPacket

  // ---------- checksums ----------

  /** A sum and its complement fold to all ones. */
  lemma ComplementCancels(n: nat)
    ensures (n + (0xFFFF - Folded(n))) % 0xFFFF == 0
  {
    if n > 0 {
      var q := (n - 1) / 0xFFFF;
      assert n + (0xFFFF - Folded(n)) == (q + 1) * 0xFFFF;
    }
  }

  /** Recomputing the checksum over a finished IPv4 header gives zero. */
  lemma Ip4HeaderSumsToZero(len: u16, id: u16, src: seq<byte>, dst: seq<byte>)
    requires |src| == 4 && |dst| == 4
    ensures CheckSum(Ip4Header(len, id, src, dst)) == 0
    ensures OnesSum(Ip4Header(len, id, src, dst)) == 0xFFFF
  {
    hide Be16, Folded, WordSum, OnesSum;
    var front := [0x45, 0] + Be16(len) + Be16(id) + [0, 0, 0xFF, PROTO_UDP];
    var blank, header := Ip4Bytes(len, id, 0, src, dst), Ip4Header(len, id, src, dst);
    assert blank == front + Be16(0) + (src + dst);
    assert header == front + Be16(CheckSum(blank)) + (src + dst);
    FieldAdds(front, CheckSum(blank), src + dst);
    AccumulatorFits(blank);
    AccumulatorFits(header);
    OnesSumFolds(header);
    ComplementCancels(WordSum(blank));
    FirstWordCounts(header);
    AllOnes(WordSum(header));
  }

  lemma FirstWordCounts(s: seq<byte>)
    requires s != []
    ensures WordSum(s) >= 0x100 * (s[0] as int)
  {
  }

  /** The sum of the three partial checksums. */
  function Partials(pseudo: seq<byte>, header: seq<byte>, data: seq<byte>): nat {
    CheckSum(pseudo) + CheckSum(header) + CheckSum(data)
  }

  /** The carries that adding up the partial checksums in 16 bits loses. A total of zero is sent as 1,
      which is one too many. */
  function LostCarries(total: nat): int {
    (total - 1) / 0x1_0000
  }

  predicate Congruent(a: int, b: int) {
    (a - b) % 0xFFFF == 0
  }

  /** How often the 32-bit accumulator wraps over an input. */
  function Wraps(s: seq<byte>): nat {
    WordSum(s) / WRAP
  }

  lemma CheckAgainstTotal(total: nat, check: u16)
    requires check == if total % 0x1_0000 == 0 then 1 else total % 0x1_0000
    ensures Congruent(check - total, -LostCarries(total))
  {
    var q := total / 0x1_0000;
    if total % 0x1_0000 == 0 {
      assert total - 1 == (q - 1) * 0x1_0000 + 0xFFFF;
      assert check - total + LostCarries(total) == -0xFFFF * q;
    } else {
      assert check - total + LostCarries(total) == -0xFFFF * q;
    }
  }

  lemma SixteenBitSum(a: u16, b: u16, c: u16)
    ensures Add16(Add16(a, b), c) == (a + b + c) % 0x1_0000
  {
  }

  /** A wrap takes away 2^32, which is 1 modulo 0xFFFF. */
  lemma WrapIsOne(n: nat)
    ensures (n - n % WRAP - n / WRAP) % 0xFFFF == 0
  {
    assert n - n % WRAP - n / WRAP == 0xFFFF * (0x1_0001 * (n / WRAP));
  }

  lemma SumOfMultiples(a: int, b: int, c: int, d: int, e: int)
    requires a % 0xFFFF == 0 && b % 0xFFFF == 0 && c % 0xFFFF == 0 && d % 0xFFFF == 0
    ensures (a + b + c + d + e) % 0xFFFF == 0 <==> e % 0xFFFF == 0
  {
    var k := a / 0xFFFF + b / 0xFFFF + c / 0xFFFF + d / 0xFFFF;
    assert a + b + c + d == k * 0xFFFF;
  }

  /** Three sums, of which the last has wrapped, and a check value add up to the check value and the wraps less
      the three complements, modulo 0xFFFF. */
  lemma PartsCancel(a: nat, b: nat, c: nat, check: u16)
    ensures Congruent(a + b + c + check,
                      check + c / WRAP - (0xFFFF - Folded(a)) - (0xFFFF - Folded(b)) - (0xFFFF - Folded(c % WRAP)))
  {
    hide Folded;
    ComplementCancels(a);
    ComplementCancels(b);
    ComplementCancels(c % WRAP);
    WrapIsOne(c);
    var x, y, z := 0xFFFF - Folded(a), 0xFFFF - Folded(b), 0xFFFF - Folded(c % WRAP);
    SumOfMultiples(a + x, b + y, c % WRAP + z, c - c % WRAP - c / WRAP, 0);
  }

  lemma PartsSum(pseudo: seq<byte>, front: seq<byte>, check: u16, data: seq<byte>)
    requires |pseudo| % 2 == 0 && |front| % 2 == 0
    ensures WordSum(pseudo + (front + Be16(check)) + data) ==
            WordSum(pseudo) + WordSum(front + Be16(0)) + WordSum(data) + check
  {
    hide Be16, WordSum;
    assert front + Be16(0) == front + Be16(0) + [] && front + Be16(check) == front + Be16(check) + [];
    FieldAdds(front, check, []);
    WordSumConcat(pseudo + (front + Be16(check)), data);
    WordSumConcat(pseudo, front + Be16(check));
  }

  lemma CheckIsTotal(pseudo: seq<byte>, blank: seq<byte>, data: seq<byte>)
    ensures var total, check := Partials(pseudo, blank, data), UdpCheck(pseudo, blank, data);
      check == if total % 0x1_0000 == 0 then 1 else total % 0x1_0000
  {
    hide CheckSum;
    SixteenBitSum(CheckSum(pseudo), CheckSum(blank), CheckSum(data));
  }

  lemma CongruentSums(a: int, b: int, c: int, d: int)
    requires Congruent(a, b) && Congruent(c, d)
    ensures Congruent(a + c, b + d)
  {
    SumOfMultiples(a - b, c - d, 0, 0, 0);
  }

  lemma CongruentSteps(a: int, b: int, c: int)
    requires Congruent(a, b)
    ensures Congruent(a, c) <==> Congruent(b, c)
  {
    SumOfMultiples(a - b, 0, 0, 0, b - c);
  }

  lemma SumOfParts(pseudo: seq<byte>, blank: seq<byte>, data: seq<byte>)
    requires WordSum(pseudo) < WRAP && WordSum(blank) < WRAP
    ensures var check := UdpCheck(pseudo, blank, data);
      Congruent(WordSum(pseudo) + WordSum(blank) + WordSum(data) + check,
                Wraps(data) - LostCarries(Partials(pseudo, blank, data)))
  {
    hide Folded, WordSum, LostCarries, UdpCheck, Congruent;
    var total, check := Partials(pseudo, blank, data), UdpCheck(pseudo, blank, data);
    assert total == (0xFFFF - Folded(WordSum(pseudo))) + (0xFFFF - Folded(WordSum(blank))) + (0xFFFF - Folded(WordSum(data) % WRAP));
    hide Partials, CheckSum;
    CheckIsTotal(pseudo, blank, data);
    CheckAgainstTotal(total, check);
    var sum := WordSum(pseudo) + WordSum(blank) + WordSum(data) + check;
    PartsCancel(WordSum(pseudo), WordSum(blank), WordSum(data), check);
    assert Congruent(sum, check + Wraps(data) - total);
    CongruentSums(check - total, -LostCarries(total), Wraps(data), Wraps(data));
    CongruentSteps(sum, check + Wraps(data) - total, Wraps(data) - LostCarries(total));
  }

  lemma PositiveMultiple(sum: nat, n: int)
    requires sum > 0 && Congruent(sum, n)
    ensures Folded(sum) == 0xFFFF <==> n % 0xFFFF == 0
  {
    hide Folded;
    AllOnes(sum);
    SumOfMultiples(sum - n, 0, 0, 0, n);
  }

  /** When the check value that the program computes over one pseudo-header makes all sum to all ones with
      another, whose words add up to `more` more. */
  lemma UdpChecksumOver(due: seq<byte>, pseudo: seq<byte>, more: int, ports: seq<byte>, len: u16, data: seq<byte>)
    requires |pseudo| % 2 == 0 && |pseudo| <= MAX_LENGTH && |ports| == 4
    requires |due| % 2 == 0 && Congruent(WordSum(due), WordSum(pseudo) + more)
    ensures var blank := ports + Be16(len) + Be16(0);
      var header := ports + Be16(len) + Be16(UdpCheck(pseudo, blank, data));
      OnesSum(due + header + data) == 0xFFFF <==>
      Congruent(Wraps(data) + more, LostCarries(Partials(pseudo, blank, data)))
  {
    hide Be16, Folded, WordSum, OnesSum, CheckSum, Partials, Wraps, LostCarries, Congruent;
    var blank := ports + Be16(len) + Be16(0);
    var check := UdpCheck(pseudo, blank, data);
    hide UdpCheck;
    var total, rest := Partials(pseudo, blank, data), WordSum(blank) + WordSum(data) + check;
    AccumulatorFits(pseudo);
    AccumulatorFits(blank);
    PartsSum(due, ports + Be16(len), check, data);
    SumOfParts(pseudo, blank, data);
    Same(rest);
    CongruentSums(WordSum(due), WordSum(pseudo) + more, rest, rest);
    Same(more);
    CongruentSums(WordSum(pseudo) + rest, Wraps(data) - LostCarries(total), more, more);
    CongruentSteps(WordSum(due) + rest, WordSum(pseudo) + more + rest, Wraps(data) - LostCarries(total) + more);
    PositiveMultiple(WordSum(due) + rest, Wraps(data) - LostCarries(total) + more);
    Difference(Wraps(data) + more, LostCarries(total));
    OnesSumFolds(due + (ports + Be16(len) + Be16(check)) + data);
  }

  lemma Same(n: int)
    ensures Congruent(n, n)
  {
  }

  lemma Difference(a: int, b: int)
    ensures Congruent(a, b) <==> (a - b) % 0xFFFF == 0
  {
  }

  /** The UDP checksum by parts makes pseudo-header, header and data sum to all ones, which is what
      RFC 768 asks of it, if and only if the carries lost in the sum of the three partial checksums are
      as many, modulo 0xFFFF, as the wraps over the data. Up to 131074 bytes there are no wraps, and so
      the partial checksums have to add up to 1 .. 65536. */
  lemma UdpChecksumByParts(pseudo: seq<byte>, ports: seq<byte>, len: u16, data: seq<byte>)
    requires |pseudo| % 2 == 0 && |pseudo| <= MAX_LENGTH && |ports| == 4
    ensures var blank := ports + Be16(len) + Be16(0);
      var header := ports + Be16(len) + Be16(UdpCheck(pseudo, blank, data));
      var total := Partials(pseudo, blank, data);
      && (OnesSum(pseudo + header + data) == 0xFFFF <==> Congruent(Wraps(data), LostCarries(total)))
      && (|data| <= MAX_LENGTH ==> (OnesSum(pseudo + header + data) == 0xFFFF <==> 1 <= total <= 0x1_0000))
  {
    hide Be16, Folded, WordSum, OnesSum, CheckSum, UdpCheck, Partials, Wraps, LostCarries, Congruent;
    var blank := ports + Be16(len) + Be16(0);
    Same(WordSum(pseudo));
    UdpChecksumOver(pseudo, pseudo, 0, ports, len, data);
    if |data| <= MAX_LENGTH {
      NoWraps(data);
      FewCarries(pseudo, blank, data);
    }
  }

  lemma NoWraps(data: seq<byte>)
    requires |data| <= MAX_LENGTH
    ensures Wraps(data) == 0
  {
    AccumulatorFits(data);
  }

  lemma FewCarries(pseudo: seq<byte>, blank: seq<byte>, data: seq<byte>)
    ensures var total := Partials(pseudo, blank, data);
      Congruent(0, LostCarries(total)) <==> 1 <= total <= 0x1_0000
  {
    hide CheckSum;
    assert Partials(pseudo, blank, data) <= 3 * 0xFFFF;
  }

  /** The same for a packet: when its UDP checksum over IPv4 is right, by the partial checksums of its
      pseudo-header, of its header without a checksum and of its data. */
  lemma UdpChecksumRight(r: Request)
    requires r.Valid() && r.af == AF_INET && r.srcAddr.Some? && r.dstAddr.Some?
    ensures var pseudo := r.srcAddr.value + r.dstAddr.value + [0, 17] + Be16((8 + |r.data|) % 0x1_0000);
      var total := Partials(pseudo, UdpBytes(r.srcPort, r.dstPort, UdpLength(r), 0), r.data);
      var sum := OnesSum(pseudo + UdpHeader(pseudo, r) + r.data);
      && (sum == 0xFFFF <==> Congruent(Wraps(r.data), LostCarries(total)))
      && (|r.data| <= MAX_LENGTH ==> (sum == 0xFFFF <==> 1 <= total <= 0x1_0000))
  {
    hide Be16, OnesSum, CheckSum, UdpCheck, Partials, Wraps, LostCarries, Congruent;
    UdpChecksumByParts(PseudoHeader(r), Be16(r.srcPort) + Be16(r.dstPort), UdpLength(r), r.data);
  }

  /** The pseudo-header of section 8.1 of RFC 8200. */
  function Rfc8200Pseudo(src: seq<byte>, dst: seq<byte>, len: u32): seq<byte> {
    src + dst + Be16(len / 0x1_0000) + Be16(len % 0x1_0000) + [0, 0, 0, 17]
  }

  /** The program's pseudo-header for IPv6 has no length, and its next header is in the upper half of a word. */
  lemma Pseudo6Sums(src: seq<byte>, dst: seq<byte>, len: u32)
    requires |src| == 16 && |dst| == 16
    ensures Congruent(WordSum(Rfc8200Pseudo(src, dst, len)), WordSum(Pseudo6(src, dst)) + (len + 17 - 0x1100))
    ensures |Rfc8200Pseudo(src, dst, len)| == |Pseudo6(src, dst)| == 40
  {
    hide Be16, WordSum;
    var ends, high, low := src + dst, len / 0x1_0000, len % 0x1_0000;
    assert Rfc8200Pseudo(src, dst, len) == ends + (Be16(high) + (Be16(low) + [0, 0, 0, 17]));
    assert Pseudo6(src, dst) == ends + [17, 0, 0, 0, 0, 0, 0, 0];
    WordSumConcat(ends, Be16(high) + (Be16(low) + [0, 0, 0, 17]));
    WordSumConcat(Be16(high), Be16(low) + [0, 0, 0, 17]);
    WordSumConcat(Be16(low), [0, 0, 0, 17]);
    WordSumConcat(ends, [17, 0, 0, 0, 0, 0, 0, 0]);
    OneWord(high);
    OneWord(low);
    FewWords();
    assert high + low - len == -0xFFFF * high;
  }

  lemma OneWord(n: u16)
    ensures WordSum(Be16(n)) == n
  {
    assert Be16(n)[2..] == [];
  }

  lemma FewWords()
    ensures WordSum([0, 0, 0, 17]) == 17 && WordSum([17, 0, 0, 0, 0, 0, 0, 0]) == 0x1100
  {
    assert [0, 0, 0, 17][2..] == [0, 17] && [0, 17][2..] == [];
    assert [17, 0, 0, 0, 0, 0, 0, 0] == [17, 0] + Zeros(6) && [17, 0][2..] == [];
    WordSumConcat([17, 0], Zeros(6));
    ZerosSum(6);
  }

  /** Over IPv6 the UDP checksum is right, by the pseudo-header of RFC 8200, under a condition that no datagram of
      less than 4326 bytes of data meets. */
  lemma Ip6UdpChecksum(r: Request)
    requires r.Valid() && r.af == AF_INET6 && r.srcAddr.Some? && r.dstAddr.Some? && |r.data| + 8 < WRAP
    ensures var pseudo := Rfc8200Pseudo(r.srcAddr.value, r.dstAddr.value, 8 + |r.data|);
      var total := Partials(PseudoHeader(r), UdpBytes(r.srcPort, r.dstPort, UdpLength(r), 0), r.data);
      var sum := OnesSum(pseudo + UdpHeader(PseudoHeader(r), r) + r.data);
      && (sum == 0xFFFF <==> Congruent(Wraps(r.data) + |r.data| + 8 + 17 - 0x1100, LostCarries(total)))
      && (|r.data| < 4326 ==> sum != 0xFFFF)
  {
    hide Be16, OnesSum, CheckSum, UdpCheck, Wraps, WordSum, Rfc8200Pseudo;
    var src, dst, n := r.srcAddr.value, r.dstAddr.value, 8 + |r.data|;
    var pseudo, blank := Pseudo6(src, dst), UdpBytes(r.srcPort, r.dstPort, UdpLength(r), 0);
    Pseudo6Sums(src, dst, n);
    UdpChecksumOver(Rfc8200Pseudo(src, dst, n), pseudo, n + 17 - 0x1100, Be16(r.srcPort) + Be16(r.dstPort), UdpLength(r), r.data);
    if |r.data| < 4326 {
      NoWraps(r.data);
      assert -1 <= LostCarries(Partials(pseudo, blank, r.data)) <= 2;
    }
  }

  /** It does fail: an empty datagram from 0.0.0.0 port 0 to the same is sent with a wrong checksum. */
  lemma UdpChecksumCanBeWrong()
    ensures var zero: seq<byte> := [0, 0, 0, 0];
      var r := Request(DLT_RAW, AF_INET, Some(zero), 0, Some(zero), 0, [], None, None);
      r.Valid() && OnesSum(PseudoHeader(r) + UdpHeader(PseudoHeader(r), r) + r.data) != 0xFFFF
  {
    var zero: seq<byte> := [0, 0, 0, 0];
    var r := Request(DLT_RAW, AF_INET, Some(zero), 0, Some(zero), 0, [], None, None);
    hide PseudoHeader, UdpHeader, UdpBytes, OnesSum, Partials, Wraps, LostCarries, Congruent;
    UdpChecksumRight(r);
    EmptyTotal(PseudoHeader(r));
    assert UdpLength(r) == 8;
  }

  lemma EmptyTotal(pseudo: seq<byte>)
    ensures Partials(pseudo, UdpBytes(0, 0, 8, 0), []) > 0x1_0000
  {
    hide UdpBytes, CheckSum;
    EmptyCheckSums();
  }

  lemma EmptyCheckSums()
    ensures CheckSum([]) == 0xFFFF && CheckSum(UdpBytes(0, 0, 8, 0)) == 0xFFF7
  {
    var blank := UdpBytes(0, 0, 8, 0);
    assert blank == Zeros(4) + Be16(8) + Zeros(2);
    FieldAdds(Zeros(4), 8, Zeros(2));
    assert Zeros(4) + Be16(0) + Zeros(2) == Zeros(8);
    ZerosSum(8);
    assert WordSum(blank) == 8;
  }

  // ---------- packet round trip ----------

  /** What the parsers are expected to report of a packet. */
  function Described(r: Request): Info
    requires r.srcAddr.Some? && r.dstAddr.Some?
  {
    Info(if r.af == AF_INET then 4 else 6, PROTO_UDP, 0, 0,
         r.srcAddr.value, r.srcPort, r.dstAddr.value, r.dstPort)
  }

  lemma Located(link: seq<byte>, ip: seq<byte>, udp: seq<byte>, data: seq<byte>, packet: seq<byte>)
    requires packet == link + ip + udp + data && |ip| >= IP_HEADER && |udp| == UDP_HEADER
    ensures var p, q := |link|, |link| + |ip|;
      && packet[q + UDP_HEADER..] == data
      && (forall k | 0 <= k < |ip| :: packet[p + k] == ip[k])
      && (forall k, l | 0 <= k <= l <= |ip| :: packet[p + k..p + l] == ip[k..l])
      && Be16At(packet, q) == Be16At(udp, 0)
      && Be16At(packet, q + 2) == Be16At(udp, 2)
      && Be16At(packet, q + 4) == Be16At(udp, 4)
  {
  }

  lemma Be16RoundTrip(n: u16, m: u16, k: u16, rest: seq<byte>)
    ensures var s := Be16(n) + Be16(m) + Be16(k) + rest;
      Be16At(s, 0) == n && Be16At(s, 2) == m && Be16At(s, 4) == k
  {
  }

  lemma IpDescribes(r: Request, flow: u32)
    requires r.Valid() && (r.af == AF_INET || r.af == AF_INET6) && r.srcAddr.Some? && r.dstAddr.Some?
    ensures IpHeaderOk(IpHeader(r, flow))
    ensures Addressed(IpHeader(r, flow), NOTHING_KNOWN) == Described(r).(srcPort := 0, dstPort := 0)
  {
    hide CheckSum, FlowBytes;
    var ip := IpHeader(r, flow);
    if r.af == AF_INET {
      assert ip[12..16] == r.srcAddr.value && ip[16..20] == r.dstAddr.value;
    } else {
      assert ip[8..24] == r.srcAddr.value && ip[24..40] == r.dstAddr.value;
    }
  }

  lemma IpIsRead(r: Request, flow: u32, packet: seq<byte>, link: seq<byte>, udp: seq<byte>)
    requires r.Valid() && r.Supported() && (r.af == AF_INET || r.af == AF_INET6)
    requires r.srcAddr.Some? && r.dstAddr.Some?
    requires link == LinkBytes(r) && |udp| == UDP_HEADER
    requires packet == link + IpHeader(r, flow) + udp + r.data
    ensures IpParse(r.datalink, packet, NOTHING_KNOWN) ==
            Parsed(|link| + |IpHeader(r, flow)|, Described(r).(srcPort := 0, dstPort := 0))
  {
    hide IpHeader, IpHeaderOk, Addressed, IpParse;
    IpDescribes(r, flow);
    HeaderIsRead(r.datalink, link, IpHeader(r, flow), udp + r.data, NOTHING_KNOWN);
    assert packet == link + IpHeader(r, flow) + (udp + r.data);
  }

  /** Packet round trip: whatever the link type, the family and the length of the data, the parsers
      return exactly the data and recover version, protocol and addresses. They recover the ports if
      and only if there is data, or both ports are zero anyway. */
  lemma PacketRoundTrip(r: Request, flow: u32)
    requires r.Valid() && r.Supported() && (r.af == AF_INET || r.af == AF_INET6)
    requires r.srcAddr.Some? && r.dstAddr.Some?
    ensures Headers(r, flow).Ok?
    ensures var packet := Headers(r, flow).value + r.data;
      var parsed := SmartParse(r.datalink, packet, NOTHING_KNOWN);
      && packet[parsed.offset..] == r.data
      && parsed.info.(srcPort := 0, dstPort := 0) == Described(r).(srcPort := 0, dstPort := 0)
      && (parsed.info == Described(r) <==> r.data != [] || (r.srcPort == 0 && r.dstPort == 0))
  {
    hide LinkBytes, IpHeader, UdpCheck, Be16, IpParse;
    var link, ip, udp := LinkBytes(r), IpHeader(r, flow), UdpHeader(PseudoHeader(r), r);
    var packet := Headers(r, flow).value + r.data;
    assert packet == link + ip + udp + r.data;
    IpIsRead(r, flow, packet, link, udp);
    Located(link, ip, udp, r.data, packet);
    Be16RoundTrip(r.srcPort, r.dstPort, UdpLength(r), udp[6..]);
    assert udp == Be16(r.srcPort) + Be16(r.dstPort) + Be16(UdpLength(r)) + udp[6..];
    assert IpParse(r.datalink, packet, IpParse(r.datalink, packet, NOTHING_KNOWN).info) ==
           IpParse(r.datalink, packet, NOTHING_KNOWN) by {
      ParseTwice(r.datalink, packet, NOTHING_KNOWN);
    }
  }

  // ---------- the fields of a packet ----------

  /** Why there is no packet: the link type comes first, then the family, the source and the destination. */
  lemma WhichError(r: Request, flow: u32)
    requires r.Valid()
    ensures var link, family := r.datalink in {0, 1, 12, 108}, r.af in {2, 10};
      && (Headers(r, flow) == Err(UnsupportedDatalink) <==> !link)
      && (Headers(r, flow) == Err(UnsupportedFamily) <==> link && !family)
      && (Headers(r, flow) == Err(BadSource) <==> link && family && r.srcAddr == None)
      && (Headers(r, flow) == Err(BadDestination) <==> link && family && r.srcAddr.Some? && r.dstAddr == None)
  {
    hide LinkBytes, IpHeader, UdpHeader, PseudoHeader;
  }

  /** Where a packet's parts are, and that all of them are there. */
  lemma PacketParts(r: Request, flow: u32)
    requires r.Valid() && r.Supported() && (r.af == AF_INET || r.af == AF_INET6)
    requires r.srcAddr.Some? && r.dstAddr.Some?
    ensures Headers(r, flow).Ok?
    ensures var packet, ip, l := Headers(r, flow).value + r.data, IpHeader(r, flow), |LinkBytes(r)|;
      && packet[..l] == LinkBytes(r)
      && (forall k | 0 <= k < |ip| :: packet[l + k] == ip[k])
      && |packet| == l + |ip| + 8 + |r.data|
      && Be16At(packet, l + |ip| + 4) == UdpLength(r)
  {
    hide LinkBytes, IpHeader, UdpCheck, Be16, PseudoHeader;
    var link, ip, udp := LinkBytes(r), IpHeader(r, flow), UdpHeader(PseudoHeader(r), r);
    var packet := Headers(r, flow).value + r.data;
    assert packet == link + ip + udp + r.data;
    Located(link, ip, udp, r.data, packet);
    Be16RoundTrip(r.srcPort, r.dstPort, UdpLength(r), udp[6..]);
    assert udp == Be16(r.srcPort) + Be16(r.dstPort) + Be16(UdpLength(r)) + udp[6..];
  }

  /** The link header: nothing; the number of the family, in the host's order or in network order; or the
      Ethernet addresses given and the type of the family. */
  lemma LinkIsRead(r: Request, flow: u32)
    requires r.Valid() && r.Supported() && (r.af == AF_INET || r.af == AF_INET6)
    requires r.srcAddr.Some? && r.dstAddr.Some?
    ensures var packet, family := Headers(r, flow).value + r.data, if r.af == AF_INET then 2 else 24;
      && (r.datalink == DLT_RAW ==> packet[0] / 16 == if r.af == AF_INET then 4 else 6)
      && (r.datalink == DLT_NULL ==> Le32At(packet, 0) == family)
      && (r.datalink == DLT_LOOP ==> packet[..4] == [0, 0, 0, family])
      && (r.datalink == DLT_EN10MB ==>
            && packet[..6] == (if r.dstMac.Some? then r.dstMac.value else [0, 0, 0x1f, 0, 0x12, 0])
            && packet[6..12] == (if r.srcMac.Some? then r.srcMac.value else [0, 0, 0x16, 0, 0x3e, 0])
            && Be16At(packet, 12) == if r.af == AF_INET then 0x0800 else 0x86DD)
  {
    hide IpHeader, UdpLength, Headers;
    PacketParts(r, flow);
    var packet, link := Headers(r, flow).value + r.data, LinkBytes(r);
    FirstNibble(r, flow);
    forall k | 0 <= k < |link|
      ensures packet[k] == link[k]
    {
      assert packet[..|link|][k] == packet[k];
    }
    if r.datalink == DLT_EN10MB {
      assert packet[..6] == link[..6] && packet[6..12] == link[6..12];
    }
  }

  lemma FirstNibble(r: Request, flow: u32)
    requires r.Valid() && (r.af == AF_INET || r.af == AF_INET6) && r.srcAddr.Some? && r.dstAddr.Some?
    ensures IpHeader(r, flow)[0] / 16 == if r.af == AF_INET then 4 else 6
  {
    hide CheckSum, FlowBytes;
  }

  lemma Be16Twice(n: u16)
    ensures Be16(n)[0] as int * 0x100 + Be16(n)[1] == n
  {
  }

  lemma IpFields(r: Request, flow: u32)
    requires r.Valid() && (r.af == AF_INET || r.af == AF_INET6) && r.srcAddr.Some? && r.dstAddr.Some?
    ensures var ip := IpHeader(r, flow);
      if r.af == AF_INET then
        && ip[0] == 0x45 && ip[1] == 0 && Be16At(ip, 2) == (28 + |r.data|) % 0x1_0000 && Be16At(ip, 4) == flow % 0x1_0000
        && Be16At(ip, 6) == 0 && ip[8] == 255 && ip[9] == 17
      else ip[0] == 0x60 && Be16At(ip, 4) == (48 + |r.data|) % 0x1_0000 && ip[6] == 17 && ip[7] == 32
  {
    hide CheckSum, Be16;
    var ip := IpHeader(r, flow);
    if r.af == AF_INET {
      var len, id := (28 + |r.data|) % 0x1_0000, flow % 0x1_0000;
      Be16Twice(len);
      Be16Twice(id);
      assert ip[2] == Be16(len)[0] && ip[3] == Be16(len)[1] && ip[4] == Be16(id)[0] && ip[5] == Be16(id)[1];
    } else {
      var len := (48 + |r.data|) % 0x1_0000;
      Be16Twice(len);
      assert ip[4] == Be16(len)[0] && ip[5] == Be16(len)[1];
    }
  }

  /** The length fields. IPv4's total length and UDP's length are what is there, if and only if that is less than
      64 KiB. IPv6's payload length, which the program sets to the total length, is never the payload's. */
  lemma LengthsAreRead(r: Request, flow: u32)
    requires r.Valid() && r.Supported() && (r.af == AF_INET || r.af == AF_INET6)
    requires r.srcAddr.Some? && r.dstAddr.Some?
    ensures var packet, l, udp := Headers(r, flow).value + r.data, |LinkBytes(r)|, |LinkBytes(r)| + |IpHeader(r, flow)|;
      && (Be16At(packet, udp + 4) == |packet| - udp <==> |packet| - udp < 0x1_0000)
      && if r.af == AF_INET then
           && (Be16At(packet, l + 2) == |packet| - l <==> |packet| - l < 0x1_0000)
           && Be16At(packet, l + 4) == flow % 0x1_0000
           && Be16At(packet, l + 6) == 0 && packet[l + 8] == 255
         else
           && (Be16At(packet, l + 4) == |packet| - l <==> |packet| - l < 0x1_0000)
           && Be16At(packet, l + 4) != |packet| - udp
           && packet[l + 7] == 32
  {
    hide IpHeader, LinkBytes, Headers;
    PacketParts(r, flow);
    IpFields(r, flow);
    var ip, l, packet := IpHeader(r, flow), |LinkBytes(r)|, Headers(r, flow).value + r.data;
    assert forall k | 0 <= k <= 6 :: Be16At(packet, l + k) == Be16At(ip, k);
    if r.af == AF_INET {
      Wrapped(28 + |r.data|);
    } else {
      Wrapped(48 + |r.data|);
    }
    Wrapped(8 + |r.data|);
  }

  lemma Wrapped(n: nat)
    ensures n % 0x1_0000 == n <==> n < 0x1_0000
    ensures n >= 40 ==> n % 0x1_0000 != n - 40
  {
  }

  /** Two IPv6 packets have the same flow label if and only if their sequence numbers agree in bits 8 .. 11 and
      16 .. 23: the others are not in it. */
  lemma FlowLabelForgets(flow: u32, other: u32)
    ensures FlowBytes(flow) == FlowBytes(other) <==>
            flow / 0x100 % 0x10 == other / 0x100 % 0x10 && flow / 0x1_0000 % 0x100 == other / 0x1_0000 % 0x100
  {
    LabelParts(flow);
    LabelParts(other);
  }

  lemma LabelParts(flow: u32)
    ensures var a, b := flow / 0x1_0000 % 0x100, flow / 0x100 % 0x10;
      FlowBytes(flow) == [0, a % 16 * 16, b * 16 + a / 16]
  {
    var q := flow / 0x100;
    assert q % 0x100 % 16 == q % 16;
  }
}
