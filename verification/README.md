# Verified models of the samples' protocols and codecs

A Dafny 4.11 model of the parts of this repository whose correctness is hard to see by reading one
function: incremental parsers fed arbitrary pieces of a stream, a packet writer and the parsers that read
its packets back, a scan/delete loop against a server that promises little, an event loop that is
re-entered, and small protocols between threads. `dafny verify dfyconfig.toml` checks all of it.

Objects whose methods change their fields are classes here, with the program's own loops; each is proved
against a specification function, and what the program promises is proved about that function, for all
inputs, all runs and all interleavings.

| file | models |
|---|---|
| `Bytes.dfy` | bytes, fixed-width integers and their memory images |
| `ScgiFraming.dfy` | the SCGI wire format: a byte-at-a-time deframer, a bulk reader, framing round trip |
| `ScgiParser.dfy` | `scgi::Parser` with its fields and loop |
| `SocketMessage.dfy` | `sockets::Message` and the SCGI message built on it |
| `PayloadStack.dfy` | `Datalink`, `IP`, `UDP`, `TCP` and `Smart` header stripping |
| `VoipBlock.dfy` | VoIPmonitor blocks: header, offset table, slices, packets |
| `VoipReassembler.dfy` | reassembly of blocks from the segments of one stream |
| `VoipStreams.dfy` | demultiplexing by a text key |
| `Checksum.dfy` | the Internet checksum and one's-complement addition |
| `IpPacket.dfy` | `IPPacket`, the packet writer, over its fixed buffer |
| `PacketProofs.dfy` | checksums of written packets, writer/parser round trip |
| `CaptureFile.dfy` | `OStream`, the pcap file writer, and a reader |
| `RedisRemove.dfy` | `Redis::removex` with a finite keyspace, over commands that are retried |
| `CurlMonitor.dfy` | `curl::Service`, masks and one-shot waits |
| `WriteQueue.dfy` | the write queue of `BaseConnection` |
| `ConnectionPool.dfy` | `scgi::Pool` under all interleavings |
| `LiveCapture.dfy` | `livecapture::Grabber` under all interleavings |
| `PercentCodec.dfy` | `urilite::encoder` for both pairs of policies |

## What the code does not promise

The model follows the code. Where an expected property is false of it, the exact condition is proved:

- Cutting a stream into chunks shows in one field, `nread_`, if and only if the cut divides the body of a
  message that is then refused (`ScgiParser.ChunkIndependence`, `RefusalShowsTheCut`).
- A payload of 4 GiB or more is announced with a wrapped length. Frames of payloads of given lengths deliver
  them, whatever bytes they hold, if and only if every length is below 4 GiB
  (`ScgiFraming.SurvivalByLengths`, `LongPayloadIsCut`, `ImposterSpeaks`).
- A VoIPmonitor block in several segments that gives no packet stays in the buffer, and hides the next
  block that needs two segments (`VoipReassembler.SegmentationIndependence`, `StaleBlockHidesTheNext`,
  `NextIsLost`); a block of 69 bytes is one (`SilentBlockIsSilent`).
- The checksum is right for all inputs of a length if and only if that is at most 131074 bytes
  (`Checksum.ChecksumRefinesOnesSum`).
- The UDP checksum, added up in 16 bits, is right if and only if the carries it loses are as many, modulo
  0xFFFF, as the wraps of the accumulator over the data: up to 131074 bytes, if and only if the three partial
  checksums add up to 1 .. 65536 (`PacketProofs.UdpChecksumRight`, `UdpChecksumCanBeWrong`).
- Over IPv6 the pseudo-header has no length and its next header in the wrong place, so that no UDP datagram of
  less than 4326 bytes of data has a right checksum; for the others the exact condition is given
  (`PacketProofs.Ip6UdpChecksum`). The IPv6 payload length counts the IP header and is never right
  (`LengthsAreRead`), and the flow label has 12 bits of the sequence number (`FlowLabelForgets`).
- The ports of a packet without data are not recovered, unless they are zero (`PacketProofs.PacketRoundTrip`).
- `total()` counts the bytes of a capture file if and only if all packets are shorter than 4 GiB
  (`CaptureFile.OStream.TotalCounts`).
- A capture file is read back as written if and only if all packets are shorter than 4 GiB and what a failed
  write left is shorter than it announces (`CaptureFile.FileRoundTrip`, `OStream.Readable`).
- A deletion whose reply is lost is sent again and then counts nothing. The result of a removal is the number
  of keys removed if and only if no deletion was carried out and sent again, and is smaller otherwise
  (`RedisRemove.Redis.RemoveX`, `AllRepeated`).
- A scan reply that is not a two-element array ends a removal as if it were complete. That none is left is
  proved for the runs that receive no such reply, and never covers the empty key name
  (`RedisRemove.Redis.RemoveX`, `NotAPage`).
- A socket can stay registered with nothing waiting for a direction of its mask, if and only if the last wait
  for it ended in an error; without such errors every direction has a wait
  (`CurlMonitor.RunKeepsQuiet`, `RunServesRequests`, `ErrorEndsMonitoring`).
- A connection whose `getConnection` read the flag before a shutdown can be registered after it and is
  never closed. A shutdown closes every live connection, in every interleaving, if and only if at the time
  the flag is set no thread is past that check, or the map stays full even when all destructors that wait for
  the lock have unregistered (`ConnectionPool.ShutdownClosesAll`, `RacerEscapes`).
- Encoding undoes decoding on canonical texts only (`PercentCodec.ReverseRoundTrip`).

## Model

| member | source | states |
|---|---|---|
| ScgiFraming.HeaderRoundTrip | scgi/message.h:15-28 | a header made for a size has a valid marker and announces that size |
| ScgiFraming.RunConcat | scgi/parser.cpp:40-161 | reading two pieces of a stream one after the other is reading their concatenation |
| ScgiFraming.RunChunksFlattens | scgi/parser.cpp:24-38 | any number of reads act as one read of all their bytes |
| ScgiFraming.FailureIsFinal | scgi/parser.cpp:42-73 | after a failure nothing is dispatched, changed or closed; the connection is closed exactly once, by the failing step; the dispatch log only grows |
| ScgiFraming.BodyGrows | scgi/parser.cpp:104-117 | while nothing is dispatched, a body in progress is exactly the bytes that have arrived of it |
| ScgiFraming.HeaderFills | scgi/parser.cpp:52-57 | bytes that arrive in a header replace exactly its next bytes and leave the stale rest |
| ScgiFraming.BodyCopies | scgi/parser.cpp:104-152 | a body part received byte by byte is the part copied in bulk, dispatched when complete |
| ScgiFraming.SkipCounts | scgi/parser.cpp:75-83 | an oversized message is skipped by counting, and ends at its announced length |
| ScgiFraming.BodyAfterHeader | scgi/parser.cpp:84-152 | the first bytes after an accepted header start its body |
| ScgiFraming.SkipAfterHeader | scgi/parser.cpp:75-83 | the first bytes after an oversized header start the skipping |
| ScgiFraming.PartIsRead | scgi/parser.cpp:104-156 | the bulk step over any part of a due message equals as many single-byte steps |
| ScgiFraming.TurnEnds | scgi/parser.cpp:104-156 | a loop turn that leaves bytes over ends inside a header, having finished its message |
| ScgiFraming.TurnIsRun | scgi/parser.cpp:49-158 | a turn of the loop, which may consume no byte, equals the single-byte steps it stands for |
| ScgiFraming.BoundaryIsFresh | scgi/parser.cpp:91-100 | after an empty message the next byte is read as by a new parser |
| ScgiFraming.HeaderIsRead | scgi/parser.cpp:52-57 | eight bytes at a boundary become the header, not yet judged |
| ScgiFraming.PayloadIsJudged | scgi/parser.cpp:61-152 | for every dispatcher, a payload of 1 byte to 1 MiB is handed over once, and unless it is accepted the parser fails and the connection is closed, once; any other payload is passed over |
| ScgiFraming.FrameIsJudged | scgi/parser.cpp:123-145 | the same for the frame that a message object produces |
| ScgiFraming.FramesAreJudged | scgi/parser.cpp:40-161 | a stream of frames hands over the deliverable payloads in order, up to and including the first that the dispatcher does not accept, by refusal or by an exception; the connection is closed if and only if there is one |
| ScgiFraming.BadMarkerCloses | scgi/parser.cpp:61-73 | a header without the marker closes the connection, whatever follows it |
| ScgiFraming.EveryStream | scgi/parser.cpp:40-161 | every byte string, for every dispatcher, leaves the messages, the failure and the closes that the format gives it, read whole messages at a time |
| ScgiFraming.EveryListOfReads | scgi/parser.cpp:24-161 | so does every list of reads of a new connection, wherever they cut the stream |
| ScgiFraming.PayloadIsRead | scgi/parser.cpp:61-152 | a header and its payload dispatch the payload if it has 1 byte to 1 MiB, and otherwise nothing, and return to a boundary |
| ScgiFraming.FrameIsRead | scgi/message.h:52-60 | the same for the frame that a message object produces (payloads below 4 GiB, see `SurvivalByLengths`) |
| ScgiFraming.FramesAreRead | scgi/parser.cpp:61-152 | a stream of frames dispatches exactly the payloads of 1 byte to 1 MiB, in order and byte-equal, with no close; the parser resynchronises after each (payloads below 4 GiB, see `SurvivalByLengths`) |
| ScgiFraming.RoundTrip | scgi/message.h:33-60 | framing round trip through every chunking of the frames and one further byte (below 4 GiB, exactly where it holds by `SurvivalByLengths`) |
| ScgiFraming.LongPayloadIsCut | scgi/message.h:24 | a payload of 4 GiB or more whose wrapped length is deliverable arrives as its own prefix |
| ScgiFraming.ImposterSpeaks | scgi/message.h:24 | for every length of 4 GiB or more there is a payload out of which the receiver is handed a message that was never sent |
| ScgiFraming.Breaks | scgi/message.h:15-28 | such a payload spoils what a stream delivers, whatever frames surround it |
| ScgiFraming.SurvivalByLengths | scgi/message.h:15-60 | frames of payloads of given lengths deliver them, whatever they are, if and only if every length is below 4 GiB |
| ScgiParser.TurnsIsRun | scgi/parser.cpp:49-158 | the loop over a chunk refines the byte-at-a-time deframer and ends for every chunk |
| ScgiParser.NothingCarried | scgi/parser.cpp:138-145 | a message refused in the chunk in which it began leaves `nread_` at the header size |
| ScgiParser.TurnsIsAfter | scgi/parser.cpp:49-158 | what the loop leaves in every field, `nread_` after a refusal included |
| ScgiParser.ChunkIndependence | scgi/parser.cpp:40-161 | two chunks leave the same messages, closes, failure flag and fields as their concatenation, but for `nread_`, and for that if and only if the cut divides no refused body |
| ScgiParser.RefusalShowsTheCut | scgi/parser.cpp:138-154 | a concrete refused message for which `nread_` shows the cut |
| ScgiParser.Parser.constructor | scgi/parser.h:31-38 | a new parser is in the initial state |
| ScgiParser.Parser.StateFixesFields | scgi/parser.h:31-38 | the deframer's state and `nread_` determine every field of a parser |
| ScgiParser.Parser.OnMessage | scgi/parser.cpp:123-134 | the dispatcher is handed the message once; an exception counts as a refusal |
| ScgiParser.Parser.Absorb | scgi/parser.cpp:104-156 | the copy stays in range and the part taken is the bulk step; a complete message is dispatched |
| ScgiParser.Parser.Judge | scgi/parser.cpp:61-102 | a complete header closes, is dropped, or prepares for skipping or receiving, with `msgbuf_` at most 1 MiB |
| ScgiParser.Parser.Resume | scgi/parser.cpp:58-156 | a complete header is judged and its message continued: one turn |
| ScgiParser.Parser.TakeTurn | scgi/parser.cpp:49-157 | the loop body keeps the parser valid and brings the chunk forward, or `nread_` back |
| ScgiParser.Parser.TakeTurns | scgi/parser.cpp:49-160 | the loop terminates and computes the bulk reader |
| ScgiParser.Parser.Process | scgi/parser.cpp:40-161 | the parser's whole new state is the deframer's, and the result tells whether it has failed |
| ScgiParser.Parser.Read | scgi/parser.cpp:24-38 | reading goes on until a chunk fails, and has the effect of all chunks; from a new parser on, messages, failure and closes are those of the whole byte string |
| SocketMessage.Message.constructor | sockets/message.h:35-39 | a message of one piece puts that piece on the wire |
| SocketMessage.Message.Scgi | scgi/message.h:33-60 | an SCGI message puts the payload's frame on the wire |
| SocketMessage.Message.PushFront | sockets/message.h:69-73 | the piece is sent first although it is stored last |
| SocketMessage.Message.PushBack | sockets/message.h:79-83 | the piece is sent last |
| SocketMessage.Message.DataSize | sockets/message.h:53-59 | the sum over the stored pieces is the length of the wire, in whatever order they are sent |
| PayloadStack.HeaderIsRead | pcap/parsers/ip.cpp:9-47 | version, protocol and addresses are found behind any link header, for IPv4 with options and for IPv6 |
| PayloadStack.TcpSegmentIsRead | pcap/parsers/tcp.cpp:8-25 | the data, ports and addresses of a TCP segment are found behind any link header, over both families, with options in the IPv4 and TCP headers |
| PayloadStack.UdpDatagramIsRead | pcap/parsers/udp.cpp:8-24 | the same for a UDP datagram if and only if the length it announces is there; otherwise there is no payload and the ports stay unknown |
| PayloadStack.OtherIsRead | pcap/parsers/smart.cpp:10-27 | the data of any other protocol is what is behind the IP header |
| PayloadStack.NothingElseIsIp | pcap/parsers/ip.cpp:9-47 | another version, another link type, a frame cut short in a header and a header with nothing behind it have no payload and tell nothing |
| PayloadStack.WhenTransportIsFound | pcap/parsers/tcp.cpp:8-25 | what is behind an IP header is taken for a segment or datagram if and only if it is longer than its header, and for UDP as long as it says |
| PayloadStack.ParseTwice | pcap/parsers/smart.cpp:12-20 | the second pass over the IP header changes nothing |
| PayloadStack.IpPayload | pcap/parsers/ip.cpp:9-47 | fills in the description and finds the offset that the specification gives, in place |
| PayloadStack.UdpPayload | pcap/parsers/udp.cpp:8-24 | the same for UDP |
| PayloadStack.TcpPayload | pcap/parsers/tcp.cpp:8-25 | the same for TCP |
| PayloadStack.SmartPayload | pcap/parsers/smart.cpp:10-27 | the same for the dispatch on the protocol |
| VoipBlock.SlicesPartition | pcap/parsers/voip.cpp:180-234 | accepted offsets cut the data into contiguous slices that cover it from the first offset to the end |
| VoipBlock.SlicesOfJoined | pcap/parsers/voip.cpp:209-234 | slicing undoes laying pieces end to end, if the last is not empty |
| VoipBlock.CapturedPacketIsRead | pcap/parsers/voip.cpp:236-263 | a packet behind a capture header of any length and a link header is read as by itself, with the capture's time |
| VoipBlock.NoPacketIn | pcap/parsers/voip.cpp:236-263 | a slice that is too short for its capture header, or whose lengths do not fit, has no packet |
| VoipBlock.PacketsAreSuffixes | pcap/parsers/voip.cpp:218-234 | every packet is a non-empty suffix of a slice, through the whole chain of parsers |
| VoipBlock.ContentsCoverData | pcap/parsers/voip.cpp:163-201 | on the raw and the compressed path the sliced data has the announced size, and the slices cover it |
| VoipBlock.WhichHeader | pcap/parsers/voip.cpp:156-168 | which 64 bytes are accepted as a header |
| VoipBlock.WhichOffsets | pcap/parsers/voip.cpp:178-190 | which offset tables are accepted |
| VoipBlock.WhenRefused | pcap/parsers/voip.cpp:178-201 | a block is refused if and only if its offsets descend or pass the size, or its data cannot be made into data of that size |
| VoipBlock.PacketsInOrder | pcap/parsers/voip.cpp:203-234 | the packets of a list of slices are those of each slice, in order |
| VoipBlock.BlockHolds | pcap/parsers/voip.cpp:156-263 | a block, built byte by byte of pieces laid end to end, raw or compressed, is accepted and gives the packets of the pieces, in order |
| VoipBlock.SameHeader | pcap/parsers/voip.cpp:156-169 | only the first 64 bytes decide whether a header is accepted and how long its block is |
| VoipBlock.TrailingBytesDropped | pcap/parsers/voip.cpp:170-201 | bytes after a block do not change what it contains |
| VoipReassembler.ParseHeaderOfBlock | pcap/parsers/voip.cpp:156-201 | a complete block at the start of a segment is parsed to its contents |
| VoipReassembler.WholeBlockArrives | pcap/parsers/voip.cpp:104-130 | a block in one segment is delivered at once |
| VoipReassembler.BlockBegins | pcap/parsers/voip.cpp:170-176 | the beginning of a block is buffered, with the length to wait for |
| VoipReassembler.BodyGrows | pcap/parsers/voip.cpp:145-154 | a segment in the middle of a block is appended and gives nothing |
| VoipReassembler.BlockCompletes | pcap/parsers/voip.cpp:145-154 | the segment that completes a block delivers it, and clears the buffer unless it gave no packet |
| VoipReassembler.RestOfBlock | pcap/parsers/voip.cpp:104-154 | the rest of a block, in any number of segments, delivers it with the last |
| VoipReassembler.SegmentationIndependence | pcap/parsers/voip.cpp:104-201 | a block cut into any segments gives nothing before the last and then what it gives in one piece; the stream ends as after one piece if and only if it was one, or was malformed, or gave a packet, and otherwise with the block in its buffer |
| VoipReassembler.NoiseIsDropped | pcap/parsers/voip.cpp:104-166 | where a header is expected, a segment that does not begin with one is dropped, and the stream is reset |
| VoipReassembler.ShortSegment | pcap/parsers/voip.cpp:137-176 | a new stream ignores segments shorter than a header; later they are looked at together with what lies behind them |
| VoipReassembler.BlocksArrive | pcap/parsers/voip.cpp:104-201 | a stream of blocks, each cut anywhere, and of segments between them that are no blocks, gives the packets of each block, in order, and ends cleared |
| VoipReassembler.StreamArrives | pcap/parsers/voip.cpp:104-201 | the same from the beginning of a stream, whatever short segments come first |
| VoipReassembler.StaleBlockHidesTheNext | pcap/parsers/voip.cpp:104-154 | a block left in the buffer makes the next one in two segments disappear |
| VoipReassembler.NextIsLost | pcap/parsers/voip.cpp:104-154 | from a cleared stream, behind a block in several segments without packets, the next block in two segments gives nothing |
| VoipReassembler.SilentBlockIsSilent | pcap/parsers/voip.cpp:156-234 | a concrete block of 69 bytes is well-formed, gives no packet, and can come in two segments |
| VoipReassembler.Reassembler.constructor | pcap/parsers/voip.cpp:93-97 | a new stream waits for a header with nothing buffered |
| VoipReassembler.Reassembler.Process | pcap/parsers/voip.cpp:104-123 | state and packets after a segment are those of the specification |
| VoipReassembler.Reassembler.Reset | pcap/parsers/voip.cpp:125-130 | the stream expects a header at once, with nothing buffered |
| VoipReassembler.Reassembler.ParsePayload | pcap/parsers/voip.cpp:132-201 | the three states and their recursion compute the specification, and end |
| VoipReassembler.Reassembler.Unwrap | pcap/parsers/voip.cpp:178-201 | the loop over the offsets accepts exactly ascending ones below the size |
| VoipReassembler.Reassembler.Decompress | pcap/parsers/voip.cpp:265-293 | decompressed data is accepted at exactly the announced size |
| VoipReassembler.Reassembler.Packets | pcap/parsers/voip.cpp:203-234 | the loop emits the packets of all slices in order; its bounds guard never fails |
| VoipReassembler.Reassembler.Payload | pcap/parsers/voip.cpp:236-263 | fills in the description and finds the payload of a slice, in place |
| VoipStreams.DecimalInjective | pcap/parsers/voip.cpp:79-82 | different port numbers have different texts |
| VoipStreams.KeyInjective | pcap/parsers/voip.cpp:77-91 | streams with different ends have different keys, although IPv6 addresses contain colons |
| VoipStreams.StreamsDoNotInterfere | pcap/parsers/voip.cpp:66-91 | in any interleaving a stream gives the packets, and ends in the state, of a reassembler fed its segments alone |
| VoipStreams.EveryStreamAlone | pcap/parsers/voip.cpp:66-91 | from the beginning on, every stream is read as by a new reassembler |
| VoipStreams.VoIP.constructor | pcap/parsers/voip.h:13 | a new parser has no streams |
| VoipStreams.VoIP.FindReassembler | pcap/parsers/voip.cpp:77-91 | a stream keeps its reassembler; a new one is fresh and no stream shares it |
| VoipStreams.VoIP.Feed | pcap/parsers/voip.cpp:66-75 | a segment changes its own stream and no other |
| VoipStreams.VoIP.Packets | pcap/parsers/voip.cpp:66-75 | the packets of all segments, in order |
| Checksum.CalcCheckSum | pcap/tools/ippacket.cpp:274-299 | the two loops end and compute the complement of the folded sum modulo 2^32, byte-swapped |
| Checksum.FoldAdds | pcap/tools/ippacket.cpp:274-299 | folding a sum is one's-complement addition |
| Checksum.OnesSumFolds | pcap/tools/ippacket.cpp:274-299 | the one's-complement sum of section 1 of RFC 1071 is the folded ordinary sum |
| Checksum.WordSumBound | pcap/tools/ippacket.cpp:276-291 | how large the sum of an input can be |
| Checksum.AccumulatorFits | pcap/tools/ippacket.cpp:276-291 | up to 131074 bytes the 32-bit accumulator does not wrap |
| Checksum.ChecksumRefinesOnesSum | pcap/tools/ippacket.cpp:274-299 | the checksum is the complement of the one's-complement sum on all inputs of a length if and only if that is at most 131074 bytes |
| Checksum.WordSumConcat | pcap/tools/ippacket.cpp:101-107 | sums of pieces of even length add up to the sum of the whole |
| Checksum.FieldAdds | pcap/tools/ippacket.cpp:109-110 | storing a 16-bit field adds it to the sum |
| IpPacket.IPPacket.WriteDataLink | pcap/tools/ippacket.cpp:203-255 | the link header of each supported type is in the buffer; other types are an error |
| IpPacket.IPPacket.WriteIP4Fixed | pcap/tools/ippacket.cpp:140-149 | the IPv4 header up to the addresses is in the buffer |
| IpPacket.IPPacket.WriteIP4Header | pcap/tools/ippacket.cpp:131-156 | the IPv4 header and the pseudo-header are written |
| IpPacket.IPPacket.WriteIP6Header | pcap/tools/ippacket.cpp:158-193 | the IPv6 header, flow bits included, and the pseudo-header are written |
| IpPacket.IPPacket.WriteIPHeader | pcap/tools/ippacket.cpp:127-201 | the header of the family, or the error of a family or an address |
| IpPacket.IPPacket.SumUDP | pcap/tools/ippacket.cpp:90-113 | the check value is the 16-bit sum of the three partial checksums, never zero |
| IpPacket.IPPacket.WriteUDPHeader | pcap/tools/ippacket.cpp:81-116 | the UDP header with its check value is behind the IP header |
| IpPacket.IPPacket.PatchHeader | pcap/tools/ippacket.cpp:51-65 | exactly two bytes of a header change |
| IpPacket.IPPacket.Finalize | pcap/tools/ippacket.cpp:51-65 | the IP header is finished and nothing else has changed |
| IpPacket.IPPacket.Build | pcap/tools/ippacket.cpp:33-41 | the serialized packet is headers and data as specified, or the error is the first that applies |
| PacketProofs.Ip4HeaderSumsToZero | pcap/tools/ippacket.cpp:57 | recomputing the checksum over a finished IPv4 header gives 0, as section 3.1 of RFC 791 asks |
| PacketProofs.UdpChecksumOver | pcap/tools/ippacket.cpp:90-113 | when a check value made over one pseudo-header makes all sum to 0xFFFF with another |
| PacketProofs.UdpChecksumByParts | pcap/tools/ippacket.cpp:90-113 | for data of any length, the check value makes pseudo-header, header and data sum to 0xFFFF if and only if the carries lost and the wraps agree modulo 0xFFFF; up to 131074 bytes, if and only if the partial checksums total 1 .. 65536 |
| PacketProofs.UdpChecksumRight | pcap/tools/ippacket.cpp:81-116 | the same for the packets written over IPv4, with the pseudo-header of RFC 768 |
| PacketProofs.UdpChecksumCanBeWrong | pcap/tools/ippacket.cpp:101-113 | an empty datagram whose checksum is wrong |
| PacketProofs.Ip6UdpChecksum | pcap/tools/ippacket.h:63-80 | over IPv6 the checksum is right, by the pseudo-header of section 8.1 of RFC 8200, under an exact condition that no datagram of less than 4326 bytes of data meets |
| PacketProofs.WhichError | pcap/tools/ippacket.cpp:118-201 | which of the four errors a request meets, and when there is a packet |
| PacketProofs.LinkIsRead | pcap/tools/ippacket.cpp:203-253 | the link header is read back: family numbers in either byte order, Ethernet addresses, and the type of the family |
| PacketProofs.LengthsAreRead | pcap/tools/ippacket.cpp:51-65 | total length and UDP length are what is there if and only if that is less than 64 KiB; the IPv6 payload length never is |
| PacketProofs.FlowLabelForgets | pcap/tools/ippacket.cpp:176-181 | which sequence numbers have the same flow label |
| PacketProofs.IpIsRead | pcap/parsers/ip.cpp:9-47 | version, protocol and addresses are recovered behind every link header, for both families |
| PacketProofs.PacketRoundTrip | pcap/tools/ippacket.cpp:35-49 | the parsers return exactly the data and recover version, protocol and addresses, and the ports if and only if there is data or they are zero, even when the 16-bit lengths wrap |
| CaptureFile.LengthIsRead | pcap/tools/ostream.cpp:55-67 | a record header yields its times and, twice, its announced length |
| CaptureFile.CutShortIsIgnored | pcap/tools/ostream.cpp:69-77 | what a failed write leaves is not taken for a record if and only if it is shorter than its header announces |
| CaptureFile.RecordIsRead | pcap/tools/ostream.cpp:55-77 | a record is read back and the reader goes on behind it, if and only if its packet is shorter than 4 GiB |
| CaptureFile.RecordsAreRead | pcap/tools/ostream.cpp:44-81 | all records are read back in order, and nothing else, if and only if all packets are shorter than 4 GiB and what follows them is no record |
| CaptureFile.FileRoundTrip | pcap/tools/ostream.cpp:23-81 | a reader recovers link type and exactly the packets written, also behind a write that failed half-way, under exactly the same condition |
| CaptureFile.TotalIsExact | pcap/tools/ostream.cpp:66-79 | the announced lengths add up to the bytes if and only if all packets are shorter than 4 GiB |
| CaptureFile.FileHeaderIsRead | pcap/tools/ostream.cpp:23-38 | all fields of the file header are read back |
| CaptureFile.RecordsAppend | pcap/tools/ostream.cpp:69-79 | a record appended to a file adds its bytes and its announced length |
| CaptureFile.OStream.constructor | pcap/tools/ostream.cpp:13-42 | the file header is emitted and counted, if the stream takes it |
| CaptureFile.Open | pcap/tools/ostream.cpp:83-94 | a link type that cannot be written fails before anything is emitted |
| CaptureFile.OStream.Write | pcap/tools/ostream.cpp:44-81 | a bad packet changes nothing, a failing stream keeps all packets written before, success adds exactly this packet |
| CaptureFile.OStream.Emit | pcap/tools/ostream.cpp:64-79 | record header and packet reach the stream, or the record is cut short, with the count of the program |
| CaptureFile.OStream.Serialize | pcap/tools/ippacket.cpp:43-49 | headers then data reach the stream, or a proper prefix of them |
| CaptureFile.OStream.Readable | pcap/tools/ostream.cpp:23-81 | at any time, failed writes included, the file holds exactly the packets whose writing succeeded, if and only if these are shorter than 4 GiB and the failed one was cut short of its announced length |
| CaptureFile.OStream.TotalCounts | pcap/tools/ostream.cpp:39-79 | `total_` equals the bytes emitted if and only if all packets are shorter than 4 GiB |
| RedisRemove.PromisesCanBeKept | redis/redis.cpp:109-115 | there are servers that keep the scan promises assumed here, for every pattern and whatever becomes of commands |
| RedisRemove.SweepStep | redis/redis.cpp:94-118 | a page whose named keys have been deleted brings an iteration forward, while keys disappear |
| RedisRemove.SweepEnd | redis/redis.cpp:94-118 | an iteration that comes back to the zero cursor proves that no matching key with a name is left |
| RedisRemove.DeletedKeeps | redis/redis.cpp:97-105 | a scan and a deletion that is answered keep the loop's invariant: bound, count, replies and iteration |
| RedisRemove.SkippedKeeps | redis/redis.cpp:106-116 | so does a scan that gives nothing to delete |
| RedisRemove.OneMoreEntry | redis/redis.cpp:85-118 | a command that is due keeps the order of commands, and what it does to the count and the iteration |
| RedisRemove.LastAttempt | redis/redis.cpp:24-37 | a command is answered if and only if one of its attempts is, all before it having failed with their connection; and it was carried out before if and only if one of these was |
| RedisRemove.Server.Del | redis/redis.cpp:20-38 | an attempt at a deletion removes exactly the keys named and counts them; it may be carried out without an answer |
| RedisRemove.Cursor.Reset | redis/coursor.h:19-22 | a reset cursor is the zero cursor |
| RedisRemove.Redis.ExecScan | redis/redis.cpp:20-44 | a failed connection leads to the next attempt, up to the limit, and an error reply does not; a scan leaves nothing behind |
| RedisRemove.Redis.ExecDel | redis/redis.cpp:20-44 | the same for a deletion: what all its attempts leave, and that a repetition counts nothing |
| RedisRemove.Redis.Scan | redis/redis.cpp:163-207 | the cursor moves on, or is reset by a reply of another form; the keys are those of the page that have a name |
| RedisRemove.Redis.DropEmptyNames | redis/redis.cpp:190-194 | the loop keeps the keys with a name, in order |
| RedisRemove.Redis.Remove | redis/redis.cpp:135-161 | no command for no keys; otherwise the count is of the keys removed, or zero if the deletion was carried out before its answer |
| RedisRemove.Redis.RemoveX | redis/redis.cpp:85-133 | every command is the one due: a scan goes on from the last page or, after a deletion that counted, from the beginning, and the named keys of a page are deleted; the loop ends within 1002 commands for each key removed and 1002 more, returning the sum of the counts when an iteration has ended; only named matching keys are ever removed; the result counts them if and only if no deletion was replayed; if only pages arrive, none is left; another reply is the last, and as the first leaves everything; an endless loop is reported only after 1001 fruitless replies; and no removal fails if every command has an attempt that is answered with only failed connections before it |
| RedisRemove.NotAPage | redis/redis.cpp:176-204 | a removal that returns zero and leaves a matching key |
| RedisRemove.AllRepeated | redis/redis.cpp:24-37 | a removal that returns zero and leaves no key |
| CurlMonitor.Socket.Wait | curl/tcpsocket.cpp:26-46 | one more wait is outstanding |
| CurlMonitor.Socket.Cancel | curl/tcpsocket.cpp:29-32 | cancelled waits end without running their handler, but for those that have been completed already |
| CurlMonitor.Service.Update | curl/service.cpp:140-196 | a wait is armed for exactly the directions that the new mask has and the previous lacks |
| CurlMonitor.Service.Add | curl/service.cpp:126-138 | a socket newly known to libcurl has a wait armed for each direction asked for |
| CurlMonitor.Service.Action | curl/service.cpp:79-124 | what each request does to its socket, and that it touches no other |
| CurlMonitor.Service.Close | curl/service.cpp:206-256 | the socket is no longer registered, and the result tells whether it was |
| CurlMonitor.Service.Open | curl/service.cpp:214-240 | a new socket is registered with an empty mask and no waits |
| CurlMonitor.RequestIsHeeded | curl/service.cpp:79-196 | a request sets its socket's mask, and arms a wait for each direction that libcurl did not have; a removal cancels; nothing else changes |
| CurlMonitor.OpenAndClose | curl/service.cpp:206-256 | a closed socket is not registered, an opened one is, without mask or waits, and no other changes |
| CurlMonitor.CallKeepsQuiet | curl/service.cpp:79-256 | any callback keeps covered what was covered, whichever wait is being handled |
| CurlMonitor.CallIsHeeded | curl/service.cpp:79-256 | after any callback registrations and masks are what libcurl asked for last |
| CurlMonitor.Service.Call | curl/service.cpp:79-256 | a callback has the effect specified, and no wake-up is lost |
| CurlMonitor.Service.Process | curl/multi.cpp:126-144 | the same for any sequence of callbacks made while an event is processed |
| CurlMonitor.Service.Rearm | curl/service.cpp:173-178 | the handler's own update has the effect specified |
| CurlMonitor.RearmIsQuiet | curl/service.cpp:173-178 | the handler's own update closes the gap that its wait has left |
| CurlMonitor.CompletionKeepsQuiet | curl/service.cpp:147-183 | no wake-up is lost over a completion, whatever masks libcurl changes, clears and sets inside it |
| CurlMonitor.QuietCompletion | curl/service.cpp:147-183 | without such changes exactly this wait is armed again, or none |
| CurlMonitor.RunIsHeeded | curl/service.cpp:79-256 | over every run a socket is registered if and only if it was opened and not closed since, and its mask is what libcurl asked for last |
| CurlMonitor.RunKeepsQuiet | curl/service.cpp:79-196 | in every state that a run can reach, a direction of a registered socket's mask lacks a wait if and only if its last one ended in an error |
| CurlMonitor.RunServesRequests | curl/service.cpp:79-256 | from a new service on, as long as no wait ends in an error, every direction that libcurl asked for last, of every socket it has open, has a wait |
| CurlMonitor.Service.WaitEnds | curl/tcpsocket.cpp:29-32 | a one-shot wait is used up; an error is remembered if no other wait is left |
| CurlMonitor.Service.OnWait | curl/service.cpp:147-183 | the handler has the effect specified, and no wake-up is lost over it |
| CurlMonitor.Service.Run | curl/service.cpp:79-196 | the event loop has the effect specified; no wake-up is lost; and a new service does what libcurl asked for last |
| CurlMonitor.ErrorEndsMonitoring | curl/service.cpp:155-178 | the exception for errors is needed |
| CurlMonitor.WaitsCanBeDoubled | curl/service.cpp:99-100 | a direction can have two waits |
| WriteQueue.StartKeeps | sockets/connection.cpp:59-81 | starting a send keeps the queue consistent, however many sends complete inline |
| WriteQueue.CompleteKeeps | sockets/connection.cpp:63-78 | so does a completion |
| WriteQueue.PostKeeps | sockets/connection.cpp:44-57 | so does a posted message |
| WriteQueue.AllRunsConsistent | sockets/connection.cpp:44-81 | in every interleaving at most one send is in flight, it is the queue's front, and completed messages and queue are what was posted, in order |
| WriteQueue.ErrorIsFinal | sockets/connection.cpp:74-77 | after the first error no further send starts |
| WriteQueue.InlineIsLater | sockets/connection.cpp:59-81 | sends that complete inline have the effect of sends that complete later |
| WriteQueue.InlinePostIsLater | sockets/connection.cpp:44-57 | the same for a post to an empty queue |
| WriteQueue.RunShows | sockets/connection.cpp:44-81 | the whole state after any run, from three numbers: what was posted is sent in order as far as sends have succeeded, the next is in flight, and after an error nothing is |
| WriteQueue.BaseConnection.constructor | sockets/connection.cpp:12-16 | a new connection has nothing queued or sent |
| WriteQueue.BaseConnection.Write | sockets/connection.cpp:44-57 | the posted step of the specification |
| WriteQueue.BaseConnection.WriteFront | sockets/connection.cpp:59-81 | the sending step of the specification |
| WriteQueue.BaseConnection.OnSent | sockets/connection.cpp:63-78 | the completion step of the specification |
| WriteQueue.BaseConnection.RunAll | sockets/connection.cpp:44-81 | every run of a connection leaves it as posts and results of sends determine |
| ConnectionPool.StepKeepsInv | scgi/pool.cpp:21-76 | every atomic step of every thread keeps the pool's invariant |
| ConnectionPool.LimitAndShutdown | scgi/pool.cpp:21-76 | in every interleaving live connections never exceed the limit, and a finished shutdown has closed every live connection registered when it took the lock |
| ConnectionPool.EndMakesRoom | scgi/pool.cpp:21-59 | while the pool is open its map holds exactly the live connections and those about to unregister, and a connection's end makes room for another |
| ConnectionPool.WalkSeesOneMap | scgi/pool.cpp:44-75 | nothing alters the map while the shutdown walks over it, not even a connection that dies in the walk |
| ConnectionPool.OnlyRacersRegister | scgi/pool.cpp:25-28 | after the flag is set, only threads that had read it before can still register |
| ConnectionPool.RacerEscapes | scgi/pool.cpp:21-42 | such a thread's connection can outlive the shutdown unclosed |
| ConnectionPool.OneEscapes | scgi/pool.cpp:21-76 | whenever such a thread can still find room, there is an interleaving in which its connection is never closed |
| ConnectionPool.RunStaysSealed | scgi/pool.cpp:25-42 | when no such thread can find room, none ever does |
| ConnectionPool.ShutdownClosesAll | scgi/pool.cpp:61-75 | a shutdown closes every live connection, in every interleaving, if and only if, when the flag is set, no thread is past the check of the flag or the map without the entries about to be erased is full |
| ConnectionPool.ConnectionPool.constructor | scgi/pool.cpp:9-14 | a new pool is open and empty |
| ConnectionPool.ConnectionPool.GetConnectionBegins | scgi/pool.cpp:25-26 | the check of the flag |
| ConnectionPool.ConnectionPool.GetConnection | scgi/pool.cpp:28-42 | a connection with a new id is registered if and only if the limit is not reached |
| ConnectionPool.ConnectionPool.FreeConnectionBegins | scgi/pool.cpp:44-47 | a dying connection unregisters only while the pool is open |
| ConnectionPool.ConnectionPool.FreeConnection | scgi/pool.cpp:49-59 | the entry is erased, and the result tells whether it was there |
| ConnectionPool.ConnectionPool.ShutdownBegins | scgi/pool.cpp:61-64 | exactly the first call goes on |
| ConnectionPool.ConnectionPool.Shutdown | scgi/pool.cpp:68-75 | the loop closes every live connection and leaves the map as it is |
| LiveCapture.StepKeepsInv | livecapture/grabber.cpp:58-77 | every atomic step keeps the grabber's invariant |
| LiveCapture.CountedAndLimited | livecapture/grabber.cpp:58-77 | in every interleaving `captures_` counts the servers opened and not yet destroyed, within the limit, and a shutdown returns only at zero |
| LiveCapture.LastServerLetsGo | livecapture/grabber.cpp:71-77 | no notification is lost: when the last server is gone the waiting shutdown is awake and will return |
| LiveCapture.GoneIsFinal | livecapture/grabber.cpp:119-125 | a shutdown that has returned stays at zero |
| LiveCapture.ServerLife | livecapture/grabber.cpp:46-82 | a server that is opened, connected, destroyed and reported leaves the grabber as it was |
| LiveCapture.RefusedOpen | livecapture/grabber.cpp:58-69 | a server that fails to start, or is one too many, changes nothing |
| LiveCapture.ShutdownCanReturn | livecapture/grabber.cpp:119-125 | from every state of a shutdown there is a way for it to return |
| LiveCapture.AfterRequest | livecapture/grabber.cpp:85-117 | what each capture has after a request, and that no entry is left whose sniffer is gone |
| LiveCapture.SharedWhileAlive | livecapture/grabber.cpp:85-117 | as long as a sniffer has an owner, every request for its capture is granted the same one |
| LiveCapture.LiveGrabber.OpenServer | livecapture/grabber.cpp:58-69 | the limit is checked and the server counted in one section; a server that fails to start is not counted |
| LiveCapture.LiveGrabber.OnTerminate | livecapture/grabber.cpp:71-77 | the counter goes down and the last one notifies |
| LiveCapture.LiveGrabber.LookAgain | livecapture/grabber.cpp:119-125 | the waiting loop is left exactly at zero |
| LiveCapture.LiveGrabber.Sniffer | livecapture/grabber.cpp:85-117 | a live sniffer is shared, otherwise the new one is registered; exactly the entries whose sniffer is gone are dropped |
| PercentCodec.Encode | curl/urilite.h:55-68 | the loop computes the encoding |
| PercentCodec.Decode | curl/urilite.h:70-87 | the loop, which skips two characters after a '%', computes the decoding of any text |
| PercentCodec.DecodeOne | curl/urilite.h:58-84 | the code of a character decodes to it and leaves the rest alone |
| PercentCodec.LeftAlone | curl/urilite.h:20-60 | a text is its own encoding if and only if all its characters are unreserved, as section 2.3 of RFC 3986 or, but for the asterisk, of RFC 2396 has them |
| PercentCodec.TripletIsRead | curl/urilite.h:76-82 | a percent triplet is read with its digits in upper or lower case |
| PercentCodec.MalformedIsRead | curl/urilite.h:76-82 | a triplet whose characters are no digits still takes up three, and gives the value of its first digit, or zero |
| PercentCodec.CutTripletIsRead | curl/urilite.h:76-82 | what a triplet cut short by the end of the text gives |
| PercentCodec.PlainIsRead | curl/urilite.h:70-86 | any other character is its own decoding, and '+' a space if the policy has it so |
| PercentCodec.RoundTrip | curl/urilite.h:52-88 | decoding undoes encoding, for every byte string and all four combinations of policies |
| PercentCodec.EncodeInjective | curl/urilite.h:55-68 | different strings have different encodings |
| PercentCodec.EncodeConcat | curl/urilite.h:55-68 | encoding distributes over concatenation |
| PercentCodec.EncodedIsCanonical | curl/urilite.h:55-68 | an encoding has only unreserved characters, percent triplets (section 2.1 of RFC 3986) and, in the one policy, '+' for a space |
| PercentCodec.ReverseRoundTrip | curl/urilite.h:52-88 | encoding undoes decoding if and only if the text is made of such codes |

## Left out

- libcurl, boost asio, redis3m, libpcap, PcapPlusPlus, snappy and the system's name resolution: each is an
  arbitrary function or script that supplies the results the modelled code sees.
- VoipReassembler.Reassembler.ParsePayload: a segment shorter than a block header that arrives where a
  header is expected is read past its end, which C++ leaves undefined; the bytes read there are an
  arbitrary parameter, and every theorem holds for all of them.
- IpPacket.IPPacket.Build: addresses are the bytes that `inet_pton` produces, or its failure, and the
  packet sequence number is a parameter; the text of addresses that the parsers report is their bytes.
- PercentCodec.Decode: the uninitialised variable behind a cut-off triplet is a parameter; a number that
  is no number extracts as zero, as the C++ standard has it since 2011.
- CurlMonitor.Service.Run: one thread runs the event loop, and the pointer that libcurl passes for a socket
  is that socket's object as long as it is registered; timers, transfers and the message queue are absent.
- WriteQueue.BaseConnection.OnSent: the number of bytes written is ignored, as in the code, so a send takes
  a whole message or fails.
- RedisRemove.Redis.RemoveX: no other client changes the keyspace meanwhile, and a command that is run again
  finds what its own earlier attempts left. A new connection is always found.
- LiveCapture.CountedAndLimited: the limit does not change over time, and connecting a server's
  termination signal does not fail. `shutdown` is private and called by the destructor only
  (livecapture/grabber.h:52, livecapture/grabber.cpp:18-23), so nothing can call `open` any more.
- CaptureFile.OStream.Write: a failing stream stores a prefix of what it is given and stays failed;
  times of creation and modification are not modelled.
- TCP reassembly in PcapPlusPlus: its output segments are the input here.
- Regular-expression matching of URLs and requests, JSON, configuration, factories, the thin Redis
  containers, logging and timers: plumbing, or one-branch claims.
- The unused packet stack and lock helpers under `pcap/parsers/voipmonitor`: only field order and sizes of
  the block and packet headers are used, with natural alignment (64, 34 and 58 bytes).
