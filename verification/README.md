# Device test tools: a verified model

A Dafny model of the parts of the Android device test tools that compute something: the
DHCP client of the wifi test, the WAV codec and stream loops of the sound kit, the touch
engine of the touch-screen test, and the HCI event reader of the Bluetooth test. The
targets are little-endian, and the model is too.

- `Bytes`, `Streams`: octets and words; descriptors with scheduled short reads and writes.
- `Checksum`, `Packet`, `PacketTheorems`: the Internet checksum, the raw datagrams, and
  what the receiver accepts, written against RFC 791, RFC 768 and RFC 1071.
- `Netmask`: prefix lengths and masks.
- `DhcpOptions`, `DhcpMessage`, `DhcpTheorems`: the option area (RFC 2132), the client's
  messages, and what both mean byte by byte.
- `DhcpClient`, `ClientTheorems`, `Handshake`: the negotiation, what every run keeps, and
  the exchange end to end.
- `Wav`, `WavHeader`: in-place sample conversion, RIFF heads.
- `StreamRuns`, `StreamTheorems`, `SoundKit`, `SoundKitTheorems`, `PackTheorems`: the stream
  loops as pure functions of input and schedules, the code that performs them, when they succeed, and
  what makewav, strip_wav, play and record then do.
- `ButtonList`, `Touch`, `TouchTest`, `TouchTheorems`, `TouchGrid`, `TouchRelease`: the
  linked list, the touch state machine and the code that performs it, the listener, the
  grid, and taps, releases and slides.
- `HciEvent`: event reassembly and the five-step pre-test.

The environment is a parameter: poll and read outcomes, packet buffers, schedules of
short reads and writes, input events and wake-ups are arbitrary sequences, and the
results hold for all of them. A loop that the environment could keep going forever runs
as long as its sequence lasts.

Where the code does not do what its messages or documentation say, the code is kept and
the difference is stated:

- The final DHCP timeout announces "offered parameters", but info is overwritten by every
  delivered message before it is checked. `RunFallsBack` says exactly when an offer to
  this client is configured, `StrayOfferConfigured` and `StrayAfterOffer` give the failing
  cases in both states, and `RequestAsksForLast` what the REQUESTs ask for meanwhile.
- receive_packet does not compare the UDP length with the IP length or the bytes read, and
  does not know the zero rule of RFC 768: `ReceiveMeaning`, `PayloadWasRead` and the
  witnesses `UnreadMessage` and `UncheckedMessage`.
- A 24-bit WAV recording is asked for in file bytes but read in device words, so its last
  read is too short to hold a sample: it never returns 0 (`RecordedLength`). A read that
  ends inside a word shifts all later samples (`PackedRecording`).
- `strip_wav` returns 0 after a read error (`StripCopies`, `ReadErrorHidden`). `play` drops
  the incomplete sample at the end of each read and aborts on reads of less than 9 bytes
  (`StreamExact`, `TransferSucceeds`, `FullReadsPlay`).
- Touching the same button twice in a row does not show it pressed the second time
  (`ShownPressedExactly`), and `insert_button` returns 0 when it inserts nothing.
- The checksum accumulator can wrap on buffers over 131072 bytes (`WrapLoss`).

## Model

| member | source | states |
|---|---|---|
| `Checksum.Checksum` | jz_pretest/test_wifi/libnetutils/packet.c:65-82 | for every buffer, odd tail and start sum, the two loops end and leave the folded value of the 32-bit wrapped total of little-endian words |
| `Checksum.CanonMeaning` | jz_pretest/test_wifi/libnetutils/packet.c:78-80 | the folded value is the one 16-bit number congruent to the total modulo 65535 that is 0 only for a total of 0 |
| `Checksum.FoldOnce` | jz_pretest/test_wifi/libnetutils/packet.c:78-80 | one turn of the folding loop keeps that value and makes the sum smaller |
| `Checksum.PadsWithZero` | jz_pretest/test_wifi/libnetutils/packet.c:71-77 | an odd last byte counts as if followed by a zero byte, in both byte orders (RFC 1071) |
| `Checksum.NoWrap` | jz_pretest/test_wifi/libnetutils/packet.c:65-82 | up to 131072 bytes on a folded start sum the accumulator does not wrap, so the result is that of the true total |
| `Checksum.WrapsBeyondLimit` | jz_pretest/test_wifi/libnetutils/packet.c:71-74 | the limit is tight: 131074 bytes of 0xff give a result not congruent to the true total |
| `Checksum.WrapLoss` | jz_pretest/test_wifi/libnetutils/packet.c:65-82 | on every input the result is congruent to the true total if and only if the number of wraps is a multiple of 65535 |
| `Checksum.Chaining` | jz_pretest/test_wifi/libnetutils/packet.c:118-130 | feeding one result into the next call sums the concatenation, if the first piece is even and nothing wraps |
| `Checksum.ByteOrderIndependence` | jz_pretest/test_wifi/libnetutils/packet.c:65-87 | section 2(B) of RFC 1071: on every buffer the little-endian result is the byte swap of the network-order sum |
| `Checksum.StoredChecksum` | jz_pretest/test_wifi/libnetutils/packet.c:84-87 | so the complement, stored natively, is byte for byte the network-order checksum |
| `Packet.BuildIpHeader` | jz_pretest/test_wifi/libnetutils/packet.c:100-111 | the struct stores and the checksum call leave the RFC 791 header with its RFC 1071 checksum |
| `Packet.SumUdp` | jz_pretest/test_wifi/libnetutils/packet.c:118-130 | the six chained calls sum the RFC 768 pseudo header, the UDP header and the data |
| `Packet.BuildUdpHeader` | jz_pretest/test_wifi/libnetutils/packet.c:113-131 | the UDP header carries the RFC 768 checksum over the pseudo header and data (without the zero rule of RFC 768) |
| `Packet.SendPacket` | jz_pretest/test_wifi/libnetutils/packet.c:89-154 | for every payload and address the bytes handed to sendmsg are exactly the RFC datagram |
| `PacketTheorems.EmittedBytes` | jz_pretest/test_wifi/libnetutils/packet.c:100-138 | every byte of an emitted datagram as a number: 0x45, type of service 0, lengths, id and fragment field 0, TTL 64, protocol 17, addresses, ports, data; the header sums to all ones and the UDP check field is the RFC 768 checksum |
| `Packet.ReceivePacket` | jz_pretest/test_wifi/libnetutils/packet.c:156-239 | in-place verification on any buffer: -1, or the message copied out and its size, as Receive says; the rest of the message buffer is untouched |
| `PacketTheorems.ScratchSum` | jz_pretest/test_wifi/libnetutils/packet.c:224-231 | the single sum over the overwritten IP header equals the sum over pseudo header, UDP header and data |
| `PacketTheorems.ReceiveExact` | jz_pretest/test_wifi/libnetutils/packet.c:179-238 | the verdict on every buffer from its bytes: passed if and only if at least 28 bytes were read, version 4 with a 20-byte header, protocol 17, port 68, IP length within the bytes read (any type of service, id, fragment field and TTL), IP header summing to all ones, and the UDP field equal to the checksum of what is covered; then UDP length - 8 bytes are copied out if between 0 and 1260 |
| `PacketTheorems.ReceiveMeaning` | jz_pretest/test_wifi/libnetutils/packet.c:179-238 | on every buffer the receiver differs from the RFCs (stated on the bytes: 20-byte IP header of any type of service and TTL, agreeing lengths, the RFC 791 checksum, the RFC 768 checksum with its zero rule, port 68, all bytes read) in exactly two ways: it passes packets whose IP and UDP lengths do not agree, and it rejects valid datagrams whose UDP check field is 0xffff, or 0 without that being the sum; a valid datagram that passes yields its exact data |
| `PacketTheorems.VerdictFromRead` | jz_pretest/test_wifi/libnetutils/packet.c:170-235 | whether a packet passes depends on the bytes read only |
| `PacketTheorems.PayloadWasRead` | jz_pretest/test_wifi/libnetutils/packet.c:220-238 | the message passed on is determined by the bytes read if and only if UDP length - 8 <= bytes read - 28 |
| `PacketTheorems.UnreadMessage` | jz_pretest/test_wifi/libnetutils/packet.c:188-237 | with IP length 28, 28 bytes read, valid checksums and UDP length 1268, any 1260 bytes that were never read are passed on |
| `PacketTheorems.UncheckedMessage` | jz_pretest/test_wifi/libnetutils/packet.c:223-237 | with IP length 0 and check field 0xffff the UDP checksum covers nothing, and again any 1260 bytes are passed on |
| `PacketTheorems.HeaderVerifies` | jz_pretest/test_wifi/libnetutils/packet.c:108-111 | a header sealed by the sender sums to all ones, which is what the receiver requires |
| `PacketTheorems.FramingRoundTrip` | jz_pretest/test_wifi/libnetutils/packet.c:89-238 | every datagram the sender can emit is received as its exact payload if it is for port 68 and at most 1260 bytes, and rejected otherwise |
| `PacketTheorems.SingleWordErrorDetected` | jz_pretest/test_wifi/libnetutils/packet.c:210-235 | replacing any one aligned word of an accepted packet (IP header whatever the lengths; UDP header and data when the IP length has room for them) by a non-congruent one gets it rejected |
| `PacketTheorems.DataWordErrorExact` | jz_pretest/test_wifi/libnetutils/packet.c:231-235 | for data words: rejected if and only if the new word is not congruent to the old one modulo 65535 |
| `Netmask.PrefixLengthToIpv4Netmask` | jz_pretest/test_wifi/libnetutils/ifc_utils.c:63-76 | the mask with that many leading ones in network order, 0 outside 1..32 |
| `Netmask.Ipv4NetmaskToPrefixLength` | jz_pretest/test_wifi/libnetutils/ifc_utils.c:78-87 | the shift loop ends and returns the number of leading ones of the host-order mask |
| `Netmask.ValidateNetmask` | jz_pretest/test_wifi/libnetutils/dhcp_utils.c:131-140 | accepts if and only if the mask is contiguous, and then its p is the prefix length the other function computes |
| `Netmask.PrefixRoundTrip` | jz_pretest/test_wifi/libnetutils/ifc_utils.c:63-87 | prefix to mask to prefix is the identity on 0..32 |
| `Netmask.MaskBytes` | jz_pretest/test_wifi/libnetutils/ifc_utils.c:63-76 | the mask as stored is 2^32 - 2^(32-p) in network order, so 24 gives 255, 255, 255, 0 |
| `Netmask.ContainedMasks` | jz_pretest/test_wifi/libnetutils/ifc_utils.c:78-87 | a contiguous mask of length q is contained bit by bit in a mask if and only if q is at most its prefix length |
| `Netmask.LargestContainedMask` | jz_pretest/test_wifi/libnetutils/ifc_utils.c:63-87 | mask to prefix to mask gives the largest contiguous mask contained in the input, and the input exactly when it is contiguous |
| `DhcpOptions.ApplyOption` | jz_pretest/test_wifi/libnetutils/dhcpclient.c:198-227 | the switch updates info by the option as the RFC 2132 value says, an empty message type taking the following byte |
| `DhcpOptions.DecodeDhcpMsg` | jz_pretest/test_wifi/libnetutils/dhcpclient.c:166-235 | on arbitrary bytes the decoder ends and its result depends on the message bytes alone; -1 exactly without a cookie |
| `DhcpOptions.CleanText` | jz_pretest/test_wifi/libnetutils/dhcpclient.c:284-298 | the text loops dot out unprintable characters up to the first NUL and close the field |
| `DhcpOptions.DumpDhcpMsg` | jz_pretest/test_wifi/libnetutils/dhcpclient.c:249-338 | the dump changes only the two text fields and visits the options of the walk |
| `DhcpOptions.WalkInBounds` | jz_pretest/test_wifi/libnetutils/dhcpclient.c:184-230 | every option found lies inside the message, its first value byte included |
| `DhcpOptions.DecoderFollowsWalk` | jz_pretest/test_wifi/libnetutils/dhcpclient.c:184-337 | on arbitrary bytes the decoder applies exactly the options the dumper visits, in order |
| `DhcpOptions.DumpPreservesDecode` | jz_pretest/test_wifi/libnetutils/dhcpclient.c:485-487 | dumping a reply first does not change what is decoded from it nor its first 44 bytes |
| `DhcpOptions.EncodingStands` | jz_pretest/test_wifi/libnetutils/dhcpclient.c:184-230 | an encoded option list stands in any message that contains it, whatever is before and after |
| `DhcpOptions.CodecDecodes` | jz_pretest/test_wifi/libnetutils/dhcpclient.c:184-230 | for every option list, pads anywhere, END and any trailing bytes, the decoder computes the left fold of the per-option updates |
| `DhcpOptions.CodecWalks` | jz_pretest/test_wifi/libnetutils/dhcpclient.c:307-337 | for the same lists the dumper visits exactly the options written, with their values |
| `DhcpTheorems.CarriedFields` | jz_pretest/test_wifi/libnetutils/dhcpclient.c:197-232 | field by field, from the bytes: decoding any message that carries an option list gives gateway, dns1 and serveraddr as the four bytes of the last option 3, 6, 54 of at least 4 bytes, dns2 as bytes 4 to 7 of the last option 6 of at least 8, lease as option 51 in network order, prefixLength as the leading ones of option 1, 0 where there is none, ipaddr as bytes 16 to 19 of the message, and the type as the first byte of the last option 53 |
| `DhcpTheorems.AnyFields` | jz_pretest/test_wifi/libnetutils/dhcpclient.c:166-235 | on arbitrary bytes with the cookie the same holds of the options that the dumper finds |
| `DhcpTheorems.FoldFields` | jz_pretest/test_wifi/libnetutils/dhcpclient.c:197-225 | each field depends only on the last long enough option with its code; options of other codes do not touch it |
| `DhcpTheorems.FoldType` | jz_pretest/test_wifi/libnetutils/dhcpclient.c:222-224 | the message type is the first byte of the last option 53, and for an empty one the byte that follows it |
| `DhcpTheorems.LastValueMeaning` | jz_pretest/test_wifi/libnetutils/dhcpclient.c:197-225 | what is meant by the last option with a code and a least length |
| `DhcpTheorems.CookieExact` | jz_pretest/test_wifi/libnetutils/dhcpclient.c:173-180 | a message decodes only if it has the bytes 99, 130, 83, 99 at 236; otherwise info is all zero |
| `DhcpTheorems.CutCodecWalks` | jz_pretest/test_wifi/libnetutils/dhcpclient.c:184-230 | a list written without END and cut off by the end of the message, even inside the next option, still yields exactly the options that are there in full |
| `DhcpTheorems.EmptyLastUnseen` | jz_pretest/test_wifi/libnetutils/dhcpclient.c:184-194 | with the one exception that an empty option in the last two bytes is not seen |
| `DhcpTheorems.CleanedText` | jz_pretest/test_wifi/libnetutils/dhcpclient.c:284-298 | up to the first NUL printable characters stay and others become dots, after it nothing changes, and the last byte becomes NUL |
| `DhcpTheorems.DumpedFields` | jz_pretest/test_wifi/libnetutils/dhcpclient.c:258-298 | the fields cleaned are bytes 44 to 107 and 108 to 235, of messages of at least 236 bytes |
| `DhcpMessage.InitDhcpMsg` | jz_pretest/test_wifi/libnetutils/dhcpmsg.c:24-53 | fixed part, cookie and message type of section 2 of RFC 2131, and where the next option goes |
| `DhcpMessage.InitDhcpDiscoverMsg` | jz_pretest/test_wifi/libnetutils/dhcpmsg.c:55-71 | the message is the encoding of the DISCOVER option list; size 250 |
| `DhcpMessage.InitDhcpRequestMsg` | jz_pretest/test_wifi/libnetutils/dhcpmsg.c:73-100 | the message is the encoding of the REQUEST option list; size 262 |
| `DhcpMessage.DiscoverIs` | jz_pretest/test_wifi/libnetutils/dhcpmsg.c:24-71 | every byte of the DISCOVER: op 1, htype 1, hlen 6, xid, broadcast flag 0x8000, chaddr, zeros, cookie, type 1 and the request for options 1, 3, 6, 28 |
| `DhcpMessage.RequestIs` | jz_pretest/test_wifi/libnetutils/dhcpmsg.c:24-100 | every byte of the REQUEST: the same with type 3, the requested address and the server identifier |
| `DhcpMessage.DecodeCarried` | jz_pretest/test_wifi/libnetutils/dhcpclient.c:166-235 | decoding any message that carries an option list gives the list's meaning plus yiaddr |
| `DhcpMessage.DiscoverDecodes` | jz_pretest/test_wifi/libnetutils/dhcpmsg.c:55-71 | decoding a built DISCOVER recovers its type and nothing else |
| `DhcpMessage.RequestDecodes` | jz_pretest/test_wifi/libnetutils/dhcpmsg.c:73-100 | decoding a built REQUEST recovers its type and the server identifier, for every hwaddr, xid, ip and server |
| `DhcpClient.SendMessage` | jz_pretest/test_wifi/libnetutils/dhcpclient.c:342-349 | the message is dumped and put on the wire from 0.0.0.0:68 to 255.255.255.255:67 |
| `DhcpClient.ReceiveAndDecode` | jz_pretest/test_wifi/libnetutils/dhcpclient.c:472-487 | receive, dump and decode in a row yield the decoding of the received payload, and the reply check is unaffected by the dump |
| `DhcpClient.TransmitFor` | jz_pretest/test_wifi/libnetutils/dhcpclient.c:441-462 | the transmit label builds and sends the message of the current state |
| `DhcpClient.HandleTimeout` | jz_pretest/test_wifi/libnetutils/dhcpclient.c:425-439 | backoff, final timeout and fallback |
| `DhcpClient.HandleReply` | jz_pretest/test_wifi/libnetutils/dhcpclient.c:489-524 | reply check and state switch |
| `DhcpClient.DhcpInitIfc` | jz_pretest/test_wifi/libnetutils/dhcpclient.c:387-528 | over every sequence of poll and read outcomes the call performs the run of the state machine: same ending, same messages and datagrams |
| `ClientTheorems.NegotiationBudget` | jz_pretest/test_wifi/libnetutils/dhcpclient.c:381-463 | over every run: timeout in {4000, 8000, 16000, 32000}, 1 to 4 DISCOVERs, at most 4 REQUESTs, at most 7 poll timeouts, only own messages with the two transaction ids |
| `ClientTheorems.StepSpendsBudget` | jz_pretest/test_wifi/libnetutils/dhcpclient.c:414-524 | a measure over state and backoff level drops at every timeout or state change that does not end the run, with one message sent; any other turn changes only info; Requesting is never left |
| `ClientTheorems.CheckedAgainstLastSent` | jz_pretest/test_wifi/libnetutils/dhcpclient.c:489-493 | at every point of every run the message compared with is the last one sent, and the check passes exactly for replies to its transaction, type, length and address |
| `ClientTheorems.TurnEndsExactly` | jz_pretest/test_wifi/libnetutils/dhcpclient.c:425-485 | a turn fails if and only if poll fails or read fails for good, is undefined if and only if the receive is, and gives up if and only if the longest timeout passes without an OFFER in info |
| `ClientTheorems.IdleRemoved` | jz_pretest/test_wifi/libnetutils/dhcpclient.c:465-485 | interrupted polls, repeatable read failures and rejected packets, anywhere in a run and in any number, change nothing of its state, log or outcome |
| `ClientTheorems.RunFailsExactly` | jz_pretest/test_wifi/libnetutils/dhcpclient.c:465-482 | a run has failed (or been undefined) if and only if such an event met it while it was running |
| `ClientTheorems.EndsByReplyExactly` | jz_pretest/test_wifi/libnetutils/dhcpclient.c:499-524 | a turn ends by ACK or NAK if and only if the client is requesting and such a reply to the REQUEST's transaction is delivered; an ACK configures that message's decoding |
| `ClientTheorems.StaleReplyIgnored` | jz_pretest/test_wifi/libnetutils/dhcpclient.c:494-497 | while requesting, a message with the DISCOVER's transaction id changes only the scratch info |
| `ClientTheorems.RunEndsByAck` | jz_pretest/test_wifi/libnetutils/dhcpclient.c:510-514 | every run that ends by ACK had sent a REQUEST and configured the decoding of an ACK that answers it |
| `ClientTheorems.InfoProvenance` | jz_pretest/test_wifi/libnetutils/dhcpclient.c:487-497 | throughout every run info is the decoding of the last delivered message, valid or not; while selecting that was never a valid OFFER |
| `ClientTheorems.RunFallsBack` | jz_pretest/test_wifi/libnetutils/dhcpclient.c:429-434 | every run that falls back configures the last message k delivered before the final timeout, and k is an OFFER to this client if and only if the run had left Selecting and k answers the DISCOVER |
| `ClientTheorems.RequestingAfterOffer` | jz_pretest/test_wifi/libnetutils/dhcpclient.c:499-509 | every run in Requesting got there by a turn that accepted a delivered OFFER answering its DISCOVER |
| `ClientTheorems.SilenceAfterOffer` | jz_pretest/test_wifi/libnetutils/dhcpclient.c:429-509 | if nothing is delivered after the accepted OFFER, a fallback configures exactly its decoding |
| `ClientTheorems.RequestAsksForLast` | jz_pretest/test_wifi/libnetutils/dhcpclient.c:439-451 | every REQUEST of a run, retransmissions included, carries ipaddr and serveraddr of the decoding of the last message delivered before it was sent |
| `Handshake.HandshakeWithLosses` | jz_pretest/test_wifi/libnetutils/dhcpclient.c:414-528 | end to end over codec, datagrams and checks, with any interrupted polls, repeatable failures and foreign packets interleaved: with a and b timeouts before OFFER and ACK the ACK is configured if and only if a and b are at most 3; otherwise the client times out or falls back on the OFFER |
| `Handshake.SentOnWire` | jz_pretest/test_wifi/libnetutils/dhcpclient.c:342-349 | every message of every run goes out whole from 0.0.0.0 port 68 to 255.255.255.255 port 67 with valid checksums |
| `Handshake.StrayOfferConfigured` | jz_pretest/test_wifi/libnetutils/dhcpclient.c:431-433 | the announced "offered parameters" may be no offer to this client: any OFFER that is not a reply to the DISCOVER, followed by silence, is configured while selecting |
| `Handshake.StrayAfterOffer` | jz_pretest/test_wifi/libnetutils/dhcpclient.c:429-487 | and while requesting: after a genuine OFFER, any delivered OFFER followed by silence is what the retransmitted REQUEST asks for and what is configured |
| `Wav.WavExpand24bitTo32bit` | jz_pretest/test_speaker/sndkit_only_replay/wav.c:144-194 | in-place widening of every buffer of three or more samples gives the widening of the old bytes, rounding included; bytes beyond are untouched; the closing assertions hold |
| `Wav.Wav32bitTo24bit` | jz_pretest/test_speaker/sndkit_only_replay/wav.c:196-210 | in-place narrowing of every length gives the narrowing of the old bytes; bytes beyond are untouched |
| `Wav.WidenAt` | jz_pretest/test_speaker/sndkit_only_replay/wav.c:162-187 | byte 4k+i of the widening is byte 3k+i of the source for i below 3, byte 4k+3 is 0 |
| `Wav.NarrowAt` | jz_pretest/test_speaker/sndkit_only_replay/wav.c:202-209 | byte 3k+i of the narrowing is byte 4k+i of the source |
| `Wav.NarrowAfterWiden` | jz_pretest/test_speaker/sndkit_only_replay/wav.c:144-210 | narrowing after widening is the identity |
| `Wav.WidenAfterNarrow` | jz_pretest/test_speaker/sndkit_only_replay/wav.c:144-210 | widening after narrowing is the identity if and only if every fourth byte was 0 |
| `WavHeader.InitWavHeader` | jz_pretest/test_speaker/sndkit_only_replay/wav.c:6-56 | the 44 bytes are the RIFF head of these fields, with the unsigned and 16-bit truncations of the stores |
| `WavHeader.WrittenFields` | jz_pretest/test_speaker/sndkit_only_replay/wav.c:6-56 | the 44 bytes as numbers: RIFF length data length + 36, format length 16, tag 1, block align channels * bits / 8, byte rate rate * block align, all modulo their field widths |
| `WavHeader.ParseWavHeader` | jz_pretest/test_speaker/sndkit_only_replay/wav.c:58-142 | the parser as a function of the buffer, with every comparison and length check in source order |
| `WavHeader.HeadParses` | jz_pretest/test_speaker/sndkit_only_replay/wav.c:58-142 | every head with or without a JUNK chunk, extra format bytes and a 12-byte fact chunk parses to its fields and its length |
| `WavHeader.ParseExact` | jz_pretest/test_speaker/sndkit_only_replay/wav.c:58-142 | the converse too: the parser accepts a buffer if and only if tags and lengths lead from RIFF over JUNK, format and fact chunk to a data chunk inside it, lengths taken modulo 2^32 and format lengths below 16 included, and returns the fields found there |
| `WavHeader.WrittenHeaderParses` | jz_pretest/test_speaker/sndkit_only_replay/wav.c:6-142 | parsing what was written returns the same rate, length, channels and bits (the last two cut to 16 bits) and head length 44 |
| `WavHeader.ParseMonotone` | jz_pretest/test_speaker/sndkit_only_replay/sndkit.c:670-677 | a verdict reached inside a buffer does not depend on the bytes after it |
| `Streams.WriteAll` | jz_pretest/test_speaker/sndkit_only_replay/sndkit.c:382-392 | for every schedule of short writes and errors the bytes out, the result and the schedule left are those of the pure run; on success all bytes arrive in order |
| `Streams.WriteFailsExactly` | jz_pretest/test_speaker/sndkit_only_replay/sndkit.c:382-392 | it fails if and only if one of its calls was an error, and if and only if an error is scheduled before calls that can move all the bytes |
| `Streams.WrittenOnFailure` | jz_pretest/test_speaker/sndkit_only_replay/sndkit.c:382-392 | and then exactly what the calls before the error moved is out |
| `StreamRuns.TransferErrors` | jz_pretest/test_speaker/sndkit_only_replay/sndkit.c:360-398 | a stream loop ends by a failed read or write if and only if one of the calls it made was one |
| `StreamRuns.TransferExact` | jz_pretest/test_speaker/sndkit_only_replay/sndkit.c:360-398 | how a loop ends, what it has written and how many bytes of it, for every input and all schedules: its reads rendered and written one by one up to the first that is too short to be widened |
| `StreamRuns.ReadsReachGoal` | jz_pretest/test_speaker/sndkit_only_replay/sndkit.c:360-374 | a loop reads up to its limit or the end of its input if and only if no error or empty read is scheduled before that |
| `StreamRuns.ReadsStopAtLimit` | jz_pretest/test_speaker/sndkit_only_replay/sndkit.c:360-374 | a loop with a limit reads less than a buffer past it |
| `StreamTheorems.ChunkingExact` | jz_pretest/test_speaker/sndkit_only_replay/sndkit.c:360-393 | for reads of at least three samples, the device stream is the widening of the file for all contents if and only if every read but the last holds whole samples |
| `StreamTheorems.SplitReads` | jz_pretest/test_speaker/sndkit_only_replay/sndkit.c:376-380 | for every list of reads that splits a sample, contents on which the stream differs |
| `StreamTheorems.StreamExact` | jz_pretest/test_speaker/sndkit_only_replay/sndkit.c:322-398 | the same for the loop of play under any schedules without errors |
| `StreamTheorems.TransferSucceeds` | jz_pretest/test_speaker/sndkit_only_replay/sndkit.c:360-398 | without errors a loop finishes with all its reads rendered; it aborts if and only if it widens and some read is shorter than 9 bytes |
| `StreamTheorems.FullReadsPlay` | jz_pretest/test_speaker/sndkit_only_replay/sndkit.c:341-398 | with full reads of whole samples the device gets the widening of all there is to play, unless the last read is shorter than 9 bytes, in which case play aborts |
| `SoundKit.Play` | jz_pretest/test_speaker/sndkit_only_replay/sndkit.c:322-398 | for every input and all schedules play ends, reads and writes as the pure run of its loop does; all accesses are inside the allocation |
| `SoundKit.CopyBlocks` | jz_pretest/test_speaker/sndkit_only_replay/sndkit.c:592-621 | the block loop of makewav and strip_wav is the plain run with 4096-byte reads |
| `SoundKit.MakeWav` | jz_pretest/test_speaker/sndkit_only_replay/sndkit.c:516-626 | for all schedules the result, the file and the raw position are those of the pure run: header, then the copying loop; 0 exactly when it finishes |
| `SoundKitTheorems.MakeFailsExactly` | jz_pretest/test_speaker/sndkit_only_replay/sndkit.c:576-625 | makewav returns -1 if and only if one of its reads or writes failed; otherwise the file is the header and the bytes read; whatever fails, the file is as much of that as the writes got out |
| `SoundKitTheorems.MakeSucceeds` | jz_pretest/test_speaker/sndkit_only_replay/sndkit.c:575-625 | without errors it returns 0 and the file is the header for the raw length followed by the whole raw file |
| `SoundKit.StripWav` | jz_pretest/test_speaker/sndkit_only_replay/sndkit.c:628-720 | for all schedules the result, the copy and the position are those of the pure run: first read, parse, seek, copying loop |
| `SoundKitTheorems.StripFailsExactly` | jz_pretest/test_speaker/sndkit_only_replay/sndkit.c:669-719 | strip_wav returns -1 if and only if the first read is not 256 bytes, the parser refuses them or gives length 0, or a write failed |
| `SoundKitTheorems.StripCopies` | jz_pretest/test_speaker/sndkit_only_replay/sndkit.c:688-719 | once the header is accepted and no write fails it returns 0, and the copy is complete if and only if no error or empty read is scheduled before its end |
| `SoundKitTheorems.ReadErrorHidden` | jz_pretest/test_speaker/sndkit_only_replay/sndkit.c:692-696 | a read error right after the header: 0 is returned with nothing copied |
| `SoundKitTheorems.StripMade` | jz_pretest/test_speaker/sndkit_only_replay/sndkit.c:516-720 | on the file makewav writes, strip_wav returns 0 if and only if there are at least 212 raw bytes and the first read is full, and then restores the raw bytes if and only if no error or empty read is scheduled before their end |
| `SoundKitTheorems.MakeStripRoundTrip` | jz_pretest/test_speaker/sndkit_only_replay/sndkit.c:516-720 | for every raw file in int range and all schedules without errors makewav returns 0, and strip_wav of its output returns 0 with exactly the raw bytes if there are at least 212 of them, -1 with nothing otherwise |
| `SoundKitTheorems.MakeThenStrip` | jz_pretest/test_speaker/sndkit_only_replay/sndkit.c:516-720 | the two programs run one after the other do that |
| `SoundKit.Record` | jz_pretest/test_speaker/sndkit_only_replay/sndkit.c:408-505 | for all schedules record ends, reads and writes as its pure run does |
| `SoundKitTheorems.RecordFailsExactly` | jz_pretest/test_speaker/sndkit_only_replay/sndkit.c:459-504 | record fails if and only if one of its reads or writes failed |
| `SoundKitTheorems.RecordedLength` | jz_pretest/test_speaker/sndkit_only_replay/sndkit.c:455-504 | on return 0 exactly record_len bytes were written, before that fewer; a 24-bit WAV recording never returns 0 |
| `SoundKitTheorems.RecordExact` | jz_pretest/test_speaker/sndkit_only_replay/sndkit.c:459-504 | without errors a plain recording is the front of the device stream and completes if and only if the reads offered and the stream are long enough |
| `SoundKitTheorems.RecordFront` | jz_pretest/test_speaker/sndkit_only_replay/sndkit.c:459-504 | whatever fails, a plain recording is the front of what was read, all of it unless a write failed |
| `PackTheorems.PackExact` | jz_pretest/test_speaker/sndkit_only_replay/sndkit.c:459-504 | whatever fails, a 24-bit recording is, read by read, the low three bytes of the words delivered, all of them unless a write failed |
| `PackTheorems.PackedRecording` | jz_pretest/test_speaker/sndkit_only_replay/sndkit.c:459-499 | for given schedules without errors, byte 3k+i of a 24-bit recording is byte 4k+i of the device stream for all contents if and only if only whole words are read before the last read that gives a sample |
| `PackTheorems.SplitWords` | jz_pretest/test_speaker/sndkit_only_replay/sndkit.c:474-477 | for every list of reads that splits a word, contents on which the recording differs |
| `PackTheorems.PackedWav` | jz_pretest/test_speaker/sndkit_only_replay/sndkit.c:1038-1103 | the same after the header that main writes |
| `SoundKit.RecordWav` | jz_pretest/test_speaker/sndkit_only_replay/sndkit.c:1038-1103 | header and recording in a row are the pure run of both |
| `SoundKitTheorems.RecordedWav` | jz_pretest/test_speaker/sndkit_only_replay/sndkit.c:1038-1103 | as long as nothing fails the file parses to the announced length, which is the number of bytes after the header if and only if the recording has completed; in 24-bit mode the header always claims more |
| `ButtonList.List.Add` | jz_pretest/test_keyboard/list.c:73-91 | appending at the end of the linked nodes appends to the list of buttons |
| `ButtonList.List.Insert` | jz_pretest/test_keyboard/list.c:30-50 | inserts a fresh node for positions 1 to the length, changes nothing otherwise, and returns 0 either way |
| `ButtonList.List.Delete` | jz_pretest/test_keyboard/list.c:113-130 | removes at positions 1 to length - 1, else -1; the head node is never removed |
| `ButtonList.List.Length` | jz_pretest/test_keyboard/list.c:19-28 | does not count the head node |
| `ButtonList.InsertThenDelete` | jz_pretest/test_keyboard/list.c:30-130 | insert_button and then delete_list at the same position restores the list, nodes included, at every position |
| `Touch.Widget.FindByPosition` | jz_pretest/test_keyboard/widget.c:428-440 | the first listed button that strictly contains the position |
| `Touch.Widget.FindById` | jz_pretest/test_keyboard/widget.c:442-453 | the first listed button with the id |
| `Touch.Widget.KeepTouch` | jz_pretest/test_keyboard/widget.c:464-511 | the switch case refines its state-machine step on the heap buttons |
| `Touch.Widget.Turn` | jz_pretest/test_keyboard/widget.c:459-529 | get_touch and the whole switch refine one step of the state machine |
| `TouchTheorems.AtMostOnePressed` | jz_pretest/test_keyboard/widget.c:455-532 | over every event sequence a pressed button is the one the touch record names, so at most one is; the record names 0 or a listed button; nothing but state, mode and result ever changes |
| `TouchTheorems.ShownPressedExactly` | jz_pretest/test_keyboard/widget.c:481-507 | a touch inside a button shows it pressed if and only if it was so already or is not the button last touched |
| `TouchRelease.TouchFollows` | jz_pretest/test_keyboard/widget.c:389-416 | over every event sequence the recorded position is that of the last x and y events (mirrored when rotated, modulo 2^32), and of the reports since the last position event the first is a touch, the second a release, the third neither |
| `TouchRelease.OthersIgnored` | jz_pretest/test_keyboard/widget.c:389-416 | events of other kinds change nothing |
| `TouchRelease.ReleaseReports` | jz_pretest/test_keyboard/widget.c:512-524 | a release returns the id in the touch record and leaves no button pressed |
| `TouchRelease.PressRelease` | jz_pretest/test_keyboard/widget.c:464-524 | from any state, press and release inside one button, fastTouch or not, gives exactly that button its result; unless the press itself ended the listening the release reports its id and leaves no button pressed |
| `TouchRelease.SlideOff` | jz_pretest/test_keyboard/widget.c:466-480 | sliding off all buttons releases the last one, and the release that follows reports 0 and changes no result |
| `TouchRelease.PressesComplete` | jz_pretest/test_keyboard/widget.c:611-638 | for buttons of any kind, presses in any order end the listening if and only if every button was pressed; until then exactly the pressed ones have results |
| `TouchTheorems.ReportedWasTouched` | jz_pretest/test_keyboard/widget.c:455-640 | over every event sequence the recorded id and every button with a result were touched strictly inside the rectangle earlier |
| `TouchTheorems.EndsExactlyWhenAllTouched` | jz_pretest/test_keyboard/widget.c:611-638 | over every event sequence listening has ended if and only if every button has a result |
| `TouchTest.CatchActionForButton` | jz_pretest/test_keyboard/widget.c:455-532 | reads events until an id is to be reported or the queue is dry; reporting that id amounts to listening to the events consumed |
| `TouchTest.CheckBt` | jz_pretest/test_touchscreen/test_touchbutton.c:31-44 | the scan puts this button in exit mode exactly when no result is missing |
| `TouchTest.ReportButton` | jz_pretest/test_keyboard/widget.c:619-633 | records the result, calls check_bt, and decides on the return |
| `TouchTest.StartListen` | jz_pretest/test_keyboard/widget.c:611-638 | however events are batched into wake-ups, the outcome is that of listening to the events consumed, none lost or reordered |
| `TouchTest.ArrivalsInOrder` | jz_pretest/test_keyboard/widget.c:611-636 | what arrives is what the wake-ups of the touch panel bring, in order; keyboard wake-ups and failed waits bring nothing |
| `TouchGrid.BuildGrid` | jz_pretest/test_touchscreen/test_touchbutton.c:61-74 | the nested loops list 25 distinct buttons, cell by cell |
| `TouchGrid.CellsDisjoint` | jz_pretest/test_touchscreen/test_touchbutton.c:61-65 | a position is strictly inside at most one cell |
| `TouchGrid.HitsCell` | jz_pretest/test_touchscreen/test_touchbutton.c:61-65 | a position hits cell k if and only if its quotients by width and height are the column and row of k and neither remainder is 0 |
| `TouchGrid.HitsSomeCell` | jz_pretest/test_touchscreen/test_touchbutton.c:48-74 | the positions that hit any cell are exactly those inside five widths and heights that lie on no grid line |
| `TouchGrid.TapReported` | jz_pretest/test_keyboard/widget.c:481-511 | in any state a tap on a cell is reported as that cell, rotated screen or not |
| `TouchRelease.GridTapId` | jz_pretest/test_touchscreen/test_touchbutton.c:61-74 | the id reported for a tap at x, y on the grid is 5 * (y / height) + x / width + 1 |
| `TouchGrid.TapsComplete` | jz_pretest/test_keyboard/widget.c:611-638 | for any order and repetition of taps, listening ends if and only if every button was tapped; until then exactly the tapped ones have results |
| `TouchGrid.GridTest` | jz_pretest/test_touchscreen/test_touchbutton.c:61-76 | on the grid as built, listening to taps ends if and only if they cover all 25 cells |
| `TouchGrid.TestTouchScreen` | jz_pretest/test_touchscreen/test_touchbutton.c:46-78 | the whole program on any wake-ups: it exits only if listening to all that arrived ends with every button touched; otherwise listening to all but what is still queued has not ended |
| `HciEvent.ReadExactly` | jz_pretest/test_bluetooth/test_bluetooth.c:599-602 | either read loop stores exactly the bytes asked for, in order, for any chunking |
| `HciEvent.ReadEvent` | jz_pretest/test_bluetooth/test_bluetooth.c:592-619 | consumes exactly 3 + byte[2] bytes, stores them in order and returns that count, for any chunking |
| `HciEvent.ReadNext` | jz_pretest/test_bluetooth/test_bluetooth.c:592-619 | read_event takes the first event of the line as split by its length bytes and leaves the rest, so repeating it splits the line |
| `HciEvent.SplitConcat` | jz_pretest/test_bluetooth/test_bluetooth.c:592-619 | that split recovers every concatenation of events, whatever incomplete event follows |
| `HciEvent.ProcCommand` | jz_pretest/test_bluetooth/test_bluetooth.c:640-660 | passes exactly on the expected event, and the line then stands before the next one |
| `HciEvent.ProcReadBdAddr` | jz_pretest/test_bluetooth/test_bluetooth.c:723-737 | passes exactly on a 13-byte event with status 0 |
| `HciEvent.Pretest` | jz_pretest/test_bluetooth/test_bluetooth.c:894-913 | main's exit code depends on the first five events only, not on the chunking |
| `HciEvent.ExitCodeMeaning` | jz_pretest/test_bluetooth/test_bluetooth.c:894-913 | 0 if and only if all five answers are the expected ones; otherwise the code names the first that is not |
| `HciEvent.PretestCodes` | jz_pretest/test_bluetooth/test_bluetooth.c:894-913 | with the five answers spelled out: 0 if and only if they come in this order, otherwise 3 to 7 for the first that does not |

## Left out

- Sockets, ioctl, netlink, properties, epoll set-up, opening and closing of files and the
  parsing of /proc: only their outcomes appear, as parameters.
- The calls of dhcp_init_ifc before its loop (hardware address, interface index, raw
  socket) and the effect of ifc_configure: a run starts at the first transmit and ends
  with the info passed to dhcp_configure.
- Packet.ReceivePacket: where the UDP length asks memcpy for a size outside the message
  buffer the C is undefined; the model stops with OutOfBounds there.
- PacketTheorems.FramingRoundTrip: payloads end at 65507 bytes, the largest a UDP datagram
  can have; the client's own sends go to port 67 and are not meant for its receiver.
- DhcpOptions.DumpDhcpMsg: the formatted log text is left out, the visited options stay.
- DhcpClient.SendMessage: a failed sendmsg, which the source only logs, is not modelled; the
  frames are those handed to it.
- Wall-clock termination of the negotiation: ignored packets restart the poll, so only
  timeouts and transmissions are bounded.
- Wav.WavExpand24bitTo32bit: requires three samples; with fewer the closing assertions of
  the source fail, which play reports as Aborted.
- WavHeader.ParseWavHeader: chunk lengths that lead outside the buffer give OutOfBounds.
- SoundKit.StripWav: requires that the parser stays inside the 256 bytes read for it; beyond
  them it reads what happened to be in the block buffer.
- SoundKit.MakeWav: the size reported by stat is a parameter; files of 2 GiB and more do
  not fit its int and are not modelled.
- SoundKit.Record: stops with Unfinished when the schedule of reads ends, where the source
  would go on; bits * channels * speed / 8 * duration is a parameter, assumed not to
  overflow; 24-bit mode assumes a buffer size that is a multiple of 4 (the default is).
- Int overflow of the remaining-length counters of the sound kit on streams over 2 GiB.
- Threads, device configuration and volume of the sound kit, and its option parsing.
- Drawing, mutexes and the keyboard of the widget library; a keyboard wake-up changes no
  button. Buttons start released, which the source leaves to malloc.
- TouchTest.StartListen: every button's callback is check_bt, as in the touch-screen test;
  other programs' callbacks are not modelled.
- HciEvent.ReadEvent: assumes reads that do not fail and a line on which the event's bytes
  arrive; the resend timer of proc_reset is left out.
- The remaining Bluetooth commands, firmware download and baud rates, and the sensor, GPS,
  microphone and display programs: they only move bytes or compare constants.
