# pcap-test: a verified model of the frame decoder and the capture loop

pcap-test captures frames from a network interface with libpcap. For each
Ethernet frame that carries IPv4 and TCP it prints the source and
destination MAC addresses, the two IPv4 addresses in dotted decimal, the two
TCP ports, and up to ten payload octets.

This project models two parts of `main`:

- the per-frame decoder, which goes Ethernet, then IPv4, then TCP;
- the loop that pulls results from `pcap_next_ex`.

The model returns structured outcomes instead of printed text.

- `bytes.dfy` (module `Bytes`): octets and 16/32-bit words. `ntohs` and
  `ntohl` become explicit big-endian loads (`Be16`, `Be32`). The C
  mask-and-shift `(x & (0xff << s)) >> s` becomes `MaskShift`.
- `headers.dfy` (module `Headers`): the three header structs as byte
  offsets, with one reader per field the program uses. The bitfields are
  modelled for the little-endian configuration that is compiled: `ip_hl` is
  the low nibble of byte 14 and `th_off` is the high nibble of byte 46.
- `decoder.dfy` (module `Decoder`): the outcome types and the
  specification function `Decode`. `CopyPreview` is the payload loop and
  `DecodeFrame` is the decode block, both imperative and both proved equal
  to the specification. Lemmas state the skip rules, the field origins and
  the shape of the preview.
- `capture.dfy` (module `Capture`): the loop over a finite sequence of
  `pcap_next_ex` results. `Run` is its specification and `CaptureLoop` is
  the `while` loop proved against it. Lemmas cover timeouts, termination and
  order.

Three features of the code are kept exactly as written:

- The TCP header is always read at offset 34, which is 14 plus
  `sizeof(struct libnet_ipv4_hdr)`. `ip_hl` does not move it. The payload
  offset, by contrast, does use `ip_hl * 4`. So with IPv4 options present,
  the "ports" are taken from the options word
  (`Decoder.IpOptionsShiftPayloadNotPorts`).
- `th_off` is likewise always read from byte 46, the high nibble of byte
  12 of the header at the fixed offset 34. The real TCP header begins at
  `14 + 4*ip_hl`, so for `ip_hl` from 6 to 8 byte 46 is byte
  `32 - 4*ip_hl` of the real TCP header: byte 8 (acknowledgement number)
  when `ip_hl` is 6, byte 4 (sequence number) when it is 7, and byte 0
  (source port) when it is 8. For `ip_hl` of 9 or more, byte 46 lies
  inside the IPv4 options. In each case the payload offset adds the extra
  IPv4 words but takes the TCP header length from the wrong nibble.
- `ip_hl` and `th_off` are not checked against 5. A smaller value simply
  gives a smaller payload offset, at least 14.

The program reads header fields without checking the captured length. The
model adds a guard that returns `TooShort(needed)`. This guard is the
model's addition, and it fires only where the program would read past the
buffer: fewer than 14 bytes before `ether_type` is read, fewer than 24
before `ip_p`, and fewer than 47 (`th_off` is byte 46) before the
address, port and length reads of a TCP record.
`Decoder.TooShortExactly` states this.

By section 3.1 of RFC 791 the IPv4 header is IHL*4 bytes long, and IHL is
at least 5. So under Ethernet II framing the TCP header begins at offset
`14 + ip_hl*4`. The code reads it at 34 and never checks IHL; the model
follows the code.

A frame whose IPv4 protocol is not TCP gives `NotTcp` with the two MAC
addresses, because the program prints those before it tests `ip_p`.

## Model

| member | source | states |
|---|---|---|
| `Bytes.Be16RoundTrip` | main.c:188-189 | a 16-bit value stored in network byte order reads back unchanged through the `ntohs` model (so port 80 decodes as 80) |
| `Bytes.Be16BytesOfRead` | main.c:163 | storing the value of a big-endian 16-bit read gives back the two wire octets, so `Be16` loses nothing |
| `Bytes.OctetsOfBe32` | main.c:173-182 | `ntohl` followed by the masks 0xff000000, 0x00ff0000, 0x0000ff00 and 0x000000ff with shifts 24, 16, 8 and 0 gives the four address octets in wire order |
| `Bytes.Be16` | main.c:163 | `ntohs` of a 16-bit field: the quotient by 256 is the first wire octet and the remainder the second |
| `Bytes.Be32` | main.c:173 | `ntohl` of a 32-bit field: its four octets, most significant first, are the four wire octets in order |
| `Bytes.MaskShift` | main.c:174-182 | `(x & (0xff << s)) >> s` for s = 24, 16, 8, 0 is x / 2^24, x / 2^16 mod 256, x / 2^8 mod 256 and x mod 256 |
| `Bytes.HighNibble` | main.c:85-87 | the high nibble n of an octet b is the unique n < 16 with 16n <= b < 16(n+1) |
| `Bytes.LowNibble` | main.c:32-34 | the low nibble n of an octet b is the unique n < 16 with b - n divisible by 16 |
| `Headers.EtherType` | main.c:163 | `ntohs(ether_type)` from bytes 12-13 equals ETHERTYPE_IP (0x0800) if and only if those bytes are 0x08 0x00 |
| `Headers.DstMac` | main.c:166-167 | the destination MAC is the six bytes 0-5 (`ether_dhost`) |
| `Headers.SrcMac` | main.c:164-165 | the source MAC is the six bytes 6-11 (`ether_shost`) |
| `Headers.IpProtocol` | main.c:171 | `ip_p` is exactly byte 23, and it is IPPROTO_TCP if and only if that byte is 6 |
| `Headers.IpSrc` | main.c:173 | `ntohl(ip_src)` has bytes 26, 27, 28 and 29 as its octets, most significant first |
| `Headers.IpDst` | main.c:178 | `ntohl(ip_dst)` has bytes 30, 31, 32 and 33 as its octets, most significant first |
| `Headers.SrcPort` | main.c:187-188 | `ntohs(th_sport)` at the fixed TCP offset 34 has high octet byte 34 and low octet byte 35 |
| `Headers.DstPort` | main.c:187-189 | `ntohs(th_dport)` at the fixed TCP offset 34 has high octet byte 36 and low octet byte 37 |
| `Headers.IpHl` | main.c:32-34 | `ip_hl` is the low nibble of byte 14, because it is the first-declared 4-bit field under LIBNET_LIL_ENDIAN |
| `Headers.ThOff` | main.c:85-87 | `th_off` is the high nibble of TCP byte 12, which is frame byte 46 at the fixed TCP offset |
| `Headers.PayloadStart` | main.c:192 | `until_tcp_len` lies in [14, 134] and is 14 plus a multiple of 4 |
| `Headers.PayloadStartFromWire` | main.c:192 | `until_tcp_len` = 14 + 4*(byte 14 & 0x0F) + 4*(byte 46 >> 4) |
| `Decoder.Dotted` | main.c:173-182 | the four octets `src_ip1..4` (or `dst_ip1..4`) split from the address put back together give the address again |
| `Decoder.PreviewOf` | main.c:194-200 | the preview specification is Empty if and only if caplen <= start, and otherwise holds 1 to 10 octets ending at or before caplen; its exact contents are stated by `Decoder.PreviewShape` |
| `Decoder.Decode` | main.c:161-201 | the per-frame specification: TooShort names a length above caplen; NotIpv4 needs at least 14 bytes; NotTcp at least 24 and carries bytes 6-11 and 0-5 as the MACs; Record at least 47. Its skip, record and field behaviour is stated by the lemmas below |
| `Decoder.CopyPreview` | main.c:194-200 | the preview loop returns Empty when caplen <= start, and otherwise exactly the octets from start up to min(start+10, caplen) |
| `Decoder.DecodeFrame` | main.c:161-201 | the decode block, step by step, gives the outcome the specification `Decode` assigns to the frame |
| `Decoder.TooShortExactly` | main.c:162-192 | the model's length guard fires exactly when the next header read would pass the captured length; the length it reports is 14, 24 or 47 and exceeds caplen |
| `Decoder.NonIpv4Skipped` | main.c:163 | every frame whose big-endian EtherType (bytes 12-13) is not 0x0800 is skipped, whatever its other bytes and its length past 14, so no IPv4 or TCP field is examined |
| `Decoder.NonTcpSkipped` | main.c:170-171 | an IPv4 frame whose protocol byte 23 is not 6 gives NotTcp with its MACs; the outcome depends only on the Ethernet header and byte 23 |
| `Decoder.RecordExactly` | main.c:163-171 | a record is produced if and only if caplen >= 47, bytes 12-13 are 0x08 0x00 and byte 23 is 6 |
| `Decoder.RecordFieldsFromWire` | main.c:164-192 | source MAC = bytes 6-11, destination MAC = bytes 0-5, address octets = bytes 26-29 and 30-33 in wire order, ports = b[34]*256+b[35] and b[36]*256+b[37], preview starting at 14+4*(b[14]&0xF)+4*(b[46]>>4) |
| `Decoder.PortsIgnoreIhl` | main.c:187-192 | changing only byte 14 leaves the addresses and ports unchanged; the payload start moves by 4 per word of `ip_hl` |
| `Decoder.PreviewShape` | main.c:194-200 | the preview is Empty if and only if caplen <= start; otherwise it has min(10, caplen-start) octets, between 1 and 10, copied verbatim and in order, none at or past caplen |
| `Decoder.RecordPreview` | main.c:191-200 | a record's preview starts at `until_tcp_len` in [14, 134], is Empty exactly when caplen <= start, and is otherwise the captured slice of 1 to 10 octets |
| `Decoder.MinimalTcpFrame` | main.c:192-196 | a 54-byte frame with 20-byte IPv4 and TCP headers is a record whose preview is Empty |
| `Decoder.TcpFrameWithPayload` | main.c:198-200 | with at least ten bytes past 54, the preview is exactly bytes 54-63 |
| `Decoder.IpOptionsShiftPayloadNotPorts` | main.c:187-192 | with `ip_hl` = 6 the ports are still read big-endian at bytes 34-37 (the IPv4 options word) and `th_off` is still the high nibble of byte 46 (inside the real TCP acknowledgement number), so the payload start is 38 + 4*(byte 46 >> 4) |
| `Decoder.SourcePortRoundTrip` | main.c:188 | a source port encoded in network byte order at offset 34 decodes to the same host-order value |
| `Capture.Run` | main.c:151-159 | the loop specification yields at most one outcome per capture result, and any stop code it reports is PCAP_ERROR or PCAP_ERROR_BREAK; its order and stopping behaviour are stated by the lemmas below |
| `Capture.CaptureLoop` | main.c:151-202 | the loop's outcomes and stop code are those of the specification `Run` for the same sequence of `pcap_next_ex` results |
| `Capture.TimeoutIgnored` | main.c:155 | inserting a result of 0 (timeout) anywhere changes nothing: it is not decoded and does not stop the loop |
| `Capture.StopsAtFirstTerminal` | main.c:156-159 | the loop stops at the first PCAP_ERROR or PCAP_ERROR_BREAK and reports that code; later results are never looked at |
| `Capture.DecodesInOrder` | main.c:151-201 | with no timeout and no terminal code, every result is decoded: one outcome per result, in arrival order, and no stop code |
| `Capture.StopIffTerminal` | main.c:156-159 | a stop code is reported if and only if some result is PCAP_ERROR or PCAP_ERROR_BREAK, and it is always one of those two |

## Left out

- `pcap_open_live`, `pcap_next_ex`, `pcap_geterr` and `pcap_close` are libpcap I/O. A finite input sequence of (`pcap_next_ex` result, frame) pairs stands in for them. When that sequence ends, the model returns with no stop code, while the real loop would go on waiting.
- Each frame's `caplen` is the length of its byte sequence. libpcap guarantees that the buffer holds `caplen` bytes.
- All `printf`/`fprintf` output is left out: the separator line, the `%02x` and `%d` rendering, the error message. The model returns structured outcomes instead.
- `usage`, `parse` and the global `Param` are command-line handling.
- The `#if` endianness branches and the C bitfield layout are not modelled. Only the compiled little-endian configuration is modelled, as explicit nibble extraction.
- The model does not cover the unused constants (`IPTOS_*`, `IP_RF`, `IP_DF`, `IP_MF`, `IP_OFFMASK`, `TH_*`) or the header fields that are never read (version, TOS, total length, id, fragment offset, TTL, checksums, sequence and acknowledgement numbers, flags, window, urgent pointer).
- The program's behaviour on frames too short for its header reads is undefined. The model replaces it with the `TooShort` outcome and does not model out-of-bounds reads.
- `Decoder.Decode`: for a TCP-over-IPv4 frame of 24 to 46 captured bytes the program has already printed output from in-bounds bytes before it reads byte 46: the MACs, then the addresses when at least 34 bytes are captured, then the ports when at least 38 are. The model reports only `TooShort(47)` and drops that partial output, because a TCP record is produced as a whole.
- `int pcap_len = header->caplen` could not overflow for the snapshot length `BUFSIZ` used at open. The model does not track it as a 32-bit value.
