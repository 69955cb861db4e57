/** The per-frame decoder of the capture loop in main.c: Ethernet, then
    IPv4, then TCP, with an early exit at each protocol test, producing a
    structured outcome instead of printed text.

    The program dereferences header fields without checking the captured
    length. The model adds three guards and reports `TooShort` at each:
    14 bytes before ether_type is read, 24 before ip_p, and 47 (th_off is
    byte 46) before the address, port and length reads of a TCP record.
    On every frame long enough for the reads the program makes, the
    outcome is exactly what the program prints. */
module Decoder {
  import opened Bytes
  import opened Headers

  /** At most this many payload octets are shown. */
  const PREVIEW_MAX := 10

  /** Captured lengths the model's guards demand (model's addition). */
  /** ether_type occupies bytes 12 and 13. */
  const NEED_ETHER := ETHER_TYPE + 2
  /** ip_p is byte 23. */
  const NEED_PROTO := IP_AT + IP_P + 1
  /** th_off is byte 46, the last header byte a TCP record reads; the
      guard stands before all of the record's reads. */
  const NEED_TCP := TCP_AT + TH_X2_OFF + 1

  /** The four dotted-decimal octets src_ip1..src_ip4 (or dst_ip1..4). */
  datatype Ipv4Addr = Ipv4Addr(o1: byte, o2: byte, o3: byte, o4: byte)

  /** "Payload(Data) = Empty" or the octets printed after it. */
  datatype Preview = Empty | Octets(data: seq<byte>)

  /** What the program prints for a TCP-over-IPv4 frame. */
  datatype TcpRecord = TcpRecord(
    srcMac: seq<byte>, dstMac: seq<byte>,
    srcIp: Ipv4Addr, dstIp: Ipv4Addr,
    srcPort: u16, dstPort: u16,
    payload: Preview)

  datatype Outcome =
    | TooShort(needed: nat)                         // model's guard: fewer than `needed` bytes captured
    | NotIpv4                                       // ether_type is not ETHERTYPE_IP
    | NotTcp(srcMac: seq<byte>, dstMac: seq<byte>)  // ip_p is not TCP; the MACs were already printed
    | Record(rec: TcpRecord)

  function Min(a: int, b: int): int { if a <= b then a else b }

  /** The address octets as the program splits them: ntohl, then four
      mask-and-shift steps from the most significant octet down. The four
      octets put back together give the address again. */
  function Dotted(x: u32): (a: Ipv4Addr)
    ensures ((a.o1 as int * 0x100 + a.o2) * 0x100 + a.o3) * 0x100 + a.o4 == x
  {
    RecomposeOctets(x);
    Ipv4Addr(MaskShift(x, 24), MaskShift(x, 16), MaskShift(x, 8), MaskShift(x, 0))
  }

  /** The preview of the octets from `start` on: empty when the headers
      use up the captured bytes, otherwise at most PREVIEW_MAX octets, never
      reaching `caplen`. */
  function PreviewOf(packet: seq<byte>, caplen: nat, start: nat): (pv: Preview)
    requires |packet| == caplen
    ensures pv.Empty? <==> caplen <= start
    ensures pv.Octets? ==> 1 <= |pv.data| <= PREVIEW_MAX && start + |pv.data| <= caplen
  {
    if caplen <= start then Empty
    else Octets(packet[start..Min(start + PREVIEW_MAX, caplen)])
  }

  /** The outcome of one captured frame of `caplen` bytes. Every outcome
      other than TooShort is reached only with enough captured bytes for
      the header reads it depends on. */
  function Decode(packet: seq<byte>, caplen: nat): (o: Outcome)
    requires |packet| == caplen
    ensures o.TooShort? ==> caplen < o.needed
    ensures o.NotIpv4? ==> caplen >= NEED_ETHER
    ensures o.NotTcp? ==> caplen >= NEED_PROTO && o.srcMac == packet[6..12] && o.dstMac == packet[0..6]
    ensures o.Record? ==> caplen >= NEED_TCP
  {
    if caplen < NEED_ETHER then TooShort(NEED_ETHER)
    else if EtherType(packet) != ETHERTYPE_IP then NotIpv4
    else if caplen < NEED_PROTO then TooShort(NEED_PROTO)
    else if IpProtocol(packet) != IPPROTO_TCP then NotTcp(SrcMac(packet), DstMac(packet))
    else if caplen < NEED_TCP then TooShort(NEED_TCP)
    else Record(TcpRecord(
      SrcMac(packet), DstMac(packet),
      Dotted(IpSrc(packet)), Dotted(IpDst(packet)),
      SrcPort(packet), DstPort(packet),
      PreviewOf(packet, caplen, PayloadStart(packet))))
  }

  /** The preview loop: copies packet[i] for i from `start` while
      i < start + 10 and i < caplen. */
  method CopyPreview(packet: seq<byte>, caplen: nat, start: nat) returns (preview: Preview)
    requires |packet| == caplen
    ensures preview == PreviewOf(packet, caplen, start)
  {
    if caplen <= start {
      return Empty;
    }
    var shown: seq<byte> := [];
    var i := start;
    while i < start + PREVIEW_MAX && i < caplen
      invariant start <= i <= Min(start + PREVIEW_MAX, caplen)
      invariant shown == packet[start..i]
    {
      shown := shown + [packet[i]];
      i := i + 1;
    }
    preview := Octets(shown);
  }

  /** The decode block of the capture loop, step by step as the program
      runs it, with the model's length guards in front of each group of
      reads. Its early returns are the block's `continue` statements; the
      method exists so that the preview loop (CopyPreview) runs inside the
      decode block, as it does in the program, and the whole block is
      proved to produce what Decode specifies. */
  method DecodeFrame(packet: seq<byte>, caplen: nat) returns (outcome: Outcome)
    requires |packet| == caplen
    ensures outcome == Decode(packet, caplen)
  {
    if caplen < NEED_ETHER {
      return TooShort(NEED_ETHER);
    }
    if EtherType(packet) != ETHERTYPE_IP {
      return NotIpv4;
    }
    var srcMac := SrcMac(packet);
    var dstMac := DstMac(packet);
    if caplen < NEED_PROTO {
      return TooShort(NEED_PROTO);
    }
    if IpProtocol(packet) != IPPROTO_TCP {
      return NotTcp(srcMac, dstMac);
    }
    if caplen < NEED_TCP {
      return TooShort(NEED_TCP);
    }
    var srcIp := Dotted(IpSrc(packet));
    var dstIp := Dotted(IpDst(packet));
    var srcPort := SrcPort(packet);
    var dstPort := DstPort(packet);
    var untilTcpLen := PayloadStart(packet);
    var payload := CopyPreview(packet, caplen, untilTcpLen);
    outcome := Record(TcpRecord(srcMac, dstMac, srcIp, dstIp, srcPort, dstPort, payload));
  }

  // ---------------------------------------------------------------------
  // Properties of the decoder

  /** The model's guard fires exactly when the program would read past the
      captured bytes, and then only below the length it names. */
  lemma TooShortExactly(packet: seq<byte>, caplen: nat)
    requires |packet| == caplen
    ensures Decode(packet, caplen).TooShort? <==>
      caplen < NEED_ETHER ||
      (EtherType(packet) == ETHERTYPE_IP && caplen < NEED_PROTO) ||
      (EtherType(packet) == ETHERTYPE_IP && IpProtocol(packet) == IPPROTO_TCP && caplen < NEED_TCP)
    ensures Decode(packet, caplen).TooShort? ==>
      caplen < Decode(packet, caplen).needed && Decode(packet, caplen).needed in {14, 24, 47}
  {
  }

  /** A frame whose EtherType (bytes 12 and 13) is not IPv4 is skipped.
      The requires constrain no other byte and no length beyond the
      Ethernet header, so no IPv4 or TCP field is examined. */
  lemma NonIpv4Skipped(p: seq<byte>)
    requires |p| >= NEED_ETHER
    requires p[12] as int * 0x100 + p[13] != 0x0800
    ensures Decode(p, |p|) == NotIpv4
  {
  }

  /** An IPv4 frame whose protocol byte (23) is not TCP is skipped after
      the MACs are taken, whatever the frame holds past the Ethernet header
      except byte 23: no TCP field and no payload is read. */
  lemma NonTcpSkipped(p: seq<byte>, q: seq<byte>)
    requires |p| >= NEED_PROTO && |q| >= NEED_PROTO
    requires EtherType(p) == ETHERTYPE_IP && p[23] != 6
    requires q[..ETH_HDR_SIZE] == p[..ETH_HDR_SIZE] && q[23] == p[23]
    ensures Decode(p, |p|) == NotTcp(p[6..12], p[0..6])
    ensures Decode(q, |q|) == Decode(p, |p|)
  {
  }

  /** A record is produced exactly for captured TCP-over-IPv4 frames long
      enough for the header reads. */
  lemma RecordExactly(p: seq<byte>)
    ensures Decode(p, |p|).Record? <==>
      |p| >= NEED_TCP && p[12] == 0x08 && p[13] == 0x00 && p[23] == 6
  {
  }

  /** Every field of a record comes straight from the wire: the MACs,
      the address octets in wire order, and the ports at the fixed TCP
      offset 34, read big-endian. */
  lemma {:induction false} RecordFieldsFromWire(p: seq<byte>)
    requires Decode(p, |p|).Record?
    ensures Decode(p, |p|).rec.srcMac == p[6..12]
    ensures Decode(p, |p|).rec.dstMac == p[0..6]
    ensures Decode(p, |p|).rec.srcIp == Ipv4Addr(p[26], p[27], p[28], p[29])
    ensures Decode(p, |p|).rec.dstIp == Ipv4Addr(p[30], p[31], p[32], p[33])
    ensures Decode(p, |p|).rec.srcPort == p[34] as int * 256 + p[35]
    ensures Decode(p, |p|).rec.dstPort == p[36] as int * 256 + p[37]
    ensures Decode(p, |p|).rec.payload ==
      PreviewOf(p, |p|, 14 + 4 * (p[14] % 16) + 4 * (p[46] / 16))
  {
    OctetsOfBe32(p, IP_AT + IP_SRC);
    OctetsOfBe32(p, IP_AT + IP_DST);
  }

  /** The ports and addresses do not depend on ip_hl: two frames that
      differ only in byte 14 give the same addressing, while their payload
      starts differ by four bytes per word of ip_hl. */
  lemma PortsIgnoreIhl(p: seq<byte>, q: seq<byte>)
    requires |p| == |q| >= NEED_TCP
    requires forall i | 0 <= i < |p| && i != 14 :: p[i] == q[i]
    ensures IpSrc(p) == IpSrc(q) && IpDst(p) == IpDst(q)
    ensures SrcPort(p) == SrcPort(q) && DstPort(p) == DstPort(q)
    ensures PayloadStart(p) - PayloadStart(q) == 4 * (IpHl(p) - IpHl(q))
  {
  }

  /** The shape of a preview: "Empty" exactly when caplen <= start;
      otherwise between 1 and 10 octets, min(10, caplen - start) of them,
      copied verbatim and in order from `start`, none at or past caplen. */
  lemma PreviewShape(p: seq<byte>, caplen: nat, start: nat)
    requires |p| == caplen
    ensures PreviewOf(p, caplen, start).Empty? <==> caplen <= start
    ensures PreviewOf(p, caplen, start).Octets? ==>
      var d := PreviewOf(p, caplen, start).data;
      1 <= |d| <= PREVIEW_MAX &&
      |d| == Min(PREVIEW_MAX, caplen - start) &&
      start + |d| <= caplen &&
      forall k | 0 <= k < |d| :: d[k] == p[start + k]
  {
  }

  /** A TCP record's preview is exactly the captured octets from
      until_tcp_len on, up to ten of them, or Empty at the boundary. */
  lemma {:induction false} RecordPreview(p: seq<byte>)
    requires Decode(p, |p|).Record?
    ensures var start := PayloadStart(p);
      var pv := Decode(p, |p|).rec.payload;
      14 <= start <= 134 &&
      (pv.Empty? <==> |p| <= start) &&
      (pv.Octets? ==> pv.data == p[start..Min(start + 10, |p|)] && 1 <= |pv.data| <= 10)
  {
    PreviewShape(p, |p|, PayloadStart(p));
  }

  /** A minimal frame: the 14-byte Ethernet header, a 20-byte IPv4 header
      (version 4, ip_hl 5) carrying TCP, and a 20-byte TCP header (th_off
      5), captured in exactly 54 bytes: a record with an empty preview. */
  lemma MinimalTcpFrame(p: seq<byte>)
    requires |p| == 54
    requires p[12] == 0x08 && p[13] == 0x00 && p[14] == 0x45 && p[23] == 6 && p[46] == 0x50
    ensures Decode(p, 54).Record? && Decode(p, 54).rec.payload == Empty
  {
  }

  /** The same frame with ten more captured bytes: they are the preview,
      verbatim. The 11th byte past the headers is never shown. */
  lemma TcpFrameWithPayload(p: seq<byte>)
    requires |p| >= 64
    requires p[12] == 0x08 && p[13] == 0x00 && p[14] == 0x45 && p[23] == 6 && p[46] == 0x50
    ensures Decode(p, |p|).Record? && Decode(p, |p|).rec.payload == Octets(p[54..64])
  {
  }

  /** With a 24-byte IPv4 header (ip_hl 6) the IPv4 header spans bytes
      14..37 and the real TCP header starts at byte 38. The ports are still
      read at bytes 34..37, which then hold only the IPv4 options word, not
      the TCP ports at bytes 38..41. th_off is still read from byte 46,
      which now lies inside the real TCP header's acknowledgement number
      (its byte 8), so the payload start adds the extra IPv4 word but takes
      the TCP length from the wrong nibble. */
  lemma IpOptionsShiftPayloadNotPorts(p: seq<byte>)
    requires |p| >= NEED_TCP
    requires p[12] == 0x08 && p[13] == 0x00 && p[14] == 0x46 && p[23] == 6
    ensures Decode(p, |p|).Record?
    ensures ThOff(p) == p[46] / 16
    ensures PayloadStart(p) == 38 + 4 * (p[46] / 16)
    ensures Decode(p, |p|).rec.srcPort == Be16(p, 34)
    ensures Decode(p, |p|).rec.dstPort == Be16(p, 36)
  {
  }

  /** A port encoded in network byte order at offset 34 decodes to the
      same host-order value, e.g. 80. */
  lemma SourcePortRoundTrip(p: seq<byte>, port: u16)
    requires |p| >= NEED_TCP && p[34..36] == Be16Bytes(port)
    ensures SrcPort(p) == port
  {
  }
}
