/** The three header layouts of main.c (struct libnet_ethernet_hdr,
    struct libnet_ipv4_hdr, struct libnet_tcp_hdr) as byte offsets into
    the captured frame, and one reader per field the capture loop uses.
    The C bitfields are modelled for the configuration that is compiled
    (LIBNET_LIL_ENDIAN): the first-declared 4-bit field of a byte takes its
    low nibble. Each reader's `requires` names the bytes the corresponding
    struct access touches. */
module Headers {
  import opened Bytes

  const ETHER_ADDR_LEN := 6
  const ETHERTYPE_IP := 0x0800
  const IPPROTO_TCP := 6

  /** sizeof(struct libnet_ethernet_hdr) */
  const ETH_HDR_SIZE := 14
  /** sizeof(struct libnet_ipv4_hdr): the options-free header */
  const IPV4_HDR_SIZE := 20

  // Field offsets within struct libnet_ethernet_hdr.
  const ETHER_DHOST := 0
  const ETHER_SHOST := 6
  const ETHER_TYPE := 12

  // Field offsets within struct libnet_ipv4_hdr.
  /** the byte holding ip_hl (low nibble) and ip_v (high nibble) */
  const IP_HL_V := 0
  const IP_P := 9
  const IP_SRC := 12
  const IP_DST := 16

  // Field offsets within struct libnet_tcp_hdr.
  const TH_SPORT := 0
  const TH_DPORT := 2
  /** the byte holding th_x2 (low nibble) and th_off (high nibble) */
  const TH_X2_OFF := 12

  /** Where the IPv4 header is read: right after the Ethernet header. */
  const IP_AT := ETH_HDR_SIZE
  /** Where the TCP header is read: after the Ethernet header and a fixed
      20-byte IPv4 header, whatever ip_hl says. */
  const TCP_AT := ETH_HDR_SIZE + IPV4_HDR_SIZE

  /** ntohs(eth_hdr->ether_type) */
  function EtherType(p: seq<byte>): (v: u16)
    requires |p| >= ETHER_TYPE + 2
    ensures v == ETHERTYPE_IP <==> p[12] == 0x08 && p[13] == 0x00
  {
    Be16(p, ETHER_TYPE)
  }

  /** eth_hdr->ether_dhost[0..5] */
  function DstMac(p: seq<byte>): (m: seq<byte>)
    requires |p| >= ETHER_DHOST + ETHER_ADDR_LEN
    ensures |m| == ETHER_ADDR_LEN
    ensures forall i | 0 <= i < ETHER_ADDR_LEN :: m[i] == p[i]
  {
    p[ETHER_DHOST..ETHER_DHOST + ETHER_ADDR_LEN]
  }

  /** eth_hdr->ether_shost[0..5] */
  function SrcMac(p: seq<byte>): (m: seq<byte>)
    requires |p| >= ETHER_SHOST + ETHER_ADDR_LEN
    ensures |m| == ETHER_ADDR_LEN
    ensures forall i | 0 <= i < ETHER_ADDR_LEN :: m[i] == p[6 + i]
  {
    p[ETHER_SHOST..ETHER_SHOST + ETHER_ADDR_LEN]
  }

  /** ip_hdr->ip_hl: the header length in 32-bit words */
  function IpHl(p: seq<byte>): (n: nat)
    requires |p| > IP_AT + IP_HL_V
    ensures n < 16 && (p[IP_AT + IP_HL_V] - n) % 16 == 0
  {
    LowNibble(p[IP_AT + IP_HL_V])
  }

  /** ip_hdr->ip_p */
  function IpProtocol(p: seq<byte>): (v: byte)
    requires |p| > IP_AT + IP_P
    ensures v == p[23]
    ensures v == IPPROTO_TCP <==> p[23] == 6
  {
    p[IP_AT + IP_P]
  }

  /** ntohl(ip_hdr->ip_src.s_addr) */
  function IpSrc(p: seq<byte>): (v: u32)
    requires |p| >= IP_AT + IP_SRC + 4
    ensures v / 0x100_0000 == p[26] && v / 0x1_0000 % 0x100 == p[27]
    ensures v / 0x100 % 0x100 == p[28] && v % 0x100 == p[29]
  {
    Be32(p, IP_AT + IP_SRC)
  }

  /** ntohl(ip_hdr->ip_dst.s_addr) */
  function IpDst(p: seq<byte>): (v: u32)
    requires |p| >= IP_AT + IP_DST + 4
    ensures v / 0x100_0000 == p[30] && v / 0x1_0000 % 0x100 == p[31]
    ensures v / 0x100 % 0x100 == p[32] && v % 0x100 == p[33]
  {
    Be32(p, IP_AT + IP_DST)
  }

  /** ntohs(tcp_hdr->th_sport) */
  function SrcPort(p: seq<byte>): (v: u16)
    requires |p| >= TCP_AT + TH_SPORT + 2
    ensures v / 0x100 == p[34] && v % 0x100 == p[35]
  {
    Be16(p, TCP_AT + TH_SPORT)
  }

  /** ntohs(tcp_hdr->th_dport) */
  function DstPort(p: seq<byte>): (v: u16)
    requires |p| >= TCP_AT + TH_DPORT + 2
    ensures v / 0x100 == p[36] && v % 0x100 == p[37]
  {
    Be16(p, TCP_AT + TH_DPORT)
  }

  /** tcp_hdr->th_off: the TCP header length in 32-bit words */
  function ThOff(p: seq<byte>): (n: nat)
    requires |p| > TCP_AT + TH_X2_OFF
    ensures n < 16 && n * 16 <= p[TCP_AT + TH_X2_OFF] < (n + 1) * 16
  {
    HighNibble(p[TCP_AT + TH_X2_OFF])
  }

  /** until_tcp_len: where the payload preview starts. The IPv4 part uses
      ip_hl and the TCP part th_off, each counted in 4-byte words, so the
      start is a multiple of 4 past the Ethernet header and can never lie
      beyond two maximal (60-byte) headers. */
  function PayloadStart(p: seq<byte>): (start: nat)
    requires |p| > TCP_AT + TH_X2_OFF
    ensures ETH_HDR_SIZE <= start <= ETH_HDR_SIZE + 60 + 60
    ensures (start - ETH_HDR_SIZE) % 4 == 0
  {
    ETH_HDR_SIZE + IpHl(p) * 4 + ThOff(p) * 4
  }

  /** The payload start written directly in terms of the two header bytes
      that hold the length nibbles: byte 14 (low nibble) and byte 46 (high
      nibble). */
  lemma PayloadStartFromWire(p: seq<byte>)
    requires |p| > TCP_AT + TH_X2_OFF
    ensures PayloadStart(p) == 14 + 4 * (p[14] % 16) + 4 * (p[46] / 16)
  {
  }
}
