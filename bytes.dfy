/** Octets, unsigned machine words and the network byte-order reads
    (`ntohs`, `ntohl`) the decoder applies to header fields. Every
    multi-byte read is written out as an explicit big-endian load from the
    captured buffer rather than as a struct cast. */
module Bytes {

  /** u_int8_t / u_char */
  type byte = x: int | 0 <= x < 0x100
  /** u_int16_t */
  type u16 = x: int | 0 <= x < 0x1_0000
  /** u_int32_t */
  type u32 = x: int | 0 <= x < 0x1_0000_0000

  /** `ntohs` of the 16-bit field stored at offset `o`: the first octet on
      the wire is the most significant one. */
  function Be16(s: seq<byte>, o: nat): (v: u16)
    requires o + 2 <= |s|
    ensures v / 0x100 == s[o] && v % 0x100 == s[o + 1]
  {
    s[o] as int * 0x100 + s[o + 1]
  }

  /** The two wire octets of a 16-bit value in network byte order (`htons`
      followed by a store). The partner of Be16. */
  function Be16Bytes(v: u16): (s: seq<byte>)
    ensures |s| == 2
  {
    [v / 0x100, v % 0x100]
  }

  /** `ntohl` of the 32-bit field stored at offset `o`. */
  function Be32(s: seq<byte>, o: nat): (v: u32)
    requires o + 4 <= |s|
    ensures v / 0x100_0000 == s[o] && v / 0x1_0000 % 0x100 == s[o + 1]
    ensures v / 0x100 % 0x100 == s[o + 2] && v % 0x100 == s[o + 3]
  {
    ((s[o] as int * 0x100 + s[o + 1]) * 0x100 + s[o + 2]) * 0x100 + s[o + 3]
  }

  /** `(x & (0xff << shift)) >> shift` for a 32-bit `x`, with `shift` one
      of 0, 8, 16 and 24: the octet of `x` that starts at bit `shift`. */
  function MaskShift(x: u32, shift: nat): (b: byte)
    requires shift % 8 == 0 && shift <= 24
    ensures shift == 0 ==> b == x % 0x100
    ensures shift == 8 ==> b == x / 0x100 % 0x100
    ensures shift == 16 ==> b == x / 0x1_0000 % 0x100
    ensures shift == 24 ==> b == x / 0x100_0000
    decreases shift
  {
    if shift == 0 then x % 0x100 else MaskShift(x / 0x100, shift - 8)
  }

  /** The high nibble of an octet (bits 7..4). */
  function HighNibble(b: byte): (n: nat)
    ensures n < 16 && n * 16 <= b < (n + 1) * 16
  {
    b / 16
  }

  /** The low nibble of an octet (bits 3..0). */
  function LowNibble(b: byte): (n: nat)
    ensures n < 16 && (b - n) % 16 == 0
  {
    b % 16
  }

  /** Division by 256 splits `hi * 256 + lo` back into its two parts. */
  lemma SplitOctet(hi: nat, lo: byte)
    ensures (hi * 0x100 + lo) / 0x100 == hi
    ensures (hi * 0x100 + lo) % 0x100 == lo
  {
  }

  /** The four octets of a 32-bit value, most significant first, put back
      together give the value. */
  lemma RecomposeOctets(x: u32)
    ensures ((x / 0x100_0000 * 0x100 + x / 0x1_0000 % 0x100) * 0x100 + x / 0x100 % 0x100) * 0x100 + x % 0x100 == x
  {
  }

  /** Reading back a stored 16-bit value gives the value: `ntohs(htons(v)) == v`. */
  lemma Be16RoundTrip(v: u16)
    ensures Be16(Be16Bytes(v), 0) == v
  {
  }

  /** Storing a value read with Be16 gives back the wire octets. */
  lemma Be16BytesOfRead(s: seq<byte>, o: nat)
    requires o + 2 <= |s|
    ensures Be16Bytes(Be16(s, o)) == s[o..o + 2]
  {
    SplitOctet(s[o], s[o + 1]);
  }

  /** `ntohl` followed by the four mask-and-shift steps yields the four
      octets of the field in wire order: the most significant octet is the
      one stored first. */
  lemma {:induction false} OctetsOfBe32(s: seq<byte>, o: nat)
    requires o + 4 <= |s|
    ensures MaskShift(Be32(s, o), 24) == s[o]
    ensures MaskShift(Be32(s, o), 16) == s[o + 1]
    ensures MaskShift(Be32(s, o), 8) == s[o + 2]
    ensures MaskShift(Be32(s, o), 0) == s[o + 3]
  {
    var x2: int := s[o] as int * 0x100 + s[o + 1];
    var x3: int := x2 * 0x100 + s[o + 2];
    SplitOctet(x3, s[o + 3]);
    SplitOctet(x2, s[o + 2]);
    SplitOctet(s[o], s[o + 1]);
  }
}
