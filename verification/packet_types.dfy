/** Data model shared by the packet editor: header fields, CIDR rules and
    chains, the editor's configuration and the small status enumerations.

    Byte order: an IPv4 address is a `bv32` whose most significant byte is
    the first octet on the wire, i.e. the host-order value on a big-endian
    host, where `htonl`/`ntohl` are the identity. */
module PacketTypes {

  datatype Option<+T> = None | Some(value: T)

  /** Unsigned header fields of the widths the C structures use. */
  type Octet = x: int | 0 <= x < 0x100
  type Uint16 = x: int | 0 <= x < 0x1_0000
  type Uint32 = x: int | 0 <= x < 0x1_0000_0000
  type Nibble = x: int | 0 <= x < 0x10

  /** A 128-bit IPv6 address as its 16 bytes in network order. */
  type Ipv6Addr = s: seq<bv8> | |s| == 16
    witness [0, 0, 0, 0, 0, 0, 0, 0, 0, 0, 0, 0, 0, 0, 0, 0]

  /** IPv4 prefix lengths the remapper can shift by without undefined behaviour. */
  type Prefix4 = m: bv8 | 1 <= m <= 32 witness 32

  /** IPv6 prefix lengths that fall on a byte boundary. */
  type Prefix6 = m: int | 0 <= m <= 128 && m % 8 == 0 witness 0

  /** A CIDR block: its address family decides which network field is meaningful. */
  datatype Cidr =
    | Inet(network: bv32, masklen: Prefix4)
    | Inet6(network6: Ipv6Addr, masklen6: Prefix6)

  /** One entry of a rewrite chain: addresses inside `from` are moved into `to`. */
  datatype CidrMap = CidrMap(from: Cidr, to: Cidr)

  /** A linked list of map entries, head first; never empty once it exists. */
  type Chain = c: seq<CidrMap> | |c| > 0
    witness [CidrMap(Inet(0, 32), Inet(0, 32))]

  /** Which side of the conversation a packet travels; any other cache value
      than the two directions is `OtherDirection`. */
  datatype Direction = ClientToServer | ServerToClient | OtherDirection

  datatype TtlMode = TtlOff | TtlSet | TtlAdd | TtlSub

  datatype FixLen = FixLenOff | FixLenPad | FixLenTrunc | FixLenOther

  /** The editor's run-wide configuration (read-only while packets are edited). */
  datatype Config = Config(
    seed: bv32,
    skipBroadcast: bool,
    ttlMode: TtlMode,
    ttlValue: Octet,
    fixlen: FixLen,
    mtuTruncate: bool,
    mtu: nat,
    srcIpMap: Option<CidrMap>,
    dstIpMap: Option<CidrMap>,
    cidrMap1: Option<Chain>,
    cidrMap2: Option<Chain>)

  /** The fields of an IPv4 header that the editor reads or writes. */
  datatype Ipv4Header = Ipv4Header(
    hl: Nibble,       // header length in 32-bit words
    len: Uint16,      // total length
    off: Uint16,      // flags and fragment offset
    ttl: Octet,
    proto: Octet,
    src: bv32,
    dst: bv32)

  /** The fields of an IPv6 header that the editor reads or writes. */
  datatype Ipv6Header = Ipv6Header(
    payloadLen: Uint16,
    nextHeader: Octet,
    hopLimit: Octet,
    src: Ipv6Addr,
    dst: Ipv6Addr)

  /** The capture record: bytes recorded and bytes the packet had on the wire. */
  datatype PktHdr = PktHdr(caplen: Uint32, len: Uint32)

  /** The editor's tri-state result for checksum work. */
  datatype Status = Ok | Warn | Error

  function Min(a: int, b: int): int { if a <= b then a else b }
  function Max(a: int, b: int): int { if a >= b then a else b }

  const IPPROTO_IP: Octet := 0
  const IPPROTO_ICMP: Octet := 1
  const IPPROTO_TCP: Octet := 6
  const IPPROTO_UDP: Octet := 17
}
