/** The header-level address rewriters: randomization of IPv4, IPv6 and ARP
    addresses, and the CIDR-map rewrite of IPv4, IPv6 and ARP packets
    (single source/destination maps first, then the two chains). */
module AddressRewrite {
  import opened PacketTypes
  import opened ByteFields
  import opened Addresses
  import opened ChainWalk

  // ---------------------------------------------------------------------
  // Randomization

  /** Randomizes both addresses of an IPv4 header. The header-level guard
      repeats the address-level broadcast check; the result is 1 whatever
      happened. */
  function RandomizeIpv4(cfg: Config, ip: Ipv4Header): (r: (Ipv4Header, int))
    ensures r.1 == 1
    ensures r.0.(src := ip.src, dst := ip.dst) == ip
    ensures r.0.dst == RandomizeV4Addr(cfg.seed, cfg.skipBroadcast, ip.dst)
    ensures r.0.src == RandomizeV4Addr(cfg.seed, cfg.skipBroadcast, ip.src)
  {
    var dst :=
      if (cfg.skipBroadcast && IsUnicastV4(ip.dst)) || !cfg.skipBroadcast
      then RandomizeV4Addr(cfg.seed, cfg.skipBroadcast, ip.dst) else ip.dst;
    var src :=
      if (cfg.skipBroadcast && IsUnicastV4(ip.src)) || !cfg.skipBroadcast
      then RandomizeV4Addr(cfg.seed, cfg.skipBroadcast, ip.src) else ip.src;
    (ip.(src := src, dst := dst), 1)
  }

  /** Randomizes both addresses of an IPv6 header; with broadcast skipping
      on, multicast addresses are left alone. Multicast-ness of each address
      never changes. */
  function RandomizeIpv6(cfg: Config, ip6: Ipv6Header): (r: (Ipv6Header, int))
    ensures r.1 == 1
    ensures r.0.(src := ip6.src, dst := ip6.dst) == ip6
    ensures cfg.skipBroadcast && IsMulticastV6(ip6.dst) ==> r.0.dst == ip6.dst
    ensures cfg.skipBroadcast && IsMulticastV6(ip6.src) ==> r.0.src == ip6.src
    ensures !(cfg.skipBroadcast && IsMulticastV6(ip6.dst)) ==> r.0.dst == RandomizeV6Addr(cfg.seed, ip6.dst)
    ensures !(cfg.skipBroadcast && IsMulticastV6(ip6.src)) ==> r.0.src == RandomizeV6Addr(cfg.seed, ip6.src)
    ensures IsMulticastV6(r.0.dst) <==> IsMulticastV6(ip6.dst)
    ensures IsMulticastV6(r.0.src) <==> IsMulticastV6(ip6.src)
  {
    var dst :=
      if (cfg.skipBroadcast && !IsMulticastV6(ip6.dst)) || !cfg.skipBroadcast
      then RandomizeV6Addr(cfg.seed, ip6.dst) else ip6.dst;
    var src :=
      if (cfg.skipBroadcast && !IsMulticastV6(ip6.src)) || !cfg.skipBroadcast
      then RandomizeV6Addr(cfg.seed, ip6.src) else ip6.src;
    (ip6.(src := src, dst := dst), 1)
  }

  // ---------------------------------------------------------------------
  // ARP layout (RFC 826): hrd(2) pro(2) hln(1) pln(1) op(2), then sender
  // hardware address, sender protocol address, target hardware address,
  // target protocol address.

  const ARP_HDR_LEN: nat := 8
  const ETHERTYPE_IP: int := 0x0800
  const ARPOP_REQUEST: int := 1
  const ARPOP_REPLY: int := 2

  function ArpPro(arp: seq<bv8>): int requires |arp| >= ARP_HDR_LEN { Half(arp, 2) }
  function ArpHln(arp: seq<bv8>): nat requires |arp| >= ARP_HDR_LEN { arp[4] as nat }
  function ArpPln(arp: seq<bv8>): nat requires |arp| >= ARP_HDR_LEN { arp[5] as nat }
  function ArpOp(arp: seq<bv8>): int requires |arp| >= ARP_HDR_LEN { Half(arp, 6) }

  /** An IPv4 ARP request or reply: the only packets whose addresses are edited. */
  predicate IsIpv4ReqOrReply(arp: seq<bv8>)
    requires |arp| >= ARP_HDR_LEN
  {
    ArpPro(arp) == ETHERTYPE_IP && (ArpOp(arp) == ARPOP_REQUEST || ArpOp(arp) == ARPOP_REPLY)
  }

  /** The sender's protocol address follows the sender's hardware address. */
  function SenderIpOffset(arp: seq<bv8>): nat
    requires |arp| >= ARP_HDR_LEN
  {
    ARP_HDR_LEN + ArpHln(arp)
  }

  /** The target's protocol address follows the sender's protocol address
      and the target's hardware address. */
  function TargetIpOffset(arp: seq<bv8>): nat
    requires |arp| >= ARP_HDR_LEN
  {
    SenderIpOffset(arp) + ArpPln(arp) + ArpHln(arp)
  }

  /** The buffer holds the fixed header and, for an IPv4 request or reply,
      both protocol addresses the editor reads as 4-byte words. */
  predicate ArpFits(arp: seq<bv8>)
  {
    |arp| >= ARP_HDR_LEN && (IsIpv4ReqOrReply(arp) ==> TargetIpOffset(arp) + 4 <= |arp|)
  }

  /** Randomizes the sender and target protocol addresses of an IPv4 ARP
      request or reply, sender first; other ARP packets are left alone. The
      result is 1 in every case. */
  function RandomizeIpArp(cfg: Config, arp: seq<bv8>): (r: (seq<bv8>, int))
    requires ArpFits(arp)
    ensures r.1 == 1 && |r.0| == |arp|
    ensures !IsIpv4ReqOrReply(arp) ==> r.0 == arp
    ensures IsIpv4ReqOrReply(arp) ==>
      var s, t := SenderIpOffset(arp), TargetIpOffset(arp);
      forall k :: 0 <= k < |arp| && !(s <= k < s + 4) && !(t <= k < t + 4) ==> r.0[k] == arp[k]
    ensures IsIpv4ReqOrReply(arp) && ArpHln(arp) + ArpPln(arp) >= 4 ==>
      var s, t := SenderIpOffset(arp), TargetIpOffset(arp);
      Word(r.0, s) == RandomizeV4Addr(cfg.seed, cfg.skipBroadcast, Word(arp, s))
      && Word(r.0, t) == RandomizeV4Addr(cfg.seed, cfg.skipBroadcast, Word(arp, t))
  {
    if IsIpv4ReqOrReply(arp) then
      var s, t := SenderIpOffset(arp), TargetIpOffset(arp);
      var a1 := PutWord(arp, s, RandomizeV4Addr(cfg.seed, cfg.skipBroadcast, Word(arp, s)));
      var a2 := PutWord(a1, t, RandomizeV4Addr(cfg.seed, cfg.skipBroadcast, Word(a1, t)));
      if ArpHln(arp) + ArpPln(arp) >= 4 then
        WordOfSameBytes(a1, arp, t);
        PutTwoWords(arp, s, RandomizeV4Addr(cfg.seed, cfg.skipBroadcast, Word(arp, s)),
                    t, RandomizeV4Addr(cfg.seed, cfg.skipBroadcast, Word(arp, t)));
        (a2, 1)
      else
        (a2, 1)
    else
      (arp, 1)
  }

  // ---------------------------------------------------------------------
  // CIDR-map rewrites

  /** A single source or destination map: applied when its `from` block
      holds the address. */
  function ApplyIpMap<A>(m: Option<CidrMap>, a: A, inCidr: (Cidr, A) -> bool, remap: (Cidr, A) -> A): A
  {
    if m.Some? && inCidr(m.value.from, a) then remap(m.value.to, a) else a
  }

  function Remapper4(skipBroadcast: bool): (Cidr, bv32) -> bv32
  {
    (c: Cidr, a: bv32) => RemapV4(skipBroadcast, c, a)
  }

  function Remapper6(skipBroadcast: bool): (Cidr, Ipv6Addr) -> Ipv6Addr
  {
    (c: Cidr, a: Ipv6Addr) => RemapV6(skipBroadcast, c, a).0
  }

  /** The (source, destination) chains of an IP packet: client-to-server
      traffic uses the first map for sources, every other direction swaps. */
  function IpChains(cfg: Config, dir: Direction): (Chain, Chain)
    requires cfg.cidrMap1.Some? && cfg.cidrMap2.Some?
  {
    if dir == ClientToServer then (cfg.cidrMap1.value, cfg.cidrMap2.value)
    else (cfg.cidrMap2.value, cfg.cidrMap1.value)
  }

  function Bit(b: bool): int { if b then 1 else 0 }

  /** Rewrites the addresses of an IPv4 header: the source and destination
      maps first, then, if chains are configured, the chain walk. The count
      returned covers the chain walk only. */
  method RewriteIpv4L3(cfg: Config, ip: Ipv4Header, dir: Direction, inCidr: (Cidr, bv32) -> bool)
    returns (r: Ipv4Header, count: int)
    requires cfg.cidrMap1.Some? ==> cfg.cidrMap2.Some?
    ensures r.(src := ip.src, dst := ip.dst) == ip
    ensures 0 <= count <= 2
    ensures
      var remap := Remapper4(cfg.skipBroadcast);
      var src1 := ApplyIpMap(cfg.srcIpMap, ip.src, inCidr, remap);
      var dst1 := ApplyIpMap(cfg.dstIpMap, ip.dst, inCidr, remap);
      if cfg.cidrMap1.None? then
        r.src == src1 && r.dst == dst1 && count == 0
      else
        var (srcChain, dstChain) := IpChains(cfg, dir);
        var (s, didsrc) := Resolve(srcChain, src1, inCidr, remap);
        var (d, diddst) := Resolve(dstChain, dst1, inCidr, remap);
        r.src == s && r.dst == d && count == Bit(didsrc) + Bit(diddst)
  {
    var remap := Remapper4(cfg.skipBroadcast);
    var src1 := ApplyIpMap(cfg.srcIpMap, ip.src, inCidr, remap);
    var dst1 := ApplyIpMap(cfg.dstIpMap, ip.dst, inCidr, remap);
    if cfg.cidrMap1.None? {
      return ip.(src := src1, dst := dst1), 0;
    }
    var (srcChain, dstChain) := IpChains(cfg, dir);
    var src, dst, didsrc, diddst, _ := Walk(srcChain, dstChain, src1, dst1, inCidr, remap);
    r := ip.(src := src, dst := dst);
    count := Bit(diddst) + Bit(didsrc);
  }

  /** The IPv6 counterpart of `RewriteIpv4L3`, remapping whole leading bytes. */
  method RewriteIpv6L3(cfg: Config, ip6: Ipv6Header, dir: Direction, inCidr6: (Cidr, Ipv6Addr) -> bool)
    returns (r: Ipv6Header, count: int)
    requires cfg.cidrMap1.Some? ==> cfg.cidrMap2.Some?
    ensures r.(src := ip6.src, dst := ip6.dst) == ip6
    ensures 0 <= count <= 2
    ensures
      var remap := Remapper6(cfg.skipBroadcast);
      var src1 := ApplyIpMap(cfg.srcIpMap, ip6.src, inCidr6, remap);
      var dst1 := ApplyIpMap(cfg.dstIpMap, ip6.dst, inCidr6, remap);
      if cfg.cidrMap1.None? then
        r.src == src1 && r.dst == dst1 && count == 0
      else
        var (srcChain, dstChain) := IpChains(cfg, dir);
        var (s, didsrc) := Resolve(srcChain, src1, inCidr6, remap);
        var (d, diddst) := Resolve(dstChain, dst1, inCidr6, remap);
        r.src == s && r.dst == d && count == Bit(didsrc) + Bit(diddst)
  {
    var remap := Remapper6(cfg.skipBroadcast);
    var src1 := ApplyIpMap(cfg.srcIpMap, ip6.src, inCidr6, remap);
    var dst1 := ApplyIpMap(cfg.dstIpMap, ip6.dst, inCidr6, remap);
    if cfg.cidrMap1.None? {
      return ip6.(src := src1, dst := dst1), 0;
    }
    var (srcChain, dstChain) := IpChains(cfg, dir);
    var src, dst, didsrc, diddst, _ := Walk(srcChain, dstChain, src1, dst1, inCidr6, remap);
    r := ip6.(src := src, dst := dst);
    count := Bit(diddst) + Bit(didsrc);
  }

  /** The (source, destination) chains of an ARP packet: only the two real
      directions select chains, and both chains must exist. */
  function ArpChains(cfg: Config, cacheMode: Direction): Option<(Chain, Chain)>
  {
    if cfg.cidrMap1.None? || cfg.cidrMap2.None? then None
    else if cacheMode == ClientToServer then Some((cfg.cidrMap1.value, cfg.cidrMap2.value))
    else if cacheMode == ServerToClient then Some((cfg.cidrMap2.value, cfg.cidrMap1.value))
    else None
  }

  /** Rewrites the protocol addresses of an IPv4 ARP request or reply with
      the chain walk. In a request the sender's address plays the
      destination role and the target's the source role; a reply swaps
      them. Nothing is rewritten without both chains or for other ARP
      packets. */
  method RewriteIpArp(cfg: Config, arp: seq<bv8>, cacheMode: Direction, inCidr: (Cidr, bv32) -> bool)
    returns (r: seq<bv8>, count: int)
    requires ArpFits(arp)
    requires IsIpv4ReqOrReply(arp) ==> ArpHln(arp) + ArpPln(arp) >= 4
    ensures |r| == |arp| && 0 <= count <= 2
    ensures ArpChains(cfg, cacheMode).None? || !IsIpv4ReqOrReply(arp) ==> r == arp && count == 0
    ensures ArpChains(cfg, cacheMode).Some? && IsIpv4ReqOrReply(arp) ==>
      var (srcChain, dstChain) := ArpChains(cfg, cacheMode).value;
      var remap := Remapper4(cfg.skipBroadcast);
      var s, t := SenderIpOffset(arp), TargetIpOffset(arp);
      var (dstOff, srcOff) := if ArpOp(arp) == ARPOP_REQUEST then (s, t) else (t, s);
      var (d, diddst) := Resolve(dstChain, Word(arp, dstOff), inCidr, remap);
      var (a, didsrc) := Resolve(srcChain, Word(arp, srcOff), inCidr, remap);
      Word(r, dstOff) == d && Word(r, srcOff) == a && count == Bit(didsrc) + Bit(diddst)
      && forall k :: 0 <= k < |arp| && !(s <= k < s + 4) && !(t <= k < t + 4) ==> r[k] == arp[k]
  {
    var chains := ArpChains(cfg, cacheMode);
    if chains.None? || !IsIpv4ReqOrReply(arp) {
      return arp, 0;
    }
    var (srcChain, dstChain) := chains.value;
    var s, t := SenderIpOffset(arp), TargetIpOffset(arp);
    var dstOff, srcOff := s, t;
    if ArpOp(arp) != ARPOP_REQUEST {
      dstOff, srcOff := t, s;
    }
    var src, dst, didsrc, diddst, _ :=
      Walk(srcChain, dstChain, Word(arp, srcOff), Word(arp, dstOff), inCidr, Remapper4(cfg.skipBroadcast));
    PutTwoWords(arp, dstOff, dst, srcOff, src);
    r := PutWord(PutWord(arp, dstOff, dst), srcOff, src);
    count := Bit(didsrc) + Bit(diddst);
  }
}
