/** Capture repair: padding a short capture with zeros, trusting the captured
    length instead of the wire length, or clipping a frame to an MTU. The
    capture record, the packet buffer and the IPv4/IPv6 length fields are
    what it may change. */
module CaptureRepair {
  import opened PacketTypes

  /** The packet state the repair reads and writes. `data` is the packet
      buffer, as long as the room the caller provides. */
  datatype Frame = Frame(hdr: PktHdr, data: seq<bv8>, ip: Option<Ipv4Header>, ip6: Option<Ipv6Header>)

  /** Size of the fixed IPv6 header (RFC 8200 section 3). */
  const IPV6_HDR_LEN: int := 40

  /** C's conversion of an `int` to an unsigned 16-bit or 32-bit field. */
  function U16(x: int): Uint16 { x % 0x1_0000 }
  function U32(x: int): Uint32 { x % 0x1_0000_0000 }

  /** Nothing to repair: the capture is whole, or the frame carries no IP
      header, and MTU clipping is off. */
  predicate LeftAlone(cfg: Config, f: Frame)
  {
    (f.hdr.caplen == f.hdr.len || (f.ip.None? && f.ip6.None?)) && !cfg.mtuTruncate
  }

  /** The repair goes on to pad the buffer up to the wire length. */
  predicate Pads(cfg: Config, f: Frame, l2len: int)
  {
    !LeftAlone(cfg, f) && l2len >= 0 && cfg.fixlen == FixLenPad && f.hdr.len > f.hdr.caplen
  }

  /** The repair goes on to write the IPv4 total length while truncating. */
  predicate TruncWritesIpLen(cfg: Config, f: Frame, l2len: int)
  {
    !LeftAlone(cfg, f) && l2len >= 0 && cfg.fixlen == FixLenTrunc && f.hdr.len != f.hdr.caplen
  }

  /** `data` with the bytes in [from, to) set to zero. */
  function Zeroed(data: seq<bv8>, from: nat, to: nat): (r: seq<bv8>)
    requires from <= to <= |data|
    ensures |r| == |data|
    ensures forall k :: 0 <= k < |data| ==> r[k] == if from <= k < to then 0 else data[k]
  {
    data[..from] + seq(to - from, _ => 0) + data[to..]
  }

  /** The MTU clip as written: a frame longer on the wire than `l2len + mtu`
      gets both lengths set to that limit, and its IP length field set to
      the MTU (less the fixed header for IPv6). A frame with no IP header is
      clipped but reported as 0. */
  function MtuClip(cfg: Config, f: Frame, l2len: int): (r: (Frame, int))
    ensures r.0.data == f.data
    ensures f.hdr.len <= U32(cfg.mtu + l2len) ==> r == (f, 1)
    ensures f.hdr.len > U32(cfg.mtu + l2len) ==>
      r.0.hdr == PktHdr(U32(cfg.mtu + l2len), U32(cfg.mtu + l2len))
    ensures f.hdr.len > U32(cfg.mtu + l2len) && f.ip.Some? ==>
      r.1 == 1 && r.0.ip == Some(f.ip.value.(len := U16(cfg.mtu))) && r.0.ip6 == f.ip6
    ensures f.hdr.len > U32(cfg.mtu + l2len) && f.ip.None? && f.ip6.Some? ==>
      r.1 == 1 && r.0.ip == f.ip && r.0.ip6 == Some(f.ip6.value.(payloadLen := U16(cfg.mtu - IPV6_HDR_LEN)))
    ensures f.hdr.len > U32(cfg.mtu + l2len) && f.ip.None? && f.ip6.None? ==>
      r.1 == 0 && r.0 == f.(hdr := r.0.hdr)
  {
    var limit := U32(l2len + cfg.mtu);
    if f.hdr.len > limit then
      var clipped := f.(hdr := PktHdr(limit, limit));
      if f.ip.Some? then (clipped.(ip := Some(f.ip.value.(len := U16(cfg.mtu)))), 1)
      else if f.ip6.Some? then
        (clipped.(ip6 := Some(f.ip6.value.(payloadLen := U16(cfg.mtu - IPV6_HDR_LEN)))), 1)
      else (clipped, 0)
    else (f, 1)
  }

  /** As written, the clip can raise the captured length above the bytes
      that were captured: 60 bytes captured of a 1514-byte frame, with a
      14-byte link header and an MTU of 1000, come out claiming 1014
      captured bytes. */
  lemma MtuClipRaisesCaplen()
    ensures var f := Frame(PktHdr(60, 1514), [], Some(Ipv4Header(5, 1500, 0, 64, 6, 0, 0)), None);
      var cfg := Config(0, false, TtlOff, 0, FixLenOff, true, 1000, None, None, None, None);
      MtuClip(cfg, f, 14).0.hdr.caplen == 1014 > f.hdr.caplen
  {
  }

  /** The clip as evidently intended: the wire length is clipped to the
      limit and the captured length never grows. */
  function MtuClipIntended(cfg: Config, f: Frame, l2len: int): (r: (Frame, int))
    ensures r.0.hdr.caplen <= f.hdr.caplen
    ensures f.hdr.len > U32(cfg.mtu + l2len) ==>
      r.0.hdr.len == U32(cfg.mtu + l2len) && r.0.hdr.caplen <= r.0.hdr.len
  {
    var limit := U32(l2len + cfg.mtu);
    var (g, ret) := MtuClip(cfg, f, l2len);
    if f.hdr.len > limit && f.hdr.caplen < limit then (g.(hdr := g.hdr.(caplen := f.hdr.caplen)), ret)
    else (g, ret)
  }

  /** The intended clip differs from the written one only when fewer bytes
      than the limit were captured. */
  lemma MtuClipIntendedAgrees(cfg: Config, f: Frame, l2len: int)
    requires f.hdr.caplen >= U32(cfg.mtu + l2len)
    ensures MtuClipIntended(cfg, f, l2len) == MtuClip(cfg, f, l2len)
  {
  }

  /** Repairs a frame whose captured length differs from its wire length.
      Returns 0 when nothing was done (or for a clipped non-IP frame), 1
      after a repair and -1 on error, in which case nothing changes. */
  function UntruncPacket(cfg: Config, f: Frame, l2len: int): (r: (Frame, int))
    requires Pads(cfg, f, l2len) ==> f.hdr.len <= |f.data|
    requires TruncWritesIpLen(cfg, f, l2len) ==> f.ip.Some?
    ensures r.1 == -1 || r.1 == 0 || r.1 == 1
    ensures LeftAlone(cfg, f) ==> r == (f, 0)
    ensures r.1 == -1 <==>
      (!LeftAlone(cfg, f) &&
       (l2len < 0
        || (cfg.fixlen == FixLenPad && f.hdr.len < f.hdr.caplen)
        || (cfg.fixlen != FixLenPad && cfg.fixlen != FixLenTrunc && !cfg.mtuTruncate)))
    ensures r.1 == -1 ==> r.0 == f
    ensures r.1 == 0 ==> r.0.data == f.data && r.0.ip == f.ip && r.0.ip6 == f.ip6
    ensures !LeftAlone(cfg, f) && r.1 != -1 && cfg.fixlen == FixLenPad ==>
      r.0.hdr == f.hdr.(caplen := f.hdr.len) && r.0.ip == f.ip && r.0.ip6 == f.ip6
      && |r.0.data| == |f.data|
      && forall k :: 0 <= k < |f.data| ==>
           r.0.data[k] == if f.hdr.caplen <= k < f.hdr.len then 0 else f.data[k]
    ensures !LeftAlone(cfg, f) && r.1 != -1 && cfg.fixlen == FixLenTrunc ==>
      r.0.hdr == f.hdr.(len := f.hdr.caplen) && r.0.data == f.data && r.0.ip6 == f.ip6
      && (f.hdr.len == f.hdr.caplen ==> r.0.ip == f.ip)
      && (f.hdr.len != f.hdr.caplen ==> r.0.ip == Some(f.ip.value.(len := U16(f.hdr.caplen - l2len))))
    ensures !LeftAlone(cfg, f) && r.1 != -1 && cfg.fixlen != FixLenPad && cfg.fixlen != FixLenTrunc ==>
      r == MtuClip(cfg, f, l2len)
  {
    if LeftAlone(cfg, f) then (f, 0)
    else if l2len < 0 then (f, -1)
    else if cfg.fixlen == FixLenPad then
      if f.hdr.len > f.hdr.caplen then
        (f.(hdr := f.hdr.(caplen := f.hdr.len), data := Zeroed(f.data, f.hdr.caplen, f.hdr.len)), 1)
      else if f.hdr.len < f.hdr.caplen then (f, -1)
      else (f, 1)
    else if cfg.fixlen == FixLenTrunc then
      var ip := if f.hdr.len != f.hdr.caplen then Some(f.ip.value.(len := U16(f.hdr.caplen - l2len))) else f.ip;
      (f.(hdr := f.hdr.(len := f.hdr.caplen), ip := ip), 1)
    else if cfg.mtuTruncate then MtuClip(cfg, f, l2len)
    else (f, -1)
  }

  /** After a pad or truncation that reports a repair the capture is
      consistent: the captured length equals the wire length. */
  lemma UntruncMakesConsistent(cfg: Config, f: Frame, l2len: int)
    requires Pads(cfg, f, l2len) ==> f.hdr.len <= |f.data|
    requires TruncWritesIpLen(cfg, f, l2len) ==> f.ip.Some?
    requires cfg.fixlen == FixLenPad || cfg.fixlen == FixLenTrunc
    requires UntruncPacket(cfg, f, l2len).1 == 1
    ensures UntruncPacket(cfg, f, l2len).0.hdr.caplen == UntruncPacket(cfg, f, l2len).0.hdr.len
  {
  }

  /** Repairing a repaired frame changes nothing: whatever mode did the
      first repair finds nothing left to do the second time. */
  lemma UntruncIdempotent(cfg: Config, f: Frame, l2len: int)
    requires Pads(cfg, f, l2len) ==> f.hdr.len <= |f.data|
    requires TruncWritesIpLen(cfg, f, l2len) ==> f.ip.Some?
    requires UntruncPacket(cfg, f, l2len).1 != -1
    ensures var g := UntruncPacket(cfg, f, l2len).0;
      !Pads(cfg, g, l2len) && !TruncWritesIpLen(cfg, g, l2len)
      && UntruncPacket(cfg, g, l2len).0 == g
  {
    var g := UntruncPacket(cfg, f, l2len).0;
    if !LeftAlone(cfg, f) && cfg.fixlen != FixLenPad && cfg.fixlen != FixLenTrunc {
      assert g.hdr.len <= U32(cfg.mtu + l2len);
    }
  }
}
