/** The length bookkeeping of layer-7 extraction: how many bytes of
    application data an IPv4 packet carries and where they start, measured
    from the start of the IP header. The offsets assume that the located
    IP header is where the data pointer starts, that is, that the header
    lookup leaves the pointer at (a copy of) the IP header. The copy itself
    is not modelled. */
module Payload {
  import opened PacketTypes

  /** Where the data starts, relative to the IP header, and how many bytes
      it has; no data is the span (0, 0). */
  datatype Span = Span(start: int, length: int)

  const NoData: Span := Span(0, 0)

  /** Size of the UDP header (RFC 768). */
  const UDP_HDR_LEN: int := 8

  /** The datagram length as written: the IP total length when the capture
      is longer than it (link-layer padding), otherwise the captured bytes
      after the link-layer header. */
  function DatagramAsWritten(caplen: int, l2len: int, h: Ipv4Header): int
  {
    if caplen > h.len then h.len else caplen - l2len
  }

  /** The transport header the data sits behind: the TCP data offset in
      bytes, or the fixed UDP header. */
  function TransportHeaderLen(proto: Octet, thOff: Nibble): int
  {
    if proto == IPPROTO_TCP then thOff * 4 else UDP_HDR_LEN
  }

  /** The data span as written. `caplen` is the number of captured bytes of
      the whole frame and `l2len` the link-layer header length; `thOff` is
      the TCP data offset, in 32-bit words, of the header the packet
      carries. TCP and UDP data is whatever the datagram holds past both
      headers; ICMP and anything of non-positive length carry no data; an
      unknown protocol's span starts at the IP header itself. */
  function ExtractData(caplen: int, l2len: int, ip: Option<Ipv4Header>, thOff: Nibble): (r: Span)
    ensures r.length >= 0
    ensures r.length == 0 ==> r == NoData
    ensures ip.None? || (ip.Some? && ip.value.proto == IPPROTO_ICMP) ==> r == NoData
    ensures ip.Some? && (ip.value.proto == IPPROTO_TCP || ip.value.proto == IPPROTO_UDP) ==>
      var h := ip.value;
      var n := DatagramAsWritten(caplen, l2len, h) - h.hl * 4 - TransportHeaderLen(h.proto, thOff);
      (r.length > 0 <==> n > 0)
      && (n > 0 ==> r == Span(h.hl * 4 + TransportHeaderLen(h.proto, thOff), n))
      && (n > 0 ==> r.start + r.length == DatagramAsWritten(caplen, l2len, h))
    ensures ip.Some? && ip.value.proto !in {IPPROTO_TCP, IPPROTO_UDP, IPPROTO_ICMP} ==>
      var n := DatagramAsWritten(caplen, l2len, ip.value) - ip.value.hl * 4;
      (r.length > 0 <==> n > 0) && (n > 0 ==> r == Span(0, n))
  {
    match ip
    case None => NoData
    case Some(h) => Layer4Data(DatagramAsWritten(caplen, l2len, h), h, thOff, 0)
  }

  /** The data of a datagram of `datagram` bytes, past the IP header and the
      TCP or UDP header; an unknown protocol's span starts at `otherStart`
      and holds everything past the IP header. */
  function Layer4Data(datagram: int, h: Ipv4Header, thOff: Nibble, otherStart: int): (r: Span)
    ensures r.length >= 0 && (r.length == 0 ==> r == NoData)
    ensures h.proto == IPPROTO_ICMP ==> r == NoData
    ensures h.proto == IPPROTO_TCP || h.proto == IPPROTO_UDP ==>
      var n := datagram - h.hl * 4 - TransportHeaderLen(h.proto, thOff);
      (r.length > 0 <==> n > 0)
      && (n > 0 ==> r == Span(h.hl * 4 + TransportHeaderLen(h.proto, thOff), n))
      && (n > 0 ==> r.start + r.length == datagram)
    ensures h.proto !in {IPPROTO_TCP, IPPROTO_UDP, IPPROTO_ICMP} ==>
      (r.length > 0 <==> datagram - h.hl * 4 > 0)
      && (datagram - h.hl * 4 > 0 ==> r == Span(otherStart, datagram - h.hl * 4))
  {
    var afterIp := datagram - h.hl * 4;
    if afterIp <= 0 then NoData
    else if h.proto == IPPROTO_TCP then
      var n := afterIp - thOff * 4;
      if n <= 0 then NoData else Span(h.hl * 4 + thOff * 4, n)
    else if h.proto == IPPROTO_UDP then
      var n := afterIp - UDP_HDR_LEN;
      if n <= 0 then NoData else Span(h.hl * 4 + UDP_HDR_LEN, n)
    else if h.proto == IPPROTO_ICMP then NoData
    else Span(otherStart, afterIp)
  }

  /** As written, a datagram whose stated length lies between the captured
      IP bytes and the whole capture is believed over the capture: 60
      captured bytes with a 14-byte link header leave 46 IP bytes, yet a
      UDP datagram stating 50 is given a span ending at byte 50. */
  lemma ExtractDataOverreads()
    ensures var h := Ipv4Header(5, 50, 0, 64, IPPROTO_UDP, 0, 0);
      ExtractData(60, 14, Some(h), 0) == Span(28, 22) && 28 + 22 > 60 - 14
  {
  }

  /** As written, an unknown protocol's span starts at the IP header, so it
      covers the header and omits as many bytes at the end. */
  lemma ExtractDataOtherIncludesHeader()
    ensures var h := Ipv4Header(5, 60, 0, 64, 47, 0, 0);
      ExtractData(100, 14, Some(h), 0) == Span(0, 40)
  {
  }

  /** The span as evidently intended: the datagram is whatever the stated
      length and the captured bytes both cover, and every protocol's data
      starts past the IP header. */
  function ExtractDataIntended(caplen: int, l2len: int, ip: Option<Ipv4Header>, thOff: Nibble): (r: Span)
    ensures r.length >= 0 && (r.length == 0 ==> r == NoData)
    ensures ip.None? || (ip.Some? && ip.value.proto == IPPROTO_ICMP) ==> r == NoData
    ensures ip.Some? && (ip.value.proto == IPPROTO_TCP || ip.value.proto == IPPROTO_UDP) ==>
      var h := ip.value;
      var n := Min(h.len, caplen - l2len) - h.hl * 4 - TransportHeaderLen(h.proto, thOff);
      (r.length > 0 <==> n > 0)
      && (n > 0 ==> r == Span(h.hl * 4 + TransportHeaderLen(h.proto, thOff), n))
    ensures ip.Some? && ip.value.proto !in {IPPROTO_TCP, IPPROTO_UDP, IPPROTO_ICMP} ==>
      var n := Min(ip.value.len, caplen - l2len) - ip.value.hl * 4;
      (r.length > 0 <==> n > 0) && (n > 0 ==> r == Span(ip.value.hl * 4, n))
  {
    match ip
    case None => NoData
    case Some(h) => Layer4Data(Min(h.len, caplen - l2len), h, thOff, h.hl * 4)
  }

  /** The intended span never leaves the captured IP bytes nor the stated
      datagram, and starts past the IP header. */
  lemma ExtractDataIntendedWithinCapture(caplen: int, l2len: int, h: Ipv4Header, thOff: Nibble)
    ensures var r := ExtractDataIntended(caplen, l2len, Some(h), thOff);
      r.length > 0 ==>
        h.hl * 4 <= r.start && r.start + r.length <= caplen - l2len && r.start + r.length <= h.len
  {
  }

  /** For TCP and UDP the two agree unless the stated length falls strictly
      between the captured IP bytes and the whole capture. */
  lemma ExtractDataAgrees(caplen: int, l2len: int, h: Ipv4Header, thOff: Nibble)
    requires h.proto == IPPROTO_TCP || h.proto == IPPROTO_UDP || h.proto == IPPROTO_ICMP
    requires l2len >= 0
    requires !(caplen - l2len < h.len < caplen)
    ensures ExtractData(caplen, l2len, Some(h), thOff) == ExtractDataIntended(caplen, l2len, Some(h), thOff)
  {
  }
}
