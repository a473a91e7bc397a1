/** When the editor recomputes checksums after rewriting a packet, and how
    the outcomes of the individual recomputations combine. The
    recomputation itself is an oracle supplied by the caller. */
module ChecksumFixup {
  import opened PacketTypes

  /** One request to the checksum oracle: the protocol whose checksum is to
      be recomputed (`IPPROTO_IP` for the IPv4 header itself) and the number
      of bytes it covers. */
  datatype ChecksumRequest = ChecksumRequest(proto: Octet, length: int)

  /** The fragment-offset bits of the IPv4 flags-and-offset field (RFC 791
      section 3.1). */
  const IP_OFFMASK: int := 0x1fff

  /** Error outranks a warning, which outranks success. */
  function Combine(a: Status, b: Status): Status
  {
    if a == Error || b == Error then Error
    else if a == Warn || b == Warn then Warn
    else Ok
  }

  /** The combined status of a series of outcomes. */
  function Worst(s: seq<Status>): Status
  {
    if |s| == 0 then Ok else Combine(s[0], Worst(s[1..]))
  }

  /** The series is an error exactly when one outcome is, and a warning
      exactly when none is an error but one is a warning. */
  lemma {:induction false} WorstIsWorst(s: seq<Status>)
    ensures Worst(s) == Error <==> exists i :: 0 <= i < |s| && s[i] == Error
    ensures Worst(s) == Warn <==>
      (forall i :: 0 <= i < |s| ==> s[i] != Error) && exists i :: 0 <= i < |s| && s[i] == Warn
  {
    if |s| > 0 {
      WorstIsWorst(s[1..]);
      assert forall i :: 1 <= i < |s| ==> s[i] == s[1..][i - 1];
      if s[0] != Error {
        assert (exists i :: 0 <= i < |s| && s[i] == Error) ==> exists i :: 0 <= i < |s[1..]| && s[1..][i] == Error;
      }
      if s[0] != Warn {
        assert (exists i :: 0 <= i < |s| && s[i] == Warn) ==> exists i :: 0 <= i < |s[1..]| && s[1..][i] == Warn;
      }
    }
  }

  lemma WorstOfOne(a: Status)
    ensures Worst([a]) == a
  {
    assert [a][1..] == [];
  }

  lemma WorstOfTwo(a: Status, b: Status)
    ensures Worst([a, b]) == Combine(a, b)
  {
    assert [a, b][1..] == [b];
    WorstOfOne(b);
  }

  /** The oracle's answer to each request, in order. */
  function Outcomes(calls: seq<ChecksumRequest>, doChecksum: ChecksumRequest -> Status): (o: seq<Status>)
    ensures |o| == |calls| && forall i :: 0 <= i < |calls| ==> o[i] == doChecksum(calls[i])
  {
    seq(|calls|, i requires 0 <= i < |calls| => doChecksum(calls[i]))
  }

  /** The layer-4 checksum of an IPv4 packet may only be recomputed when the
      whole packet was captured and it is not a non-first fragment. */
  predicate FixesLayer4V4(hdr: PktHdr, ip: Ipv4Header)
  {
    hdr.caplen == hdr.len && ip.off % (IP_OFFMASK + 1) == 0
  }

  /** Recomputes the layer-4 checksum when allowed, then the header
      checksum; an error on the first stops before the second. Returns the
      combined status and the requests made, in order. */
  function FixIpv4Checksums(hdr: PktHdr, ip: Ipv4Header, doChecksum: ChecksumRequest -> Status)
    : (r: (Status, seq<ChecksumRequest>))
    ensures r.0 == Worst(Outcomes(r.1, doChecksum))
    ensures var l4 := ChecksumRequest(ip.proto, ip.len - ip.hl * 4);
      var header := ChecksumRequest(IPPROTO_IP, ip.len);
      if !FixesLayer4V4(hdr, ip) then r.1 == [header]
      else if doChecksum(l4) == Error then r.1 == [l4]
      else r.1 == [l4, header]
  {
    var l4 := ChecksumRequest(ip.proto, ip.len - ip.hl * 4);
    var header := ChecksumRequest(IPPROTO_IP, ip.len);
    var ret1 := if FixesLayer4V4(hdr, ip) then doChecksum(l4) else Ok;
    if ret1 == Error then (Error, [l4])
    else
      var calls := (if FixesLayer4V4(hdr, ip) then [l4] else []) + [header];
      var ret2 := doChecksum(header);
      assert Outcomes(calls, doChecksum) == (if FixesLayer4V4(hdr, ip) then [ret1] else []) + [ret2];
      WorstOfTwo(ret1, ret2);
      WorstOfOne(ret2);
      if ret2 == Error then (Error, calls)
      else if ret1 == Warn || ret2 == Warn then (Warn, calls)
      else (Ok, calls)
  }

  /** A partial capture or a later fragment only gets its header checksum
      recomputed, and the result is exactly the oracle's answer for it. */
  lemma FixIpv4HeaderOnly(hdr: PktHdr, ip: Ipv4Header, doChecksum: ChecksumRequest -> Status)
    requires hdr.caplen != hdr.len || ip.off % (IP_OFFMASK + 1) != 0
    ensures FixIpv4Checksums(hdr, ip, doChecksum)
         == (doChecksum(ChecksumRequest(IPPROTO_IP, ip.len)), [ChecksumRequest(IPPROTO_IP, ip.len)])
  {
    var o := Outcomes([ChecksumRequest(IPPROTO_IP, ip.len)], doChecksum);
    assert Worst(o) == Combine(o[0], Worst([]));
  }

  /** IPv6 has no header checksum: only the layer-4 checksum, and only when
      the whole packet was captured. */
  function FixIpv6Checksums(hdr: PktHdr, ip6: Ipv6Header, doChecksum: ChecksumRequest -> Status)
    : (r: (Status, seq<ChecksumRequest>))
    ensures r.0 == Worst(Outcomes(r.1, doChecksum))
    ensures r.1 == if hdr.caplen == hdr.len then [ChecksumRequest(ip6.nextHeader, ip6.payloadLen)] else []
  {
    if hdr.caplen == hdr.len then
      var l4 := ChecksumRequest(ip6.nextHeader, ip6.payloadLen);
      var ret := doChecksum(l4);
      (if ret == Error then Error else if ret == Warn then Warn else Ok, [l4])
    else (Ok, [])
  }
}
