/** The TTL policy of the editor, applied to the 8-bit Time to Live of IPv4
    (RFC 791 section 3.1) and the 8-bit Hop Limit of IPv6 (RFC 8200
    section 3). */
module HopLimit {
  import opened PacketTypes

  /** The outcome of the policy on one field: the new value and the
      source's change flag (0 for no change, 1 for a change). */
  datatype Edited = Edited(field: Octet, changed: int)

  /** One application of the policy. Setting an equal value and switching
      the policy off are the only outcomes reported as "no change"; adding
      saturates at 255 and subtracting never goes below 1, so a packet is
      never given a TTL of 0. */
  function ApplyTtlPolicy(mode: TtlMode, value: Octet, field: Octet): (r: Edited)
    ensures r.changed == 0 || r.changed == 1
    ensures r.changed == 0 <==> mode == TtlOff || (mode == TtlSet && field == value)
    ensures r.changed == 0 ==> r.field == field
    ensures mode == TtlSet ==> r.field == value
    ensures mode == TtlAdd ==> r.field == Min(field + value, 255)
    ensures mode == TtlSub ==> r.field == Max(field - value, 1)
  {
    match mode
    case TtlOff => Edited(field, 0)
    case TtlSet =>
      if field == value then Edited(field, 0) else Edited(value, 1)
    case TtlAdd =>
      if field + value > 255 then Edited(255, 1) else Edited(field + value, 1)
    case TtlSub =>
      if field <= value then Edited(1, 1) else Edited(field - value, 1)
  }

  /** Subtraction and addition keep the field live and move it only one
      way; setting twice reports no change the second time. */
  lemma TtlPolicyBounds(mode: TtlMode, value: Octet, field: Octet)
    ensures mode == TtlSub ==> 1 <= ApplyTtlPolicy(mode, value, field).field <= Max(field, 1)
    ensures mode == TtlAdd ==> field <= ApplyTtlPolicy(mode, value, field).field
    ensures ApplyTtlPolicy(TtlSet, value, ApplyTtlPolicy(TtlSet, value, field).field) == Edited(value, 0)
  {
  }

  /** The saturation examples: adding 200 to 100 gives 255, subtracting 200
      from 100 gives 1. */
  lemma TtlSaturationExamples()
    ensures ApplyTtlPolicy(TtlAdd, 200, 100) == Edited(255, 1)
    ensures ApplyTtlPolicy(TtlSub, 200, 100) == Edited(1, 1)
  {
  }

  /** Rewrites the TTL of an IPv4 header (absent header: nothing to do). */
  function RewriteIpv4Ttl(cfg: Config, ip: Option<Ipv4Header>): (r: (Option<Ipv4Header>, int))
    ensures ip.None? ==> r == (None, 0)
    ensures ip.Some? ==> r.0.Some? && r.0.value.(ttl := ip.value.ttl) == ip.value
    ensures ip.Some? ==> r.0.value.ttl == ApplyTtlPolicy(cfg.ttlMode, cfg.ttlValue, ip.value.ttl).field
    ensures ip.Some? ==> r.1 == ApplyTtlPolicy(cfg.ttlMode, cfg.ttlValue, ip.value.ttl).changed
  {
    match ip
    case None => (None, 0)
    case Some(h) =>
      if cfg.ttlMode == TtlOff then (ip, 0)
      else
        var e := ApplyTtlPolicy(cfg.ttlMode, cfg.ttlValue, h.ttl);
        (Some(h.(ttl := e.field)), e.changed)
  }

  /** Rewrites the Hop Limit of an IPv6 header (absent header: nothing to do). */
  function RewriteIpv6Hlim(cfg: Config, ip6: Option<Ipv6Header>): (r: (Option<Ipv6Header>, int))
    ensures ip6.None? ==> r == (None, 0)
    ensures ip6.Some? ==> r.0.Some? && r.0.value.(hopLimit := ip6.value.hopLimit) == ip6.value
    ensures ip6.Some? ==> r.0.value.hopLimit == ApplyTtlPolicy(cfg.ttlMode, cfg.ttlValue, ip6.value.hopLimit).field
    ensures ip6.Some? ==> r.1 == ApplyTtlPolicy(cfg.ttlMode, cfg.ttlValue, ip6.value.hopLimit).changed
  {
    match ip6
    case None => (None, 0)
    case Some(h) =>
      if cfg.ttlMode == TtlOff then (ip6, 0)
      else
        var e := ApplyTtlPolicy(cfg.ttlMode, cfg.ttlValue, h.hopLimit);
        (Some(h.(hopLimit := e.field)), e.changed)
  }

  /** The IPv6 rewrite treats the hop limit exactly as the IPv4 rewrite
      treats the TTL. */
  lemma HopLimitMatchesTtl(cfg: Config, ip: Ipv4Header, ip6: Ipv6Header)
    requires ip.ttl == ip6.hopLimit
    ensures RewriteIpv6Hlim(cfg, Some(ip6)).0.value.hopLimit == RewriteIpv4Ttl(cfg, Some(ip)).0.value.ttl
    ensures RewriteIpv6Hlim(cfg, Some(ip6)).1 == RewriteIpv4Ttl(cfg, Some(ip)).1
  {
  }
}
