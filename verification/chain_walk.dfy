/** The CIDR-map chain walker shared by the IPv4, IPv6 and ARP address
    rewriters. Two chains are walked in lockstep: one decides the source
    address, the other the destination address. A cursor that reaches the
    tail of its chain stays there while the other chain goes on. */
module ChainWalk {
  import opened PacketTypes

  /** The index of the first entry of `chain` whose `from` block holds `a`,
      as decided by the membership test `inCidr`. */
  function FirstMatch<A>(chain: seq<CidrMap>, a: A, inCidr: (Cidr, A) -> bool): (r: Option<nat>)
    ensures r.Some? ==> r.value < |chain| && inCidr(chain[r.value].from, a)
    ensures r.Some? ==> forall t :: 0 <= t < r.value ==> !inCidr(chain[t].from, a)
    ensures r.None? <==> forall t :: 0 <= t < |chain| ==> !inCidr(chain[t].from, a)
  {
    if |chain| == 0 then None
    else if inCidr(chain[0].from, a) then Some(0)
    else
      match FirstMatch(chain[1..], a, inCidr)
      case None => None
      case Some(t) => Some(t + 1)
  }

  /** First-match-wins on one chain: the address after the first matching
      entry has remapped it, and whether any entry matched. */
  function Resolve<A>(chain: seq<CidrMap>, a: A, inCidr: (Cidr, A) -> bool, remap: (Cidr, A) -> A): (A, bool)
  {
    match FirstMatch(chain, a, inCidr)
    case None => (a, false)
    case Some(t) => (remap(chain[t].to, a), true)
  }

  /** What the walk knows about one side after `tested` distinct entries of
      its chain have been tried: either an entry matched and the address was
      remapped by the first match, or no entry so far matched and the
      address is untouched. */
  ghost predicate SideProgress<A>(chain: seq<CidrMap>, a0: A, did: bool, a: A, tested: nat,
                                  inCidr: (Cidr, A) -> bool, remap: (Cidr, A) -> A)
  {
    tested <= |chain| &&
    if did then
      FirstMatch(chain, a0, inCidr).Some? && FirstMatch(chain, a0, inCidr).value < tested
      && a == remap(chain[FirstMatch(chain, a0, inCidr).value].to, a0)
    else
      a == a0 && forall t :: 0 <= t < tested ==> !inCidr(chain[t].from, a0)
  }

  /** Walks the source chain and the destination chain in lockstep. On each
      step the destination is tried against the current destination entry
      and then the source against the current source entry, each side at most
      until it has been remapped once. The walk stops when both sides are
      done or both cursors sit on their tails. The result is exactly an
      independent first-match lookup on each chain, reached in at most as
      many steps as the longer chain has entries. */
  method Walk<A>(srcChain: Chain, dstChain: Chain, src0: A, dst0: A,
                 inCidr: (Cidr, A) -> bool, remap: (Cidr, A) -> A)
    returns (src: A, dst: A, didsrc: bool, diddst: bool, steps: nat)
    ensures (dst, diddst) == Resolve(dstChain, dst0, inCidr, remap)
    ensures (src, didsrc) == Resolve(srcChain, src0, inCidr, remap)
    ensures 1 <= steps <= Max(|srcChain|, |dstChain|)
  {
    var i, j := 0, 0;   // cursors into srcChain and dstChain
    src, dst, didsrc, diddst := src0, dst0, false, false;
    steps := 0;
    while true
      invariant steps < Max(|srcChain|, |dstChain|)
      invariant i == Min(steps, |srcChain| - 1) && j == Min(steps, |dstChain| - 1)
      invariant SideProgress(dstChain, dst0, diddst, dst, Min(steps, |dstChain|), inCidr, remap)
      invariant SideProgress(srcChain, src0, didsrc, src, Min(steps, |srcChain|), inCidr, remap)
      decreases Max(|srcChain|, |dstChain|) - steps
    {
      if !diddst && inCidr(dstChain[j].from, dst) {
        dst := remap(dstChain[j].to, dst);
        diddst := true;
      }
      if !didsrc && inCidr(srcChain[i].from, src) {
        src := remap(srcChain[i].to, src);
        didsrc := true;
      }
      steps := steps + 1;
      if !(diddst && didsrc) && !(i == |srcChain| - 1 && j == |dstChain| - 1) {
        if i < |srcChain| - 1 {
          i := i + 1;
        }
        if j < |dstChain| - 1 {
          j := j + 1;
        }
      } else {
        break;
      }
    }
  }
}
