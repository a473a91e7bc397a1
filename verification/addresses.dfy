/** Address classification and the two address transforms of the editor:
    seed-keyed randomization and CIDR remapping, for IPv4 and IPv6. */
module Addresses {
  import opened PacketTypes
  import opened ByteFields

  /** 224.0.0.0 (3758096384), the first class D address of RFC 1112 section 4. */
  const CLASS_D_BASE: bv32 := 0xE000_0000

  /** The editor's unicast test: any address above 224.0.0.0. */
  predicate IsUnicastV4(ip: bv32)
  {
    !(ip > CLASS_D_BASE)
  }

  /** The comparison is strict, so 224.0.0.0 itself is classified as unicast;
      every other address whose first octet is 224 or above (class D and E)
      is not. */
  lemma UnicastByFirstOctet(ip: bv32)
    ensures IsUnicastV4(ip) <==> (ip >> 24) < 224 || ip == CLASS_D_BASE
  {
  }

  /** As written, the strict comparison lets the first class D address
      through as unicast. */
  lemma UnicastOffByOne()
    ensures IsUnicastV4(CLASS_D_BASE) && !IsUnicastV4Intended(CLASS_D_BASE)
  {
  }

  /** The classification the test is documented to make: 224.0.0.0 and
      every address above it are multicast or broadcast. */
  predicate IsUnicastV4Intended(ip: bv32)
  {
    ip < CLASS_D_BASE
  }

  /** The intended test is exactly "first octet below 224", and differs from
      the written one at 224.0.0.0 only. */
  lemma UnicastIntendedByFirstOctet(ip: bv32)
    ensures IsUnicastV4Intended(ip) <==> (ip >> 24) < 224
    ensures ip != CLASS_D_BASE ==> (IsUnicastV4Intended(ip) <==> IsUnicastV4(ip))
  {
  }

  /** Membership of ff00::/8, the multicast prefix of RFC 4291 section 2.7. */
  function IsMulticastV6(a: Ipv6Addr): (multicast: bool)
    ensures multicast <==> (Word(a, 0) & 0xff00_0000) == 0xff00_0000
  {
    a[0] == 0xff
  }

  /** The seed-keyed transform `(ip ^ s) - (ip & s)` on a 32-bit word,
      wrapping modulo 2^32. */
  function RandomizeWord(ip: bv32, seed: bv32): (r: bv32)
    ensures seed == 0 ==> r == ip
    ensures (ip & seed) == 0 ==> r == (ip | seed)
  {
    (ip ^ seed) - (ip & seed)
  }

  /** The transform is not a bijection: with seed 1, 0.0.0.0 and 0.0.0.3
      both become 0.0.0.1. */
  lemma RandomizeWordCollides()
    ensures exists a: bv32, b: bv32 :: a != b && RandomizeWord(a, 1) == RandomizeWord(b, 1)
  {
    assert RandomizeWord(0, 1) == RandomizeWord(3, 1) == 1;
  }

  /** Randomizes an IPv4 address, leaving non-unicast addresses alone when
      broadcast skipping is on. */
  function RandomizeV4Addr(seed: bv32, skipBroadcast: bool, ip: bv32): (r: bv32)
    ensures skipBroadcast && !IsUnicastV4(ip) ==> r == ip
    ensures !skipBroadcast || IsUnicastV4(ip) ==> r == (ip ^ seed) - (ip & seed)
  {
    if skipBroadcast && !IsUnicastV4(ip) then ip else RandomizeWord(ip, seed)
  }

  /** With skipping on, a multicast address such as 224.0.0.1 survives any seed. */
  lemma RandomizeV4KeepsMulticast(seed: bv32)
    ensures RandomizeV4Addr(seed, true, 0xE000_0001) == 0xE000_0001
  {
  }

  /** The 16 bytes obtained by transforming each of the four words of `a`. */
  function RandomizeWords(a: Ipv6Addr, seed: bv32): (t: Ipv6Addr)
  {
    Bytes(RandomizeWord(Word(a, 0), seed)) + Bytes(RandomizeWord(Word(a, 4), seed))
      + Bytes(RandomizeWord(Word(a, 8), seed)) + Bytes(RandomizeWord(Word(a, 12), seed))
  }

  /** The words of the transformed bytes are the transformed words. */
  lemma RandomizeWordsWords(a: Ipv6Addr, seed: bv32)
    ensures Word(RandomizeWords(a, seed), 0) == RandomizeWord(Word(a, 0), seed)
    ensures Word(RandomizeWords(a, seed), 4) == RandomizeWord(Word(a, 4), seed)
    ensures Word(RandomizeWords(a, seed), 8) == RandomizeWord(Word(a, 8), seed)
    ensures Word(RandomizeWords(a, seed), 12) == RandomizeWord(Word(a, 12), seed)
  {
    var w0, w1, w2, w3 := RandomizeWord(Word(a, 0), seed), RandomizeWord(Word(a, 4), seed),
      RandomizeWord(Word(a, 8), seed), RandomizeWord(Word(a, 12), seed);
    WordOfBytes(w0);
    WordOfBytes(w1);
    WordOfBytes(w2);
    WordOfBytes(w3);
    var t := RandomizeWords(a, seed);
    assert t[..4] == Bytes(w0) && t[4..8] == Bytes(w1) && t[8..12] == Bytes(w2) && t[12..] == Bytes(w3);
    WordOfSlice(t, 0);
    WordOfSlice(t, 4);
    WordOfSlice(t, 8);
    WordOfSlice(t, 12);
  }

  /** Randomizes an IPv6 address word by word, then repairs the first byte
      so that the address is multicast afterwards exactly when it was before:
      a multicast address gets 0xff back, and a unicast one that the
      transform happened to turn into 0xff.. gets 0xaa instead. */
  function RandomizeV6Addr(seed: bv32, a: Ipv6Addr): (r: Ipv6Addr)
    ensures IsMulticastV6(r) <==> IsMulticastV6(a)
    ensures r[1..] == RandomizeWords(a, seed)[1..]
    ensures !IsMulticastV6(a) ==>
      r[0] == (if RandomizeWords(a, seed)[0] == 0xff then 0xaa else RandomizeWords(a, seed)[0])
  {
    var t := RandomizeWords(a, seed);
    if IsMulticastV6(a) then t[0 := 0xff]
    else if IsMulticastV6(t) then t[0 := 0xaa]
    else t
  }

  /** Apart from the repaired first byte, every byte of the result is a
      byte of the transformed words of the input. */
  lemma RandomizeV6AddrWords(seed: bv32, a: Ipv6Addr)
    ensures Word(RandomizeV6Addr(seed, a), 4) == RandomizeWord(Word(a, 4), seed)
    ensures Word(RandomizeV6Addr(seed, a), 8) == RandomizeWord(Word(a, 8), seed)
    ensures Word(RandomizeV6Addr(seed, a), 12) == RandomizeWord(Word(a, 12), seed)
    ensures RandomizeV6Addr(seed, a)[1..4] == Bytes(RandomizeWord(Word(a, 0), seed))[1..]
  {
    var r, t := RandomizeV6Addr(seed, a), RandomizeWords(a, seed);
    RandomizeWordsWords(a, seed);
    SameTailSameWords(r, t);
    assert r[1..4] == t[1..4];
  }

  /** Two addresses that differ at most in their first byte share their
      last three words. */
  lemma SameTailSameWords(r: Ipv6Addr, t: Ipv6Addr)
    requires r[1..] == t[1..]
    ensures Word(r, 4) == Word(t, 4) && Word(r, 8) == Word(t, 8) && Word(r, 12) == Word(t, 12)
  {
    assert forall k :: 1 <= k < 16 ==> r[k] == r[1..][k - 1];
  }

  /** The network mask of a prefix length: its top `m` bits set. */
  function Mask4(m: Prefix4): bv32
  {
    0xffff_ffff << (32 - m)
  }

  /** CIDR substitution (RFC 4632 section 3.1) as the editor does it. A rule
      of the wrong family yields 0.0.0.0; with broadcast skipping on a
      non-unicast address is returned unchanged; otherwise the network part
      and the host part are combined (see `RemapV4Merges`). */
  function RemapV4(skipBroadcast: bool, cidr: Cidr, original: bv32): (r: bv32)
    ensures cidr.Inet6? ==> r == 0
    ensures cidr.Inet? && skipBroadcast && !IsUnicastV4(original) ==> r == original
  {
    if cidr.Inet6? then 0
    else RemapMasked(skipBroadcast, cidr.network, Mask4(cidr.masklen), original)
  }

  /** The IPv4 remap for an already computed network mask. */
  function RemapMasked(skipBroadcast: bool, network: bv32, mask: bv32, original: bv32): bv32
  {
    if skipBroadcast && !IsUnicastV4(original) then original
    else (network & mask) ^ (original & (mask ^ 0xffff_ffff))
  }

  /** Remapping with the same mask twice is remapping once. */
  lemma RemapMaskedTwice(skipBroadcast: bool, network: bv32, mask: bv32, original: bv32)
    ensures var once := RemapMasked(skipBroadcast, network, mask, original);
      RemapMasked(skipBroadcast, network, mask, once) == once
  {
    var once := RemapMasked(skipBroadcast, network, mask, original);
    if !(skipBroadcast && !IsUnicastV4(original)) && !(skipBroadcast && !IsUnicastV4(once)) {
      MergeParts(network, original, mask);
      Recombine(once, mask);
    }
  }

  /** A word is the merge of its own parts under and outside a mask. */
  lemma Recombine(x: bv32, mask: bv32)
    ensures ((x & mask) ^ (x & (mask ^ 0xffff_ffff))) == x
  {
  }

  /** Unless the address is skipped, the result's top `masklen` bits come
      from the target network and its remaining bits from the original. */
  lemma RemapV4Merges(skipBroadcast: bool, cidr: Cidr, original: bv32)
    requires cidr.Inet? && !(skipBroadcast && !IsUnicastV4(original))
    ensures (RemapV4(skipBroadcast, cidr, original) & Mask4(cidr.masklen))
         == (cidr.network & Mask4(cidr.masklen))
    ensures (RemapV4(skipBroadcast, cidr, original) & !Mask4(cidr.masklen))
         == (original & !Mask4(cidr.masklen))
  {
    MergeParts(cidr.network, original, Mask4(cidr.masklen));
  }

  /** Under the mask the merge shows the network, outside it the original. */
  lemma MergeParts(network: bv32, original: bv32, mask: bv32)
    ensures (((network & mask) ^ (original & (mask ^ 0xffff_ffff))) & mask) == (network & mask)
    ensures (((network & mask) ^ (original & (mask ^ 0xffff_ffff))) & !mask) == (original & !mask)
    ensures (((network & mask) ^ (original & (mask ^ 0xffff_ffff))) & (mask ^ 0xffff_ffff))
         == (original & (mask ^ 0xffff_ffff))
  {
  }

  /** The XOR in the source is a merge: the two parts have disjoint bits. */
  lemma RemapV4IsMerge(skipBroadcast: bool, network: bv32, masklen: Prefix4, original: bv32)
    requires !(skipBroadcast && !IsUnicastV4(original))
    ensures RemapV4(skipBroadcast, Inet(network, masklen), original)
         == (network & Mask4(masklen)) | (original & !Mask4(masklen))
  {
    var mask := Mask4(masklen);
    assert RemapV4(skipBroadcast, Inet(network, masklen), original)
        == (network & mask) ^ (original & (mask ^ 0xffff_ffff));
    XorIsOrOnDisjoint(network, original, mask);
  }

  lemma XorIsOrOnDisjoint(network: bv32, original: bv32, mask: bv32)
    ensures (network & mask) ^ (original & (mask ^ 0xffff_ffff))
         == (network & mask) | (original & !mask)
  {
  }

  /** The two examples the source documents. */
  lemma RemapV4Examples()
    // 10.0.0.0/8 with 192.168.55.123 gives 10.168.55.123
    ensures RemapV4(false, Inet(0x0A00_0000, 8), 0xC0A8_377B) == 0x0AA8_377B
    // 10.150.9.0/24 with 192.168.55.123 gives 10.150.9.123
    ensures RemapV4(false, Inet(0x0A96_0900, 24), 0xC0A8_377B) == 0x0A96_097B
  {
  }

  /** Remapping an already remapped address changes nothing more. */
  lemma RemapV4Idempotent(skipBroadcast: bool, cidr: Cidr, original: bv32)
    requires cidr.Inet?
    ensures RemapV4(skipBroadcast, cidr, RemapV4(skipBroadcast, cidr, original))
         == RemapV4(skipBroadcast, cidr, original)
  {
    RemapMaskedTwice(skipBroadcast, cidr.network, Mask4(cidr.masklen), original);
  }

  /** CIDR substitution for IPv6 on a byte boundary: the first `masklen6 / 8`
      bytes come from the target network. The result code is 1 whenever the
      copy is made, even if no byte differs; a rule of the wrong family or a
      skipped multicast address gives 0 and the address unchanged. */
  function RemapV6(skipBroadcast: bool, cidr: Cidr, addr: Ipv6Addr): (r: (Ipv6Addr, int))
    ensures r.1 == 0 <==> cidr.Inet? || (skipBroadcast && IsMulticastV6(addr))
    ensures r.1 == 0 ==> r.0 == addr
    ensures r.1 != 0 ==> r.1 == 1 && forall k :: 0 <= k < 16 ==>
      r.0[k] == (if k < cidr.masklen6 / 8 then cidr.network6[k] else addr[k])
  {
    match cidr
    case Inet(_, _) => (addr, 0)
    case Inet6(network6, masklen6) =>
      if skipBroadcast && IsMulticastV6(addr) then (addr, 0)
      else (network6[..masklen6 / 8] + addr[masklen6 / 8..], 1)
  }

  /** Remapping an IPv6 address twice with the same rule is remapping it once. */
  lemma RemapV6Idempotent(skipBroadcast: bool, cidr: Cidr, addr: Ipv6Addr)
    ensures RemapV6(skipBroadcast, cidr, RemapV6(skipBroadcast, cidr, addr).0).0
         == RemapV6(skipBroadcast, cidr, addr).0
  {
    var once := RemapV6(skipBroadcast, cidr, addr).0;
    var twice := RemapV6(skipBroadcast, cidr, once).0;
    assert forall k :: 0 <= k < 16 ==> twice[k] == once[k];
  }
}
