# tcpedit packet editing, in Dafny

A model of the packet-header editor of tcpreplay's `tcpedit` library
(`src/tcpedit/edit_packet.c`), with proofs about what it does. The editor
works on one captured packet at a time:

- It randomizes IPv4, IPv6 and ARP addresses with a seed-keyed word transform.
- It rewrites addresses through CIDR maps: one source map and one destination map, then two rule chains walked in lockstep.
- It sets, raises or lowers the IPv4 TTL and the IPv6 Hop Limit.
- It repairs a capture whose captured length differs from its wire length, by padding, truncating or clipping to an MTU.
- It decides which checksums to recompute and combines their outcomes.
- It computes the span of layer-7 data inside an IPv4 packet.

The modules follow the parts of the source:

| module | file | contents |
|---|---|---|
| `PacketTypes` | `packet_types.dfy` | header records, CIDR rules and chains, configuration, status values |
| `ByteFields` | `byte_fields.dfy` | big-endian 32-bit words read from and written into byte buffers |
| `Addresses` | `addresses.dfy` | unicast/multicast tests, address randomization, IPv4 and IPv6 CIDR remap |
| `HopLimit` | `hop_limit.dfy` | the TTL / Hop Limit policy |
| `ChainWalk` | `chain_walk.dfy` | the lockstep walk of two rule chains |
| `AddressRewrite` | `address_rewrite.dfy` | header-level randomization, and the L3 and ARP address rewrites |
| `CaptureRepair` | `capture_repair.dfy` | pad / truncate / MTU clip |
| `ChecksumFixup` | `checksum_fixup.dfy` | when checksums are recomputed, and how their outcomes combine |
| `Payload` | `payload.dfy` | the length bookkeeping of layer-7 extraction |

Conventions:

- An IPv4 address is a `bv32` whose most significant byte is the first octet on the wire. This is the host-order value on a big-endian host, where `htonl`/`ntohl` are the identity.
- An IPv6 address is its 16 bytes in wire order.
- ARP packets are byte sequences laid out as in RFC 826. Their protocol addresses are read and written as big-endian words.
- Header fields are unbounded integers restricted to the width of the C field. Conversions of an `int` into an unsigned 16-bit or 32-bit field are written out as reductions modulo 2^16 and 2^32.
- Functions the editor calls but whose bodies are not part of this model are parameters of the operations that use them:
  - CIDR membership (`ip_in_cidr`, `ip6_in_cidr`) is a predicate parameter.
  - The checksum routine (`do_checksum`) is an oracle from requests to OK / WARN / ERROR.
  - The link-layer length (`layer2len`, `get_l2len`) is an integer parameter.
  - The located IP, ARP and TCP headers (`get_ipv4`, `get_layer4_v4`) are passed in.

Where the code and its documentation disagree, the model follows the code:

- `is_unicast_ipv4` tests `> 224.0.0.0`, so 224.0.0.0 itself is classified as unicast, while the comment at src/tcpedit/edit_packet.c:881 says "224.0.0.0 or greater". This is a finding below.

Other behaviour of the code that the model keeps as written:

- `remap_ipv6` reports 1 whenever it copies the prefix, even if no byte changes (src/tcpedit/edit_packet.c:526-532).
- In an ARP request the sender's protocol address is tested against the second chain, and the target's address against the first. A reply swaps the two (src/tcpedit/edit_packet.c:812-837).
- The randomization transform `(ip ^ s) - (ip & s)` is not a bijection. With seed 1, addresses 0 and 3 both map to 1 (`Addresses.RandomizeWordCollides`).

## Model

| member | source | states |
|---|---|---|
| `Addresses.UnicastByFirstOctet` | src/tcpedit/edit_packet.c:876-886 | an address is unicast exactly when its first octet is below 224 or it is 224.0.0.0 itself |
| `Addresses.UnicastOffByOne` | src/tcpedit/edit_packet.c:881-882 | 224.0.0.0 is unicast under the written test and not under the documented one |
| `Addresses.UnicastIntendedByFirstOctet` | src/tcpedit/edit_packet.c:881-882 | the documented test is "first octet below 224", and it agrees with the written test on every other address |
| `Addresses.IsMulticastV6` | src/tcpedit/edit_packet.c:892-901 | an IPv6 address is multicast exactly when the top 8 bits of its first word are all set (ff00::/8) |
| `Addresses.RandomizeWord` | src/tcpedit/edit_packet.c:121 | seed 0 is the identity, and when address and seed share no bits the transform is a bitwise OR |
| `Addresses.RandomizeWordCollides` | src/tcpedit/edit_packet.c:121 | two different addresses randomize to the same address (0 and 3 with seed 1) |
| `Addresses.RandomizeV4Addr` | src/tcpedit/edit_packet.c:112-122 | with broadcast skipping on, a non-unicast address is returned unchanged; otherwise the result is `(ip ^ seed) - (ip & seed)` mod 2^32 |
| `Addresses.RandomizeV4KeepsMulticast` | src/tcpedit/edit_packet.c:117-119 | 224.0.0.1 survives randomization under any seed when skipping is on |
| `Addresses.RandomizeWordsWords` | src/tcpedit/edit_packet.c:137-139 | each of the four words of the transformed address is the transform of the input word |
| `Addresses.RandomizeV6Addr` | src/tcpedit/edit_packet.c:124-146 | the result is multicast exactly when the input was; a multicast input gets first byte 0xff, a non-multicast one keeps the transformed first byte unless that is 0xff, which becomes 0xaa; from byte 1 on it equals the word-wise transform |
| `Addresses.RandomizeV6AddrWords` | src/tcpedit/edit_packet.c:137-146 | words 1-3 of the result are the transformed input words, and bytes 1-3 are those of the transformed first word |
| `Addresses.RemapV4` | src/tcpedit/edit_packet.c:475-508 | a rule of the wrong family gives 0.0.0.0, and a skipped non-unicast address is returned unchanged |
| `Addresses.RemapV4Merges` | src/tcpedit/edit_packet.c:491-507 | unless skipped, the top `masklen` bits of the result are the network's and the other bits are the original's |
| `Addresses.RemapV4IsMerge` | src/tcpedit/edit_packet.c:500-504 | whenever the address is not skipped (skipping off, or a unicast original), the XOR merge equals `(network & mask) \| (original & ~mask)` |
| `Addresses.RemapV4Examples` | src/tcpedit/edit_packet.c:470-474 | 10.0.0.0/8 maps 192.168.55.123 to 10.168.55.123, and 10.150.9.0/24 maps it to 10.150.9.123 |
| `Addresses.RemapV4Idempotent` | src/tcpedit/edit_packet.c:475-508 | remapping a remapped address with the same rule changes nothing |
| `Addresses.RemapMaskedTwice` | src/tcpedit/edit_packet.c:491-507 | the merge is idempotent for any mask |
| `Addresses.RemapV6` | src/tcpedit/edit_packet.c:510-533 | code 0 exactly for a rule of the wrong family or a skipped multicast address, with the address unchanged; otherwise code 1 and the first `masklen/8` bytes come from the network, the rest from the address |
| `Addresses.RemapV6Idempotent` | src/tcpedit/edit_packet.c:510-533 | remapping twice with the same rule is remapping once |
| `ByteFields.PutWord` | src/tcpedit/edit_packet.c:740-747 | writing a word puts exactly that word at the offset and leaves every other byte alone |
| `ByteFields.PutTwoWords` | src/tcpedit/edit_packet.c:815-837 | two writes into disjoint windows each keep their word, and all bytes outside both windows are unchanged |
| `ByteFields.BytesOfWord` | src/tcpedit/edit_packet.c:740-741 | the bytes of a word read from a buffer are the buffer's bytes |
| `HopLimit.ApplyTtlPolicy` | src/tcpedit/edit_packet.c:402-428 | "no change" exactly when the policy is off or sets an equal value; set gives the value, add gives min(ttl+v, 255), subtract gives max(ttl-v, 1) |
| `HopLimit.TtlPolicyBounds` | src/tcpedit/edit_packet.c:411-424 | subtracting yields a value between 1 and the old field (a field of 0 becomes 1), adding never lowers the field, and setting twice reports no change the second time |
| `HopLimit.TtlSaturationExamples` | src/tcpedit/edit_packet.c:412-423 | 100 + 200 saturates at 255, and 100 - 200 floors at 1 |
| `HopLimit.RewriteIpv4Ttl` | src/tcpedit/edit_packet.c:396-429 | no header gives 0; otherwise only the TTL changes, as the policy decides, and the code is the policy's change flag |
| `HopLimit.RewriteIpv6Hlim` | src/tcpedit/edit_packet.c:435-468 | the same for the Hop Limit of an IPv6 header |
| `HopLimit.HopLimitMatchesTtl` | src/tcpedit/edit_packet.c:396-468 | the IPv6 rewrite treats an equal hop limit exactly as the IPv4 rewrite treats the TTL |
| `ChainWalk.FirstMatch` | src/tcpedit/edit_packet.c:588-596 | the first index whose `from` block holds the address, or none exactly when no entry matches |
| `ChainWalk.Walk` | src/tcpedit/edit_packet.c:588-623 | the lockstep walk gives each side exactly the first-match rewrite on its own chain, each side changes at most once, and it ends after at most max(len1, len2) steps |
| `AddressRewrite.RandomizeIpv4` | src/tcpedit/edit_packet.c:154-193 | only the two addresses change, each as the address-level randomizer decides (the header-level broadcast guard is redundant), and the result is 1 |
| `AddressRewrite.RandomizeIpv6` | src/tcpedit/edit_packet.c:195-234 | with skipping on, multicast addresses stay; others are randomized; each address keeps its multicast-ness; the result is 1 |
| `AddressRewrite.RandomizeIpArp` | src/tcpedit/edit_packet.c:713-750 | only IPv4 requests and replies change, and only in the two protocol-address windows; with disjoint windows each holds the randomized address; the result is 1 |
| `AddressRewrite.RewriteIpv4L3` | src/tcpedit/edit_packet.c:549-627 | the single maps are applied first; without chains the count is 0; otherwise each address is its first-match rewrite on its direction's chain, the count is the number of chain rewrites (0..2), and other fields stay |
| `AddressRewrite.RewriteIpv6L3` | src/tcpedit/edit_packet.c:629-707 | the same for IPv6 headers, with byte-aligned remapping |
| `AddressRewrite.RewriteIpArp` | src/tcpedit/edit_packet.c:760-870 | without both chains or for a non-IPv4 or other-op ARP packet nothing changes and 0 is returned; otherwise the role-assigned addresses get their first-match rewrites, no other byte changes, and the count is 0..2 |
| `CaptureRepair.Zeroed` | src/tcpedit/edit_packet.c:271 | exactly the bytes in [caplen, len) are zero afterwards |
| `CaptureRepair.UntruncPacket` | src/tcpedit/edit_packet.c:242-307 | the code is -1, 0 or 1; the exact error conditions, with nothing changed on error; nothing changes when there is nothing to repair; pad zeroes [caplen, len) and sets caplen := len; truncate sets len := caplen and rewrites the IP length only if they differed; other modes clip to the MTU |
| `CaptureRepair.MtuClip` | src/tcpedit/edit_packet.c:285-300 | a frame longer than l2len + mtu gets both lengths set to that limit and its IPv4 or IPv6 length field set from the MTU; a non-IP frame is clipped but reported as 0 |
| `CaptureRepair.MtuClipRaisesCaplen` | src/tcpedit/edit_packet.c:288 | a 60-byte capture of a 1514-byte frame, clipped with mtu 1000, claims 1014 captured bytes |
| `CaptureRepair.MtuClipIntended` | src/tcpedit/edit_packet.c:285-300 | the captured length never grows, and a clipped frame has len equal to the limit and caplen at most len |
| `CaptureRepair.MtuClipIntendedAgrees` | src/tcpedit/edit_packet.c:285-300 | the intended clip equals the written one whenever at least the limit was captured |
| `CaptureRepair.UntruncMakesConsistent` | src/tcpedit/edit_packet.c:264-284 | after a pad or truncation that reports a repair, caplen equals len |
| `CaptureRepair.UntruncIdempotent` | src/tcpedit/edit_packet.c:242-307 | repairing a repaired frame changes nothing |
| `ChecksumFixup.WorstIsWorst` | src/tcpedit/edit_packet.c:67-81 | the combined status is an error exactly when some outcome is, and a warning exactly when none is an error and some is a warning |
| `ChecksumFixup.WorstOfTwo` | src/tcpedit/edit_packet.c:78-81 | combining two outcomes in sequence is combining them pairwise |
| `ChecksumFixup.FixIpv4Checksums` | src/tcpedit/edit_packet.c:55-82 | the layer-4 checksum is requested only for a whole capture with zero fragment offset; an error there stops before the header checksum, which is otherwise always requested; the status is the worst outcome of the requests made |
| `ChecksumFixup.FixIpv4HeaderOnly` | src/tcpedit/edit_packet.c:65-76 | a partial capture or later fragment gets only its header checksum, and its status is that request's outcome |
| `ChecksumFixup.FixIpv6Checksums` | src/tcpedit/edit_packet.c:84-106 | only the layer-4 checksum is requested, and only for a whole capture; the status is the worst outcome |
| `Payload.ExtractData` | src/tcpedit/edit_packet.c:314-390 | no data without a header or for ICMP; a TCP or UDP datagram with n > 0 bytes past both headers reports exactly those n bytes, starting past both headers and ending at the computed datagram length, and no data otherwise; an unknown protocol reports the datagram length less the IP header, starting at the IP header |
| `Payload.Layer4Data` | src/tcpedit/edit_packet.c:346-381 | a non-positive length means no data; TCP and UDP report exactly the bytes past both headers when there are any, ending at the datagram's end; ICMP reports nothing; other protocols report everything past the IP header, from the given start |
| `Payload.ExtractDataOverreads` | src/tcpedit/edit_packet.c:339-343 | with 60 captured bytes, a 14-byte link header and a stated length of 50, the UDP span ends past the 46 captured IP bytes |
| `Payload.ExtractDataOtherIncludesHeader` | src/tcpedit/edit_packet.c:376-381 | an unknown protocol's span starts at the IP header, not after it |
| `Payload.ExtractDataIntended` | src/tcpedit/edit_packet.c:337-381 | no data without a header or for ICMP; TCP and UDP report exactly the bytes past both headers of a datagram of min(stated length, captured IP bytes); other protocols report everything past the IP header, starting after it |
| `Payload.ExtractDataIntendedWithinCapture` | src/tcpedit/edit_packet.c:337-381 | the intended span starts past the IP header and ends within both the captured IP bytes and the stated datagram |
| `Payload.ExtractDataAgrees` | src/tcpedit/edit_packet.c:337-381 | for TCP, UDP and ICMP the written and intended spans agree unless the stated length lies strictly between the captured IP bytes and the whole capture |

## Left out

- Byte order on little-endian hosts. The model fixes the big-endian host order, in which `htonl` and `ntohl` are the identity. On a little-endian host the randomization transform acts on the byte-swapped word.
- The mid-byte branch of `remap_ipv6` (src/tcpedit/edit_packet.c:534-538). It reuses an index variable for a byte value and shifts by a negative amount, which is undefined behaviour in C. IPv6 prefix lengths are restricted to multiples of 8.
- IPv4 prefix length 0. The shift by 32 is undefined behaviour in C, so prefix lengths are restricted to 1..32.
- The `errx` abort on an invalid TTL mode. The mode is a datatype, so an invalid mode cannot be built.
- `do_checksum`, `layer2len`, `get_l2len`, `get_ipv4`, `get_layer4_v4`, `ip_in_cidr` and `ip6_in_cidr` are not part of this model. They appear as parameters: an oracle, an integer, the located headers and membership predicates.
- Debug logging, `warn()`, the `FORCE_ALIGN` scratch copies and raw pointer casts. They do not change any result.
- The `memcpy` into the caller's layer-7 buffer. `Payload.ExtractData` models the span copied, not the copy.
- Payload.ExtractData: measures its span from the start of the IP header. The source points the data pointer at a scratch buffer before `get_ipv4` (src/tcpedit/edit_packet.c:330-332), and `get_ipv4` is not part of this model. The model assumes `get_ipv4` leaves the pointer at a copy of the IP header, so that the advances at lines 347, 358 and 368 and the reset at line 380 are offsets from the same header.
- The error message strings set through `tcpedit_seterr`. Only the -1 result is modelled.
- CaptureRepair.UntruncPacket: TRUNC is excluded on a packet with an IPv6 header only, and on a packet with no IP header at all when MTU clipping is on. In both cases the source writes the IPv4 length through a null pointer (src/tcpedit/edit_packet.c:282), so the model requires an IPv4 header whenever it writes that length.
- AddressRewrite.RewriteIpArp: requires the two protocol-address windows to be disjoint. They overlap when the hardware and protocol lengths sum to less than 4.
- AddressRewrite.RandomizeIpArp: models the sequential writes for any lengths, but states the per-window values only for disjoint windows.
- CaptureRepair.UntruncPacket: the buffer must have room up to the wire length whenever it pads. The source relies on its caller's fixed-size buffer.
- CaptureRepair.UntruncPacket: with `fixlen` off and MTU clipping off, a packet that is not left alone gets -1 ("invalid fixlen"), as in the code. A caller that invokes it only when one of the two is on never sees this.
- AddressRewrite.RandomizeIpArp: takes the ARP header already located. The link-layer offset comes from `get_l2len`, which is not part of this model.
- AddressRewrite.RewriteIpv4L3: requires the second chain whenever the first exists. The source dereferences it without a check.
- AddressRewrite.RewriteIpv6L3: requires the second chain whenever the first exists, for the same reason.

## Findings

| source | as written | input that shows it | evidently intended | confidence | as-written member | corrected member |
|---|---|---|---|---|---|---|
| src/tcpedit/edit_packet.c:881-882 | an address is non-unicast only if it is strictly greater than 224.0.0.0 | 224.0.0.0 is classified as unicast | "224.0.0.0 or greater" is multicast/broadcast, as the comment says | not executed; high | `Addresses.UnicastOffByOne` | `Addresses.UnicastIntendedByFirstOctet` |
| src/tcpedit/edit_packet.c:339-343 | the capture length, which includes the link-layer header, is compared with the IP total length | caplen 60, l2len 14, ip_len 50, UDP: the data span ends at byte 50 of 46 captured IP bytes | the datagram length is min(ip_len, caplen - l2len) | not executed; high | `Payload.ExtractDataOverreads` | `Payload.ExtractDataIntendedWithinCapture` |
| src/tcpedit/edit_packet.c:376-381 | an unknown protocol's data pointer is reset to the IP header, while its length excludes the header | proto 47, ip_len 60, hl 5: 40 bytes from the IP header start | dump everything past the IP header, as the comment says; this rests on `get_ipv4` leaving the data pointer at a copy of the IP header (see Left out) | not executed; medium | `Payload.ExtractDataOtherIncludesHeader` | `Payload.ExtractDataIntendedWithinCapture` |
| src/tcpedit/edit_packet.c:286-288 | an MTU clip sets caplen to l2len + mtu even when fewer bytes were captured | caplen 60, len 1514, l2len 14, mtu 1000: caplen becomes 1014 | the captured length is clipped, never raised | not executed; medium | `CaptureRepair.MtuClipRaisesCaplen` | `CaptureRepair.MtuClipIntended` |

The editor model itself follows the code as written:

- `Addresses.IsUnicastV4` is the written test.
- `Payload.ExtractData` and `CaptureRepair.MtuClip` are the written computations.
- The corrected definitions stand beside them with their intended properties proved.
