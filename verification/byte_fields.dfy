/** Big-endian 32-bit words read from and written into byte buffers, the
    way the editor reaches addresses inside IPv6 and ARP headers. */
module ByteFields {

  /** The four bytes of `w`, most significant first. */
  function Bytes(w: bv32): (b: seq<bv8>)
    ensures |b| == 4
  {
    [(w >> 24) as bv8, ((w >> 16) & 0xff) as bv8, ((w >> 8) & 0xff) as bv8, (w & 0xff) as bv8]
  }

  /** The big-endian word held in `a[off..off + 4]`. */
  function Word(a: seq<bv8>, off: nat): bv32
    requires off + 4 <= |a|
  {
    ((a[off] as bv32) << 24) | ((a[off + 1] as bv32) << 16)
      | ((a[off + 2] as bv32) << 8) | (a[off + 3] as bv32)
  }

  /** Reading back the bytes of a word gives the word. */
  lemma WordOfBytes(w: bv32)
    ensures Word(Bytes(w), 0) == w
  {
  }

  /** A word read from a buffer is the word read from the matching slice. */
  lemma WordOfSlice(a: seq<bv8>, off: nat)
    requires off + 4 <= |a|
    ensures Word(a, off) == Word(a[off..off + 4], 0)
  {
  }

  /** Joining four bytes into a word and splitting it again gives the bytes back. */
  lemma SplitJoin(b0: bv8, b1: bv8, b2: bv8, b3: bv8)
    ensures Bytes(((b0 as bv32) << 24) | ((b1 as bv32) << 16) | ((b2 as bv32) << 8) | (b3 as bv32))
         == [b0, b1, b2, b3]
  {
  }

  /** Splitting a word read from a buffer gives back the buffer's bytes. */
  lemma BytesOfWord(a: seq<bv8>, off: nat)
    requires off + 4 <= |a|
    ensures Bytes(Word(a, off)) == a[off..off + 4]
  {
    SplitJoin(a[off], a[off + 1], a[off + 2], a[off + 3]);
  }

  /** `a` with the four bytes at `off` replaced by the big-endian bytes of `w`. */
  function PutWord(a: seq<bv8>, off: nat, w: bv32): (r: seq<bv8>)
    requires off + 4 <= |a|
    ensures |r| == |a|
    ensures Word(r, off) == w
    ensures forall k :: 0 <= k < |a| && !(off <= k < off + 4) ==> r[k] == a[k]
  {
    WordOfBytes(w);
    var r := a[..off] + Bytes(w) + a[off + 4..];
    assert r[off..off + 4] == Bytes(w);
    r
  }

  /** A word depends only on its own four bytes. */
  lemma WordOfSameBytes(a: seq<bv8>, b: seq<bv8>, off: nat)
    requires off + 4 <= |a| && off + 4 <= |b|
    requires a[off] == b[off] && a[off + 1] == b[off + 1] && a[off + 2] == b[off + 2] && a[off + 3] == b[off + 3]
    ensures Word(a, off) == Word(b, off)
  {
  }

  /** Two writes into disjoint windows: each window holds its word and every
      other byte is the original. */
  lemma PutTwoWords(a: seq<bv8>, p: nat, x: bv32, q: nat, y: bv32)
    requires p + 4 <= |a| && q + 4 <= |a| && (p + 4 <= q || q + 4 <= p)
    ensures var r := PutWord(PutWord(a, p, x), q, y);
      |r| == |a| && Word(r, p) == x && Word(r, q) == y
      && forall k :: 0 <= k < |a| && !(p <= k < p + 4) && !(q <= k < q + 4) ==> r[k] == a[k]
  {
    var r1 := PutWord(a, p, x);
    var r := PutWord(r1, q, y);
    WordOfSameBytes(r, r1, p);
  }

  /** The big-endian 16-bit field held in `a[off..off + 2]`. */
  function Half(a: seq<bv8>, off: nat): (h: int)
    requires off + 2 <= |a|
    ensures 0 <= h < 0x1_0000
  {
    (a[off] as int) * 0x100 + (a[off + 1] as int)
  }
}
