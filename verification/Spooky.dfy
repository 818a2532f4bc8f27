/**
 SpookyHash (pxr/base/arch/hash.cpp): the one-shot hash, the short-message hash and the
 incremental hasher with its 192-byte stash.

 The four mixing kernels are parameters.  Everything here depends on which bytes reach
 which kernel, in which order, and never on what a kernel computes, so each result holds
 for every choice of kernels and in particular for the rotations and shifts of the source.
 */
module SpookyWords {

  const SIZE_LIMIT: nat := 0x1_0000_0000_0000_0000

  type uint8 = n: nat | n < 0x100
  type uint64 = n: nat | n < SIZE_LIMIT
  type Bytes = seq<uint8>

  const NUM_VARS := 12
  const BLOCK_SIZE := 96   // NUM_VARS * 8
  const BUF_SIZE := 192    // 2 * BLOCK_SIZE
  const SC_CONST: uint64 := 0xdeadbeefdeadbeef

  type Vars = s: seq<uint64> | |s| == NUM_VARS witness seq(NUM_VARS, _ => 0)
  type Block = s: Bytes | |s| == BLOCK_SIZE witness seq(BLOCK_SIZE, _ => 0)
  datatype Hash = Hash(h1: uint64, h2: uint64)
  datatype Quad = Quad(a: uint64, b: uint64, c: uint64, d: uint64)

  /** Mix, End, ShortMix and ShortEnd. */
  datatype Kernels = Kernels(
    mix: (Vars, Block) -> Vars,
    end: (Vars, Block) -> Hash,
    shortMix: Quad -> Quad,
    shortEnd: Quad -> Hash)

  function Zeros(n: nat): Bytes {
    seq(n, _ => 0)
  }

  /** Addition of 64-bit words, which wraps. */
  function Plus(x: uint64, y: uint64): uint64 {
    if x + y < SIZE_LIMIT then x + y else x + y - SIZE_LIMIT
  }

  /** The narrowing conversion to an unsigned byte. */
  function ToUint8(n: nat): uint8 {
    n % 0x100
  }

  /** A word shifted left by 56 bits. */
  function ShiftedToTop(n: nat): uint64 {
    n * 0x100_0000_0000_0000 % SIZE_LIMIT
  }

  /** The little-endian 32-bit word at p, widened to 64 bits. */
  function Word32(s: Bytes, p: nat): uint64
    requires p + 4 <= |s|
  {
    (s[p] as nat) + 0x100 * (s[p + 1] as nat) + 0x1_0000 * (s[p + 2] as nat) + 0x100_0000 * (s[p + 3] as nat)
  }

  /** The little-endian 64-bit word at p. */
  function Word64(s: Bytes, p: nat): uint64
    requires p + 8 <= |s|
  {
    Word32(s, p) + 0x1_0000_0000 * (s[p + 4] as nat) + 0x100_0000_0000 * (s[p + 5] as nat)
    + 0x1_0000_0000_0000 * (s[p + 6] as nat) + 0x100_0000_0000_0000 * (s[p + 7] as nat)
  }

  lemma PlusAssociates(x: uint64, y: uint64, z: uint64)
    requires y + z < SIZE_LIMIT
    ensures Plus(Plus(x, y), z) == Plus(x, y + z)
  {
  }

  /** The shift keeps exactly the low byte of its operand, as the top byte of the word. */
  lemma ShiftKeepsLowByte(n: nat)
    ensures ShiftedToTop(n) == ToUint8(n) * 0x100_0000_0000_0000
  {
    var q := n / 0x100;
    assert n * 0x100_0000_0000_0000 == q * SIZE_LIMIT + ToUint8(n) * 0x100_0000_0000_0000;
  }
}

module SpookyShort {
  import opened SpookyWords

  // ---------------------------------------------------------------- specification

  /** The 16 bytes at p go into c and d, and everything is mixed. */
  function HalfStep(k: Kernels, q: Quad, m: Bytes, p: nat): Quad
    requires p + 16 <= |m|
  {
    k.shortMix(q.(c := Plus(q.c, Word64(m, p)), d := Plus(q.d, Word64(m, p + 8))))
  }

  /** The 32 bytes at p: a half step, then the other two words into a and b. */
  function GroupStep(k: Kernels, q: Quad, m: Bytes, p: nat): Quad
    requires p + 32 <= |m|
  {
    var q' := HalfStep(k, q, m, p);
    q'.(a := Plus(q'.a, Word64(m, p + 16)), b := Plus(q'.b, Word64(m, p + 24)))
  }

  /** The first n groups of m in order. */
  function Groups(k: Kernels, q: Quad, m: Bytes, n: nat): Quad
    requires 32 * n <= |m|
  {
    if n == 0 then q else GroupStep(k, Groups(k, q, m, n - 1), m, 32 * (n - 1))
  }

  /** The byte at p of s followed by zeros. */
  function PaddedByte(s: Bytes, p: nat): nat {
    if p < |s| then s[p] else 0
  }

  function PaddedWord64(s: Bytes, p: nat): uint64 {
    PaddedByte(s, p) + 0x100 * PaddedByte(s, p + 1)
    + 0x1_0000 * PaddedByte(s, p + 2) + 0x100_0000 * PaddedByte(s, p + 3)
    + 0x1_0000_0000 * PaddedByte(s, p + 4) + 0x100_0000_0000 * PaddedByte(s, p + 5)
    + 0x1_0000_0000_0000 * PaddedByte(s, p + 6) + 0x100_0000_0000_0000 * PaddedByte(s, p + 7)
  }

  /** What the last 0-15 bytes add to c and to d: the two words of the bytes padded with zeros. */
  function TailWords(tail: Bytes): (uint64, uint64)
    requires |tail| < 16
  {
    if tail == [] then (SC_CONST, SC_CONST) else (PaddedWord64(tail, 0), PaddedWord64(tail, 8))
  }

  /** The words after all whole groups and the possible half group. */
  function BeforeTail(k: Kernels, m: Bytes, seeds: Hash): Quad {
    var q := Groups(k, Quad(seeds.h1, seeds.h2, SC_CONST, SC_CONST), m, |m| / 32);
    if |m| % 32 >= 16 then HalfStep(k, q, m, |m| - |m| % 32) else q
  }

  function ShortHash(k: Kernels, m: Bytes, seeds: Hash): Hash {
    var q := BeforeTail(k, m, seeds);
    var t := TailWords(m[|m| - |m| % 16..]);
    k.shortEnd(q.(c := Plus(q.c, t.0), d := Plus(Plus(q.d, ShiftedToTop(|m|)), t.1)))
  }

  // ---------------------------------------------------------------- the algorithm

  /** Adds v to a word to which sum has already been added. */
  method Accumulate(w0: uint64, w: uint64, ghost sum: nat, v: uint64) returns (w': uint64, ghost sum': nat)
    requires sum + v < SIZE_LIMIT && w == Plus(w0, sum)
    ensures sum' == sum + v && w' == Plus(w0, sum')
  {
    PlusAssociates(w0, sum, v);
    w', sum' := Plus(w, v), sum + v;
  }

  /** The tail switch, whose cases fall through towards the lowest byte. */
  method AddTail(t: Bytes, c0: uint64, d0: uint64) returns (c: uint64, d: uint64)
    requires |t| < 16
    ensures c == Plus(c0, TailWords(t).0)
    ensures d == Plus(d0, TailWords(t).1)
  {
    c, d := c0, d0;
    ghost var x, y := 0, 0;
    var remainder := |t|;
    if 12 <= remainder {
      if 15 <= remainder { d, y := Accumulate(d0, d, y, 0x1_0000_0000_0000 * (t[14] as nat)); }
      if 14 <= remainder { d, y := Accumulate(d0, d, y, 0x100_0000_0000 * (t[13] as nat)); }
      if 13 <= remainder { d, y := Accumulate(d0, d, y, 0x1_0000_0000 * (t[12] as nat)); }
      d, y := Accumulate(d0, d, y, Word32(t, 8));
      c, x := Accumulate(c0, c, x, Word64(t, 0));
    } else if 8 <= remainder {
      if 11 <= remainder { d, y := Accumulate(d0, d, y, 0x1_0000 * (t[10] as nat)); }
      if 10 <= remainder { d, y := Accumulate(d0, d, y, 0x100 * (t[9] as nat)); }
      if 9 <= remainder { d, y := Accumulate(d0, d, y, t[8]); }
      c, x := Accumulate(c0, c, x, Word64(t, 0));
    } else if 4 <= remainder {
      if 7 <= remainder { c, x := Accumulate(c0, c, x, 0x1_0000_0000_0000 * (t[6] as nat)); }
      if 6 <= remainder { c, x := Accumulate(c0, c, x, 0x100_0000_0000 * (t[5] as nat)); }
      if 5 <= remainder { c, x := Accumulate(c0, c, x, 0x1_0000_0000 * (t[4] as nat)); }
      c, x := Accumulate(c0, c, x, Word32(t, 0));
    } else if 1 <= remainder {
      if 3 <= remainder { c, x := Accumulate(c0, c, x, 0x1_0000 * (t[2] as nat)); }
      if 2 <= remainder { c, x := Accumulate(c0, c, x, 0x100 * (t[1] as nat)); }
      c, x := Accumulate(c0, c, x, t[0]);
    } else {
      c, x := Accumulate(c0, c, x, SC_CONST);
      d, y := Accumulate(d0, d, y, SC_CONST);
    }
    assert (x, y) == TailWords(t);
  }

  /** The words at p go into c and d, and the four words are mixed. */
  method MixHalf(k: Kernels, m: Bytes, p: nat, q0: Quad) returns (q: Quad)
    requires p + 16 <= |m|
    ensures q == HalfStep(k, q0, m, p)
  {
    q := q0.(c := Plus(q0.c, Word64(m, p)), d := Plus(q0.d, Word64(m, p + 8)));
    q := k.shortMix(q);
  }

  /** One whole group. */
  method MixGroup(k: Kernels, m: Bytes, p: nat, q0: Quad) returns (q: Quad)
    requires p + 32 <= |m|
    ensures q == GroupStep(k, q0, m, p)
  {
    q := MixHalf(k, m, p, q0);
    q := q.(a := Plus(q.a, Word64(m, p + 16)), b := Plus(q.b, Word64(m, p + 24)));
  }

  /** The loop over whole groups. */
  method MixGroups(k: Kernels, m: Bytes, q0: Quad) returns (q: Quad, p: nat)
    ensures p == |m| - |m| % 32
    ensures q == Groups(k, q0, m, |m| / 32)
  {
    q, p := q0, 0;
    ghost var n := 0;
    var end := |m| / 32 * 32;
    while p < end
      invariant p == 32 * n && p <= end
      invariant q == Groups(k, q0, m, n)
    {
      q := MixGroup(k, m, p, q);
      p, n := p + 32, n + 1;
    }
    assert n == |m| / 32;
  }

  lemma HalfGroup(n: nat)
    ensures n % 16 == if n % 32 >= 16 then n % 32 - 16 else n % 32
  {
    assert n == 16 * (2 * (n / 32)) + n % 32;
  }

  /** Everything but the last 0-15 bytes, which start at p. */
  method MixFront(k: Kernels, m: Bytes, seeds: Hash) returns (q: Quad, p: nat)
    ensures q == BeforeTail(k, m, seeds) && p == |m| - |m| % 16
  {
    q, p := Quad(seeds.h1, seeds.h2, SC_CONST, SC_CONST), 0;
    var remainder := |m| % 32;
    HalfGroup(|m|);
    if |m| > 15 {
      q, p := MixGroups(k, m, q);
      if remainder >= 16 {
        q := MixHalf(k, m, p, q);
        p, remainder := p + 16, remainder - 16;
      }
    }
  }

  /** SpookyHash::Short; every read is of a byte of m. */
  method Short(k: Kernels, m: Bytes, seeds: Hash) returns (hash: Hash)
    ensures hash == ShortHash(k, m, seeds)
  {
    var q, p := MixFront(k, m, seeds);
    var c, d := AddTail(m[p..], q.c, Plus(q.d, ShiftedToTop(|m|)));
    hash := k.shortEnd(q.(c := c, d := d));
  }
}
