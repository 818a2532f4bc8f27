/**
 What the hashes of pxr/base/arch/hash.cpp read, in terms of the message alone: little-endian
 values of its slices, folded through the kernels, with every size and constant written out.
 */
module SpookyLaws {
  import opened SpookyWords
  import opened SpookyShort
  import opened SpookyStream

  // ---------------------------------------------------------------- words

  /** The little-endian value of bytes. */
  function LE(s: Bytes): nat {
    if s == [] then 0 else s[0] + 0x100 * LE(s[1..])
  }

  function Sum64(x: nat, y: nat): uint64 {
    (x + y) % 0x1_0000_0000_0000_0000
  }

  lemma PlusIsSum(x: uint64, y: uint64)
    ensures Plus(x, y) == Sum64(x, y)
  {
  }

  lemma FourBytes(s: Bytes)
    requires |s| == 4
    ensures LE(s) == s[0] + 0x100 * (s[1] as nat) + 0x1_0000 * (s[2] as nat) + 0x100_0000 * (s[3] as nat)
  {
    assert LE(s[1..][1..][1..][1..]) == 0;
    assert LE(s[1..][1..][1..]) == s[3];
    assert LE(s[1..][1..]) == s[2] + 0x100 * (s[3] as nat);
  }

  lemma {:induction false} LEConcat4(a: Bytes, b: Bytes)
    requires |a| == 4
    ensures LE(a + b) == LE(a) + 0x1_0000_0000 * LE(b)
  {
    var s := a + b;
    assert s[1..][1..][1..][1..] == b;
    assert s[0] == a[0] && s[1..][0] == a[1] && s[1..][1..][0] == a[2] && s[1..][1..][1..][0] == a[3];
    assert LE(s[1..][1..][1..]) == a[3] + 0x100 * LE(b);
    assert LE(s[1..][1..]) == a[2] + 0x100 * LE(s[1..][1..][1..]);
    assert LE(s[1..]) == a[1] + 0x100 * LE(s[1..][1..]);
    FourBytes(a);
  }

  /** Every word that is read is the little-endian value of its eight bytes. */
  lemma WordIsLE(m: Bytes, p: nat)
    requires p + 8 <= |m|
    ensures Word64(m, p) == LE(m[p..p + 8])
  {
    var a, b := m[p..p + 4], m[p + 4..p + 8];
    assert m[p..p + 8] == a + b;
    FourBytes(a);
    FourBytes(b);
    LEConcat4(a, b);
  }

  lemma PaddedWordIsLE(t: Bytes, padded: Bytes, p: nat)
    requires |t| <= 16 && padded == t + seq(16 - |t|, _ => 0) && p <= 8
    ensures PaddedWord64(t, p) == LE(padded[p..p + 8])
  {
    assert forall i | 0 <= i < 16 :: padded[i] == PaddedByte(t, i);
    WordIsLE(padded, p);
  }

  // ---------------------------------------------------------------- the short hash

  /** The little-endian value of the eight bytes at p. */
  function LEAt(m: Bytes, p: nat): nat
    requires p + 8 <= |m|
  {
    LE(m[p..p + 8])
  }

  /** What the 16 bytes at p do to the four words. */
  function HalfFold(k: Kernels, q: Quad, m: Bytes, p: nat): Quad
    requires p + 16 <= |m|
  {
    k.shortMix(Quad(q.a, q.b, Sum64(q.c, LEAt(m, p)), Sum64(q.d, LEAt(m, p + 8))))
  }

  /** What the first n slices of 32 bytes do. */
  function SliceFold(k: Kernels, q: Quad, m: Bytes, n: nat): Quad
    requires 32 * n <= |m|
  {
    if n == 0 then q
    else
      var mixed := HalfFold(k, SliceFold(k, q, m, n - 1), m, 32 * n - 32);
      Quad(Sum64(mixed.a, LEAt(m, 32 * n - 16)), Sum64(mixed.b, LEAt(m, 32 * n - 8)), mixed.c, mixed.d)
  }

  /** What the last 0-15 bytes and the length do. */
  function EndFold(k: Kernels, q: Quad, tail: Bytes, length: nat): Hash
    requires |tail| < 16
  {
    var padded := tail + seq(16 - |tail|, _ => 0);
    var x := if tail == [] then 0xdeadbeefdeadbeef else LEAt(padded, 0);
    var y := if tail == [] then 0xdeadbeefdeadbeef else LEAt(padded, 8);
    k.shortEnd(Quad(q.a, q.b, Sum64(q.c, x), Sum64(Sum64(q.d, length % 0x100 * 0x100_0000_0000_0000), y)))
  }

  /** The short hash, from the words of the message. */
  function ShortFold(k: Kernels, m: Bytes, seeds: Hash): Hash {
    var n := |m| / 32;
    var q := SliceFold(k, Quad(seeds.h1, seeds.h2, 0xdeadbeefdeadbeef, 0xdeadbeefdeadbeef), m, n);
    if |m| < 32 * n + 16 then EndFold(k, q, m[32 * n..], |m|)
    else EndFold(k, HalfFold(k, q, m, 32 * n), m[32 * n + 16..], |m|)
  }

  lemma HalfIsFold(k: Kernels, q: Quad, m: Bytes, p: nat)
    requires p + 16 <= |m|
    ensures HalfStep(k, q, m, p) == HalfFold(k, q, m, p)
  {
    hide Word64, LE, Plus, Sum64;
    WordIsLE(m, p);
    WordIsLE(m, p + 8);
    PlusIsSum(q.c, Word64(m, p));
    PlusIsSum(q.d, Word64(m, p + 8));
  }

  /** What reaches the kernels from the groups: the four words of each, once and in this order. */
  lemma {:induction false} GroupsAreSlices(k: Kernels, q: Quad, m: Bytes, n: nat)
    requires 32 * n <= |m|
    ensures Groups(k, q, m, n) == SliceFold(k, q, m, n)
  {
    hide Word64, LE, Plus, Sum64, HalfStep, HalfFold;
    if n > 0 {
      var p, q1 := 32 * (n - 1), Groups(k, q, m, n - 1);
      var h := HalfStep(k, q1, m, p);
      GroupsAreSlices(k, q, m, n - 1);
      HalfIsFold(k, q1, m, p);
      WordIsLE(m, p + 16);
      WordIsLE(m, p + 24);
      PlusIsSum(h.a, Word64(m, p + 16));
      PlusIsSum(h.b, Word64(m, p + 24));
    }
  }

  lemma EndIsFold(k: Kernels, q: Quad, tail: Bytes, length: nat)
    requires |tail| < 16
    ensures var t := TailWords(tail);
      k.shortEnd(q.(c := Plus(q.c, t.0), d := Plus(Plus(q.d, ShiftedToTop(length)), t.1))) == EndFold(k, q, tail, length)
  {
    hide PaddedWord64, LE, Plus, Sum64, ShiftedToTop;
    var padded := tail + seq(16 - |tail|, _ => 0);
    ShiftKeepsLowByte(length);
    PaddedWordIsLE(tail, padded, 0);
    PaddedWordIsLE(tail, padded, 8);
    var t := TailWords(tail);
    PlusIsSum(q.c, t.0);
    PlusIsSum(q.d, ShiftedToTop(length));
    PlusIsSum(Plus(q.d, ShiftedToTop(length)), t.1);
  }

  lemma FrontIsFold(k: Kernels, m: Bytes, seeds: Hash)
    ensures var n := |m| / 32;
      var q := SliceFold(k, Quad(seeds.h1, seeds.h2, 0xdeadbeefdeadbeef, 0xdeadbeefdeadbeef), m, n);
      BeforeTail(k, m, seeds) == if |m| < 32 * n + 16 then q else HalfFold(k, q, m, 32 * n)
  {
    hide HalfStep, HalfFold, SliceFold, Groups;
    var n, q := |m| / 32, Quad(seeds.h1, seeds.h2, SC_CONST, SC_CONST);
    GroupsAreSlices(k, q, m, n);
    if |m| >= 32 * n + 16 {
      HalfIsFold(k, Groups(k, q, m, n), m, 32 * n);
    }
  }

  /** The short hash reads every byte of the message, in its place among the words. */
  lemma ShortHashIsFold(k: Kernels, m: Bytes, seeds: Hash)
    ensures ShortHash(k, m, seeds) == ShortFold(k, m, seeds)
  {
    hide HalfFold, SliceFold, BeforeTail, EndFold, TailWords, ShiftedToTop, Plus;
    FrontIsFold(k, m, seeds);
    HalfGroup(|m|);
    EndIsFold(k, BeforeTail(k, m, seeds), m[|m| - |m| % 16..], |m|);
  }

  // ---------------------------------------------------------------- the long hash

  /** The first n blocks. */
  function BlockFold(k: Kernels, h: Vars, m: Bytes, n: nat): Vars
    requires 96 * n <= |m|
  {
    if n == 0 then h else k.mix(BlockFold(k, h, m, n - 1), m[96 * (n - 1)..96 * n])
  }

  /** The seeds and the constant stand in every third of the twelve words. */
  ghost predicate IsStart(h: Vars, seeds: Hash) {
    forall i | 0 <= i < 12 ::
      h[i] == if i == 0 || i == 3 || i == 6 || i == 9 then seeds.h1
              else if i == 1 || i == 4 || i == 7 || i == 10 then seeds.h2
              else 0xdeadbeefdeadbeef
  }

  /** The bytes that are left, zeros, and their number in the last byte. */
  ghost predicate IsLastBlock(block: Block, rest: Bytes) {
    |rest| < 96 && block[95] == |rest|
    && forall i | 0 <= i < 95 :: block[i] == if i < |rest| then rest[i] else 0
  }

  lemma StartIs(seeds: Hash)
    ensures IsStart(Start(seeds), seeds)
  {
  }

  lemma {:induction false} AbsorbIsFold(k: Kernels, h: Vars, m: Bytes, n: nat)
    requires 96 * n <= |m|
    ensures Absorb(k, h, m[..96 * n]) == BlockFold(k, h, m, n)
  {
    if n > 0 {
      AbsorbIsFold(k, h, m, n - 1);
      var front, last := m[..96 * (n - 1)], m[96 * (n - 1)..96 * n];
      assert m[..96 * n] == front + last;
      AbsorbOne(k, h, front, last);
    }
  }

  /**
   The one-shot hash: of less than 192 bytes the short hash, and otherwise the whole 96-byte
   blocks, mixed in order from these words, and then the last block.
   */
  lemma HashOfIsFold(k: Kernels, m: Bytes, seeds: Hash) returns (start: Vars, last: Block, n: nat)
    ensures |m| < 192 ==> HashOf(k, m, seeds) == ShortFold(k, m, seeds)
    ensures 96 * n <= |m| && IsStart(start, seeds) && IsLastBlock(last, m[96 * n..])
    ensures |m| >= 192 ==> HashOf(k, m, seeds) == k.end(BlockFold(k, start, m, n), last)
  {
    n := |m| / 96;
    start, last := Start(seeds), LastBlock(m[96 * n..]);
    StartIs(seeds);
    ShortHashIsFold(k, m, seeds);
    AbsorbIsFold(k, start, m, n);
    assert BlocksEnd(|m|) == 96 * n;
  }
}
