/**
 The long hash and the incremental hasher of pxr/base/arch/hash.cpp, and the promise made
 there: the incremental hash is the one-shot hash of the concatenated fragments.
 */
module SpookyStream {
  import opened SpookyWords
  import opened SpookyShort

  // ---------------------------------------------------------------- specification

  /** The state that whole blocks are mixed into, before any of them. */
  function Start(seeds: Hash): Vars {
    var three := [seeds.h1, seeds.h2, SC_CONST];
    three + three + three + three
  }

  /** Mixes the whole blocks of m into h, first block first. */
  function Absorb(k: Kernels, h: Vars, m: Bytes): Vars
    requires |m| % BLOCK_SIZE == 0
    decreases |m|
  {
    if m == [] then h else Absorb(k, k.mix(h, m[..BLOCK_SIZE]), m[BLOCK_SIZE..])
  }

  /** The last block: the unmixed bytes, zero padding, and their number in the last byte. */
  function LastBlock(rest: Bytes): Block
    requires |rest| < BLOCK_SIZE
  {
    rest + Zeros(BLOCK_SIZE - 1 - |rest|) + [|rest|]
  }

  /** The hash of the message whose whole blocks are m, followed by rest. */
  function LongHash(k: Kernels, m: Bytes, rest: Bytes, seeds: Hash): Hash
    requires |m| % BLOCK_SIZE == 0 && |rest| < BLOCK_SIZE
  {
    k.end(Absorb(k, Start(seeds), m), LastBlock(rest))
  }

  /** Where the whole blocks of a message end. */
  function BlocksEnd(length: nat): (p: nat)
    ensures p % BLOCK_SIZE == 0 && p <= length < p + BLOCK_SIZE
  {
    length - length % BLOCK_SIZE
  }

  /** Hashes a whole message at once. */
  function HashOf(k: Kernels, m: Bytes, seeds: Hash): Hash {
    if |m| < BUF_SIZE then ShortHash(k, m, seeds)
    else LongHash(k, m[..BlocksEnd(|m|)], m[BlocksEnd(|m|)..], seeds)
  }

  lemma {:induction false} AbsorbConcat(k: Kernels, h: Vars, a: Bytes, b: Bytes)
    requires |a| % BLOCK_SIZE == 0 && |b| % BLOCK_SIZE == 0
    ensures Absorb(k, h, a + b) == Absorb(k, Absorb(k, h, a), b)
    decreases |a|
  {
    if a == [] {
      assert a + b == b;
    } else {
      assert (a + b)[..BLOCK_SIZE] == a[..BLOCK_SIZE];
      assert (a + b)[BLOCK_SIZE..] == a[BLOCK_SIZE..] + b;
      AbsorbConcat(k, k.mix(h, a[..BLOCK_SIZE]), a[BLOCK_SIZE..], b);
    }
  }

  lemma AbsorbOne(k: Kernels, h: Vars, a: Bytes, b: Block)
    requires |a| % BLOCK_SIZE == 0
    ensures Absorb(k, h, a + b) == k.mix(Absorb(k, h, a), b)
  {
    AbsorbConcat(k, h, a, b);
    assert b[..BLOCK_SIZE] == b;
    assert Absorb(k, k.mix(Absorb(k, h, a), b), b[BLOCK_SIZE..]) == k.mix(Absorb(k, h, a), b);
  }

  lemma AbsorbPast(k: Kernels, h: Vars, a: Bytes, b: Bytes, p: nat, end: nat)
    requires p <= end <= |b| && (|a| + p) % BLOCK_SIZE == 0 && (end - p) % BLOCK_SIZE == 0
    ensures (|a| + end) % BLOCK_SIZE == 0
    ensures Absorb(k, h, (a + b)[..|a| + end]) == Absorb(k, Absorb(k, h, a + b[..p]), b[p..end])
  {
    AbsorbConcat(k, h, a + b[..p], b[p..end]);
    assert a + b[..p] + b[p..end] == (a + b)[..|a| + end];
  }

  lemma AppendAfter(a: Bytes, b: Bytes, at: nat)
    requires at <= |a|
    ensures (a + b)[..at] == a[..at] && (a + b)[at..] == a[at..] + b
  {
  }

  lemma TailAfter(a: Bytes, b: Bytes, at: nat)
    requires at <= |b|
    ensures (a + b)[|a| + at..] == b[at..]
  {
  }

  /** A full stash is the two blocks of the message after those that are mixed. */
  lemma TwoBlocks(k: Kernels, h: Vars, mixed: Bytes, stash: Bytes, part: Bytes, data: Bytes)
    requires |mixed| % BLOCK_SIZE == 0 && |stash + part| == |data| == BUF_SIZE
    requires data[..|stash|] == stash && data[|stash|..] == part
    ensures (|mixed + stash| + |part|) % BLOCK_SIZE == 0
    ensures k.mix(k.mix(Absorb(k, h, mixed), data[..BLOCK_SIZE]), data[BLOCK_SIZE..]) == Absorb(k, h, mixed + stash + part)
  {
    var one, two := data[..BLOCK_SIZE], data[BLOCK_SIZE..];
    assert data == stash + part && data == one + two;
    assert mixed + stash + part == mixed + one + two;
    AbsorbOne(k, h, mixed, one);
    AbsorbOne(k, h, mixed + one, two);
  }

  /** Whole blocks may end anywhere as long as less than a block is left. */
  lemma LongHashIsHashOf(k: Kernels, m: Bytes, rest: Bytes, seeds: Hash)
    requires |m| % BLOCK_SIZE == 0 && |rest| < BLOCK_SIZE && |m| + |rest| >= BUF_SIZE
    ensures HashOf(k, m + rest, seeds) == LongHash(k, m, rest, seeds)
  {
    var all := m + rest;
    assert |all| % BLOCK_SIZE == |rest|;
    assert all[..|m|] == m && all[|m|..] == rest;
  }

  // ---------------------------------------------------------------- one-shot

  /** The block loop: mixes the whole blocks of m at p up to end. */
  method MixBlocks(k: Kernels, m: Bytes, p0: nat, end: nat, h0: Vars) returns (h: Vars)
    requires p0 <= end <= |m| && (end - p0) % BLOCK_SIZE == 0
    ensures h == Absorb(k, h0, m[p0..end])
  {
    h := h0;
    var p := p0;
    while p < end
      invariant p0 <= p <= end && (p - p0) % BLOCK_SIZE == 0
      invariant h == Absorb(k, h0, m[p0..p])
    {
      AbsorbOne(k, h0, m[p0..p], m[p..p + BLOCK_SIZE]);
      assert m[p0..p + BLOCK_SIZE] == m[p0..p] + m[p..p + BLOCK_SIZE];
      h := k.mix(h, m[p..p + BLOCK_SIZE]);
      p := p + BLOCK_SIZE;
    }
  }

  /** SpookyHash::Hash128. */
  method Hash128(k: Kernels, m: Bytes, seeds: Hash) returns (hash: Hash)
    ensures hash == HashOf(k, m, seeds)
  {
    if |m| < BUF_SIZE {
      hash := Short(k, m, seeds);
      return;
    }
    var end := |m| / BLOCK_SIZE * BLOCK_SIZE;
    var h := MixBlocks(k, m, 0, end, Start(seeds));
    var remainder := |m| - end;
    var buf := new uint8[BLOCK_SIZE](_ => 0);
    forall i | 0 <= i < remainder { buf[i] := m[end + i]; }
    forall i | remainder <= i < BLOCK_SIZE { buf[i] := 0; }
    buf[BLOCK_SIZE - 1] := ToUint8(remainder);
    assert buf[..] == LastBlock(m[end..]);
    assert m[0..end] == m[..end];
    hash := k.end(h, buf[..]);
  }

  // ---------------------------------------------------------------- incremental

  class SpookyHash {
    const k: Kernels
    const data: array<uint8>    // m_data: bytes not yet mixed
    const state: array<uint64>  // m_state: the seeds, or the mixed state
    var length: nat             // m_length, a size_t
    var remainder: uint8        // m_remainder: how many bytes of data are in use
    ghost var message: Bytes    // every fragment so far
    ghost var seeds: Hash

    ghost predicate Shape() {
      data.Length == BUF_SIZE && state.Length == NUM_VARS && data as object != state as object
    }

    /** How many bytes of the message have been mixed; the others are in the stash. */
    ghost function Mixed(): int
      reads this
    {
      |message| - remainder
    }

    ghost predicate Stashed()
      reads this, data
      requires Shape()
    {
      && length == |message| < SIZE_LIMIT
      && remainder < BUF_SIZE && Mixed() >= 0 && Mixed() % BLOCK_SIZE == 0
      && data[..remainder] == message[Mixed()..]
    }

    ghost predicate Valid()
      reads this, data, state
    {
      && Shape() && Stashed()
      && if |message| < BUF_SIZE then
           remainder == length && state[0] == seeds.h1 && state[1] == seeds.h2
         else
           state[..] == Absorb(k, Start(seeds), message[..Mixed()])
    }

    constructor (k: Kernels)
      ensures this.k == k && fresh(data) && fresh(state) && Shape()
    {
      this.k := k;
      data := new uint8[BUF_SIZE](_ => 0);
      state := new uint64[NUM_VARS](_ => 0);
      length, remainder := 0, 0;
    }

    method Init(seed1: uint64, seed2: uint64)
      requires Shape()
      modifies this, state
      ensures Valid() && message == [] && seeds == Hash(seed1, seed2)
    {
      length, remainder := 0, 0;
      state[0] := seed1;
      state[1] := seed2;
      message, seeds := [], Hash(seed1, seed2);
    }

    /** The state to mix into: a fresh one as long as nothing has been mixed. */
    method LoadState() returns (h: Vars)
      requires Valid()
      ensures h == Absorb(k, Start(seeds), message[..Mixed()])
    {
      if length < BUF_SIZE {
        var three := [state[0], state[1], SC_CONST];
        h := three + three + three + three;
      } else {
        h := state[..];
      }
    }

    /** Appends bytes to the stash, which stays less than full. */
    method Stash(m: Bytes)
      requires Valid() && |message| + |m| < SIZE_LIMIT && |m| + remainder < BUF_SIZE
      modifies this, data
      ensures Valid() && message == old(message) + m && seeds == old(seeds)
    {
      forall i | 0 <= i < |m| { data[remainder + i] := m[i]; }
      length := |m| + length;
      remainder := ToUint8(|m| + remainder);
      AppendAfter(message, m, |message| - old(remainder));
      message := message + m;
      assert data[..remainder] == old(data[..remainder]) + m;
    }

    /** Fills the stash from the front of m and mixes both of its blocks. */
    method MixStash(m: Bytes, h0: Vars) returns (h: Vars, prefix: nat)
      requires Shape() && Stashed() && |m| + remainder >= BUF_SIZE
      requires h0 == Absorb(k, Start(seeds), message[..Mixed()])
      modifies data
      ensures prefix == BUF_SIZE - remainder
      ensures (|message| + prefix) % BLOCK_SIZE == 0
      ensures h == Absorb(k, Start(seeds), message + m[..prefix])
    {
      prefix := ToUint8(BUF_SIZE - remainder);
      forall i | 0 <= i < prefix { data[remainder + i] := m[i]; }
      ghost var mixed, stash := message[..Mixed()], message[Mixed()..];
      assert message == mixed + stash;
      assert data[..remainder] == stash && data[remainder..] == m[..prefix];
      TwoBlocks(k, Start(seeds), mixed, stash, m[..prefix], data[..]);
      h := k.mix(h0, data[..BLOCK_SIZE]);
      h := k.mix(h, data[BLOCK_SIZE..]);
    }

    method Update(m: Bytes)
      requires Valid() && |message| + |m| < SIZE_LIMIT
      modifies this, data, state
      ensures Valid() && message == old(message) + m && seeds == old(seeds)
    {
      var newLength := |m| + remainder;
      // A fragment that leaves the stash less than full is only stuffed away.
      if newLength < BUF_SIZE {
        Stash(m);
        return;
      }
      var h := LoadState();
      var p := 0;
      if remainder != 0 {
        h, p := MixStash(m, h);
      }
      assert remainder == 0 ==> message[..Mixed()] == message + m[..p];
      var end := p + (|m| - p) / BLOCK_SIZE * BLOCK_SIZE;
      h := MixBlocks(k, m, p, end, h);
      AbsorbPast(k, Start(seeds), message, m, p, end);
      Store(m, end, h);
    }

    /** Stuffs away the bytes left after the last whole block, and the state. */
    method Store(m: Bytes, end: nat, h: Vars)
      requires Shape() && length == |message| && |message| + |m| < SIZE_LIMIT
      requires end <= |m| < end + BLOCK_SIZE && (|message| + end) % BLOCK_SIZE == 0
      requires |message| + |m| >= BUF_SIZE
      requires h == Absorb(k, Start(seeds), (message + m)[..|message| + end])
      modifies this, data, state
      ensures Valid() && message == old(message) + m && seeds == old(seeds)
    {
      hide Absorb, Start;
      length := |m| + length;
      remainder := ToUint8(|m| - end);
      assert remainder == |m| - end;
      forall i | 0 <= i < remainder { data[i] := m[end + i]; }
      forall i | 0 <= i < NUM_VARS { state[i] := h[i]; }
      TailAfter(message, m, end);
      message := message + m;
      assert state[..] == h;
      assert data[..remainder] == m[end..];
    }

    /** SpookyHash::Final.  It writes to the stash, but only past the bytes in use. */
    method Final() returns (hash: Hash)
      requires Valid()
      modifies data
      ensures Valid() && data[..remainder] == old(data[..remainder])
      ensures hash == HashOf(k, message, seeds)
    {
      if length < BUF_SIZE {
        assert data[..length] == message;
        hash := Short(k, data[..length], Hash(state[0], state[1]));
        return;
      }
      ghost var mixed, stash := message[..Mixed()], data[..remainder];
      var h: Vars, off, rest := state[..], 0, remainder;
      if rest >= BLOCK_SIZE {
        // The stash can hold two blocks; the first is whole.
        AbsorbOne(k, Start(seeds), mixed, data[..BLOCK_SIZE]);
        h := k.mix(h, data[..BLOCK_SIZE]);
        off, rest := BLOCK_SIZE, rest - BLOCK_SIZE;
        assert data[..BLOCK_SIZE] == stash[..BLOCK_SIZE];
      }
      assert mixed + stash[..off] + stash[off..] == message;
      assert off == 0 ==> mixed + stash[..off] == mixed;
      LongHashIsHashOf(k, mixed + stash[..off], stash[off..], seeds);
      assert stash[off..] == data[off..off + rest];
      hash := EndBlock(h, off, rest);
    }

    /** Pads the block of the stash that starts at off after its first rest bytes, and ends with it. */
    method EndBlock(h: Vars, off: nat, rest: nat) returns (hash: Hash)
      requires Shape() && rest < BLOCK_SIZE && off + BLOCK_SIZE <= BUF_SIZE
      modifies data
      ensures data[..off + rest] == old(data[..off + rest])
      ensures hash == k.end(h, LastBlock(old(data[off..off + rest])))
    {
      forall i | rest <= i < BLOCK_SIZE { data[off + i] := 0; }
      data[off + BLOCK_SIZE - 1] := rest;
      assert data[off..off + BLOCK_SIZE] == LastBlock(old(data[off..off + rest]));
      hash := k.end(h, data[off..off + BLOCK_SIZE]);
    }
  }

  // ---------------------------------------------------------------- whole runs

  datatype Call = Update(fragment: Bytes) | Final

  /** The message after a run of calls. */
  function MessageOf(calls: seq<Call>): Bytes {
    if calls == [] then []
    else
      var last := calls[|calls| - 1];
      MessageOf(calls[..|calls| - 1]) + if last.Update? then last.fragment else []
  }

  /** What a caller sees: at each Final, the one-shot hash of the message up to there. */
  function ReportsOf(k: Kernels, seeds: Hash, calls: seq<Call>): seq<Hash> {
    if calls == [] then []
    else
      var before := calls[..|calls| - 1];
      ReportsOf(k, seeds, before)
      + if calls[|calls| - 1].Final? then [HashOf(k, MessageOf(before), seeds)] else []
  }

  lemma {:induction false} MessageGrows(calls: seq<Call>, n: nat)
    requires n <= |calls|
    ensures |MessageOf(calls[..n])| <= |MessageOf(calls)|
    decreases |calls|
  {
    if n == |calls| {
      assert calls[..n] == calls;
    } else {
      assert calls[..|calls| - 1][..n] == calls[..n];
      MessageGrows(calls[..|calls| - 1], n);
    }
  }

  /** What one call adds to the message and to the reports. */
  lemma OneCall(k: Kernels, seeds: Hash, calls: seq<Call>, i: nat)
    requires i < |calls|
    ensures MessageOf(calls[..i + 1]) == MessageOf(calls[..i]) + (if calls[i].Update? then calls[i].fragment else [])
    ensures ReportsOf(k, seeds, calls[..i + 1])
         == ReportsOf(k, seeds, calls[..i]) + (if calls[i].Final? then [HashOf(k, MessageOf(calls[..i]), seeds)] else [])
    ensures |MessageOf(calls[..i + 1])| <= |MessageOf(calls)|
  {
    assert calls[..i + 1][..i] == calls[..i];
    MessageGrows(calls, i + 1);
  }

  /**
   For every seed pair, every split of a message into fragments, and every interleaving of
   reports: each report is the one-shot hash of the fragments so far.
   */
  method Run(k: Kernels, seeds: Hash, calls: seq<Call>) returns (reports: seq<Hash>)
    requires |MessageOf(calls)| < SIZE_LIMIT
    ensures reports == ReportsOf(k, seeds, calls)
  {
    var hasher := new SpookyHash(k);
    hasher.Init(seeds.h1, seeds.h2);
    reports := [];
    for i := 0 to |calls|
      invariant hasher.Valid() && fresh(hasher) && fresh(hasher.data) && fresh(hasher.state)
      invariant hasher.k == k && hasher.seeds == seeds && hasher.message == MessageOf(calls[..i])
      invariant reports == ReportsOf(k, seeds, calls[..i])
    {
      OneCall(k, seeds, calls, i);
      match calls[i]
      case Update(fragment) =>
        hasher.Update(fragment);
      case Final =>
        var hash := hasher.Final();
        reports := reports + [hash];
    }
    assert calls[..|calls|] == calls;
  }
}
