/**
 Which cache lines a prefetch touches (Arch_ForEachPrefetchLine in pxr/base/arch/prefetch.h):
 a form for sizes known at compile time, and one for sizes known at run time.  The callback
 is a record of the lines it was called with.
 */
module Prefetch {

  /** Addresses and sizes count modulo this. */
  const ADDRESS_SPACE: nat := 0x1_0000_0000_0000_0000

  /** No object is larger than PTRDIFF_MAX. */
  const PTRDIFF_MAX: nat := 0x7fff_ffff_ffff_ffff

  /** ARCH_CACHE_LINE_SIZE. */
  type LineSize = n: nat | n == 64 || n == 128 witness 64

  type Address = n: nat | n < ADDRESS_SPACE

  predicate PowerOfTwo(n: nat) {
    n == 1 || (n > 1 && n % 2 == 0 && PowerOfTwo(n / 2))
  }

  /** The sum of an address and a size, which wraps at most once. */
  function Wrap(n: nat): Address
    requires n < 2 * ADDRESS_SPACE
  {
    if n < ADDRESS_SPACE then n else n - ADDRESS_SPACE
  }

  // Arithmetic with either line size, as arithmetic with constants.

  function Div(n: nat, l: LineSize): nat {
    if l == 64 then n / 64 else n / 128
  }

  function Mod(n: nat, l: LineSize): nat {
    if l == 64 then n % 64 else n % 128
  }

  function Mul(n: nat, l: LineSize): nat {
    if l == 64 then n * 64 else n * 128
  }

  lemma Decompose(n: nat, l: LineSize)
    ensures n == Mul(Div(n, l), l) + Mod(n, l) && Mod(n, l) < l
  {
  }

  lemma DivIs(n: nat, l: LineSize, q: nat, r: nat)
    requires n == Mul(q, l) + r && r < l
    ensures Div(n, l) == q && Mod(n, l) == r
  {
  }

  /** addr & LineMask. */
  function LineOf(addr: nat, l: LineSize): nat {
    addr - Mod(addr, l)
  }

  // ---------------------------------------------------------------- specification

  /** Consecutive lines. */
  function Lines(first: nat, count: nat, l: LineSize): seq<nat> {
    seq(count, i requires 0 <= i < count => first + Mul(i, l))
  }

  /** How many lines the bytes from addr on occupy. */
  function LineCount(addr: nat, size: nat, l: LineSize): nat {
    if size == 0 then 0 else Div(Mod(addr, l) + size + l - 1, l)
  }

  /** The lines that [addr, addr + size) occupies, in increasing order. */
  function Occupied(addr: nat, size: nat, l: LineSize): seq<nat> {
    Lines(LineOf(addr, l), LineCount(addr, size, l), l)
  }

  predicate Within(x: nat, start: nat, n: nat) {
    start <= x < start + n
  }

  /** A line shares a byte with [addr, addr + size). */
  ghost predicate Meets(line: nat, addr: nat, size: nat, l: LineSize) {
    exists x: nat :: Within(x, addr, size) && Within(x, line, l)
  }

  /** The occupied lines are exactly the lines that meet the bytes, each once, in increasing order. */
  lemma OccupiedAreMet(addr: nat, size: nat, l: LineSize, line: nat)
    requires Mod(line, l) == 0
    ensures line in Occupied(addr, size, l) <==> Meets(line, addr, size, l)
    ensures forall i, j | 0 <= i < j < |Occupied(addr, size, l)| :: Occupied(addr, size, l)[i] < Occupied(addr, size, l)[j]
    ensures forall x | x in Occupied(addr, size, l) :: Mod(x, l) == 0
  {
    forall x | x in Occupied(addr, size, l)
      ensures Mod(x, l) == 0
    {
      var i :| 0 <= i < LineCount(addr, size, l) && x == LineOf(addr, l) + Mul(i, l);
      Decompose(addr, l);
      DivIs(x, l, Div(addr, l) + i, 0);
    }
    if size > 0 {
      var q, r := Div(addr, l), Mod(addr, l);
      LinesAreMet(q, r, size, LineCount(addr, size, l), Div(line, l), l);
    }
  }

  /** The same for an address r bytes into line q; n is the line's number. */
  lemma LinesAreMet(q: nat, r: nat, size: nat, count: nat, n: nat, l: LineSize)
    requires r < l && size > 0 && Mul(count, l) < r + size + l <= Mul(count, l) + l
    ensures Mul(n, l) in Lines(Mul(q, l), count, l) <==> Meets(Mul(n, l), Mul(q, l) + r, size, l)
  {
    var addr, line := Mul(q, l) + r, Mul(n, l);
    if line in Lines(Mul(q, l), count, l) {
      var i :| 0 <= i < count && Lines(Mul(q, l), count, l)[i] == line;
      var x := if line < addr then addr else line;
      assert Within(x, addr, size) && Within(x, line, l);
    }
    if Meets(line, addr, size, l) {
      var x: nat :| Within(x, addr, size) && Within(x, line, l);
      assert q <= n < q + count;
      assert Lines(Mul(q, l), count, l)[n - q] == line;
    }
  }

  // ---------------------------------------------------------------- run-time sizes

  /** The overload for a length known at run time: walks from the first byte's line to one past the last byte's. */
  method ForEachRuntimeLine(addr: Address, numBytes: nat, l: LineSize) returns (visited: seq<nat>)
    requires addr + numBytes <= ADDRESS_SPACE
    ensures visited == Occupied(addr, numBytes, l)
  {
    visited := [];
    if numBytes == 0 {
      return;
    }
    var begin := LineOf(addr, l);
    var last := LineOf(Wrap(addr + numBytes - 1), l);
    var end := Wrap(last + l);
    LastLine(addr, numBytes, l);
    visited := Walk(begin, end, LineCount(addr, numBytes, l), l);
  }

  /** The loop, which tests for the end after each step. */
  method Walk(begin: Address, end: Address, ghost count: nat, l: LineSize) returns (visited: seq<nat>)
    requires 0 < count && begin + Mul(count, l) <= ADDRESS_SPACE && end == Wrap(begin + Mul(count, l))
    ensures visited == Lines(begin, count, l)
  {
    visited := [];
    var p := begin;
    ghost var n := 0;
    while true
      invariant n < count && p == begin + Mul(n, l)
      invariant visited == Lines(begin, n, l)
      decreases count - n
    {
      visited := visited + [p];
      NextLine(begin, n, count, l);
      n := n + 1;
      p := Wrap(p + l);
      if p == end {
        break;
      }
    }
  }

  /** One past the last line is as many lines after the first as there are, and at most wraps to zero. */
  lemma LastLine(addr: nat, numBytes: nat, l: LineSize)
    requires 0 < numBytes && addr + numBytes <= ADDRESS_SPACE
    ensures var count := LineCount(addr, numBytes, l);
      0 < count && LineOf(addr, l) + Mul(count, l) == LineOf(addr + numBytes - 1, l) + l <= ADDRESS_SPACE
  {
    Decompose(addr, l);
    Decompose(Mod(addr, l) + numBytes - 1, l);
    LastLineOf(addr, numBytes, Div(addr, l), Mod(addr, l), Div(Mod(addr, l) + numBytes - 1, l),
               Mod(Mod(addr, l) + numBytes - 1, l), l);
  }

  /** The same with the first byte r bytes into line q, and the last byte s bytes into the k-th line from there. */
  lemma LastLineOf(addr: nat, numBytes: nat, q: nat, r: nat, k: nat, s: nat, l: LineSize)
    requires 0 < numBytes && addr + numBytes <= ADDRESS_SPACE
    requires addr == Mul(q, l) + r && r < l && r + numBytes - 1 == Mul(k, l) + s && s < l
    ensures Mod(addr, l) == r && LineCount(addr, numBytes, l) == k + 1
    ensures LineOf(addr, l) + Mul(k + 1, l) == LineOf(addr + numBytes - 1, l) + l <= ADDRESS_SPACE
  {
    DivIs(addr, l, q, r);
    DivIs(r + numBytes + l - 1, l, k + 1, s);
    DivIs(addr + numBytes - 1, l, q + k, s);
    WholeLines(q + k, l);
  }

  /** A line that starts inside the address space ends there. */
  lemma WholeLines(n: nat, l: LineSize)
    requires Mul(n, l) < ADDRESS_SPACE
    ensures Mul(n, l) + l <= ADDRESS_SPACE
  {
  }

  /** Stepping from line n reaches the end exactly after the last line, even if both wrap. */
  lemma NextLine(first: nat, n: nat, count: nat, l: LineSize)
    requires n < count && first + Mul(count, l) <= ADDRESS_SPACE
    ensures Wrap(first + Mul(n, l) + l) == Wrap(first + Mul(count, l)) <==> n + 1 == count
    ensures n + 1 < count ==> Wrap(first + Mul(n, l) + l) == first + Mul(n + 1, l)
  {
  }

  // ---------------------------------------------------------------- constant sizes

  function MinLines(size: nat, l: LineSize): nat {
    Div(size + l - 1, l)
  }

  /** Whether a range of this size and alignment can spill into one more line than it must. */
  predicate MightStraddle(size: nat, align: nat, l: LineSize) {
    size != 0 && align < l && l - align + size > Mul(MinLines(size, l), l)
  }

  /** The overload for a size and an alignment known at compile time. */
  method ForEachConstantLine(addr: Address, size: nat, align: nat, l: LineSize) returns (visited: seq<nat>)
    requires PowerOfTwo(align) && size <= PTRDIFF_MAX
    ensures visited == Visited(addr, size, align, l)
  {
    var ptr := LineOf(addr, l);
    visited, ptr := WalkConstant(ptr, MinLines(size, l), l);
    if MightStraddle(size, align, l) {
      if Wrap(addr + size) > ptr {
        visited := visited + [ptr];
      }
    }
  }

  /** The loop of constant length. */
  method WalkConstant(first: Address, count: nat, l: LineSize) returns (visited: seq<nat>, ptr: Address)
    requires first + Mul(count, l) < 2 * ADDRESS_SPACE
    ensures ptr == Wrap(first + Mul(count, l)) && visited == WrappedLines(first, count, l)
  {
    visited, ptr := [], first;
    for i := 0 to count
      invariant ptr == Wrap(first + Mul(i, l)) && visited == WrappedLines(first, i, l)
    {
      visited := visited + [ptr];
      ptr := Wrap(ptr + l);
    }
  }

  function WrappedLines(first: nat, count: nat, l: LineSize): seq<nat>
    requires first + Mul(count, l) < 2 * ADDRESS_SPACE
  {
    seq(count, i requires 0 <= i < count => Wrap(first + Mul(i, l)))
  }

  function Visited(addr: Address, size: nat, align: nat, l: LineSize): seq<nat>
    requires size <= PTRDIFF_MAX
  {
    var ptr := Wrap(LineOf(addr, l) + Mul(MinLines(size, l), l));
    WrappedLines(LineOf(addr, l), MinLines(size, l), l)
    + if MightStraddle(size, align, l) && Wrap(addr + size) > ptr then [ptr] else []
  }

  // ---------------------------------------------------------------- the two forms agree

  lemma {:induction false} SmallPowers(n: nat)
    requires PowerOfTwo(n) && n < 128
    ensures n in {1, 2, 4, 8, 16, 32, 64}
  {
    if n > 1 {
      SmallPowers(n / 2);
    }
  }

  lemma {:induction false} LargePowers(n: nat, l: LineSize)
    requires PowerOfTwo(n) && n >= l
    ensures Mod(n, l) == 0
    decreases n
  {
    if n < 128 {
      SmallPowers(n);
      assert n == 64;
    } else if n / 2 >= l {
      LargePowers(n / 2, l);
      DivIs(n, l, 2 * Div(n / 2, l), 0);
    } else {
      SmallPowers(n / 2);
      assert n == 128;
    }
  }

  lemma MultipleOfMultiple(k: nat, n: nat, l: LineSize)
    requires Mod(n, l) == 0
    ensures Mod(k * n, l) == 0
  {
    var m := Div(n, l);
    Decompose(n, l);
    if l == 64 {
      assert k * n == 64 * (k * m);
    } else {
      assert k * n == 128 * (k * m);
    }
    DivIs(k * n, l, k * m, 0);
  }

  lemma TinyOffset(u: nat, rem: nat, k: nat, align: nat, l: LineSize)
    requires align in {1, 2, 4, 8} && align < l
    requires rem < l && Mul(u, l) + rem == align * k
    ensures rem + align <= l
  {
    if align == 1 {
      assert rem == 1 * k - (if l == 64 then 64 * u else 128 * u);
      assert rem == 1 * (k - (if l == 64 then 64 else 128) * u);
    } else if align == 2 {
      assert rem == 2 * k - (if l == 64 then 64 * u else 128 * u);
      assert rem == 2 * (k - (if l == 64 then 32 else 64) * u);
    } else if align == 4 {
      assert rem == 4 * k - (if l == 64 then 64 * u else 128 * u);
      assert rem == 4 * (k - (if l == 64 then 16 else 32) * u);
    } else if align == 8 {
      assert rem == 8 * k - (if l == 64 then 64 * u else 128 * u);
      assert rem == 8 * (k - (if l == 64 then 8 else 16) * u);
    }
  }

  lemma SmallOffset(u: nat, rem: nat, k: nat, align: nat, l: LineSize)
    requires align in {16, 32} && align < l
    requires rem < l && Mul(u, l) + rem == align * k
    ensures rem + align <= l
  {
    if align == 16 {
      assert rem == 16 * k - (if l == 64 then 64 * u else 128 * u);
      assert rem == 16 * (k - (if l == 64 then 4 else 8) * u);
    } else if align == 32 {
      assert rem == 32 * k - (if l == 64 then 64 * u else 128 * u);
      assert rem == 32 * (k - (if l == 64 then 2 else 4) * u);
    }
  }

  lemma HalfOffset(u: nat, rem: nat, k: nat, align: nat, l: LineSize)
    requires align in {64} && align < l
    requires rem < l && Mul(u, l) + rem == align * k
    ensures rem + align <= l
  {
    if align == 64 {
      assert rem == 64 * k - (if l == 64 then 64 * u else 128 * u);
      assert rem == 64 * (k - (if l == 64 then 1 else 2) * u);
    }
  }

  lemma DivideExactly(n: nat, d: nat)
    requires d > 0 && n % d == 0
    ensures n == d * (n / d)
  {
  }

  lemma SmallAligned(u: nat, rem: nat, k: nat, align: nat, l: LineSize)
    requires align in {1, 2, 4, 8, 16, 32, 64} && align < l
    requires rem < l && Mul(u, l) + rem == align * k
    ensures rem + align <= l
  {
    if align < 16 {
      TinyOffset(u, rem, k, align, l);
    } else if align == 64 {
      HalfOffset(u, rem, k, align, l);
    } else {
      SmallOffset(u, rem, k, align, l);
    }
  }

  /** How far into a line an aligned address can be. */
  lemma AlignedOffset(addr: nat, align: nat, l: LineSize)
    requires PowerOfTwo(align) && addr % align == 0
    ensures if align < l then Mod(addr, l) + align <= l else Mod(addr, l) == 0
  {
    DivideExactly(addr, align);
    AlignedMultiple(addr, addr / align, align, l);
  }

  lemma AlignedMultiple(addr: nat, k: nat, align: nat, l: LineSize)
    requires PowerOfTwo(align) && addr == align * k
    ensures if align < l then Mod(addr, l) + align <= l else Mod(addr, l) == 0
  {
    if align < l {
      SmallPowers(align);
      Decompose(addr, l);
      SmallAligned(Div(addr, l), Mod(addr, l), k, align, l);
    } else {
      LargePowers(align, l);
      MultipleOfMultiple(k, align, l);
    }
  }

  /** An object of this size is at most one line more than it must be, and only if it might straddle. */
  lemma AtMostOneMore(addr: nat, size: nat, align: nat, l: LineSize)
    requires PowerOfTwo(align) && addr % align == 0
    ensures var count, least := LineCount(addr, size, l), MinLines(size, l);
      && (count == least || count == least + 1)
      && (count == least + 1 <==> size > 0 && addr + size > LineOf(addr, l) + Mul(least, l))
      && (count == least + 1 ==> MightStraddle(size, align, l))
  {
    AlignedOffset(addr, align, l);
    Decompose(addr, l);
    CountBounds(Mod(addr, l), size, l);
  }

  lemma CountBounds(r: nat, size: nat, l: LineSize)
    requires r < l
    ensures var count, least := if size == 0 then 0 else Div(r + size + l - 1, l), Div(size + l - 1, l);
      && (count == least || count == least + 1)
      && (count == least + 1 <==> size > 0 && r + size > Mul(least, l))
  {
  }

  lemma LastOffset(align: nat, l: LineSize)
    requires align in {1, 2, 4, 8, 16, 32, 64} && align < l
    ensures (l - align) % align == 0
  {
    if align == 1 {
    } else if align == 2 {
    } else if align == 4 {
    } else if align == 8 {
    } else if align == 16 {
    } else if align == 32 {
    }
  }

  /** If a size and an alignment might straddle, some aligned address does. */
  lemma StraddleHappens(size: nat, align: nat, l: LineSize)
    requires PowerOfTwo(align) && MightStraddle(size, align, l)
    ensures LineCount(l - align, size, l) == MinLines(size, l) + 1 && (l - align) % align == 0
  {
    SmallPowers(align);
    LastOffset(align, l);
    DivIs(l - align, l, 0, l - align);
    CountBounds(l - align, size, l);
  }

  lemma NoWrap(first: nat, count: nat, l: LineSize)
    requires first + Mul(count, l) <= ADDRESS_SPACE
    ensures WrappedLines(first, count, l) == Lines(first, count, l)
  {
  }

  /**
   For an aligned object that does not wrap, the constant form visits the occupied lines
   exactly, unless it might straddle, stops short of the end of the address space, and its least
   number of lines reaches that end.  The pointer it then compares with has wrapped to zero, and
   it visits line zero.
   */
  lemma ConstantFormIsExact(addr: Address, size: nat, align: nat, l: LineSize)
    requires PowerOfTwo(align) && addr % align == 0 && size <= PTRDIFF_MAX && addr + size <= ADDRESS_SPACE
    ensures Visited(addr, size, align, l) == Occupied(addr, size, l) <==>
            !(MightStraddle(size, align, l) && addr + size < ADDRESS_SPACE
              && LineOf(addr, l) + Mul(MinLines(size, l), l) == ADDRESS_SPACE)
  {
    var first, least := LineOf(addr, l), MinLines(size, l);
    AtMostOneMore(addr, size, align, l);
    LeastFits(addr, size, l);
    NoWrap(first, least, l);
    if size > 0 && addr + size == ADDRESS_SPACE {
      EndsTogether(addr, size, l);
    }
    Compare(first, least, LineCount(addr, size, l), addr + size, MightStraddle(size, align, l), l);
  }

  /** An object that ends with the address space fills the least number of lines to that end. */
  lemma EndsTogether(addr: nat, size: nat, l: LineSize)
    requires size > 0 && addr + size == ADDRESS_SPACE
    ensures LineOf(addr, l) + Mul(MinLines(size, l), l) == ADDRESS_SPACE
  {
    Decompose(addr, l);
    var q, r := Div(addr, l), Mod(addr, l);
    if l == 64 {
      DivIs(size + l - 1, l, 0x400_0000_0000_0000 - q, l - 1 - r);
    } else {
      DivIs(size + l - 1, l, 0x200_0000_0000_0000 - q, l - 1 - r);
    }
  }

  /** The least number of lines and perhaps one more, against the lines there are; end is one past the last byte. */
  lemma Compare(first: nat, least: nat, count: nat, end: nat, straddle: bool, l: LineSize)
    requires first + Mul(least, l) <= ADDRESS_SPACE && end <= ADDRESS_SPACE
    requires count == least || count == least + 1
    requires count == least + 1 <==> straddle && end > first + Mul(least, l)
    requires straddle ==> 0 < end
    requires straddle && end == ADDRESS_SPACE ==> first + Mul(least, l) == ADDRESS_SPACE
    ensures var ptr := Wrap(first + Mul(least, l));
      Lines(first, least, l) + (if straddle && Wrap(end) > ptr then [ptr] else []) == Lines(first, count, l) <==>
      !(straddle && end < ADDRESS_SPACE && first + Mul(least, l) == ADDRESS_SPACE)
  {
    var ptr := Wrap(first + Mul(least, l));
    assert Lines(first, least + 1, l) == Lines(first, least, l) + [first + Mul(least, l)];
    assert |Lines(first, least, l) + [ptr]| == least + 1;
    assert |Lines(first, count, l)| == count;
  }

  /** The least number of lines, counted from the first, stays inside the address space. */
  lemma LeastFits(addr: nat, size: nat, l: LineSize)
    requires addr + size <= ADDRESS_SPACE
    ensures LineOf(addr, l) + Mul(MinLines(size, l), l) <= ADDRESS_SPACE
  {
    if size > 0 {
      LastLine(addr, size, l);
      CountBounds(Mod(addr, l), size, l);
    }
  }

  /** Away from the last line of the address space, the two forms visit the same lines. */
  lemma FormsAgree(addr: Address, size: nat, align: nat, l: LineSize)
    requires PowerOfTwo(align) && addr % align == 0 && size <= PTRDIFF_MAX && addr + size + l <= ADDRESS_SPACE
    ensures Visited(addr, size, align, l) == Occupied(addr, size, l)
  {
    ConstantFormIsExact(addr, size, align, l);
    CountBounds(Mod(addr, l), size, l);
    Decompose(addr, l);
  }

  /** Two bytes, three before the end of the address space: line zero is visited too. */
  lemma ConstantFormWraps()
    ensures Visited(ADDRESS_SPACE - 3, 2, 1, 64) == [ADDRESS_SPACE - 64, 0]
    ensures Occupied(ADDRESS_SPACE - 3, 2, 64) == [ADDRESS_SPACE - 64]
  {
  }
}
