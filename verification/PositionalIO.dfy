/**
 Positional reads and writes that retry (the POSIX branches of ArchPRead and ArchPWrite in
 pxr/base/arch/fileSystem.cpp).
 */
module PositionalIO {

  type Byte = n: nat | n < 0x100
  type Bytes = seq<Byte>

  const INT_MAX := 0x7fff_ffff
  const INT64_MAX := 0x7fff_ffff_ffff_ffff
  const EINTR := 4
  const EINVAL := 22
  const EFBIG := 27

  function Min(a: int, b: int): int {
    if b < a then b else a
  }

  /** A gap before the offset reads as zeros. */
  function Padded(file: Bytes, offset: nat): (padded: Bytes)
    ensures |padded| == if |file| < offset then offset else |file|
  {
    if |file| < offset then file + seq(offset - |file|, _ => 0) else file
  }

  function Spliced(file: Bytes, offset: nat, data: Bytes): Bytes
    requires offset <= |file|
  {
    file[..offset] + data + if offset + |data| < |file| then file[offset + |data|..] else []
  }

  /** A file after data was written to it at offset; no data changes nothing. */
  function Overwritten(file: Bytes, offset: nat, data: Bytes): Bytes {
    if data == [] then file else Spliced(Padded(file, offset), offset, data)
  }

  /** What can happen to a call instead of transferring everything. */
  datatype Disturbance = Failure(errno: int) | Short(limit: nat)

  /** How much of a transfer the next call makes, if it does not fail. */
  function Allowed(script: seq<Disturbance>, count: nat): (n: nat)
    ensures n <= count
  {
    if script == [] || script[0].Failure? then count else Min(script[0].limit, count)
  }

  function Rest(script: seq<Disturbance>): seq<Disturbance> {
    if script == [] then [] else script[1..]
  }

  /**
   A file, and the kernel calls on it.  The next calls go as scripted: a failure, or a transfer
   of at most so many bytes.  When the script has ended, calls transfer all they can.
   */
  class Kernel {
    const maxSize: nat
    var file: Bytes
    var script: seq<Disturbance>
    var errno: int
    ghost var requests: seq<int>  // the counts asked for

    ghost predicate Valid()
      reads this
    {
      |file| <= maxSize <= INT64_MAX
    }

    constructor (file: Bytes, maxSize: nat, script: seq<Disturbance>)
      requires |file| <= maxSize <= INT64_MAX
      ensures Valid() && this.file == file && this.script == script && this.maxSize == maxSize && requests == []
    {
      this.file, this.maxSize, this.script, errno, requests := file, maxSize, script, 0, [];
    }

    /** pread: returns less than asked for only at a scripted place or at the end of the file, and 0 only there. */
    method PRead(buffer: array<Byte>, at: nat, count: nat, offset: int) returns (n: int)
      requires Valid() && at + count <= buffer.Length && count > 0
      modifies this`script, this`errno, this`requests, buffer
      ensures requests == old(requests) + [count]
      ensures script == Rest(old(script))
      ensures n == -1 <==> offset < 0 || (old(script) != [] && old(script)[0].Failure?)
      ensures n == -1 ==> errno == if offset < 0 then EINVAL else old(script)[0].errno
      ensures n == -1 || (0 <= n <= count && (n == 0 <==> offset >= |file|))
      ensures 0 <= n < count && old(script) == [] ==> n == if offset >= |file| then 0 else |file| - offset
      ensures n > 0 ==> offset + n <= |file| && forall i | at <= i < at + n :: buffer[i] == file[offset + (i - at)]
      ensures forall i | 0 <= i < buffer.Length && !(at <= i < at + n) :: buffer[i] == old(buffer[i])
    {
      requests := requests + [count];
      var limit := count;
      var scripted := script != [];
      if scripted {
        var d := script[0];
        script := script[1..];
        if d.Failure? {
          errno := if offset < 0 then EINVAL else d.errno;
          return -1;
        }
        limit := if d.limit == 0 then 1 else Min(d.limit, count);
      }
      if offset < 0 {
        errno := EINVAL;
        return -1;
      }
      n := if offset >= |file| then 0 else Min(limit, |file| - offset);
      forall i | at <= i < at + n { buffer[i] := file[offset + (i - at)]; }
    }

    /** pwrite: may transfer less than asked for, even nothing at a scripted place. */
    method PWrite(data: Bytes, offset: nat) returns (n: int)
      requires Valid()
      modifies this`file, this`script, this`errno, this`requests
      ensures Valid()
      ensures requests == old(requests) + [|data|]
      ensures script == Rest(old(script))
      ensures n == -1 <==> (old(script) != [] && old(script)[0].Failure?) || (|data| > 0 && offset >= maxSize)
      ensures n == -1 ==> file == old(file)
      ensures n == -1 || (0 <= n <= |data| && file == Overwritten(old(file), offset, data[..n]))
      ensures n >= 0 && (data == [] || offset + |data| <= maxSize) ==> n == Allowed(old(script), |data|)
      ensures n >= 0 && old(script) == [] ==> n == |data| || n == maxSize - offset
    {
      requests := requests + [|data|];
      var limit := |data|;
      if script != [] {
        var d := script[0];
        script := script[1..];
        if d.Failure? {
          errno := d.errno;
          return -1;
        }
        limit := Min(d.limit, |data|);
      }
      if |data| > 0 && offset >= maxSize {
        errno := EFBIG;
        return -1;
      }
      n := if |data| == 0 then 0 else Min(limit, maxSize - offset);
      file := Overwritten(file, offset, data[..n]);
    }
  }

  /** The chunk that is asked for next. */
  function Chunk(signedCount: int): int {
    Min(signedCount, INT_MAX)
  }

  /** All that can go wrong is an interruption. */
  predicate OnlyInterruptions(script: seq<Disturbance>) {
    forall d | d in script :: d.Failure? ==> d.errno == EINTR
  }

  /** Nothing has gone wrong with a result n but interruptions, and nothing else will. */
  predicate Harmless(script: seq<Disturbance>, n: int, errno: int) {
    OnlyInterruptions(script) && (n == -1 ==> errno == EINTR)
  }

  /** The first n bytes of the buffer are the bytes of the file at offset, all of them there. */
  ghost predicate Done(file: Bytes, buffer: array<Byte>, offset: nat, n: nat)
    reads buffer
  {
    && n <= buffer.Length && (n > 0 ==> offset + n <= |file|)
    && forall i | 0 <= i < n :: buffer[i] == file[offset + i]
  }

  /** One call of pread, after which the buffer holds so much more of the file. */
  method ReadOn(kernel: Kernel, buffer: array<Byte>, at: nat, count: nat, off: int, ghost offset: int) returns (n: int)
    requires kernel.Valid() && at + count <= buffer.Length && 0 < count <= INT_MAX && off == offset + at
    requires offset >= 0 ==> Done(kernel.file, buffer, offset, at)
    modifies kernel`script, kernel`errno, kernel`requests, buffer
    ensures kernel.requests == old(kernel.requests) + [count]
    ensures kernel.script == Rest(old(kernel.script))
    ensures n == -1 && off >= 0 ==> old(kernel.script) != []
    ensures off >= 0 && OnlyInterruptions(old(kernel.script)) ==> Harmless(kernel.script, n, kernel.errno)
    ensures n == -1 && off < 0 ==> kernel.errno == EINVAL
    ensures n == -1 || (0 <= n <= count && off >= 0 && (n == 0 <==> off >= |kernel.file|))
    ensures n >= 0 && offset >= 0 ==> Done(kernel.file, buffer, offset, at + n)
    ensures n == -1 && offset >= 0 ==> Done(kernel.file, buffer, offset, at)
    ensures forall i | at + count <= i < buffer.Length :: buffer[i] == old(buffer[i])
  {
    n := kernel.PRead(buffer, at, count, off);
  }

  /** All requests since then were for a number of bytes that fits an int. */
  ghost predicate Asked(requests: seq<int>, before: seq<int>) {
    before <= requests && forall i | |before| <= i < |requests| :: 0 <= requests[i] <= 0x7fff_ffff
  }

  /** The first request since then was for all of it, or for as much as fits an int. */
  ghost predicate AskedFirst(requests: seq<int>, before: seq<int>, count: nat) {
    |requests| > |before| && requests[|before|] == if count <= 0x7fff_ffff then count else 0x7fff_ffff
  }

  /** The loop of ArchPRead, after a first call that returned nread. */
  method ReadRest(kernel: Kernel, buffer: array<Byte>, count: nat, offset: int, nread0: int) returns (r: int)
    requires kernel.Valid() && 0 < count <= buffer.Length
    requires -1 <= nread0 <= Chunk(count) && nread0 != count && nread0 != 0 && (nread0 > 0 ==> offset >= 0)
    requires offset >= 0 ==> Done(kernel.file, buffer, offset, if nread0 > 0 then nread0 else 0)
    requires nread0 == -1 && offset < 0 ==> kernel.errno == EINVAL
    modifies kernel`script, kernel`errno, kernel`requests, buffer
    ensures Asked(kernel.requests, old(kernel.requests))
    ensures r == -1 || 0 <= r <= count
    ensures r >= 0 ==> offset >= 0 && Done(kernel.file, buffer, offset, r)
    ensures 0 <= r < count ==> offset + r >= |kernel.file|
    ensures r == -1 ==> kernel.errno != EINTR
    ensures offset >= 0 && Harmless(old(kernel.script), nread0, old(kernel.errno)) ==> r >= 0
    ensures forall i | count <= i < buffer.Length :: buffer[i] == old(buffer[i])
  {
    ghost var harmless := offset >= 0 && Harmless(kernel.script, nread0, kernel.errno);
    var nread := nread0;
    var signedCount: int := count;
    var chunkSize := Chunk(signedCount);
    var off := offset;
    var total := 0;
    while nread != -1 || (nread == -1 && kernel.errno == EINTR)
      invariant kernel.Valid()
      invariant 0 <= total < count && signedCount == count - total && off == offset + total
      invariant chunkSize == Chunk(signedCount) && -1 <= nread <= chunkSize && nread != signedCount && nread != 0
      invariant total > 0 || nread != -1 ==> offset >= 0
      invariant offset >= 0 ==> Done(kernel.file, buffer, offset, total + if nread > 0 then nread else 0)
      invariant forall i | count <= i < buffer.Length :: buffer[i] == old(buffer[i])
      invariant Asked(kernel.requests, old(kernel.requests))
      invariant harmless ==> offset >= 0 && Harmless(kernel.script, nread, kernel.errno)
      invariant nread == -1 && offset < 0 ==> kernel.errno == EINVAL
      decreases |kernel.script|, signedCount - nread
    {
      // Update bookkeeping and retry.
      if nread > 0 {
        total := total + nread;
        signedCount := signedCount - nread;
        chunkSize := Chunk(signedCount);
        off := off + nread;
      }
      nread := ReadOn(kernel, buffer, total, chunkSize, off, offset);
      if nread == signedCount || nread == 0 {
        return total + nread;
      }
    }
    return -1;
  }

  /**
   ArchPRead: retries after interruptions and short transfers, until everything is read or the
   file ends.  The buffer holds what was in the file; less than count only at its end.
   */
  method ArchPRead(kernel: Kernel, buffer: array<Byte>, count: nat, offset: int) returns (r: int)
    requires kernel.Valid() && count <= buffer.Length && count <= INT64_MAX
    modifies kernel`script, kernel`errno, kernel`requests, buffer
    ensures Asked(kernel.requests, old(kernel.requests))
    ensures count > 0 ==> AskedFirst(kernel.requests, old(kernel.requests), count)
    ensures r == -1 || 0 <= r <= count
    ensures r >= 0 && count > 0 ==> offset >= 0 && Done(kernel.file, buffer, offset, r)
    ensures 0 <= r < count ==> offset + r >= |kernel.file|
    ensures r == -1 ==> kernel.errno != EINTR
    ensures offset >= 0 && OnlyInterruptions(old(kernel.script)) ==> r >= 0
    ensures forall i | count <= i < buffer.Length :: buffer[i] == old(buffer[i])
  {
    if count == 0 {
      return 0;
    }
    var nread := ReadOn(kernel, buffer, 0, Chunk(count), offset, offset);
    if nread == count || nread == 0 {
      return nread;
    }
    r := ReadRest(kernel, buffer, count, offset, nread);
  }

  lemma SplicedExtends(file: Bytes, offset: nat, a: Bytes, b: Bytes)
    requires offset <= |file|
    ensures var once := Spliced(file, offset, a);
      offset + |a| <= |once| && Spliced(once, offset + |a|, b) == Spliced(file, offset, a + b)
  {
    var once := Spliced(file, offset, a);
    assert once[..offset + |a|] == file[..offset] + a;
    var twice, both := Spliced(once, offset + |a|, b), Spliced(file, offset, a + b);
    assert |twice| == |both|;
    forall i | 0 <= i < |both| ensures twice[i] == both[i] {
    }
  }

  lemma PaddedIs(file: Bytes, offset: nat)
    requires offset <= |file|
    ensures Padded(file, offset) == file
  {
  }

  /** Writing on where the first write ended is one write. */
  lemma OverwrittenExtends(file: Bytes, offset: nat, a: Bytes, b: Bytes)
    ensures Overwritten(Overwritten(file, offset, a), offset + |a|, b) == Overwritten(file, offset, a + b)
  {
    if a == [] {
      assert a + b == b;
    } else if b == [] {
      assert a + b == a;
    } else {
      hide Spliced, Padded;
      var once := Spliced(Padded(file, offset), offset, a);
      SplicedExtends(Padded(file, offset), offset, a, b);
      PaddedIs(once, offset + |a|);
    }
  }

  /** What a write leaves: the data in its range, zeros in a gap before it, and everything else as it was. */
  lemma OverwrittenAt(file: Bytes, offset: nat, data: Bytes, i: nat)
    requires data != [] && i < |Overwritten(file, offset, data)|
    ensures |Overwritten(file, offset, data)| == if |file| < offset + |data| then offset + |data| else |file|
    ensures Overwritten(file, offset, data)[i]
            == if offset <= i < offset + |data| then data[i - offset] else if i < |file| then file[i] else 0
  {
  }

  // ---------------------------------------------------------------- when a write fails

  /** Calls for what is left, each for at most INT_MAX bytes, run into a failure before everything is written. */
  predicate Fails(script: seq<Disturbance>, left: nat) {
    script != [] && (script[0].Failure? || (left > Allowed(script, Chunk(left)) && Fails(script[1..], left - Allowed(script, Chunk(left)))))
  }

  /** What calls that go as scripted leave to be written; a failure leaves everything. */
  function LeftAfter(script: seq<Disturbance>, left: nat): nat {
    if script == [] then left
    else LeftAfter(script[1..], if script[0].Failure? then left else left - Allowed(script, Chunk(left)))
  }

  /** Some failure comes first, or where the transfers ahead of it have left something. */
  ghost predicate FailureInTime(script: seq<Disturbance>, left: nat) {
    exists k :: 0 <= k < |script| && script[k].Failure? && (k == 0 || LeftAfter(script[..k], left) > 0)
  }

  lemma {:induction false} NothingComesBack(script: seq<Disturbance>, left: nat)
    ensures LeftAfter(script, left) <= left
  {
    if script != [] {
      NothingComesBack(script[1..], if script[0].Failure? then left else left - Allowed(script, Chunk(left)));
    }
  }

  lemma FirstTransfer(script: seq<Disturbance>, k: nat, left: nat)
    requires 0 < k <= |script| && !script[0].Failure?
    ensures LeftAfter(script[..k], left) == LeftAfter(script[1..][..k - 1], left - Allowed(script, Chunk(left)))
  {
    var front := script[..k];
    assert front[0] == script[0] && front[1..] == script[1..][..k - 1];
    assert Allowed(front, Chunk(left)) == Allowed(script, Chunk(left));
  }

  /** The calls fail exactly if a failure stands in the script before the transfers ahead of it have covered the data. */
  lemma {:induction false} FailsInTime(script: seq<Disturbance>, left: nat)
    ensures Fails(script, left) <==> FailureInTime(script, left)
    decreases |script|
  {
    if script != [] && !script[0].Failure? {
      var rest, left' := script[1..], left - Allowed(script, Chunk(left));
      if Fails(script, left) {
        FailsInTime(rest, left');
        var k :| 0 <= k < |rest| && rest[k].Failure? && (k == 0 || LeftAfter(rest[..k], left') > 0);
        FirstTransfer(script, k + 1, left);
        assert script[k + 1].Failure?;
      }
      if FailureInTime(script, left) {
        var k :| 0 <= k < |script| && script[k].Failure? && (k == 0 || LeftAfter(script[..k], left) > 0);
        FirstTransfer(script, k, left);
        NothingComesBack(rest[..k - 1], left');
        assert rest[k - 1].Failure?;
        FailsInTime(rest, left');
      }
    }
  }

  /** An interruption of the first call is enough, whatever it was to write; and so is one later, while something is left. */
  lemma InterruptionFails(script: seq<Disturbance>, k: nat, left: nat)
    requires k < |script| && script[k] == Failure(EINTR) && (k == 0 || LeftAfter(script[..k], left) > 0)
    ensures Fails(script, left)
  {
    FailsInTime(script, left);
  }

  /** Some first part of the data has been written. */
  ghost predicate WrittenPart(file: Bytes, before: Bytes, data: Bytes, offset: int, n: int) {
    0 <= n <= |data| && (n > 0 ==> offset >= 0) && (offset >= 0 ==> file == Overwritten(before, offset, data[..n]))
      && (n == 0 ==> file == before)
  }

  lemma PartExtends(file: Bytes, was: Bytes, before: Bytes, data: Bytes, offset: nat, at: nat, count: nat, n: nat)
    requires at + count <= |data| && n <= count && WrittenPart(was, before, data, offset, at)
    requires file == Overwritten(was, offset + at, data[at..at + count][..n])
    ensures WrittenPart(file, before, data, offset, at + n)
  {
    var front, more := data[..at], data[at..at + count][..n];
    assert front + more == data[..at + n];
    OverwrittenExtends(before, offset, front, more);
  }

  /** One call of pwrite, after which so much more of the data is in the file. */
  method WriteOn(kernel: Kernel, data: Bytes, at: nat, count: nat, offset: nat, ghost before: Bytes)
    returns (n: int, ghost after: nat)
    requires kernel.Valid() && at + count <= |data| && count <= INT_MAX
    requires WrittenPart(kernel.file, before, data, offset, at)
    modifies kernel`file, kernel`script, kernel`errno, kernel`requests
    ensures kernel.Valid()
    ensures kernel.requests == old(kernel.requests) + [count]
    ensures kernel.script == Rest(old(kernel.script))
    ensures n == -1 || 0 <= n <= count
    ensures after == (if n >= 0 then at + n else at) && WrittenPart(kernel.file, before, data, offset, after)
    ensures n == -1 <==> (old(kernel.script) != [] && old(kernel.script)[0].Failure?) || (count > 0 && offset + at >= kernel.maxSize)
    ensures n >= 0 && (count == 0 || offset + at + count <= kernel.maxSize) ==> n == Allowed(old(kernel.script), count)
    ensures n >= 0 && old(kernel.script) == [] ==> n == count || n == kernel.maxSize - (offset + at)
  {
    ghost var file := kernel.file;
    n := kernel.PWrite(data[at..at + count], offset + at);
    after := at;
    if n >= 0 {
      PartExtends(kernel.file, file, before, data, offset, at, count, n);
      after := at + n;
    }
  }

  /** Everything fits, and a last result n leaves open what the whole write comes to. */
  ghost predicate Pending(script0: seq<Disturbance>, size: nat, script: seq<Disturbance>, left: nat, n: int) {
    Fails(script0, size) <==> n == -1 || (n < left && Fails(script, left - n))
  }

  lemma PendingStep(script0: seq<Disturbance>, size: nat, script: seq<Disturbance>, left: nat, n: int)
    requires Fails(script0, size) <==> Fails(script, left)
    requires n == -1 <==> script != [] && script[0].Failure?
    requires n == -1 || n == Allowed(script, Chunk(left))
    ensures Pending(script0, size, Rest(script), left, n)
  {
  }

  /** A part that is all of the data. */
  lemma WholeWrite(file: Bytes, before: Bytes, data: Bytes, offset: nat)
    requires WrittenPart(file, before, data, offset, |data|)
    ensures file == Overwritten(before, offset, data) && (data != [] ==> offset + |data| <= |file|)
  {
    assert data[..|data|] == data;
  }

  predicate Fits(kernel: Kernel, data: Bytes, offset: nat) {
    data == [] || offset + |data| <= kernel.maxSize
  }

  /** The loop of ArchPWrite, after a first call that did not write everything. */
  method WriteRest(kernel: Kernel, bytes: Bytes, offset: nat, nwritten0: int,
                   ghost before: Bytes, ghost script: seq<Disturbance>) returns (r: int, ghost written: nat)
    requires kernel.Valid() && -1 <= nwritten0 < |bytes|
    requires WrittenPart(kernel.file, before, bytes, offset, if nwritten0 >= 0 then nwritten0 else 0)
    requires Fits(kernel, bytes, offset) ==> Pending(script, |bytes|, kernel.script, |bytes|, nwritten0)
    modifies kernel`file, kernel`script, kernel`errno, kernel`requests
    ensures kernel.Valid() && Asked(kernel.requests, old(kernel.requests))
    ensures WrittenPart(kernel.file, before, bytes, offset, written)
    ensures (r == -1 || (r == |bytes| == written))
    ensures Fits(kernel, bytes, offset) ==> (r == -1 <==> Fails(script, |bytes|))
  {
    hide WrittenPart, Fails;
    var total, nwritten := 0, nwritten0;
    var signedCount: int := |bytes|;
    written := if nwritten0 >= 0 then nwritten0 else 0;
    while nwritten != -1
      invariant kernel.Valid() && Asked(kernel.requests, old(kernel.requests))
      invariant 0 <= total && total + signedCount == |bytes| && -1 <= nwritten < signedCount
      invariant written == (if nwritten >= 0 then total + nwritten else total)
      invariant WrittenPart(kernel.file, before, bytes, offset, written)
      invariant Fits(kernel, bytes, offset) ==> Pending(script, |bytes|, kernel.script, signedCount, nwritten)
      decreases |kernel.script|, if nwritten == -1 then 0 else signedCount - nwritten
    {
      // Update bookkeeping and retry.
      total := total + nwritten;
      signedCount := signedCount - nwritten;
      var chunkSize := Chunk(signedCount);
      ghost var now := kernel.script;
      nwritten, written := WriteOn(kernel, bytes, total, chunkSize, offset, before);
      if Fits(kernel, bytes, offset) {
        PendingStep(script, |bytes|, now, signedCount, nwritten);
      }
      if nwritten == signedCount {
        return total + nwritten, written;
      }
    }
    return -1, written;
  }

  /**
   ArchPWrite: retries after short transfers, until everything is written.  It does not retry
   after interruptions.  Whenever it returns, the file holds a first part of the bytes at the
   offset, and otherwise what it held before; if it returns a count, that is all of them.  It
   fails exactly for a negative offset, for lack of room, and for a failure, an interruption
   among them, of one of its calls.
   */
  method ArchPWrite(kernel: Kernel, bytes: Bytes, offset: int) returns (r: int)
    requires kernel.Valid() && |bytes| <= INT64_MAX
    modifies kernel`file, kernel`script, kernel`errno, kernel`requests
    ensures kernel.Valid()
    ensures Asked(kernel.requests, old(kernel.requests))
    ensures offset >= 0 ==> AskedFirst(kernel.requests, old(kernel.requests), |bytes|)
    ensures r == -1 || r == |bytes|
    ensures r >= 0 ==> offset >= 0 && kernel.file == Overwritten(old(kernel.file), offset, bytes)
    ensures r == -1 ==> exists n :: WrittenPart(kernel.file, old(kernel.file), bytes, offset, n)
    ensures r == -1 <==> offset < 0 || !Fits(kernel, bytes, offset) || Fails(old(kernel.script), |bytes|)
  {
    ghost var before, script := kernel.file, kernel.script;
    if offset < 0 {
      assert WrittenPart(kernel.file, before, bytes, offset, 0);
      return -1;
    }
    var signedCount: int := |bytes|;
    var chunkSize := Chunk(signedCount);
    var nwritten;
    ghost var written;
    nwritten, written := WriteOn(kernel, bytes, 0, chunkSize, offset, before);
    if Fits(kernel, bytes, offset) {
      PendingStep(script, |bytes|, script, |bytes|, nwritten);
    }
    if nwritten == signedCount {
      WholeWrite(kernel.file, before, bytes, offset);
      return nwritten;
    }
    r, written := WriteRest(kernel, bytes, offset, nwritten, before, script);
    if r >= 0 {
      WholeWrite(kernel.file, before, bytes, offset);
    }
  }
}
