/** Chunked reading through `FileSystem::FileInfo` of include/FileSystem.hpp,
    lines 59-110: the size is taken once, the stream is opened on demand, and all
    arithmetic on the position is that of 64-bit unsigned words. */
module FileReader {
  import opened Bytes

  const TWO64: nat := 0x1_0000_0000_0000_0000
  const TWO63: nat := 0x8000_0000_0000_0000

  function Min(x: nat, y: nat): nat {
    if x < y then x else y
  }

  // ---------- one read ----------

  /** Lines 72-75: the count that is passed to the stream and returned. */
  function ReadCount(pos: nat, request: nat, size: nat): nat {
    if (pos + request) % TWO64 >= size then (size - pos) % TWO64 else request
  }

  /** Line 84. */
  function NextPos(pos: nat, request: nat, size: nat): nat {
    (pos + ReadCount(pos, request, size)) % TWO64
  }

  /** The count is right, the rest of the file or the request if that is less, exactly
      if position plus request does not wrap around. */
  lemma ReadCountExactly(pos: nat, request: nat, size: nat)
    requires pos <= size < TWO63 && request < TWO64
    ensures ReadCount(pos, request, size) == Min(request, size - pos) <==> pos + request < TWO64
  {
    var sum := pos + request;
    if sum < TWO64 {
      DivisionIs(sum, TWO64, 0, sum);
      DivisionIs(size - pos, TWO64, 0, size - pos);
    } else {
      DivisionIs(sum, TWO64, 1, sum - TWO64);
    }
  }

  /** If it does, the whole request is reported as read, which no file is long enough
      for, and the position moves backwards. */
  lemma WrappedRead(pos: nat, request: nat, size: nat)
    requires pos <= size < TWO63 && request < TWO64 && pos + request >= TWO64
    ensures ReadCount(pos, request, size) == request > size
    ensures NextPos(pos, request, size) == pos + request - TWO64 < pos
  {
    DivisionIs(pos + request, TWO64, 1, pos + request - TWO64);
  }

  lemma NextPosIs(pos: nat, request: nat, size: nat)
    requires pos <= size < TWO63 && request < TWO64
    ensures NextPos(pos, request, size) <= size
    ensures pos + request < TWO64 ==> NextPos(pos, request, size) == Min(pos + request, size)
  {
    ReadCountExactly(pos, request, size);
    if pos + request < TWO64 {
      var next := pos + ReadCount(pos, request, size);
      DivisionIs(next, TWO64, 0, next);
    } else {
      WrappedRead(pos, request, size);
    }
  }

  /** Both cases. */
  lemma ReadIs(pos: nat, request: nat, size: nat)
    requires pos <= size < TWO63 && request < TWO64
    ensures pos + request < TWO64 ==>
              ReadCount(pos, request, size) == Min(request, size - pos) == NextPos(pos, request, size) - pos
    ensures pos + request >= TWO64 ==>
              ReadCount(pos, request, size) == request >= TWO63 && NextPos(pos, request, size) == pos + request - TWO64
    ensures NextPos(pos, request, size) <= size
  {
    ReadCountExactly(pos, request, size);
    NextPosIs(pos, request, size);
    if pos + request >= TWO64 {
      WrappedRead(pos, request, size);
    }
  }

  // ---------- runs of reads ----------

  /** Requests are words; nothing else is asked of them. */
  ghost predicate Requests(requests: seq<nat>) {
    forall i :: 0 <= i < |requests| ==> requests[i] < TWO64
  }

  /** The position after the requests. */
  function PosAfter(size: nat, requests: seq<nat>): nat {
    if requests == [] then 0
    else NextPos(PosAfter(size, requests[..|requests| - 1]), requests[|requests| - 1], size)
  }

  lemma {:induction false} PosBounded(size: nat, requests: seq<nat>)
    requires size < TWO63 && Requests(requests)
    ensures PosAfter(size, requests) <= size
  {
    if requests != [] {
      var before := requests[..|requests| - 1];
      PosBounded(size, before);
      NextPosIs(PosAfter(size, before), requests[|requests| - 1], size);
    }
  }

  /** Some read asked the stream for a negative count, so the stream has failed. */
  predicate Failed(size: nat, requests: seq<nat>) {
    requests != [] &&
    var before := requests[..|requests| - 1];
    Failed(size, before) || PosAfter(size, before) + requests[|requests| - 1] >= TWO64
  }

  /** The octets that the reads transferred, one chunk after the other. */
  ghost function Received(contents: seq<byte>, requests: seq<nat>): seq<byte>
    requires |contents| < TWO63 && Requests(requests)
  {
    if requests == [] then []
    else
      var before, last := requests[..|requests| - 1], requests[|requests| - 1];
      var pos := PosAfter(|contents|, before);
      PosBounded(|contents|, before);
      ReadCountExactly(pos, last, |contents|);
      Received(contents, before) +
      if Failed(|contents|, requests) then [] else contents[pos..pos + ReadCount(pos, last, |contents|)]
  }

  /** The sum of the counts that the reads returned. */
  function Returned(size: nat, requests: seq<nat>): nat {
    if requests == [] then 0
    else
      var before := requests[..|requests| - 1];
      Returned(size, before) + ReadCount(PosAfter(size, before), requests[|requests| - 1], size)
  }

  function Total(requests: seq<nat>): nat {
    if requests == [] then 0 else Total(requests[..|requests| - 1]) + requests[|requests| - 1]
  }

  /** No request added to the position it is made at, the sum of those before it or
      the end of the file, wraps around. */
  ghost predicate NoWrap(size: nat, requests: seq<nat>) {
    forall i :: 0 <= i < |requests| ==> Min(Total(requests[..i]), size) + requests[i] < TWO64
  }

  lemma NoWrapLast(size: nat, requests: seq<nat>)
    requires requests != []
    ensures NoWrap(size, requests)
            <==> NoWrap(size, requests[..|requests| - 1])
                 && Min(Total(requests[..|requests| - 1]), size) + requests[|requests| - 1] < TWO64
  {
    var n := |requests| - 1;
    assert forall i :: 0 <= i < n ==> requests[..n][..i] == requests[..i] && requests[..n][i] == requests[i];
  }

  lemma {:induction false} PositionIs(size: nat, requests: seq<nat>)
    requires size < TWO63 && Requests(requests)
    ensures NoWrap(size, requests) <==> !Failed(size, requests)
    ensures NoWrap(size, requests) ==>
              PosAfter(size, requests) == Min(Total(requests), size) == Returned(size, requests)
  {
    if requests != [] {
      var before, last := requests[..|requests| - 1], requests[|requests| - 1];
      PositionIs(size, before);
      NoWrapLast(size, requests);
      PosBounded(size, before);
      ReadIs(PosAfter(size, before), last, size);
    }
  }

  lemma {:induction false} ReceivedIs(contents: seq<byte>, requests: seq<nat>)
    requires |contents| < TWO63 && Requests(requests) && !Failed(|contents|, requests)
    ensures PosAfter(|contents|, requests) <= |contents|
    ensures Received(contents, requests) == contents[..PosAfter(|contents|, requests)]
  {
    if requests != [] {
      var before, last := requests[..|requests| - 1], requests[|requests| - 1];
      ReceivedIs(contents, before);
      var pos := PosAfter(|contents|, before);
      ReadIs(pos, last, |contents|);
      var n := ReadCount(pos, last, |contents|);
      assert contents[..pos + n] == contents[..pos] + contents[pos..pos + n];
    }
  }

  /** Without a wrap-around, the chunks put together are the beginning of the file up
      to the position, and the position is the sum of the requests or the end. The
      sums tell exactly whether the stream fails. */
  lemma ChunksReassemble(contents: seq<byte>, requests: seq<nat>)
    requires |contents| < TWO63 && Requests(requests)
    ensures NoWrap(|contents|, requests) ==>
              && PosAfter(|contents|, requests) == Min(Total(requests), |contents|) == Returned(|contents|, requests)
              && Received(contents, requests) == contents[..PosAfter(|contents|, requests)]
    ensures NoWrap(|contents|, requests) <==> !Failed(|contents|, requests)
  {
    PositionIs(|contents|, requests);
    if !Failed(|contents|, requests) {
      ReceivedIs(contents, requests);
    }
  }

  lemma {:induction false} FailedReads(contents: seq<byte>, requests: seq<nat>)
    requires |contents| < TWO63 && Requests(requests) && Failed(|contents|, requests)
    ensures |Received(contents, requests)| <= |contents| < Returned(|contents|, requests)
  {
    var before, last := requests[..|requests| - 1], requests[|requests| - 1];
    if Failed(|contents|, before) {
      FailedReads(contents, before);
    } else {
      ChunksReassemble(contents, before);
      PosBounded(|contents|, before);
      WrappedRead(PosAfter(|contents|, before), last, |contents|);
    }
  }

  /** The counts returned add up to the octets received exactly if nothing wraps. */
  lemma CountsAreTrueExactly(contents: seq<byte>, requests: seq<nat>)
    requires |contents| < TWO63 && Requests(requests)
    ensures Returned(|contents|, requests) == |Received(contents, requests)| <==> NoWrap(|contents|, requests)
  {
    ChunksReassemble(contents, requests);
    if Failed(|contents|, requests) {
      FailedReads(contents, requests);
    }
  }

  /** A positive request returns 0 exactly when the whole file has been returned before
      it and the request does not wrap around there. */
  lemma ZeroMeansWholeFile(contents: seq<byte>, requests: seq<nat>, request: nat)
    requires |contents| < TWO63 && 0 < request < TWO64
    requires Requests(requests) && NoWrap(|contents|, requests)
    ensures ReadCount(PosAfter(|contents|, requests), request, |contents|) == 0
            <==> Received(contents, requests) == contents && |contents| + request < TWO64
  {
    ChunksReassemble(contents, requests);
    var pos := PosAfter(|contents|, requests);
    ZeroExactly(pos, request, |contents|);
    if Received(contents, requests) == contents {
      assert |contents[..pos]| == |contents|;
    }
  }

  lemma ZeroExactly(pos: nat, request: nat, size: nat)
    requires pos <= size < TWO63 && 0 < request < TWO64
    ensures ReadCount(pos, request, size) == 0 <==> pos == size && size + request < TWO64
  {
    ReadCountExactly(pos, request, size);
    if pos + request >= TWO64 {
      WrappedRead(pos, request, size);
    }
  }

  // ---------- a fixed chunk size ----------

  function Same(chunk: nat, n: nat): (requests: seq<nat>)
    ensures |requests| == n && forall i :: 0 <= i < n ==> requests[i] == chunk
  {
    seq(n, _ => chunk)
  }

  lemma {:induction false} TotalOfSame(chunk: nat, n: nat)
    ensures Total(Same(chunk, n)) == n * chunk
  {
    if n > 0 {
      assert Same(chunk, n)[..n - 1] == Same(chunk, n - 1);
      TotalOfSame(chunk, n - 1);
      assert n * chunk == (n - 1) * chunk + chunk;
    }
  }

  lemma ChunkPosition(contents: seq<byte>, chunk: nat, n: nat)
    requires |contents| < TWO63 && |contents| + chunk < TWO64
    ensures PosAfter(|contents|, Same(chunk, n)) == Min(n * chunk, |contents|)
  {
    assert NoWrap(|contents|, Same(chunk, n));
    ChunksReassemble(contents, Same(chunk, n));
    TotalOfSame(chunk, n);
  }

  /** With a fixed chunk size, read number n (from 0) returns something exactly for the
      first ceil(size / chunk) reads; but if the chunk wraps around at the end of the
      file, every read does, and a loop that reads until 0 never ends. */
  lemma NonEmptyReads(contents: seq<byte>, chunk: nat, n: nat)
    requires |contents| < TWO63 && 0 < chunk < TWO64
    ensures ReadCount(PosAfter(|contents|, Same(chunk, n)), chunk, |contents|) > 0
            <==> n < (|contents| + chunk - 1) / chunk || |contents| + chunk >= TWO64
  {
    PosBounded(|contents|, Same(chunk, n));
    ZeroExactly(PosAfter(|contents|, Same(chunk, n)), chunk, |contents|);
    if |contents| + chunk < TWO64 {
      ChunkPosition(contents, chunk, n);
      CeilingIs(|contents|, chunk, n);
    }
  }

  /** The largest request reads a file in one go, but at the end of any file that is
      not empty it claims to have read as much as it asked for instead of nothing. */
  lemma LargestRequest(contents: seq<byte>)
    requires 0 < |contents| < TWO63
    ensures Received(contents, [TWO64 - 1]) == contents
    ensures ReadCount(0, TWO64 - 1, |contents|) == |contents| == PosAfter(|contents|, [TWO64 - 1])
    ensures ReadCount(|contents|, TWO64 - 1, |contents|) == TWO64 - 1
    ensures PosAfter(|contents|, [TWO64 - 1, TWO64 - 1]) == |contents| - 1
  {
    var one := [TWO64 - 1];
    assert NoWrap(|contents|, one);
    ChunksReassemble(contents, one);
    assert Total(one) == TWO64 - 1 by { assert one[..0] == []; }
    ReadCountExactly(0, TWO64 - 1, |contents|);
    WrappedRead(|contents|, TWO64 - 1, |contents|);
    assert [TWO64 - 1, TWO64 - 1][..1] == one;
  }

  lemma CeilingIs(size: nat, chunk: nat, n: nat)
    requires chunk > 0
    ensures n * chunk < size <==> n < (size + chunk - 1) / chunk
  {
    var c, r := (size + chunk - 1) / chunk, (size + chunk - 1) % chunk;
    assert size + chunk - 1 == c * chunk + r;
    if n < c {
      TimesMonotone(n, c - 1, chunk);
      assert (c - 1) * chunk == c * chunk - chunk;
    } else {
      TimesMonotone(c, n, chunk);
    }
  }

  lemma TimesMonotone(x: int, y: int, d: nat)
    requires x <= y
    ensures x * d <= y * d
  {
    assert (y - x) * d >= 0;
  }

  // ---------- the class ----------

  class FileInfo {
    const contents: seq<byte>  // the file; __stat.st_size is its length
    var streamPos: nat         // StreamPos
    var isOpen: bool           // fs != NULL
    var failed: bool           // fs->fail()

    ghost predicate Valid()
      reads this
    {
      |contents| < TWO63 && streamPos <= |contents| && (failed ==> isOpen)
    }

    constructor (contents: seq<byte>)
      requires |contents| < TWO63
      ensures Valid() && streamPos == 0 && !isOpen && this.contents == contents
    {
      this.contents, streamPos, isOpen, failed := contents, 0, false, false;
    }

    /** Lines 71-86. The buffer must hold what is written to it. If position plus
        request wraps around, nothing is written, the count returned is the request,
        the position moves backwards, and the stream fails until it is closed. */
    method Read(buf: array<byte>, rdCount: nat) returns (n: nat)
      requires Valid() && rdCount < TWO64
      requires streamPos + rdCount < TWO64 ==> Min(rdCount, |contents| - streamPos) <= buf.Length
      modifies this`streamPos, this`isOpen, this`failed, buf
      ensures Valid()
      ensures n == if old(streamPos) + rdCount < TWO64 then Min(rdCount, |contents| - old(streamPos)) else rdCount
      ensures streamPos == if old(streamPos) + rdCount < TWO64 then old(streamPos) + n
                           else old(streamPos) + rdCount - TWO64
      ensures old(streamPos) + rdCount >= TWO64 ==> streamPos < old(streamPos)
      ensures streamPos == NextPos(old(streamPos), rdCount, |contents|)
      ensures failed == (old(failed) || old(streamPos) + rdCount >= TWO64)
      ensures buf[..] == if failed then old(buf[..]) else contents[old(streamPos)..streamPos] + old(buf[n..])
      ensures isOpen == (old(isOpen) || n > 0)
    {
      ReadIs(streamPos, rdCount, |contents|);
      var rdbufCount := rdCount;
      if (streamPos + rdCount) % TWO64 >= |contents| {
        rdbufCount := (|contents| - streamPos) % TWO64;
      }
      assert rdbufCount == ReadCount(streamPos, rdCount, |contents|);
      if rdbufCount == 0 {
        return 0;
      }
      if !isOpen {
        isOpen := true;
      }
      Transfer(buf, rdbufCount);
      streamPos := (streamPos + rdbufCount) % TWO64;
      return rdbufCount;
    }

    /** Lines 82-83, `seekg` and `read`. The count is signed there; a negative one
        transfers nothing and fails the stream, and so does every later one. */
    method Transfer(buf: array<byte>, count: nat)
      requires Valid() && isOpen && count < TWO64
      requires count < TWO63 ==> streamPos + count <= |contents| && count <= buf.Length
      modifies this`failed, buf
      ensures failed == (old(failed) || count >= TWO63)
      ensures buf[..] == if failed then old(buf[..]) else contents[streamPos..streamPos + count] + old(buf[count..])
    {
      if count >= TWO63 {
        failed := true;
      }
      if !failed {
        forall i | 0 <= i < count {
          buf[i] := contents[streamPos + i];
        }
      }
    }

    /** Lines 97-103: the position survives, the state of the stream does not. */
    method Close()
      requires Valid()
      modifies this`isOpen, this`failed
      ensures Valid() && !isOpen && !failed
    {
      isOpen, failed := false, false;
    }
  }
}
