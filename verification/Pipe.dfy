/**
 Pipes: a ring buffer of PIPESIZE bytes with 32-bit counters that wrap around.

 All work happens under the pipe's lock; a process gives the lock up only by returning or by
 going to sleep.  A method below is one stay under the lock, so that an interleaving of
 readers and writers is a sequence of method calls.
 */
module Pipe {
  import opened Params

  const PIPESIZE := 512

  /** How one stay under the lock ends. */
  datatype Outcome = Returned | Failed | Slept

  function Min(a: int, b: int): int {
    if a < b then a else b
  }

  // ----- What one stay under the lock does, on the queue of unread bytes

  /** The number of bytes that a writer with `todo` left can store before it returns, fails or sleeps. */
  function Fits(queue: seq<char>, todo: seq<char>): (k: nat)
    requires |queue| <= PIPESIZE
    ensures k <= |todo| && |queue| + k <= PIPESIZE
  {
    Min(|todo|, PIPESIZE - |queue|)
  }

  function WriteEnds(queue: seq<char>, todo: seq<char>, readopen: bool, killed: bool): Outcome
    requires |queue| <= PIPESIZE
  {
    if Fits(queue, todo) == |todo| then Returned
    else if !readopen || killed then Failed
    else Slept
  }

  function ReadEnds(queue: seq<char>, writeopen: bool, killed: bool): Outcome {
    if queue != [] || !writeopen then Returned
    else if killed then Failed
    else Slept
  }

  class Pipe {
    var data: array<char>
    var nread: nat
    var nwrite: nat
    var readopen: bool
    var writeopen: bool
    ghost var accepted: seq<char>    // every byte ever stored
    ghost var delivered: seq<char>   // every byte ever handed to a reader

    /** The bytes delivered are a prefix of the bytes accepted; the rest is what the ring holds. */
    ghost predicate Valid()
      reads this, data
    {
      && data.Length == PIPESIZE
      && delivered <= accepted
      && |accepted| - |delivered| <= PIPESIZE
      && nread == |delivered| % U32
      && nwrite == |accepted| % U32
      && forall i | |delivered| <= i < |accepted| :: data[i % PIPESIZE] == accepted[i]
    }

    ghost function Queue(): (q: seq<char>)
      requires Valid()
      reads this, data
      ensures |q| <= PIPESIZE
    {
      accepted[|delivered|..]
    }

    constructor ()
      ensures Valid() && accepted == [] && delivered == [] && readopen && writeopen && fresh(data)
    {
      data := new char[PIPESIZE];
      nread, nwrite := 0, 0;
      readopen, writeopen := true, true;
      accepted, delivered := [], [];
    }

    /** The loop test of pipewrite: the 32-bit comparison is exact although both counters wrap. */
    method Full() returns (full: bool)
      requires Valid()
      ensures full <==> |Queue()| == PIPESIZE
    {
      full := nwrite == (nread + PIPESIZE) % U32;
      Counters(|delivered|, |accepted|);
    }

    method Empty() returns (empty: bool)
      requires Valid()
      ensures empty <==> Queue() == []
    {
      empty := nread == nwrite;
      Counters(|delivered|, |accepted|);
    }

    /** `pipewrite` from byte `i0` of `addr` on: until all is stored, or the pipe is full and the writer
        fails or sleeps.  `woke` tells whether readers were woken. */
    method Write(addr: seq<char>, i0: nat, killed: bool) returns (i: nat, end: Outcome, woke: bool)
      requires Valid() && i0 <= |addr|
      modifies this`nwrite, this`accepted, data
      ensures Valid()
      ensures i == i0 + Fits(old(Queue()), addr[i0..])
      ensures accepted == old(accepted) + addr[i0..i]
      ensures Queue() == old(Queue()) + addr[i0..i]
      ensures end == WriteEnds(old(Queue()), addr[i0..], readopen, killed)
      ensures woke <==> !end.Failed?
    {
      i := i0;
      while i < |addr|
        invariant Valid() && i0 <= i <= |addr|
        invariant accepted == old(accepted) + addr[i0..i]
      {
        var full := Full();
        if full {
          if !readopen || killed {
            return i, Failed, false;
          }
          return i, Slept, true;
        }
        StoreIndex(|delivered|, |accepted|);
        data[nwrite % PIPESIZE] := addr[i];
        accepted := accepted + [addr[i]];
        nwrite := (nwrite + 1) % U32;
        i := i + 1;
      }
      return i, Returned, true;
    }

    /** `piperead` of up to `n` bytes: hands over what there is; sleeps on an empty pipe with a writer. */
    method Read(n: nat, killed: bool) returns (addr: seq<char>, end: Outcome, woke: bool)
      requires Valid()
      modifies this`nread, this`delivered
      ensures Valid()
      ensures end == ReadEnds(old(Queue()), writeopen, killed)
      ensures addr == if end.Returned? then old(Queue())[..Min(n, |old(Queue())|)] else []
      ensures delivered == old(delivered) + addr
      ensures Queue() == old(Queue())[|addr|..]
      ensures woke <==> end.Returned?
    {
      addr := [];
      var empty := Empty();
      if empty && writeopen {
        if killed {
          return addr, Failed, false;
        }
        return addr, Slept, false;
      }
      while |addr| < n
        invariant Valid() && |addr| <= n
        invariant delivered == old(delivered) + addr
        invariant addr <= old(Queue())
      {
        empty := Empty();
        if empty {
          break;
        }
        TakeIndex(|delivered|);
        addr := addr + [data[nread % PIPESIZE]];
        delivered := delivered + [data[nread % PIPESIZE]];
        nread := (nread + 1) % U32;
      }
      return addr, Returned, true;
    }

    /** Close one end and wake those who wait for the other; the pipe goes away with its second end. */
    method Close(writable: bool) returns (wokeReaders: bool, wokeWriters: bool, freed: bool)
      requires Valid()
      modifies this`readopen, this`writeopen
      ensures Valid()
      ensures writeopen == (old(writeopen) && !writable) && readopen == (old(readopen) && writable)
      ensures wokeReaders == writable && wokeWriters == !writable
      ensures freed <==> !readopen && !writeopen
    {
      if writable {
        writeopen := false;
        wokeReaders, wokeWriters := true, false;
      } else {
        readopen := false;
        wokeReaders, wokeWriters := false, true;
      }
      freed := !readopen && !writeopen;
    }
  }

  /** A read of at least one byte that returns nothing found an empty pipe with no writer. */
  lemma EmptyRead(queue: seq<char>, writeopen: bool, killed: bool, n: nat)
    requires ReadEnds(queue, writeopen, killed) == Returned && n > 0 && queue[..Min(n, |queue|)] == []
    ensures queue == [] && !writeopen
  {
    assert |queue[..Min(n, |queue|)]| == Min(n, |queue|);
  }

  /** For counts at most PIPESIZE apart, the wrapped counters tell full from empty, and their difference
      modulo 2^32 is the fill level. */
  lemma Counters(r: nat, w: nat)
    requires r <= w <= r + PIPESIZE
    ensures r % U32 == w % U32 <==> r == w
    ensures w % U32 == (r % U32 + PIPESIZE) % U32 <==> w == r + PIPESIZE
    ensures (w % U32 - r % U32) % U32 == w - r
  {
    var q := r / U32;
    assert r == q * U32 + r % U32;
    if w - q * U32 < U32 {
      assert w == q * U32 + (w - q * U32);
      Remainder(q, w - q * U32);
    } else {
      assert w == (q + 1) * U32 + (w - q * U32 - U32);
      Remainder(q + 1, w - q * U32 - U32);
    }
  }

  lemma Remainder(q: nat, x: int)
    requires 0 <= x < U32
    ensures (q * U32 + x) % U32 == x
  {
  }

  lemma Nested(x: nat)
    ensures x % U32 % PIPESIZE == x % PIPESIZE && (x % U32 + 1) % U32 == (x + 1) % U32
  {
  }

  /** The slot about to be overwritten holds no unread byte. */
  lemma StoreIndex(r: nat, w: nat)
    requires r <= w < r + PIPESIZE
    ensures w % U32 % PIPESIZE == w % PIPESIZE && (w % U32 + 1) % U32 == (w + 1) % U32
    ensures forall i | r <= i < w :: i % PIPESIZE != w % PIPESIZE
  {
    Nested(w);
  }

  lemma TakeIndex(r: nat)
    ensures r % U32 % PIPESIZE == r % PIPESIZE && (r % U32 + 1) % U32 == (r + 1) % U32
  {
    Nested(r);
  }
}
