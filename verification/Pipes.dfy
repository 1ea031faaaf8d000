/** A pipe: a ring of 512 bytes and two 32-bit counters that wrap. Each method is what one caller does
    between taking the pipe's lock and giving it up, to sleep or to return, so any interleaving of
    readers and writers is a sequence of these calls. */
module Pipes {

  const PIPESIZE: nat := 512
  const WORD: nat := 0x1_0000_0000

  datatype WriteResult = Done | Full | Broken
  datatype ReadResult = Empty | Killed | Got(bytes: seq<int>)

  class Pipe {
    const data: array<int>
    var nread: nat
    var nwrite: nat
    var readopen: bool
    var writeopen: bool
    /** Everything ever written to the pipe, and everything ever read from it. */
    ghost var written: seq<int>
    ghost var read: seq<int>

    /** What was read is the front of what was written, the rest is in the ring, and the counters are
        the two lengths as far as 32 bits go. */
    ghost predicate Valid()
      reads this, data
    {
      && data.Length == PIPESIZE
      && |read| <= |written| <= |read| + PIPESIZE && read == written[..|read|]
      && nread == |read| % WORD && nwrite == |written| % WORD
      && forall k :: |read| <= k < |written| ==> InRing(k)
    }

    ghost predicate InRing(k: int)
      reads this, data
    {
      data.Length == PIPESIZE && 0 <= k < |written| && data[k % PIPESIZE] == written[k]
    }

    constructor ()
      ensures Valid() && written == [] && read == [] && readopen && writeopen && fresh(data)
    {
      data := new int[PIPESIZE];
      nread, nwrite, readopen, writeopen := 0, 0, true, true;
      written, read := [], [];
    }

    /** The two tests on the counters mean what they should, however often the counters have wrapped. */
    lemma Counters()
      requires Valid()
      ensures nwrite == (nread + PIPESIZE) % WORD <==> |written| == |read| + PIPESIZE
      ensures nread == nwrite <==> |read| == |written|
      ensures nwrite % PIPESIZE == |written| % PIPESIZE && nread % PIPESIZE == |read| % PIPESIZE
    {
      Wraps(|read|, |written| - |read|);
      SameSlot(|read|);
      SameSlot(|written|);
    }

    /** Copy in as much of `bytes` from `i` on as there is room for, and say why it stopped: all
        copied; full, so the writer sleeps and calls again with the `j` it got to; or full with no one
        left to read, or the writer killed. */
    method Write(bytes: seq<int>, i: nat, killed: bool) returns (res: WriteResult, j: nat)
      requires Valid() && i <= |bytes|
      modifies `nwrite, `written, data
      ensures Valid() && i <= j <= |bytes|
      ensures written == old(written) + bytes[i..j]
      ensures res == Done <==> j == |bytes|
      ensures res != Done ==> |written| == |read| + PIPESIZE && (res == Broken <==> !readopen || killed)
    {
      j := i;
      while j < |bytes|
        invariant i <= j <= |bytes| && Valid() && written == old(written) + bytes[i..j]
      {
        Counters();
        if nwrite == (nread + PIPESIZE) % WORD {
          return if !readopen || killed then Broken else Full, j;
        }
        Put(bytes[j]);
        j := j + 1;
      }
      return Done, j;
    }

    method Put(x: int)
      requires Valid() && |written| < |read| + PIPESIZE
      modifies `nwrite, `written, data
      ensures Valid() && written == old(written) + [x]
    {
      Counters();
      Wraps(|written|, 1);
      data[nwrite % PIPESIZE] := x;
      nwrite := (nwrite + 1) % WORD;
      written := written + [x];
      forall k | |read| <= k < |written|
        ensures InRing(k)
      {
        if k < |written| - 1 {
          assert old(InRing(k));
          OtherSlot(k, |written| - 1);
        }
      }
    }

    /** Copy out at most `n` bytes; a reader of an empty pipe sleeps while someone can still write. */
    method Read(n: nat, killed: bool) returns (res: ReadResult)
      requires Valid()
      modifies `nread, `read
      ensures Valid()
      ensures res.Got? <==> old(|read| < |written|) || !writeopen
      ensures res.Got? ==> read == old(read) + res.bytes && (|res.bytes| == n || (|res.bytes| < n && read == written))
      ensures !res.Got? ==> read == old(read) && (res == Killed <==> killed)
    {
      Counters();
      if nread == nwrite && writeopen {
        return if killed then Killed else Empty;
      }
      var got := [];
      while |got| < n
        invariant Valid() && |got| <= n && read == old(read) + got
      {
        Counters();
        if nread == nwrite {
          break;
        }
        var x := Take();
        got := got + [x];
      }
      return Got(got);
    }

    method Take() returns (x: int)
      requires Valid() && |read| < |written|
      modifies `nread, `read
      ensures Valid() && read == old(read) + [x]
    {
      Counters();
      Wraps(|read|, 1);
      assert InRing(|read|);
      x := data[nread % PIPESIZE];
      nread := (nread + 1) % WORD;
      read := read + [x];
      forall k | |read| <= k < |written|
        ensures InRing(k)
      {
        assert old(InRing(k));
      }
    }
  }

  /** Counting on by a little: no wrap can make two different counts look the same. */
  lemma Wraps(a: nat, n: nat)
    requires n <= PIPESIZE
    ensures (a % WORD + n) % WORD == (a + n) % WORD
    ensures (a + n) % WORD == (a % WORD + PIPESIZE) % WORD <==> n == PIPESIZE
    ensures (a + n) % WORD == a % WORD <==> n == 0
  {
    var q, r := a / WORD, a % WORD;
    assert a + n == WORD * q + (r + n);
  }

  /** 512 divides 2^32, so the ring does not notice the wrap. */
  lemma SameSlot(a: nat)
    ensures a % WORD % PIPESIZE == a % PIPESIZE
  {
    var q, r := a / WORD, a % WORD;
    assert a == PIPESIZE * (8388608 * q) + r;
  }

  lemma OtherSlot(a: nat, b: nat)
    requires a < b < a + PIPESIZE
    ensures a % PIPESIZE != b % PIPESIZE
  {
  }
}
