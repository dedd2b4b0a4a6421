/** The pipe: a ring of 512 bytes under two free-running 32-bit counters.  What runs
    between two sleeps is one critical section; sections of readers and writers may
    follow one another in any order. */
module Pipe {
  import opened Words

  const PIPESIZE := 512

  // --- Counters that wrap ------------------------------------------------------------

  function Wrapped(count: nat): (w: Word) { count % 0x1_0000_0000 }

  /** The tests for full and empty, and the ring index, see only the wrapped counters and
      are right nevertheless, because 512 divides 2^32. */
  lemma {:induction false} WrapIsHarmless(read: nat, written: nat)
    requires read <= written <= read + PIPESIZE
    ensures Wrapped(written) == (Wrapped(read) + PIPESIZE) % 0x1_0000_0000 <==> written == read + PIPESIZE
    ensures Wrapped(read) == Wrapped(written) <==> read == written
    ensures Wrapped(written) % PIPESIZE == written % PIPESIZE && Wrapped(read) % PIPESIZE == read % PIPESIZE
    ensures (Wrapped(written) + 1) % 0x1_0000_0000 == Wrapped(written + 1)
    ensures (Wrapped(read) + 1) % 0x1_0000_0000 == Wrapped(read + 1)
  {
    hide Wrapped;
    IndexUnwrapped(written);
    IndexUnwrapped(read);
    WrappedStep(read, written - read);
    WrappedStep(read, 1);
    WrappedStep(written, 1);
  }

  /** Counting on by n steps, less than a turn. */
  lemma {:induction false} WrappedStep(count: nat, n: nat)
    requires n <= PIPESIZE
    ensures Wrapped(count + n) == (if Wrapped(count) + n < 0x1_0000_0000 then Wrapped(count) + n
              else Wrapped(count) + n - 0x1_0000_0000)
  {
  }

  lemma {:induction false} IndexUnwrapped(count: nat)
    ensures Wrapped(count) % PIPESIZE == count % PIPESIZE
  {
    var q := count / 0x1_0000_0000;
    assert count == q * 0x1_0000_0000 + Wrapped(count);
    assert q * 0x1_0000_0000 == (q * 0x80_0000) * 512;
  }

  // --- The ring as a queue ---------------------------------------------------------------

  /** The ring holds the bytes written and not yet read, each in its place. */
  ghost predicate Holds(data: seq<Byte>, written: seq<Byte>, read: nat) {
    && |data| == PIPESIZE && read <= |written| <= read + PIPESIZE
    && forall k :: read <= k < |written| ==> data[k % PIPESIZE] == written[k]
  }

  lemma {:induction false} PlaceIsFree(read: nat, k: nat, written: nat)
    requires read <= k < written < read + PIPESIZE
    ensures k % PIPESIZE != written % PIPESIZE
  {
    var a, b := k / 512, written / 512;
    assert k == a * 512 + k % 512 && written == b * 512 + written % 512;
  }

  lemma {:induction false} PutKeeps(data: seq<Byte>, written: seq<Byte>, read: nat, b: Byte)
    requires Holds(data, written, read) && |written| < read + PIPESIZE
    ensures Holds(data[|written| % PIPESIZE := b], written + [b], read)
  {
    var data1, written1 := data[|written| % PIPESIZE := b], written + [b];
    forall k | read <= k < |written1|
      ensures data1[k % PIPESIZE] == written1[k]
    {
      if k < |written| {
        PlaceIsFree(read, k, |written|);
      }
    }
  }

  datatype WriteResult = Wrote | WriterSleeps | WriteFails
  datatype ReadResult = Bytes(bytes: seq<Byte>) | ReaderSleeps | ReadFails

  class PipeBuffer {
    const data: array<Byte>
    var nread: Word
    var nwrite: Word
    var readopen: bool
    var writeopen: bool
    /** Every byte stored so far, and how many of them were read. */
    ghost var written: seq<Byte>
    ghost var read: nat

    ghost predicate Valid()
      reads this, data
    {
      && data.Length == PIPESIZE && Holds(data[..], written, read)
      && nread == Wrapped(read) && nwrite == Wrapped(|written|)
    }

    constructor ()
      ensures Valid() && written == [] && read == 0 && readopen && writeopen && fresh(data)
    {
      data := new Byte[PIPESIZE](_ => 0);
      nread, nwrite, readopen, writeopen := 0, 0, true, true;
      written, read := [], 0;
    }

    /** pipewrite from byte i on, until all is written, or the ring is full. */
    method Write(addr: seq<Byte>, from: nat, killed: bool) returns (i: nat, r: WriteResult)
      requires Valid() && from <= |addr|
      modifies this`nwrite, this`written, data
      ensures Valid() && from <= i <= |addr|
      ensures written == old(written) + addr[from..i]
      ensures r == Wrote <==> i == |addr|
      ensures r != Wrote ==> |written| == read + PIPESIZE
      ensures r == WriteFails ==> !readopen || killed
      ensures r == WriterSleeps ==> readopen && !killed
    {
      i := from;
      while i < |addr|
        invariant Valid() && from <= i <= |addr|
        invariant written == old(written) + addr[from..i]
      {
        WrapIsHarmless(read, |written|);
        if nwrite == (nread + PIPESIZE) % 0x1_0000_0000 {
          return i, if !readopen || killed then WriteFails else WriterSleeps;
        }
        PutKeeps(data[..], written, read, addr[i]);
        ghost var ring := data[..];
        data[nwrite % PIPESIZE] := addr[i];
        assert data[..] == ring[|written| % PIPESIZE := addr[i]];
        nwrite := (nwrite + 1) % 0x1_0000_0000;
        written := written + [addr[i]];
        i := i + 1;
      }
      r := Wrote;
    }

    /** piperead of up to n bytes, or falling asleep on an empty pipe. */
    method Read(n: int, killed: bool) returns (r: ReadResult)
      requires Valid()
      modifies this`nread, this`read
      ensures Valid()
      ensures r == ReaderSleeps <==> old(read) == |written| && writeopen && !killed
      ensures r == ReadFails <==> old(read) == |written| && writeopen && killed
      ensures !r.Bytes? ==> read == old(read)
      // Exactly the next bytes, as many as there are and were asked for.
      ensures r.Bytes? ==> old(read) <= read <= |written| && r.bytes == written[old(read)..read]
      ensures r.Bytes? ==> read - old(read) == if n <= 0 then 0 else if n < |written| - old(read) then n
                else |written| - old(read)
    {
      WrapIsHarmless(read, |written|);
      if nread == nwrite && writeopen {
        return if killed then ReadFails else ReaderSleeps;
      }
      var addr: seq<Byte> := [];
      var i := 0;
      while i < n
        invariant Valid() && i == |addr| && (n <= 0 ==> i == 0) && (n > 0 ==> i <= n)
        invariant read == old(read) + i <= |written| && addr == written[old(read)..read]
      {
        WrapIsHarmless(read, |written|);
        if nread == nwrite {
          break;
        }
        assert data[nread % PIPESIZE] == written[read];
        addr := addr + [data[nread % PIPESIZE]];
        nread := (nread + 1) % 0x1_0000_0000;
        read := read + 1;
        i := i + 1;
      }
      return Bytes(addr);
    }

    method Close(writable: bool)
      requires Valid()
      modifies this`readopen, this`writeopen
      ensures Valid() && writeopen == (old(writeopen) && !writable) && readopen == (old(readopen) && writable)
    {
      if writable {
        writeopen := false;
      } else {
        readopen := false;
      }
    }

    /** Any interleaving of critical sections of readers, writers and closers: what was
        received is a prefix of what was stored, and at most 512 bytes are pending. */
    method Interleave(sections: seq<Section>) returns (stored: seq<Byte>, received: seq<Byte>)
      requires Valid() && written == [] && read == 0
      modifies this, data
      ensures Valid() && stored == written
      ensures received <= stored && |stored| - |received| <= PIPESIZE
    {
      stored, received := [], [];
      for k := 0 to |sections|
        invariant Valid() && stored == written && |received| == read && received == stored[..read]
      {
        match sections[k]
        case WriteSection(addr, from, killed) =>
          if from <= |addr| {
            var i, r := Write(addr, from, killed);
            stored := stored + addr[from..i];
          }
        case ReadSection(n, killed) =>
          var r := Read(n, killed);
          if r.Bytes? {
            received := received + r.bytes;
          }
        case CloseSection(writable) =>
          Close(writable);
      }
    }
  }

  datatype Section =
    | WriteSection(addr: seq<Byte>, from: nat, killed: bool)
    | ReadSection(n: int, killed: bool)
    | CloseSection(writable: bool)
}
