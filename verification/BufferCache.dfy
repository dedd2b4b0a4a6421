/** The buffer cache over the in-memory disk: a fixed set of buffers on a doubly
    linked ring in least-recently-used order.  Locks that a process sleeps on
    are step boundaries: a method that acquires one is called once the lock is
    free, and every method keeps Valid(), so every interleaving does. */
module BufferCache {

  const NBUF: nat := 30
  /** The ring's sentinel has the index after the last buffer. */
  const HEAD: nat := NBUF
  const ROOTDEV: nat := 1
  /** A block of BSIZE = 512 bytes, as its 32-bit words. */
  const BWORDS: nat := 128

  type Block = b: seq<int> | |b| == BWORDS witness seq(BWORDS, _ => 0)

  datatype Buf = Buf(valid: bool, dirty: bool, dev: nat, blockno: nat,
                     locked: bool, refcnt: nat, data: Block)

  // --- What the buffers mean ------------------------------------------------

  predicate Names(b: Buf, dev: nat, bn: nat) {
    b.dev == dev && b.blockno == bn
  }

  /** A buffer that bget may recycle. */
  predicate Free(b: Buf) {
    b.refcnt == 0 && !b.dirty
  }

  ghost predicate HasFree(bufs: seq<Buf>) {
    exists i :: 0 <= i < |bufs| && Free(bufs[i])
  }

  /** No buffer holds the block. */
  ghost predicate Absent(bufs: seq<Buf>, dev: nat, bn: nat) {
    forall i :: 0 <= i < |bufs| ==> !Names(bufs[i], dev, bn)
  }

  /** No process holds the lock of a buffer of the block. */
  ghost predicate Unlocked(bufs: seq<Buf>, dev: nat, bn: nat) {
    forall i :: 0 <= i < |bufs| && Names(bufs[i], dev, bn) ==> !bufs[i].locked
  }

  /** The block is pinned: a dirty buffer holds it. */
  ghost predicate Pinned(bufs: seq<Buf>, bn: int) {
    exists i :: 0 <= i < |bufs| && bufs[i].dev == ROOTDEV && bufs[i].blockno == bn && bufs[i].dirty
  }

  /** bget may return buffer b: it holds the block, or may be recycled for it. */
  ghost predicate CanGet(bufs: seq<Buf>, b: nat, dev: nat, bn: nat) {
    b < |bufs| && (Names(bufs[b], dev, bn) || (Free(bufs[b]) && Absent(bufs, dev, bn)))
  }

  /** The buffer after bget. */
  function Gotten(bufs: seq<Buf>, b: nat, dev: nat, bn: nat): Buf
    requires b < |bufs|
  {
    if Names(bufs[b], dev, bn) then bufs[b].(refcnt := bufs[b].refcnt + 1)
    else Buf(false, false, dev, bn, false, 1, bufs[b].data)
  }

  predicate BufOk(b: Buf, disk: seq<Block>) {
    && (b.locked ==> b.refcnt > 0)
    && (b.dirty ==> b.valid)
    && (b.valid ==> b.dev == ROOTDEV && b.blockno < |disk|)
    && (b.valid && !b.dirty && !b.locked ==> b.data == disk[b.blockno])
  }

  /** Two buffers hold one block.  Device 0 marks a buffer never used. */
  predicate Clash(bufs: seq<Buf>, i: nat, j: nat)
    requires i < |bufs| && j < |bufs|
  {
    i != j && bufs[i].dev != 0 && Names(bufs[i], bufs[j].dev, bufs[j].blockno)
  }

  /** At most one buffer per block, and every settled buffer agrees with the disk. */
  ghost predicate CacheInv(bufs: seq<Buf>, disk: seq<Block>) {
    && |bufs| == NBUF
    && (forall i :: 0 <= i < NBUF ==> BufOk(bufs[i], disk))
    && (forall i, j :: 0 <= i < NBUF && 0 <= j < NBUF ==> !Clash(bufs, i, j))
  }

  /** The least buffer from index i that holds the block, or NBUF. */
  function Holder(bufs: seq<Buf>, bn: nat, i: nat): (h: nat)
    requires |bufs| == NBUF && i <= NBUF
    ensures i <= h <= NBUF
    ensures h < NBUF ==> Names(bufs[h], ROOTDEV, bn)
    ensures forall j :: i <= j < h ==> !Names(bufs[j], ROOTDEV, bn)
    decreases NBUF - i
  {
    if i == NBUF || Names(bufs[i], ROOTDEV, bn) then i else Holder(bufs, bn, i + 1)
  }

  /** The contents of a block as bread delivers them. */
  function View(bufs: seq<Buf>, disk: seq<Block>, bn: nat): Block
    requires |bufs| == NBUF && bn < |disk|
  {
    var h := Holder(bufs, bn, 0);
    if h < NBUF && bufs[h].valid then bufs[h].data else disk[bn]
  }

  lemma {:induction false} ViewOfHolder(bufs: seq<Buf>, disk: seq<Block>, i: nat)
    requires CacheInv(bufs, disk) && i < NBUF && bufs[i].valid
    ensures View(bufs, disk, bufs[i].blockno) == bufs[i].data
  {
    var h := Holder(bufs, bufs[i].blockno, 0);
    assert h <= i;
    assert !Clash(bufs, h, i);
  }

  /** A buffer as bread returns it: locked, valid, referenced once more. */
  function Opened(bufs: seq<Buf>, disk: seq<Block>, b: nat, bn: nat): Buf
    requires |bufs| == NBUF && b < NBUF && bn < |disk|
  {
    var o := bufs[b];
    if Names(o, ROOTDEV, bn)
    then o.(valid := true, locked := true, refcnt := o.refcnt + 1, data := if o.valid then o.data else disk[bn])
    else Buf(true, false, ROOTDEV, bn, true, 1, disk[bn])
  }

  // --- The ring ---------------------------------------------------------------

  /** Position k of the ring: the sentinel, the buffers in order, the sentinel again. */
  function Node(order: seq<nat>, k: nat): nat
    requires k <= |order| + 1
  {
    if k == 0 || k == |order| + 1 then HEAD else order[k - 1]
  }

  ghost predicate Permutation(order: seq<nat>) {
    && |order| == NBUF
    && (forall k :: 0 <= k < |order| ==> order[k] < NBUF)
    && (forall j, k :: 0 <= j < k < |order| ==> order[j] != order[k])
    && (forall b: nat :: b < NBUF ==> b in order)
  }

  ghost predicate Linked(next: seq<nat>, prev: seq<nat>, order: seq<nat>) {
    && |next| == |prev| == NBUF + 1
    && (forall i :: 0 <= i <= NBUF ==> next[i] <= NBUF && prev[i] <= NBUF)
    && (forall k :: 0 <= k < |order| ==> order[k] < NBUF)
    && (forall k :: 0 <= k <= |order| ==>
          next[Node(order, k)] == Node(order, k + 1) && prev[Node(order, k + 1)] == Node(order, k))
  }

  /** b is at the most recently used end, the others in their order behind it. */
  predicate MovedUp(order: seq<nat>, order1: seq<nat>, b: nat) {
    exists k :: 0 <= k < |order| && order[k] == b && order1 == [b] + order[..k] + order[k + 1..]
  }

  /** Unlinking order[k]: its neighbours become each other's neighbours. */
  lemma {:induction false} Unlinked(next: seq<nat>, prev: seq<nat>, order: seq<nat>, k: nat)
    requires Linked(next, prev, order) && k < |order|
    requires forall i, j :: 0 <= i < j < |order| ==> order[i] != order[j]
    ensures var b := order[k];
            var next1, prev1 := next[prev[b] := next[b]], prev[next[b] := prev[b]];
            Linked(next1, prev1, order[..k] + order[k + 1..])
  {
    var b := order[k];
    assert Node(order, k + 1) == b;
    assert prev[b] == Node(order, k) && next[b] == Node(order, k + 2);
    var rest := order[..k] + order[k + 1..];
    var next1, prev1 := next[prev[b] := next[b]], prev[next[b] := prev[b]];
    forall j | 0 <= j <= |rest|
      ensures next1[Node(rest, j)] == Node(rest, j + 1) && prev1[Node(rest, j + 1)] == Node(rest, j)
    {
      var i := if j <= k then j else j + 1;
      assert Node(rest, j) == Node(order, i);
      if j != k {
        assert Node(rest, j + 1) == Node(order, i + 1);
      } else {
        assert Node(rest, j + 1) == Node(order, k + 2);
      }
    }
  }

  /** Linking b behind the sentinel puts it at the front. */
  lemma {:induction false} PushedFront(next: seq<nat>, prev: seq<nat>, order: seq<nat>, b: nat)
    requires Linked(next, prev, order) && b < NBUF && b !in order
    ensures var next1, prev1 := next[b := next[HEAD]], prev[b := HEAD];
            Linked(next1[HEAD := b], prev1[next1[HEAD] := b], [b] + order)
  {
    assert Node(order, 0) == HEAD;
    assert Node(order, 1) == next[HEAD];
    var next2 := next[b := next[HEAD]][HEAD := b];
    var prev2 := prev[b := HEAD][next[HEAD] := b];
    var longer := [b] + order;
    forall j | 0 <= j <= |longer|
      ensures next2[Node(longer, j)] == Node(longer, j + 1) && prev2[Node(longer, j + 1)] == Node(longer, j)
    {
      if j > 0 {
        assert Node(longer, j + 1) == Node(order, j);
        if j > 1 {
          assert Node(longer, j) == Node(order, j - 1);
          assert next[Node(order, j - 1)] == Node(order, j);
        }
      }
    }
  }

  lemma {:induction false} InOrder(order: seq<nat>, b: nat)
    requires Permutation(order) && b < NBUF
    ensures |order| == NBUF && b in order
    ensures forall i, j :: 0 <= i < j < |order| ==> order[i] != order[j]
  {
  }

  lemma {:induction false} MovedIsPermutation(order: seq<nat>, k: nat)
    requires Permutation(order) && k < |order|
    ensures Permutation([order[k]] + order[..k] + order[k + 1..])
  {
    var order1 := [order[k]] + order[..k] + order[k + 1..];
    forall b: nat | b < NBUF
      ensures b in order1
    {
      assert b in order;
      var m :| 0 <= m < |order| && order[m] == b;
      assert m != k ==> order1[if m < k then m + 1 else m] == b;
    }
  }

  /** The free buffer found from the ring's end is the one least recently released. */
  lemma {:induction false} OldestFree(bufs: seq<Buf>, order: seq<nat>, releases: seq<nat>, k: nat)
    requires |bufs| == NBUF && Permutation(order) && ByRecency(order, releases) && k < NBUF
    requires forall m :: k < m < NBUF ==> !Free(bufs[order[m]])
    ensures forall c: nat :: c < NBUF && Free(bufs[c]) ==> LastAt(releases, order[k]) <= LastAt(releases, c)
  {
    forall c: nat | c < NBUF && Free(bufs[c])
      ensures LastAt(releases, order[k]) <= LastAt(releases, c)
    {
      assert c in order;
      var m :| 0 <= m < |order| && order[m] == c;
      assert m < k ==> Later(releases, order[m], order[k]);
    }
  }

  /** When buffer b was last released: its last place in the list of releases, -1 if none. */
  function LastAt(releases: seq<nat>, b: nat): (at: int)
    ensures -1 <= at < |releases| && (at >= 0 ==> releases[at] == b)
    ensures forall i :: at < i < |releases| ==> releases[i] != b
  {
    if releases == [] then -1
    else if releases[|releases| - 1] == b then |releases| - 1
    else LastAt(releases[..|releases| - 1], b)
  }

  predicate Later(releases: seq<nat>, a: nat, b: nat) {
    LastAt(releases, a) > LastAt(releases, b) || LastAt(releases, b) == -1
  }

  /** The ring's order is that of the last releases, the latest first. */
  ghost predicate ByRecency(order: seq<nat>, releases: seq<nat>) {
    forall i, j {:trigger Later(releases, order[i], order[j])} :: 0 <= i < j < |order| ==>
      Later(releases, order[i], order[j])
  }

  lemma {:induction false} NoneReleased(order: seq<nat>)
    ensures ByRecency(order, [])
  {
  }

  /** Moving the released buffer to the front keeps that order. */
  lemma {:induction false} ReleaseKeepsRecency(order: seq<nat>, releases: seq<nat>, k: nat)
    requires ByRecency(order, releases) && k < |order|
    requires forall i, j :: 0 <= i < j < |order| ==> order[i] != order[j]
    ensures ByRecency([order[k]] + order[..k] + order[k + 1..], releases + [order[k]])
  {
    var order1, releases1 := [order[k]] + order[..k] + order[k + 1..], releases + [order[k]];
    assert releases1[..|releases|] == releases;
    forall i, j | 0 <= i < j < |order1|
      ensures Later(releases1, order1[i], order1[j])
    {
      var m := if j <= k then j - 1 else j;
      assert order1[j] == order[m];
      if i > 0 {
        var n := if i <= k then i - 1 else i;
        assert order1[i] == order[n];
        assert Later(releases, order[n], order[m]);
      }
    }
  }

  // --- Effects of the critical sections on the buffers ------------------------

  /** Changing anything but a buffer's block keeps blocks unshared. */
  lemma {:induction false} ChangeKeeps(bufs: seq<Buf>, disk: seq<Block>, b: nat, to: Buf)
    requires CacheInv(bufs, disk) && b < NBUF && Names(to, bufs[b].dev, bufs[b].blockno) && BufOk(to, disk)
    ensures CacheInv(bufs[b := to], disk)
  {
    var bufs1 := bufs[b := to];
    forall i, j | 0 <= i < NBUF && 0 <= j < NBUF
      ensures !Clash(bufs1, i, j)
    {
      assert !Clash(bufs, i, j);
    }
  }

  lemma {:induction false} ReferenceKeeps(bufs: seq<Buf>, disk: seq<Block>, b: nat)
    requires CacheInv(bufs, disk) && b < NBUF
    ensures CacheInv(bufs[b := bufs[b].(refcnt := bufs[b].refcnt + 1)], disk)
  {
    ChangeKeeps(bufs, disk, b, bufs[b].(refcnt := bufs[b].refcnt + 1));
  }

  lemma {:induction false} RecycleKeeps(bufs: seq<Buf>, disk: seq<Block>, b: nat, dev: nat, bn: nat)
    requires CacheInv(bufs, disk) && b < NBUF
    requires Absent(bufs, dev, bn)
    ensures CacheInv(bufs[b := Buf(false, false, dev, bn, false, 1, bufs[b].data)], disk)
  {
    var bufs1 := bufs[b := Buf(false, false, dev, bn, false, 1, bufs[b].data)];
    forall i, j | 0 <= i < NBUF && 0 <= j < NBUF
      ensures !Clash(bufs1, i, j)
    {
      assert !Clash(bufs, i, j);
    }
  }

  lemma {:induction false} DiskWriteKeeps(bufs: seq<Buf>, disk: seq<Block>, b: nat)
    requires CacheInv(bufs, disk) && b < NBUF && bufs[b].valid && bufs[b].locked
    ensures CacheInv(bufs[b := bufs[b].(dirty := false)], disk[bufs[b].blockno := bufs[b].data])
  {
    var bufs1, disk1 := bufs[b := bufs[b].(dirty := false)], disk[bufs[b].blockno := bufs[b].data];
    forall i: nat | i < NBUF
      ensures BufOk(bufs1[i], disk1)
    {
      assert BufOk(bufs[i], disk) && !Clash(bufs, i, b);
    }
    forall i, j | 0 <= i < NBUF && 0 <= j < NBUF
      ensures !Clash(bufs1, i, j)
    {
      assert !Clash(bufs, i, j);
    }
  }

  /** The cache, and the memory that stands for the disk under it. */
  class Bcache {
    const buf: array<Buf>
    const next: array<nat>
    const prev: array<nat>
    var memdisk: seq<Block>
    /** The contents of buf. */
    ghost var bufs: seq<Buf>
    /** Most recently used first. */
    ghost var order: seq<nat>
    /** The buffers whose last reference was given up, one after the other. */
    ghost var releases: seq<nat>
    /** Every content the disk has had, oldest first: a crash leaves one of them. */
    ghost var trace: seq<seq<Block>>

    ghost predicate Valid()
      reads this, buf, next, prev
    {
      && buf.Length == NBUF && bufs == buf[..] && next.Length == NBUF + 1 && prev.Length == NBUF + 1 && next != prev
      && Permutation(order)
      && Linked(next[..], prev[..], order) && ByRecency(order, releases)
      && CacheInv(bufs, memdisk)
      && |trace| > 0 && trace[|trace| - 1] == memdisk
    }

    /** binit: every buffer starts as block 0 of device 0, linked in at the front. */
    constructor (image: seq<Block>)
      ensures Valid() && fresh(buf) && fresh(next) && fresh(prev)
      ensures memdisk == image && trace == [image] && releases == []
      ensures forall i :: 0 <= i < NBUF ==> bufs[i].dev == 0 && Free(bufs[i]) && !bufs[i].valid
      ensures forall k :: 0 <= k < NBUF ==> order[k] == NBUF - 1 - k
    {
      buf := new Buf[NBUF](_ => Buf(false, false, 0, 0, false, 0, seq(BWORDS, _ => 0)));
      next := new nat[NBUF + 1](_ => 0);
      prev := new nat[NBUF + 1](_ => 0);
      memdisk := image;
      trace := [image];
      order, releases := [], [];
      new;
      hide ByRecency, Later;
      bufs := buf[..];
      prev[HEAD] := HEAD;
      next[HEAD] := HEAD;
      var b := 0;
      while b < NBUF
        invariant 0 <= b <= NBUF
        invariant |order| == b && forall k :: 0 <= k < b ==> order[k] == b - 1 - k
        invariant Linked(next[..], prev[..], order)
        invariant bufs == buf[..]
        invariant forall i :: 0 <= i < NBUF ==> bufs[i] == Buf(false, false, 0, 0, false, 0, seq(BWORDS, _ => 0))
        invariant memdisk == image && trace == [image] && releases == []
      {
        PushedFront(next[..], prev[..], order, b);
        next[b] := next[HEAD];
        prev[b] := HEAD;
        prev[next[HEAD]] := b;
        next[HEAD] := b;
        order := [b] + order;
        b := b + 1;
      }
      forall i: nat | i < NBUF
        ensures i in order
      {
        assert order[NBUF - 1 - i] == i;
      }
      NoneReleased(order);
    }

    /** bget up to the sleep on the buffer's own lock.  It fails, where the kernel
        panics, exactly when the block is not cached and no buffer is free. */
    method Bget(dev: nat, blockno: nat) returns (b: nat, ok: bool)
      requires Valid() && dev != 0
      modifies this`bufs, buf
      ensures Valid()
      ensures ok <==> HasFree(old(bufs)) || !Absent(old(bufs), dev, blockno)
      ensures !ok ==> bufs == old(bufs)
      ensures ok ==> CanGet(old(bufs), b, dev, blockno) && bufs == old(bufs)[b := Gotten(old(bufs), b, dev, blockno)]
      // Not cached: of the free buffers the one least recently released, and last on the ring, is recycled.
      ensures ok && !Names(old(bufs)[b], dev, blockno) ==>
                && (exists k ::
                      0 <= k < NBUF && order[k] == b && forall m :: k < m < NBUF ==> !Free(old(bufs)[order[m]]))
                && forall c: nat :: c < NBUF && Free(old(bufs)[c]) ==> LastAt(releases, b) <= LastAt(releases, c)
    {
      hide CacheInv, Permutation, ByRecency;
      InOrder(order, 0);
      ghost var k := 1;
      assert Node(order, 0) == HEAD;
      b := next[HEAD];
      while b != HEAD
        invariant 1 <= k <= NBUF + 1 && b == Node(order, k)
        invariant forall j :: 0 <= j < k - 1 ==> !Names(bufs[order[j]], dev, blockno)
        decreases NBUF + 1 - k
      {
        assert b == order[k - 1];
        if buf[b].dev == dev && buf[b].blockno == blockno {
          ReferenceKeeps(bufs, memdisk, b);
          buf[b] := buf[b].(refcnt := buf[b].refcnt + 1);
          bufs := bufs[b := buf[b]];
          ok := true;
          return;
        }
        assert next[Node(order, k)] == Node(order, k + 1);
        b := next[b];
        k := k + 1;
      }
      forall i: nat | i < NBUF
        ensures !Names(bufs[i], dev, blockno)
      {
        InOrder(order, i);
      }
      k := NBUF;
      assert Node(order, NBUF + 1) == HEAD;
      b := prev[HEAD];
      while b != HEAD
        invariant 0 <= k <= NBUF && b == Node(order, k)
        invariant forall j :: k <= j < NBUF ==> !Free(bufs[order[j]])
        decreases k
      {
        assert b == order[k - 1];
        if buf[b].refcnt == 0 && !buf[b].dirty {
          RecycleKeeps(bufs, memdisk, b, dev, blockno);
          OldestFree(bufs, order, releases, k - 1);
          buf[b] := Buf(false, false, dev, blockno, false, 1, buf[b].data);
          bufs := bufs[b := buf[b]];
          ok := true;
          return;
        }
        assert prev[Node(order, k)] == Node(order, k - 1);
        b := prev[b];
        k := k - 1;
      }
      forall i: nat | i < NBUF
        ensures !Free(bufs[i])
      {
        InOrder(order, i);
      }
      ok := false;
    }

    /** The point at which acquiresleep returns. */
    method AcquireSleep(b: nat)
      requires Valid() && b < NBUF && !bufs[b].locked && bufs[b].refcnt > 0
      modifies this`bufs, buf
      ensures Valid()
      ensures bufs == old(bufs)[b := old(bufs)[b].(locked := true)]
    {
      ChangeKeeps(bufs, memdisk, b, buf[b].(locked := true));
      buf[b] := buf[b].(locked := true);
      bufs := bufs[b := buf[b]];
    }

    /** iderw: a dirty buffer is written to the disk, a buffer not yet valid is
        read from it.  The preconditions are the panics of the original. */
    method Iderw(b: nat)
      requires Valid() && b < NBUF && bufs[b].locked
      requires !bufs[b].valid || bufs[b].dirty
      requires bufs[b].dev == ROOTDEV && bufs[b].blockno < |memdisk|
      modifies this, buf
      ensures Valid() && order == old(order) && releases == old(releases)
      ensures old(bufs[b].dirty) ==>
                && memdisk == old(memdisk)[old(bufs[b].blockno) := old(bufs[b].data)]
                && trace == old(trace) + [memdisk]
                && bufs == old(bufs)[b := old(bufs[b]).(dirty := false)]
      ensures !old(bufs[b].dirty) ==>
                && memdisk == old(memdisk) && trace == old(trace)
                && bufs == old(bufs)[b := old(bufs[b]).(valid := true, data := memdisk[old(bufs[b].blockno)])]
    {
      ghost var was := bufs;
      if buf[b].dirty {
        DiskWriteKeeps(bufs, memdisk, b);
        memdisk := memdisk[buf[b].blockno := buf[b].data];
        trace := trace + [memdisk];
        buf[b] := buf[b].(dirty := false);
        bufs := bufs[b := buf[b]];
      } else {
        ChangeKeeps(bufs, memdisk, b, buf[b].(valid := true, data := memdisk[buf[b].blockno]));
        buf[b] := buf[b].(data := memdisk[buf[b].blockno]);
        bufs := bufs[b := buf[b]];
      }
      buf[b] := buf[b].(valid := true);
      bufs := bufs[b := buf[b]];
      assert bufs == if was[b].dirty then was[b := was[b].(dirty := false)]
                     else was[b := was[b].(valid := true, data := memdisk[was[b].blockno])];
    }

    /** A locked buffer with the block's latest contents. */
    method Bread(dev: nat, blockno: nat) returns (b: nat, ok: bool)
      requires Valid() && dev == ROOTDEV && blockno < |memdisk|
      requires Unlocked(bufs, dev, blockno)
      modifies this, buf
      ensures Valid() && order == old(order) && memdisk == old(memdisk) && trace == old(trace)
      ensures ok <==> HasFree(old(bufs)) || !Absent(old(bufs), dev, blockno)
      ensures !ok ==> bufs == old(bufs)
      ensures ok ==> b < NBUF && bufs == old(bufs)[b := Opened(old(bufs), memdisk, b, blockno)]
      ensures ok ==> bufs[b].data == View(old(bufs), memdisk, blockno)
      ensures releases == old(releases)
      ensures ok && !Names(old(bufs)[b], dev, blockno) ==>
                && Free(old(bufs)[b]) && Absent(old(bufs), dev, blockno)
                && forall c: nat :: c < NBUF && Free(old(bufs)[c]) ==> LastAt(releases, b) <= LastAt(releases, c)
    {
      ghost var was := bufs;
      b, ok := Bget(dev, blockno);
      if !ok {
        return;
      }
      AcquireSleep(b);
      if !buf[b].valid {
        Iderw(b);
      }
      assert bufs == was[b := Opened(was, memdisk, b, blockno)];
      OpenedIsView(was, memdisk, b, blockno);
    }

    /** The caller changes the data of a buffer it has locked. */
    method SetData(b: nat, data: Block)
      requires Valid() && b < NBUF && bufs[b].locked
      modifies this`bufs, buf
      ensures Valid()
      ensures bufs == old(bufs)[b := old(bufs[b]).(data := data)]
    {
      ChangeKeeps(bufs, memdisk, b, buf[b].(data := data));
      buf[b] := buf[b].(data := data);
      bufs := bufs[b := buf[b]];
    }

    /** Marks a buffer dirty, which pins it until it is next written to the disk. */
    method SetDirty(b: nat)
      requires Valid() && b < NBUF && bufs[b].valid
      modifies this`bufs, buf
      ensures Valid()
      ensures bufs == old(bufs)[b := old(bufs[b]).(dirty := true)]
    {
      ChangeKeeps(bufs, memdisk, b, buf[b].(dirty := true));
      buf[b] := buf[b].(dirty := true);
      bufs := bufs[b := buf[b]];
    }

    /** Writes a locked buffer straight to the disk. */
    method Bwrite(b: nat)
      requires Valid() && b < NBUF && bufs[b].locked && bufs[b].valid
      modifies this, buf
      ensures Valid() && order == old(order) && releases == old(releases)
      ensures memdisk == old(memdisk)[old(bufs[b].blockno) := old(bufs[b].data)]
      ensures trace == old(trace) + [memdisk]
      ensures bufs == old(bufs)[b := old(bufs[b]).(dirty := false)]
    {
      SetDirty(b);
      Iderw(b);
    }

    /** The caller is done with the buffer, and has handed any change to bwrite
        or log_write; the last user moves it to the front of the ring. */
    method Brelse(b: nat)
      requires Valid() && b < NBUF && bufs[b].locked && bufs[b].valid
      requires bufs[b].dirty || bufs[b].data == memdisk[bufs[b].blockno]
      modifies this`order, this`releases, this`bufs, buf, next, prev
      ensures Valid()
      ensures bufs == old(bufs)[b := old(bufs[b]).(locked := false, refcnt := old(bufs[b]).refcnt - 1)]
      ensures old(bufs[b].refcnt) != 1 ==> order == old(order) && releases == old(releases)
      ensures old(bufs[b].refcnt) == 1 ==> MovedUp(old(order), order, b) && releases == old(releases) + [b]
    {
      ChangeKeeps(bufs, memdisk, b, buf[b].(locked := false, refcnt := buf[b].refcnt - 1));
      buf[b] := buf[b].(locked := false);
      bufs := bufs[b := buf[b]];
      buf[b] := buf[b].(refcnt := buf[b].refcnt - 1);
      bufs := bufs[b := buf[b]];
      assert bufs == old(bufs)[b := old(bufs[b]).(locked := false, refcnt := old(bufs[b]).refcnt - 1)];
      if buf[b].refcnt == 0 {
        MoveToFront(b);
      }
    }

    method MoveToFront(b: nat)
      requires Valid() && b < NBUF
      modifies this`order, this`releases, next, prev
      ensures Valid() && MovedUp(old(order), order, b) && releases == old(releases) + [b]
    {
      hide CacheInv, ByRecency, Linked, Permutation;
      InOrder(order, b);
      ghost var k :| 0 <= k < |order| && order[k] == b;
      MovedIsPermutation(order, k);
      ReleaseKeepsRecency(order, releases, k);
      ghost var was := order;
      Unlink(b, k);
      LinkFirst(b);
      releases := releases + [b];
      assert order == [b] + was[..k] + was[k + 1..];
    }

    method Unlink(b: nat, ghost k: nat)
      requires next.Length == NBUF + 1 && prev.Length == NBUF + 1 && next != prev
      requires Permutation(order) && Linked(next[..], prev[..], order) && k < NBUF && order[k] == b
      modifies this`order, next, prev
      ensures order == old(order)[..k] + old(order)[k + 1..] && Linked(next[..], prev[..], order)
    {
      Unlinked(next[..], prev[..], order, k);
      assert prev[b] == Node(order, k) && next[b] == Node(order, k + 2) by {
        assert Node(order, k + 1) == b;
      }
      prev[next[b]] := prev[b];
      next[prev[b]] := next[b];
      order := order[..k] + order[k + 1..];
    }

    method LinkFirst(b: nat)
      requires next.Length == NBUF + 1 && prev.Length == NBUF + 1 && next != prev
      requires Linked(next[..], prev[..], order) && b < NBUF && b !in order
      modifies this`order, next, prev
      ensures order == [b] + old(order) && Linked(next[..], prev[..], order)
    {
      PushedFront(next[..], prev[..], order, b);
      next[b] := next[HEAD];
      prev[b] := HEAD;
      prev[next[HEAD]] := b;
      next[HEAD] := b;
      order := [b] + order;
    }
  }

  lemma {:induction false} OpenedIsView(bufs: seq<Buf>, disk: seq<Block>, b: nat, bn: nat)
    requires CacheInv(bufs, disk) && b < NBUF && bn < |disk|
    requires Names(bufs[b], ROOTDEV, bn) || Absent(bufs, ROOTDEV, bn)
    ensures Opened(bufs, disk, b, bn).data == View(bufs, disk, bn)
  {
    var h := Holder(bufs, bn, 0);
    if Names(bufs[b], ROOTDEV, bn) {
      assert !Clash(bufs, h, b);
    }
  }
}
