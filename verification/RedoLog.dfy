/** The redo log: reservation of log space, absorption of repeated writes, group
    commit through the buffer cache, and recovery at boot. */
module RedoLog {
  import opened BufferCache
  import opened CrashSafety
  import opened Finite

  // --- What the log's steps do to the buffers ---------------------------------

  ghost predicate TwoFree(bufs: seq<Buf>) {
    exists i, j :: 0 <= i < j < |bufs| && Free(bufs[i]) && Free(bufs[j])
  }

  ghost predicate LogClean(bufs: seq<Buf>, r: Region) {
    forall i :: 0 <= i < |bufs| && bufs[i].dev == ROOTDEV && InLog(r, bufs[i].blockno) ==> Free(bufs[i])
  }

  /** The buffer is free, or clean and unlocked with the block and the users it had. */
  predicate Settled(b0: Buf, b1: Buf) {
    Free(b1) || (Names(b1, b0.dev, b0.blockno) && b1.refcnt == b0.refcnt && !b1.dirty && !b1.locked)
  }

  /** Free buffers stay free, those of settled blocks are no longer dirty, and all others
      are untouched. */
  ghost predicate Settles(b0: seq<Buf>, b1: seq<Buf>, settled: seq<int>) {
    && |b0| == |b1| == NBUF
    && forall i :: 0 <= i < NBUF ==>
         if Free(b0[i]) then Free(b1[i])
         else if b0[i].dev == ROOTDEV && b0[i].blockno in settled then Settled(b0[i], b1[i])
         else b1[i] == b0[i]
  }

  /** A buffer is dirty only if its block is among homes. */
  predicate Recorded(b: Buf, homes: seq<int>) {
    b.dirty ==> b.blockno in homes
  }

  /** The pinned blocks are exactly those of homes.  The triggers keep the two
      halves from feeding each other in the solver. */
  ghost predicate PinnedExactly(bufs: seq<Buf>, homes: seq<int>) {
    && (forall i {:trigger Recorded(bufs[i], homes)} :: 0 <= i < |bufs| ==> Recorded(bufs[i], homes))
    && (forall t {:trigger Pinned(bufs, homes[t])} :: 0 <= t < |homes| ==> Pinned(bufs, homes[t]))
  }

  /** The latest contents of the logged blocks. */
  function Views(bufs: seq<Buf>, disk: seq<Block>, homes: seq<int>): (news: seq<Block>)
    requires |bufs| == NBUF && forall t :: 0 <= t < |homes| ==> 0 <= homes[t] < |disk|
    ensures |news| == |homes|
    ensures forall t :: 0 <= t < |homes| ==> news[t] == View(bufs, disk, homes[t])
  {
    seq(|homes|, t requires 0 <= t < |homes| => View(bufs, disk, homes[t]))
  }

  ghost predicate AreViews(news: seq<Block>, bufs: seq<Buf>, disk: seq<Block>, homes: seq<int>) {
    && |bufs| == NBUF && |news| == |homes|
    && forall t :: 0 <= t < |homes| ==> 0 <= homes[t] < |disk| && news[t] == View(bufs, disk, homes[t])
  }

  lemma {:induction false} ViewOfUncached(bufs: seq<Buf>, disk: seq<Block>, bn: nat)
    requires CacheInv(bufs, disk) && bn < |disk|
    requires forall i :: 0 <= i < NBUF && Names(bufs[i], ROOTDEV, bn) ==>
               Free(bufs[i]) || (!bufs[i].dirty && !bufs[i].locked)
    ensures View(bufs, disk, bn) == disk[bn]
  {
    var h := Holder(bufs, bn, 0);
    if h < NBUF {
      assert BufOk(bufs[h], disk);
    }
  }

  /** A block keeps its contents when its settled buffers, if any, agree with the disk. */
  lemma {:induction false} ViewKept(b0: seq<Buf>, d0: seq<Block>, b1: seq<Buf>, d1: seq<Block>, settled: seq<int>,
                                    bn: nat)
    requires CacheInv(b0, d0) && CacheInv(b1, d1) && Settles(b0, b1, settled)
    requires bn < |d0| == |d1|
    requires d1[bn] == if bn in settled then View(b0, d0, bn) else d0[bn]
    ensures View(b1, d1, bn) == View(b0, d0, bn)
  {
    var h := Holder(b0, bn, 0);
    if h < NBUF && !Free(b0[h]) && bn !in settled {
      var h1 := Holder(b1, bn, 0);
      assert !Clash(b1, h, h1);
    } else {
      forall i | 0 <= i < NBUF && Names(b1[i], ROOTDEV, bn)
        ensures Free(b1[i]) || (!b1[i].dirty && !b1[i].locked)
      {
        if Names(b0[i], ROOTDEV, bn) {
          assert h <= i;
          assert !Clash(b0, i, h);
        }
      }
      ViewOfUncached(b1, d1, bn);
      if bn !in settled {
        forall i | 0 <= i < NBUF && Names(b0[i], ROOTDEV, bn)
          ensures Free(b0[i])
        {
          assert h <= i;
          assert !Clash(b0, i, h);
        }
        ViewOfUncached(b0, d0, bn);
      }
    }
  }

  /** A settled buffer that holds a block. */
  function Clean(bn: nat, data: Block): Buf {
    Buf(true, false, ROOTDEV, bn, false, 0, data)
  }

  /** A buffer that its one user has just read. */
  function Held(bn: nat, data: Block): Buf {
    Buf(true, false, ROOTDEV, bn, true, 1, data)
  }

  /** Any buffer that holds the block is free. */
  ghost predicate AllFree(bufs: seq<Buf>, bn: nat) {
    forall i :: 0 <= i < |bufs| && Names(bufs[i], ROOTDEV, bn) ==> Free(bufs[i])
  }

  lemma {:induction false} AllFreeBefore(b0: seq<Buf>, b1: seq<Buf>, taken: nat, home: nat)
    requires |b0| == |b1| && taken < |b0| && b1 == b0[taken := b1[taken]] && Free(b0[taken])
    requires Absent(b1, ROOTDEV, home)
    ensures AllFree(b0, home)
  {
    forall i | 0 <= i < |b0| && Names(b0[i], ROOTDEV, home)
      ensures Free(b0[i])
    {
      assert !Names(b1[i], ROOTDEV, home);
    }
  }

  /** At most two buffers differ. */
  ghost predicate Changed2(b0: seq<Buf>, b1: seq<Buf>, i: nat, j: nat) {
    |b0| == |b1| && forall k :: 0 <= k < |b0| && k != i && k != j ==> b1[k] == b0[k]
  }

  /** A locked buffer released by its user. */
  function Closed(b: Buf): Buf
    requires b.refcnt > 0
  {
    b.(locked := false, refcnt := b.refcnt - 1)
  }

  /** Taking a free buffer leaves the one buffer that pins a block where it was. */
  lemma {:induction false} PinnedStays(b0: seq<Buf>, b1: seq<Buf>, disk: seq<Block>, taken: nat, home: nat)
    returns (p: nat)
    requires CacheInv(b0, disk) && CacheInv(b1, disk) && home < |disk|
    requires taken < NBUF && Changed2(b0, b1, taken, taken) && Free(b0[taken])
    requires Pinned(b0, home) && Unlocked(b0, ROOTDEV, home)
    ensures p < NBUF && p != taken && b1[p] == b0[p] && Names(b1[p], ROOTDEV, home)
    ensures b0[p].dirty && b0[p].valid && !b0[p].locked
    ensures b0[p].data == View(b0, disk, home)
    ensures forall i :: 0 <= i < NBUF && Names(b1[i], ROOTDEV, home) ==> i == p
  {
    p :| 0 <= p < NBUF && b0[p].dev == ROOTDEV && b0[p].blockno == home && b0[p].dirty;
    assert Names(b0[p], ROOTDEV, home) && BufOk(b0[p], disk);
    ViewOfHolder(b0, disk, p);
    forall i | 0 <= i < NBUF && Names(b1[i], ROOTDEV, home)
      ensures i == p
    {
      assert !Clash(b1, i, p);
    }
  }

  /** After one free buffer is taken, the home block still finds a buffer. */
  lemma {:induction false} SecondBuffer(b0: seq<Buf>, b1: seq<Buf>, taken: nat, home: nat)
    requires |b0| == |b1| == NBUF && taken < NBUF && b1 == b0[taken := b1[taken]] && Free(b0[taken])
    requires TwoFree(b0) || Pinned(b0, home)
    ensures HasFree(b1) || !Absent(b1, ROOTDEV, home)
  {
    if TwoFree(b0) {
      var i, j :| 0 <= i < j < |b0| && Free(b0[i]) && Free(b0[j]);
      var k := if i == taken then j else i;
      assert Free(b1[k]);
    } else {
      var i :| 0 <= i < |b0| && b0[i].dev == ROOTDEV && b0[i].blockno == home && b0[i].dirty;
      assert Names(b1[i], ROOTDEV, home);
    }
  }

  /** No process has a buffer of a logged block locked: a bread would sleep first. */
  ghost predicate HomesUnlocked(bufs: seq<Buf>, homes: seq<int>) {
    forall i :: 0 <= i < |bufs| && bufs[i].dev == ROOTDEV && bufs[i].blockno in homes ==> !bufs[i].locked
  }

  /** Every block of homes from position k on is pinned. */
  ghost predicate PinnedFrom(bufs: seq<Buf>, homes: seq<int>, k: nat) {
    forall t :: k <= t < |homes| ==> Pinned(bufs, homes[t])
  }

  /** install_trans holds two buffers at a time; a pinned home needs no new one. */
  ghost predicate RoomToInstall(bufs: seq<Buf>, homes: seq<int>, k: nat) {
    k >= |homes| || TwoFree(bufs) || (HasFree(bufs) && Distinct(homes) && PinnedFrom(bufs, homes, k))
  }

  /** Homes lie outside the log, so the lemmas below can tell their buffers from log buffers. */
  ghost predicate Movable(bufs: seq<Buf>, disk: seq<Block>, r: Region, homes: seq<int>) {
    && CacheInv(bufs, disk) && r.start + r.size <= |disk| && 0 < r.size
    && LogClean(bufs, r) && HomesOk(homes, |disk|, r) && HomesUnlocked(bufs, homes)
  }

  lemma {:induction false} SettlesRefl(b: seq<Buf>)
    requires |b| == NBUF
    ensures Settles(b, b, [])
  {
  }

  lemma {:induction false} SettlesMovable(b0: seq<Buf>, b1: seq<Buf>, d0: seq<Block>, d1: seq<Block>, r: Region,
                                          homes: seq<int>, k: nat)
    requires Movable(b0, d0, r, homes) && CacheInv(b1, d1) && |d1| == |d0|
    requires k <= |homes| && Settles(b0, b1, homes[..k])
    ensures Movable(b1, d1, r, homes)
  {
    forall i | 0 <= i < |b1| && b1[i].dev == ROOTDEV && (InLog(r, b1[i].blockno) || b1[i].blockno in homes)
      ensures !b1[i].locked && (InLog(r, b1[i].blockno) ==> Free(b1[i]))
    {
      assert BufOk(b1[i], d1);
    }
  }

  lemma {:induction false} SettlesFree(b0: seq<Buf>, b1: seq<Buf>, settled: seq<int>)
    requires Settles(b0, b1, settled)
    ensures HasFree(b0) ==> HasFree(b1)
    ensures settled == [] && HasFree(b1) ==> HasFree(b0)
    ensures TwoFree(b0) ==> TwoFree(b1)
  {
    if HasFree(b0) {
      var i :| 0 <= i < |b0| && Free(b0[i]);
      assert Free(b1[i]);
    }
    if settled == [] && HasFree(b1) {
      var i :| 0 <= i < |b1| && Free(b1[i]);
      assert Free(b0[i]);
    }
    if TwoFree(b0) {
      var i, j :| 0 <= i < j < |b0| && Free(b0[i]) && Free(b0[j]);
      assert Free(b1[i]) && Free(b1[j]);
    }
  }

  lemma {:induction false} SettlesPinned(b0: seq<Buf>, b1: seq<Buf>, settled: seq<int>, bn: int)
    requires Settles(b0, b1, settled) && Pinned(b0, bn) && bn !in settled
    ensures Pinned(b1, bn)
  {
    var i :| 0 <= i < |b0| && b0[i].dev == ROOTDEV && b0[i].blockno == bn && b0[i].dirty;
    assert b1[i] == b0[i];
  }

  /** One more free buffer rewritten. */
  lemma {:induction false} SettlesOne(b0: seq<Buf>, b1: seq<Buf>, b2: seq<Buf>, settled: seq<int>, to: nat, bn: nat,
                                      data: Block)
    requires Settles(b0, b1, settled) && to < NBUF && Free(b1[to])
    requires Changed2(b1, b2, to, to) && b2[to] == Clean(bn, data)
    ensures Settles(b0, b2, settled)
  {
  }

  /** One more home installed. */
  lemma {:induction false} SettlesHome(b0: seq<Buf>, b1: seq<Buf>, b2: seq<Buf>, homes: seq<int>, k: nat,
                                       d1: seq<Block>, l: nat, h: nat)
    requires k < |homes| && Settles(b0, b1, homes[..k]) && CacheInv(b1, d1) && homes[k] >= 0
    requires |b2| == NBUF && l < NBUF && h < NBUF && l != h && Changed2(b1, b2, l, h)
    requires Free(b1[l]) && Free(b2[l])
    requires if Names(b1[h], ROOTDEV, homes[k]) then Settled(b1[h], b2[h])
             else Free(b1[h]) && Free(b2[h]) && AllFree(b1, homes[k])
    ensures Settles(b0, b2, homes[..k + 1])
  {
    assert homes[..k + 1] == homes[..k] + [homes[k]];
    forall i | 0 <= i < NBUF && Names(b1[i], ROOTDEV, homes[k])
      ensures i == h || Free(b1[i])
    {
      assert !Clash(b1, i, h);
    }
    forall i | 0 <= i < NBUF
      ensures if Free(b0[i]) then Free(b2[i])
              else if b0[i].dev == ROOTDEV && b0[i].blockno in homes[..k + 1] then Settled(b0[i], b2[i])
              else b2[i] == b0[i]
    {
      assert b0[i].dev == ROOTDEV && b0[i].blockno == homes[k] ==> Names(b0[i], ROOTDEV, homes[k]);
      assert b1[i].dev == ROOTDEV && b1[i].blockno == homes[k] ==> Names(b1[i], ROOTDEV, homes[k]);
    }
  }

  /** And there is room for the next. */
  lemma {:induction false} RoomStays(b1: seq<Buf>, b2: seq<Buf>, homes: seq<int>, k: nat, l: nat, h: nat)
    requires k < |homes| && homes[k] >= 0 && |b1| == |b2| == NBUF && RoomToInstall(b1, homes, k)
    requires l < NBUF && h < NBUF && l != h && Changed2(b1, b2, l, h) && Free(b1[l]) && Free(b2[l])
    requires if Names(b1[h], ROOTDEV, homes[k]) then Settled(b1[h], b2[h]) && (Free(b1[h]) ==> Free(b2[h]))
             else Free(b1[h]) && Free(b2[h])
    ensures RoomToInstall(b2, homes, k + 1)
  {
    if TwoFree(b1) {
      var i, j :| 0 <= i < j < |b1| && Free(b1[i]) && Free(b1[j]);
      var m := if i == l then j else i;
      assert Free(b2[m]) && Free(b2[l]) && m != l;
      assert if m < l then Free(b2[m]) && Free(b2[l]) else Free(b2[l]) && Free(b2[m]);
    } else {
      forall t | k + 1 <= t < |homes|
        ensures Pinned(b2, homes[t])
      {
        assert Pinned(b1, homes[t]) && homes[t] != homes[k];
        var i :| 0 <= i < |b1| && b1[i].dev == ROOTDEV && b1[i].blockno == homes[t] && b1[i].dirty;
        assert b2[i] == b1[i];
      }
    }
  }

  lemma {:induction false} WriteLogReady(b0: seq<Buf>, b1: seq<Buf>, d0: seq<Block>, d1: seq<Block>, r: Region,
                                         homes: seq<int>,
                      news: seq<Block>, k: nat)
    requires Movable(b0, d0, r, homes) && PinnedFrom(b0, homes, 0) && CacheInv(b1, d1)
    requires AreViews(news, b0, d0, homes)
    requires k < |homes| && Settles(b0, b1, []) && d1 == Logged(d0, r, news, k)
    ensures AllFree(b1, r.start + k + 1) && Unlocked(b1, ROOTDEV, homes[k]) && Pinned(b1, homes[k])
    ensures View(b1, d1, homes[k]) == news[k]
    ensures HasFree(b1) <==> HasFree(b0)
  {
    assert homes[..0] == [];
    SettlesMovable(b0, b1, d0, d1, r, homes, 0);
    SettlesPinned(b0, b1, [], homes[k]);
    SettlesFree(b0, b1, []);
    assert InLog(r, r.start + k + 1);
    ViewKept(b0, d0, b1, d1, [], homes[k]);
  }

  lemma {:induction false} InstallReady(b0: seq<Buf>, b1: seq<Buf>, d0: seq<Block>, d1: seq<Block>, r: Region,
                                        homes: seq<int>, k: nat)
    requires Movable(b0, d0, r, homes) && CacheInv(b1, d1)
    requires k < |homes| && Settles(b0, b1, homes[..k]) && d1 == Installed(d0, r, homes, k)
    ensures AllFree(b1, r.start + k + 1) && Unlocked(b1, ROOTDEV, homes[k])
    ensures r.start + k + 1 < |d0| && homes[k] != r.start + k + 1
    ensures Installed(d0, r, homes, k + 1) == d1[homes[k] := d1[r.start + k + 1]]
  {
    SettlesMovable(b0, b1, d0, d1, r, homes, k);
    assert InLog(r, r.start + k + 1);
  }

  lemma {:induction false} SettlesTrans(b0: seq<Buf>, b1: seq<Buf>, b2: seq<Buf>, s1: seq<int>, s2: seq<int>)
    requires Settles(b0, b1, s1) && Settles(b1, b2, s2)
    ensures Settles(b0, b2, s1 + s2)
  {
  }

  /** Between the phases of a commit the pinned blocks stay pinned and movable. */
  lemma {:induction false} LoggedReady(b0: seq<Buf>, b1: seq<Buf>, d0: seq<Block>, d1: seq<Block>, r: Region,
                                       homes: seq<int>)
    requires CacheInv(b1, d1) && |d1| == |d0| && |homes| > 0
    requires exists d :: Movable(b0, d, r, homes) && |d| == |d0|
    requires Distinct(homes) && PinnedFrom(b0, homes, 0) && HasFree(b0) && Settles(b0, b1, [])
    ensures Movable(b1, d1, r, homes) && Movable(b1, d1, r, []) && PinnedFrom(b1, homes, 0) && HasFree(b1)
    ensures RoomToInstall(b1, homes, 0)
  {
    var d :| Movable(b0, d, r, homes) && |d| == |d0|;
    assert homes[..0] == [];
    SettlesMovable(b0, b1, d, d1, r, homes, 0);
    SettlesFree(b0, b1, []);
    forall t | 0 <= t < |homes|
      ensures Pinned(b1, homes[t])
    {
      SettlesPinned(b0, b1, [], homes[t]);
    }
  }

  /** The transaction is durable, and its home blocks are still pinned. */
  ghost predicate AtCommitPoint(b0: seq<Buf>, b2: seq<Buf>, d2: seq<Block>, r: Region, homes: seq<int>) {
    && Settles(b0, b2, [])
    && Movable(b2, d2, r, homes) && HasFree(b2) && RoomToInstall(b2, homes, 0)
    && LogFormed(d2, r) && Count(d2, r) == |homes| && Homes(d2, r) == homes
  }

  lemma {:induction false} CommitPointReached(b0: seq<Buf>, b1: seq<Buf>, b2: seq<Buf>, d0: seq<Block>,
                                              d2: seq<Block>, r: Region, homes: seq<int>)
    requires Movable(b0, d0, r, homes) && Distinct(homes) && PinnedFrom(b0, homes, 0) && HasFree(b0) && |homes| > 0
    requires LogFormed(d0, r) && Count(d0, r) == 0
    requires Settles(b0, b1, []) && Settles(b1, b2, []) && CacheInv(b2, d2)
    requires d2 == Committed(d0, r, homes, Views(b0, d0, homes))
    ensures AtCommitPoint(b0, b2, d2, r, homes)
  {
    SettlesTrans(b0, b1, b2, [], []);
    LoggedReady(b0, b2, d0, d2, r, homes);
  }

  lemma {:induction false} CommitDone(b0: seq<Buf>, b2: seq<Buf>, b4: seq<Buf>, d0: seq<Block>, t0: seq<seq<Block>>,
                                      r: Region, homes: seq<int>)
    requires Settles(b0, b2, []) && Settles(b2, b4, homes)
    requires HomesOk(homes, |d0|, r) && LogFormed(d0, r) && Count(d0, r) == 0
    ensures Settles(b0, b4, homes)
    ensures var news := Views(b0, d0, homes);
            var c := Committed(d0, r, homes, news);
            t0 + LogTrace(d0, r, news, |homes|) + [c] + RecoveryTrace(c, r) == t0 + CommitTrace(d0, r, homes, news)
  {
    CommitTraceParts(t0, d0, r, homes, Views(b0, d0, homes));
    SettlesTrans(b0, b2, b4, [], homes);
    assert [] + homes == homes;
  }

  lemma {:induction false} InstalledReady(b0: seq<Buf>, b1: seq<Buf>, d0: seq<Block>, d1: seq<Block>, r: Region,
                                          homes: seq<int>)
    requires Movable(b0, d0, r, homes) && CacheInv(b1, d1) && |d1| == |d0| && HasFree(b0)
    requires Settles(b0, b1, homes)
    ensures Movable(b1, d1, r, []) && HasFree(b1)
  {
    assert homes[..|homes|] == homes;
    SettlesMovable(b0, b1, d0, d1, r, homes, |homes|);
    SettlesFree(b0, b1, homes);
  }

  lemma {:induction false} AllFreeRoom(b: seq<Buf>)
    requires |b| == NBUF && forall i :: 0 <= i < NBUF ==> Free(b[i])
    ensures HasFree(b) && TwoFree(b)
  {
    assert Free(b[0]) && Free(b[1]);
  }

  /** k of the new contents are in the log: what became of the buffers b0, the
      disk d0 and the trace t0. */
  ghost predicate LogProgress(b0: seq<Buf>, d0: seq<Block>, t0: seq<seq<Block>>, r: Region, news: seq<Block>, k: nat,
                              bufs: seq<Buf>, disk: seq<Block>, trace: seq<seq<Block>>)
    requires k <= |news| < r.size && r.start + r.size <= |d0|
  {
    && Settles(b0, bufs, [])
    && (k == 0 ==> bufs == b0)
    && disk == Logged(d0, r, news, k)
    && trace == t0 + LogTrace(d0, r, news, k)
  }

  /** k blocks are installed. */
  ghost predicate InstallProgress(b0: seq<Buf>, d0: seq<Block>, t0: seq<seq<Block>>, r: Region, homes: seq<int>, k: nat,
                                  bufs: seq<Buf>, disk: seq<Block>, trace: seq<seq<Block>>)
    requires HomesOk(homes, |d0|, r) && r.start + r.size <= |d0| && k <= |homes|
  {
    && Settles(b0, bufs, homes[..k])
    && disk == Installed(d0, r, homes, k)
    && trace == t0 + InstallTrace(d0, r, homes, k)
  }

  lemma {:induction false} LogTraceStep(t0: seq<seq<Block>>, d: seq<Block>, r: Region, news: seq<Block>, k: nat)
    requires k < |news| < r.size && r.start + r.size <= |d|
    ensures t0 + LogTrace(d, r, news, k + 1) == t0 + LogTrace(d, r, news, k) + [Logged(d, r, news, k + 1)]
    ensures Logged(d, r, news, k + 1) == Logged(d, r, news, k)[r.start + k + 1 := news[k]]
  {
  }

  lemma {:induction false} LogProgressStep(b0: seq<Buf>, d0: seq<Block>, t0: seq<seq<Block>>, r: Region,
                                           news: seq<Block>, k: nat,
                        b1: seq<Buf>, b2: seq<Buf>, to: nat)
    requires k < |news| < r.size && r.start + r.size <= |d0|
    requires Settles(b0, b1, []) && to < NBUF && Free(b1[to]) && Changed2(b1, b2, to, to)
    requires b2[to] == Clean(r.start + k + 1, news[k])
    ensures var d2 := Logged(d0, r, news, k)[r.start + k + 1 := news[k]];
            LogProgress(b0, d0, t0, r, news, k + 1, b2, d2, t0 + LogTrace(d0, r, news, k) + [d2])
  {
    LogTraceStep(t0, d0, r, news, k);
    SettlesOne(b0, b1, b2, [], to, r.start + k + 1, news[k]);
  }

  lemma {:induction false} InstallTraceStep(t0: seq<seq<Block>>, d: seq<Block>, r: Region, homes: seq<int>, k: nat)
    requires k < |homes| && HomesOk(homes, |d|, r) && r.start + r.size <= |d|
    ensures t0 + InstallTrace(d, r, homes, k + 1)
         == t0 + InstallTrace(d, r, homes, k) + [Installed(d, r, homes, k + 1)]
  {
  }

  // --- Reservations -------------------------------------------------------------

  /** The blocks that outstanding operations may still add to the transaction;
      spent counts those each has added. */
  function Reserved(spent: seq<nat>): int {
    if spent == [] then 0 else MAXOPBLOCKS - spent[0] + Reserved(spent[1..])
  }

  lemma {:induction false} ReservedAppend(spent: seq<nat>, x: nat)
    ensures Reserved(spent + [x]) == Reserved(spent) + MAXOPBLOCKS - x
  {
    if spent != [] {
      assert (spent + [x])[1..] == spent[1..] + [x];
      ReservedAppend(spent[1..], x);
    }
  }

  lemma {:induction false} ReservedUpdate(spent: seq<nat>, e: nat, x: nat)
    requires e < |spent|
    ensures Reserved(spent[e := x]) == Reserved(spent) + spent[e] - x
  {
    if e > 0 {
      assert spent[e := x][1..] == spent[1..][e - 1 := x];
      ReservedUpdate(spent[1..], e - 1, x);
    }
  }

  lemma {:induction false} ReservedRemove(spent: seq<nat>, e: nat)
    requires e < |spent|
    ensures Reserved(spent[..e] + spent[e + 1..]) == Reserved(spent) - MAXOPBLOCKS + spent[e]
  {
    if e > 0 {
      var rest := spent[..e] + spent[e + 1..];
      assert rest[1..] == spent[1..][..e - 1] + spent[1..][e..];
      ReservedRemove(spent[1..], e - 1);
    } else {
      assert spent[..e] + spent[e + 1..] == spent[1..];
    }
  }

  lemma {:induction false} ReservedBounds(spent: seq<nat>)
    requires forall e :: 0 <= e < |spent| ==> spent[e] <= MAXOPBLOCKS
    ensures 0 <= Reserved(spent) <= |spent| * MAXOPBLOCKS
    ensures forall e :: 0 <= e < |spent| ==> MAXOPBLOCKS - spent[e] <= Reserved(spent)
  {
    if spent != [] {
      ReservedBounds(spent[1..]);
      assert forall e :: 0 < e < |spent| ==> spent[e] == spent[1..][e - 1];
    }
  }

  /** What the log knows between operations, on values. */
  ghost predicate LogInv(bufs: seq<Buf>, disk: seq<Block>, r: Region, homes: seq<int>)
  {
    && |bufs| == NBUF
    && LogFormed(disk, r) && Count(disk, r) == 0
    && HomesOk(homes, |disk|, r) && Distinct(homes)
    && PinnedExactly(bufs, homes)
    && LogClean(bufs, r)
  }

  /** Outside the log, reading any block gives the same contents before and after. */
  ghost predicate SameViews(b0: seq<Buf>, d0: seq<Block>, b1: seq<Buf>, d1: seq<Block>, r: Region) {
    |b0| == |b1| == NBUF && |d0| == |d1| &&
    forall bn :: 0 <= bn < |d0| && !InLog(r, bn) ==> View(b1, d1, bn) == View(b0, d0, bn)
  }

  /** A completed commit: the disk went through CommitTrace, the home blocks hold
      the whole transaction, and every read gives what it gave before. */
  ghost predicate CommitEffect(b0: seq<Buf>, d0: seq<Block>, t0: seq<seq<Block>>, r: Region, homes: seq<int>,
                               b1: seq<Buf>, d1: seq<Block>, t1: seq<seq<Block>>)
    requires |b0| == NBUF && HomesOk(homes, |d0|, r) && LogFormed(d0, r) && Count(d0, r) == 0
  {
    var news := Views(b0, d0, homes);
    && t1 == t0 + CommitTrace(d0, r, homes, news)
    && SameHome(d1, Applied(d0, homes, news), r)
    && SameViews(b0, d0, b1, d1, r)
  }

  lemma {:induction false} LogInvMovable(b0: seq<Buf>, d0: seq<Block>, r: Region, homes: seq<int>)
    requires LogInv(b0, d0, r, homes) && CacheInv(b0, d0) && HomesUnlocked(b0, homes)
    ensures Movable(b0, d0, r, homes) && PinnedFrom(b0, homes, 0)
  {
  }

  /** A commit moves contents from pinned buffers to the disk; no reader can tell. */
  lemma {:induction false} CommitKeepsViews(b0: seq<Buf>, b1: seq<Buf>, d0: seq<Block>, d1: seq<Block>, r: Region,
                                            homes: seq<int>)
    requires CacheInv(b0, d0) && CacheInv(b1, d1) && LogInv(b0, d0, r, homes) && Settles(b0, b1, homes)
    requires d1 == Recovered(Committed(d0, r, homes, Views(b0, d0, homes)), r)
    ensures LogInv(b1, d1, r, []) && SameViews(b0, d0, b1, d1, r)
    ensures SameHome(d1, Applied(d0, homes, Views(b0, d0, homes)), r)
  {
    var news := Views(b0, d0, homes);
    CommittedRecovers(d0, r, homes, news);
    AppliedContents(d0, homes, news);
    forall bn: nat | bn < |d0| && !InLog(r, bn)
      ensures View(b1, d1, bn) == View(b0, d0, bn)
    {
      if bn in homes {
        var t :| 0 <= t < |homes| && homes[t] == bn;
        assert news[t] == View(b0, d0, homes[t]);
      }
      ViewKept(b0, d0, b1, d1, homes, bn);
    }
    forall i | 0 <= i < NBUF
      ensures !b1[i].dirty
      ensures b1[i].dev == ROOTDEV && InLog(r, b1[i].blockno) ==> Free(b1[i])
    {
      assert BufOk(b0[i], d0) && Recorded(b0[i], homes);
    }
  }

  /** Opening, changing or releasing a buffer outside the log keeps what the log knows. */
  lemma {:induction false} LogInvChange(b0: seq<Buf>, b1: seq<Buf>, disk: seq<Block>, r: Region, homes: seq<int>,
                                        b: nat)
    requires LogInv(b0, disk, r, homes) && b < NBUF && Changed2(b0, b1, b, b)
    requires b1[b].dirty == b0[b].dirty
    requires b0[b].dirty ==> b1[b].dev == b0[b].dev && b1[b].blockno == b0[b].blockno
    requires b1[b].dev == ROOTDEV ==> !InLog(r, b1[b].blockno)
    ensures LogInv(b1, disk, r, homes)
  {
    forall i | 0 <= i < |b1|
      ensures Recorded(b1[i], homes)
    {
      assert Recorded(b0[i], homes);
    }
    forall t | 0 <= t < |homes|
      ensures Pinned(b1, homes[t])
    {
      assert Pinned(b0, homes[t]);
      var i :| 0 <= i < |b0| && b0[i].dev == ROOTDEV && b0[i].blockno == homes[t] && b0[i].dirty;
      assert b1[i].dirty && b1[i].dev == ROOTDEV && b1[i].blockno == homes[t];
    }
  }

  /** One buffer came to hold block bn: every other block reads as before. */
  lemma {:induction false} OtherViews(b0: seq<Buf>, b1: seq<Buf>, disk: seq<Block>, b: nat, bn: nat, other: nat)
    requires CacheInv(b0, disk) && CacheInv(b1, disk) && b < NBUF && Changed2(b0, b1, b, b)
    requires Names(b1[b], ROOTDEV, bn) && (Names(b0[b], ROOTDEV, bn) || Free(b0[b]))
    requires other < |disk| && other != bn
    ensures View(b1, disk, other) == View(b0, disk, other)
  {
    var h0, h1 := Holder(b0, other, 0), Holder(b1, other, 0);
    if h0 < NBUF && h0 != b {
      assert !Clash(b1, h1, h0);
    } else {
      forall i | 0 <= i < NBUF
        ensures !Names(b1[i], ROOTDEV, other)
        ensures Names(b0[i], ROOTDEV, other) ==> Free(b0[i])
      {
        if h0 == b {
          assert !Clash(b0, b, i);
        }
      }
      ViewOfUncached(b0, disk, other);
      ViewOfUncached(b1, disk, other);
    }
  }

  lemma {:induction false} UpdateViews(b0: seq<Buf>, b1: seq<Buf>, disk: seq<Block>, b: nat, bn: nat)
    requires CacheInv(b0, disk) && CacheInv(b1, disk) && b < NBUF && Changed2(b0, b1, b, b)
    requires Names(b1[b], ROOTDEV, bn) && (Names(b0[b], ROOTDEV, bn) || Free(b0[b]))
    requires bn < |disk| && b1[b].valid
    ensures View(b1, disk, bn) == b1[b].data
    ensures forall other: nat :: other < |disk| && other != bn ==> View(b1, disk, other) == View(b0, disk, other)
  {
    ViewOfHolder(b1, disk, b);
    forall other: nat | other < |disk| && other != bn
      ensures View(b1, disk, other) == View(b0, disk, other)
    {
      OtherViews(b0, b1, disk, b, bn, other);
    }
  }

  /** A block just read from a clean buffer agrees with the disk. */
  lemma {:induction false} BufReadBack(b0: seq<Buf>, disk: seq<Block>, b: nat, bn: nat)
    requires CacheInv(b0, disk) && b < NBUF && bn < |disk|
    requires Names(b0[b], ROOTDEV, bn) ==> !b0[b].locked
    ensures var o := Opened(b0, disk, b, bn); o.dirty || o.data == disk[bn]
  {
    assert BufOk(b0[b], disk);
  }

  lemma {:induction false} UpdateDone(b0: seq<Buf>, b1: seq<Buf>, b4: seq<Buf>, disk: seq<Block>, b: nat, bn: nat,
                                      data: Block)
    requires CacheInv(b0, disk) && CacheInv(b4, disk) && b < NBUF && bn < |disk|
    requires Changed2(b0, b1, b, b) && (Names(b0[b], ROOTDEV, bn) || Free(b0[b]))
    requires b1[b] == Opened(b0, disk, b, bn).(data := data)
    requires b4 == b1[b := b1[b].(dirty := true)][b := Closed(b1[b].(dirty := true))]
    ensures View(b4, disk, bn) == data
    ensures forall other: nat :: other < |disk| && other != bn ==> View(b4, disk, other) == View(b0, disk, other)
    ensures Quiescent(b0) ==> Quiescent(b4)
  {
    UpdateViews(b0, b4, disk, b, bn);
  }

  /** A block was read through buffer b, which now holds it unchanged. */
  lemma {:induction false} ReadKeepsViews(b0: seq<Buf>, b1: seq<Buf>, disk: seq<Block>, b: nat, bn: nat, r: Region)
    requires CacheInv(b0, disk) && CacheInv(b1, disk) && b < NBUF && Changed2(b0, b1, b, b)
    requires Names(b1[b], ROOTDEV, bn) && (Names(b0[b], ROOTDEV, bn) || Free(b0[b]))
    requires bn < |disk| && b1[b].valid && b1[b].data == View(b0, disk, bn)
    ensures SameViews(b0, disk, b1, disk, r)
  {
    UpdateViews(b0, b1, disk, b, bn);
  }

  // --- When the cache has room for a commit ------------------------------------------

  /** No process uses any buffer. */
  ghost predicate Quiescent(bufs: seq<Buf>) {
    forall i :: 0 <= i < |bufs| ==> bufs[i].refcnt == 0
  }

  ghost function PinOf(bufs: seq<Buf>, bn: int): (i: nat)
    requires Pinned(bufs, bn)
    ensures i < |bufs| && bufs[i].dirty && bufs[i].blockno == bn
  {
    var i :| 0 <= i < |bufs| && bufs[i].dev == ROOTDEV && bufs[i].blockno == bn && bufs[i].dirty;
    i
  }

  ghost function IndexOf(s: seq<int>, x: int): (k: nat)
    requires x in s
    ensures k < |s| && s[k] == x
  {
    var k :| 0 <= k < |s| && s[k] == x;
    k
  }

  /** With no buffer in use, a buffer is free for the commit exactly when fewer
      blocks are logged than there are buffers. */
  lemma {:induction false} RoomToCommit(bufs: seq<Buf>, disk: seq<Block>, r: Region, homes: seq<int>)
    requires CacheInv(bufs, disk) && LogInv(bufs, disk, r, homes) && Quiescent(bufs)
    ensures HasFree(bufs) <==> |homes| < NBUF
  {
    var pins := seq(|homes|, t requires 0 <= t < |homes| => PinOf(bufs, homes[t]));
    Pigeonhole(pins, NBUF);
    if |homes| == NBUF {
      forall i: nat | i < NBUF
        ensures !Free(bufs[i])
      {
        assert i in pins;
      }
    }
    if !HasFree(bufs) {
      forall i | 0 <= i < NBUF
        ensures bufs[i].dirty && bufs[i].blockno in homes
      {
        assert !Free(bufs[i]) && Recorded(bufs[i], homes);
      }
      var slots := seq(NBUF, i requires 0 <= i < NBUF => IndexOf(homes, bufs[i].blockno));
      forall i, j | 0 <= i < j < NBUF
        ensures slots[i] != slots[j]
      {
        assert !Clash(bufs, i, j);
        assert BufOk(bufs[i], disk) && BufOk(bufs[j], disk);
      }
      Pigeonhole(slots, |homes|);
    }
  }

  lemma {:induction false} HomesAreBlocks(d: seq<Block>, r: Region)
    requires LogFormed(d, r)
    ensures forall i :: 1 <= i <= Count(d, r) ==> d[r.start][i] >= 0
  {
    forall i | 1 <= i <= Count(d, r)
      ensures d[r.start][i] >= 0
    {
      assert Homes(d, r)[i - 1] == d[r.start][i];
    }
  }

  class Log {
    const bc: Bcache
    const start: nat
    const size: nat
    var outstanding: int
    var committing: bool
    var n: nat
    const block: array<nat>
    /** The logged block numbers: the first n entries of block. */
    ghost var homes: seq<nat>
    /** For each outstanding operation, the blocks it has added to the transaction. */
    ghost var spent: seq<nat>

    ghost function Where(): Region { Region(start, size) }

    ghost predicate Separate()
      reads this, bc, bc.buf, bc.next, bc.prev, block
    {
      bc.Valid() && block.Length == LOGSIZE && n <= LOGSIZE && homes == block[..n]
      && block != bc.next && block != bc.prev
    }

    ghost predicate Valid()
      reads this, bc, bc.buf, bc.next, bc.prev, block
    {
      && Separate()
      && LogInv(bc.bufs, bc.memdisk, Where(), homes)
      && !committing
      && outstanding == |spent|
      && (forall e :: 0 <= e < |spent| ==> spent[e] <= MAXOPBLOCKS)
      && n + Reserved(spent) <= LOGSIZE
    }

    /** initlog on a freshly booted cache: recovery runs before anything else. */
    constructor (bc: Bcache, start: nat, size: nat)
      requires bc.Valid() && LogFormed(bc.memdisk, Region(start, size))
      requires forall i :: 0 <= i < NBUF ==> Free(bc.bufs[i])
      modifies bc, bc.buf, bc.next, bc.prev
      ensures Valid() && this.bc == bc && Where() == Region(start, size)
      ensures n == 0 && outstanding == 0
      ensures bc.memdisk == Recovered(old(bc.memdisk), Where())
      ensures bc.trace == old(bc.trace) + RecoveryTrace(old(bc.memdisk), Where())
    {
      this.bc, this.start, this.size := bc, start, size;
      outstanding, committing, n, homes, spent := 0, false, 0, [], [];
      block := new nat[LOGSIZE](_ => 0);
      new;
      RecoverFromLog();
    }

    // --- Moving blocks between cache, log and home ----------------------------------

    /** Both loop bodies end so: copy one locked buffer over another, write
        that through to the disk, release both. */
    method CopyAndRelease(dst: nat, src: nat)
      requires bc.Valid() && dst < NBUF && src < NBUF && dst != src
      requires bc.bufs[dst].locked && bc.bufs[dst].valid && bc.bufs[src].locked && bc.bufs[src].valid
      requires bc.bufs[src].dirty || bc.bufs[src].data == bc.memdisk[bc.bufs[src].blockno]
      modifies bc, bc.buf, bc.next, bc.prev
      ensures bc.Valid()
      ensures Changed2(old(bc.bufs), bc.bufs, dst, src)
      ensures bc.bufs[dst] == Closed(old(bc.bufs)[dst].(dirty := false, data := old(bc.bufs)[src].data))
      ensures bc.bufs[src] == Closed(old(bc.bufs)[src])
      ensures bc.memdisk == old(bc.memdisk)[old(bc.bufs)[dst].blockno := old(bc.bufs)[src].data]
      ensures bc.trace == old(bc.trace) + [bc.memdisk]
    {
      CopyAndWrite(dst, src);
      bc.Brelse(src);
      bc.Brelse(dst);
    }

    method CopyAndWrite(dst: nat, src: nat)
      requires bc.Valid() && dst < NBUF && src < NBUF && dst != src
      requires bc.bufs[dst].locked && bc.bufs[dst].valid && bc.bufs[src].locked && bc.bufs[src].valid
      requires bc.bufs[src].dirty || bc.bufs[src].data == bc.memdisk[bc.bufs[src].blockno]
      modifies bc, bc.buf
      ensures bc.Valid()
      ensures bc.bufs == old(bc.bufs)[dst := old(bc.bufs)[dst].(dirty := false, data := old(bc.bufs)[src].data)]
      ensures bc.memdisk == old(bc.memdisk)[old(bc.bufs)[dst].blockno := old(bc.bufs)[src].data]
      ensures bc.trace == old(bc.trace) + [bc.memdisk]
      ensures bc.bufs[src].dirty || bc.bufs[src].data == bc.memdisk[bc.bufs[src].blockno]
    {
      assert !Clash(bc.bufs, src, dst);
      bc.SetData(dst, bc.buf[src].data);
      bc.Bwrite(dst);
    }

    /** Opens a log block, then a pinned block.  It fails, where the kernel
        panics, exactly when no buffer is free. */
    method OpenToLog(logbn: nat, home: nat) returns (to: nat, from: nat, ok: bool)
      requires bc.Valid() && logbn < |bc.memdisk| && home < |bc.memdisk| && logbn != home
      requires AllFree(bc.bufs, logbn) && Unlocked(bc.bufs, ROOTDEV, home) && Pinned(bc.bufs, home)
      modifies bc, bc.buf
      ensures bc.Valid() && bc.memdisk == old(bc.memdisk) && bc.trace == old(bc.trace)
      ensures ok <==> HasFree(old(bc.bufs))
      ensures !ok ==> bc.bufs == old(bc.bufs)
      ensures ok ==> to < NBUF && from < NBUF && to != from && Free(old(bc.bufs)[to])
      ensures ok ==> !old(bc.bufs)[from].locked && old(bc.bufs)[from].dirty && old(bc.bufs)[from].valid
      ensures ok ==> old(bc.bufs)[from].data == View(old(bc.bufs), bc.memdisk, home)
      ensures ok ==> Changed2(old(bc.bufs), bc.bufs, to, from)
      ensures ok ==> bc.bufs[to] == Held(logbn, bc.memdisk[logbn])
      ensures ok ==> bc.bufs[from] == old(bc.bufs)[from].(locked := true, refcnt := old(bc.bufs)[from].refcnt + 1)
    {
      ghost var b0 := bc.bufs;
      to, ok := bc.Bread(ROOTDEV, logbn);
      if !ok {
        from := to;
        return;
      }
      ViewOfUncached(b0, bc.memdisk, logbn);
      ghost var b1 := bc.bufs;
      assert b1[to] == Held(logbn, bc.memdisk[logbn]);
      ghost var p := PinnedStays(b0, b1, bc.memdisk, to, home);
      var ok2;
      from, ok2 := bc.Bread(ROOTDEV, home);
    }

    /** The body of write_log's loop: a log block gets a pinned block's contents. */
    method CopyToLog(logbn: nat, home: nat) returns (to: nat, ok: bool)
      requires bc.Valid() && logbn < |bc.memdisk| && home < |bc.memdisk| && logbn != home
      requires AllFree(bc.bufs, logbn) && Unlocked(bc.bufs, ROOTDEV, home) && Pinned(bc.bufs, home)
      modifies bc, bc.buf, bc.next, bc.prev
      ensures bc.Valid()
      ensures ok <==> HasFree(old(bc.bufs))
      ensures !ok ==> bc.bufs == old(bc.bufs) && bc.memdisk == old(bc.memdisk) && bc.trace == old(bc.trace)
      ensures ok ==> to < NBUF && Free(old(bc.bufs)[to])
      ensures ok ==>
                var data := View(old(bc.bufs), old(bc.memdisk), home);
                && Changed2(old(bc.bufs), bc.bufs, to, to) && bc.bufs[to] == Clean(logbn, data)
                && bc.memdisk == old(bc.memdisk)[logbn := data]
                && bc.trace == old(bc.trace) + [bc.memdisk]
    {
      var from;
      to, from, ok := OpenToLog(logbn, home);
      if ok {
        CopyAndRelease(to, from);
      }
    }

    /** Opens a log block, then the home block it is to be copied to. */
    method OpenToInstall(logbn: nat, home: nat) returns (lbuf: nat, dbuf: nat)
      requires bc.Valid() && logbn < |bc.memdisk| && home < |bc.memdisk| && logbn != home
      requires AllFree(bc.bufs, logbn) && Unlocked(bc.bufs, ROOTDEV, home)
      requires TwoFree(bc.bufs) || (HasFree(bc.bufs) && Pinned(bc.bufs, home))
      modifies bc, bc.buf
      ensures bc.Valid() && bc.memdisk == old(bc.memdisk) && bc.trace == old(bc.trace)
      ensures lbuf < NBUF && dbuf < NBUF && lbuf != dbuf && Free(old(bc.bufs)[lbuf])
      ensures Names(old(bc.bufs)[dbuf], ROOTDEV, home) || (Free(old(bc.bufs)[dbuf]) && AllFree(old(bc.bufs), home))
      ensures var o := old(bc.bufs)[dbuf];
              bc.bufs[dbuf] == if Names(o, ROOTDEV, home)
                then o.(valid := true, locked := true, refcnt := o.refcnt + 1, data := bc.bufs[dbuf].data)
                else Held(home, bc.bufs[dbuf].data)
      ensures Changed2(old(bc.bufs), bc.bufs, lbuf, dbuf) && bc.bufs[lbuf] == Held(logbn, bc.memdisk[logbn])
    {
      ghost var b0 := bc.bufs;
      var ok, ok2;
      lbuf, ok := bc.Bread(ROOTDEV, logbn);
      ViewOfUncached(b0, bc.memdisk, logbn);
      ghost var b1 := bc.bufs;
      SecondBuffer(b0, b1, lbuf, home);
      dbuf, ok2 := bc.Bread(ROOTDEV, home);
      if !Names(b1[dbuf], ROOTDEV, home) {
        AllFreeBefore(b0, b1, lbuf, home);
      }
    }

    /** The body of install_trans's loop: a block goes from the log to its home. */
    method InstallOne(logbn: nat, home: nat) returns (lbuf: nat, dbuf: nat)
      requires bc.Valid() && logbn < |bc.memdisk| && home < |bc.memdisk| && logbn != home
      requires AllFree(bc.bufs, logbn) && Unlocked(bc.bufs, ROOTDEV, home)
      requires TwoFree(bc.bufs) || (HasFree(bc.bufs) && Pinned(bc.bufs, home))
      modifies bc, bc.buf, bc.next, bc.prev
      ensures bc.Valid() && lbuf < NBUF && dbuf < NBUF && lbuf != dbuf && Free(old(bc.bufs)[lbuf])
      ensures Names(old(bc.bufs)[dbuf], ROOTDEV, home)
           || (Free(old(bc.bufs)[dbuf]) && AllFree(old(bc.bufs), home))
      ensures var data := old(bc.memdisk)[logbn];
              && Changed2(old(bc.bufs), bc.bufs, lbuf, dbuf)
              && bc.bufs[lbuf] == Clean(logbn, data)
              && bc.bufs[dbuf] == (if Names(old(bc.bufs)[dbuf], ROOTDEV, home)
                                   then Clean(home, data).(refcnt := old(bc.bufs)[dbuf].refcnt) else Clean(home, data))
              && bc.memdisk == old(bc.memdisk)[home := data]
              && bc.trace == old(bc.trace) + [bc.memdisk]
    {
      lbuf, dbuf := OpenToInstall(logbn, home);
      CopyAndRelease(dbuf, lbuf);
    }

    /** Writes the in-memory header over the header block on disk. */
    method WriteHead()
      requires Separate() && HasFree(bc.bufs) && Movable(bc.bufs, bc.memdisk, Where(), [])
      modifies bc, bc.buf, bc.next, bc.prev
      ensures Separate() && Settles(old(bc.bufs), bc.bufs, [])
      ensures bc.memdisk == old(bc.memdisk)[start := Header(old(bc.memdisk)[start], homes)]
      ensures bc.trace == old(bc.trace) + [bc.memdisk]
    {
      assert InLog(Where(), start);
      var b := OpenHeader();
      var hb := FilledHeader(bc.buf[b].data);
      WriteAndRelease(b, hb);
    }

    method OpenHeader() returns (b: nat)
      requires bc.Valid() && start < |bc.memdisk| && HasFree(bc.bufs) && AllFree(bc.bufs, start)
      modifies bc, bc.buf
      ensures bc.Valid() && bc.memdisk == old(bc.memdisk) && bc.trace == old(bc.trace)
      ensures b < NBUF && Free(old(bc.bufs)[b]) && Changed2(old(bc.bufs), bc.bufs, b, b)
      ensures bc.bufs[b] == Held(start, bc.memdisk[start])
    {
      ViewOfUncached(bc.bufs, bc.memdisk, start);
      var ok;
      b, ok := bc.Bread(ROOTDEV, start);
    }

    method WriteAndRelease(b: nat, data: Block)
      requires bc.Valid() && b < NBUF && bc.bufs[b].locked && bc.bufs[b].valid
      modifies bc, bc.buf, bc.next, bc.prev
      ensures bc.Valid() && Changed2(old(bc.bufs), bc.bufs, b, b)
      ensures bc.bufs[b] == Closed(old(bc.bufs)[b].(dirty := false, data := data))
      ensures bc.memdisk == old(bc.memdisk)[old(bc.bufs)[b].blockno := data]
      ensures bc.trace == old(bc.trace) + [bc.memdisk]
    {
      bc.SetData(b, data);
      bc.Bwrite(b);
      bc.Brelse(b);
    }

    method FilledHeader(was: Block) returns (hb: Block)
      requires block.Length == LOGSIZE && n <= LOGSIZE && homes == block[..n]
      ensures hb == Header(was, homes)
    {
      hb := was[0 := n];
      var i := 0;
      while i < n
        invariant 0 <= i <= n
        invariant hb == [n] + block[..i] + was[1 + i..]
      {
        hb := hb[1 + i := block[i]];
        i := i + 1;
      }
    }

    /** Copies the pinned blocks from the cache to the log.  Before the first
        write it fails, where the kernel panics, exactly when no buffer is free. */
    method WriteLog(ghost news: seq<Block>) returns (ok: bool)
      requires Separate() && Movable(bc.bufs, bc.memdisk, Where(), homes)
      requires AreViews(news, bc.bufs, bc.memdisk, homes)
      requires PinnedFrom(bc.bufs, homes, 0)
      modifies bc, bc.buf, bc.next, bc.prev
      ensures Separate() && ok == (n == 0 || HasFree(old(bc.bufs)))
      ensures !ok ==> bc.bufs == old(bc.bufs) && bc.memdisk == old(bc.memdisk) && bc.trace == old(bc.trace)
      ensures ok ==> LogProgress(old(bc.bufs), old(bc.memdisk), old(bc.trace), Where(), news, n,
                                 bc.bufs, bc.memdisk, bc.trace)
    {
      ghost var b0, d0, t0 := bc.bufs, bc.memdisk, bc.trace;
      SettlesRefl(b0);
      assert t0 == t0 + [];
      ok := true;
      var tail := 0;
      while tail < n
        invariant 0 <= tail <= n && ok && (tail > 0 ==> HasFree(b0))
        invariant Separate()
        invariant LogProgress(b0, d0, t0, Where(), news, tail, bc.bufs, bc.memdisk, bc.trace)
      {
        ok := WriteLogBody(tail, b0, d0, t0, news);
        if !ok {
          assert tail == 0 && bc.trace == t0 + [];
          return;
        }
        tail := tail + 1;
      }
    }

    method WriteLogBody(tail: nat, ghost b0: seq<Buf>, ghost d0: seq<Block>, ghost t0: seq<seq<Block>>,
                        ghost news: seq<Block>) returns (ok: bool)
      requires Separate() && tail < n
      requires Movable(b0, d0, Where(), homes) && PinnedFrom(b0, homes, 0)
      requires AreViews(news, b0, d0, homes)
      requires LogProgress(b0, d0, t0, Where(), news, tail, bc.bufs, bc.memdisk, bc.trace)
      modifies bc, bc.buf, bc.next, bc.prev
      ensures Separate() && ok == HasFree(b0)
      ensures !ok ==> bc.bufs == old(bc.bufs) && bc.memdisk == old(bc.memdisk) && bc.trace == old(bc.trace)
      ensures ok ==> LogProgress(b0, d0, t0, Where(), news, tail + 1, bc.bufs, bc.memdisk, bc.trace)
    {
      hide PinnedFrom, Settles, AllFree, Unlocked, CacheInv, LogClean, HomesUnlocked, Linked, Permutation;
      ghost var b1 := bc.bufs;
      WriteLogReady(b0, b1, d0, bc.memdisk, Where(), homes, news, tail);
      assert homes[tail] == block[tail];
      var to;
      to, ok := CopyToLog(start + tail + 1, block[tail]);
      if ok {
        LogProgressStep(b0, d0, t0, Where(), news, tail, b1, bc.bufs, to);
      }
    }

    /** Copies every logged block from the log to its home and frees its buffer. */
    method InstallTrans()
      requires Separate() && Movable(bc.bufs, bc.memdisk, Where(), homes)
      requires RoomToInstall(bc.bufs, homes, 0)
      modifies bc, bc.buf, bc.next, bc.prev
      ensures Separate()
      ensures InstallProgress(old(bc.bufs), old(bc.memdisk), old(bc.trace), Where(), homes, n,
                              bc.bufs, bc.memdisk, bc.trace)
    {
      ghost var b0, d0, t0 := bc.bufs, bc.memdisk, bc.trace;
      SettlesRefl(b0);
      assert t0 == t0 + [];
      var tail := 0;
      while tail < n
        invariant 0 <= tail <= n
        invariant Separate()
        invariant InstallProgress(b0, d0, t0, Where(), homes, tail, bc.bufs, bc.memdisk, bc.trace)
        invariant RoomToInstall(bc.bufs, homes, tail)
      {
        InstallBody(tail, b0, d0, t0);
        tail := tail + 1;
      }
    }

    method InstallBody(tail: nat, ghost b0: seq<Buf>, ghost d0: seq<Block>, ghost t0: seq<seq<Block>>)
      requires Separate() && tail < n
      requires Movable(b0, d0, Where(), homes)
      requires InstallProgress(b0, d0, t0, Where(), homes, tail, bc.bufs, bc.memdisk, bc.trace)
      requires RoomToInstall(bc.bufs, homes, tail)
      modifies bc, bc.buf, bc.next, bc.prev
      ensures Separate() && RoomToInstall(bc.bufs, homes, tail + 1)
      ensures InstallProgress(b0, d0, t0, Where(), homes, tail + 1, bc.bufs, bc.memdisk, bc.trace)
    {
      ghost var b1, d1 := bc.bufs, bc.memdisk;
      InstallReady(b0, b1, d0, d1, Where(), homes, tail);
      assert homes[tail] == block[tail];
      var lbuf, dbuf := InstallOne(start + tail + 1, block[tail]);
      SettlesHome(b0, b1, bc.bufs, homes, tail, d1, lbuf, dbuf);
      RoomStays(b1, bc.bufs, homes, tail, lbuf, dbuf);
      InstallTraceStep(t0, d0, Where(), homes, tail);
    }

    /** Commits the transaction.  The disk goes through exactly the contents of
        CommitTrace.  It fails, where the kernel panics, exactly when there is
        something to commit and no buffer is free; nothing was written then. */
    method Commit() returns (ok: bool)
      requires Separate() && Movable(bc.bufs, bc.memdisk, Where(), homes)
      requires Distinct(homes) && PinnedFrom(bc.bufs, homes, 0)
      requires LogFormed(bc.memdisk, Where()) && Count(bc.memdisk, Where()) == 0
      modifies this`n, this`homes, bc, bc.buf, bc.next, bc.prev
      ensures Separate() && ok == (old(n) == 0 || HasFree(old(bc.bufs)))
      ensures !ok || old(n) == 0 ==> n == old(n) && bc.bufs == old(bc.bufs)
                                     && bc.memdisk == old(bc.memdisk) && bc.trace == old(bc.trace)
      ensures ok && old(n) > 0 ==>
                var news := Views(old(bc.bufs), old(bc.memdisk), old(homes));
                && n == 0
                && Settles(old(bc.bufs), bc.bufs, old(homes))
                && bc.memdisk == Recovered(Committed(old(bc.memdisk), Where(), old(homes), news), Where())
                && bc.trace == old(bc.trace) + CommitTrace(old(bc.memdisk), Where(), old(homes), news)
    {
      ok := true;
      if n > 0 {
        ok := CommitLogged();
      }
    }

    method CommitLogged() returns (ok: bool)
      requires Separate() && n > 0 && Movable(bc.bufs, bc.memdisk, Where(), homes)
      requires Distinct(homes) && PinnedFrom(bc.bufs, homes, 0)
      requires LogFormed(bc.memdisk, Where()) && Count(bc.memdisk, Where()) == 0
      modifies this`n, this`homes, bc, bc.buf, bc.next, bc.prev
      ensures Separate() && ok == HasFree(old(bc.bufs))
      ensures !ok ==> n == old(n) && bc.bufs == old(bc.bufs)
                      && bc.memdisk == old(bc.memdisk) && bc.trace == old(bc.trace)
      ensures ok ==>
                var news := Views(old(bc.bufs), old(bc.memdisk), old(homes));
                && n == 0
                && Settles(old(bc.bufs), bc.bufs, old(homes))
                && bc.memdisk == Recovered(Committed(old(bc.memdisk), Where(), old(homes), news), Where())
                && bc.trace == old(bc.trace) + CommitTrace(old(bc.memdisk), Where(), old(homes), news)
    {
      ghost var b0, d0, t0, logged := bc.bufs, bc.memdisk, bc.trace, homes;
      ok := CommitPoint();
      if ok {
        ghost var b2 := bc.bufs;
        InstallAndClear();
        CommitDone(b0, b2, bc.bufs, d0, t0, Where(), logged);
      }
    }

    /** write_log and write_head: the transaction is on disk, still away from home. */
    method CommitPoint() returns (ok: bool)
      requires Separate() && n > 0 && Movable(bc.bufs, bc.memdisk, Where(), homes)
      requires Distinct(homes) && PinnedFrom(bc.bufs, homes, 0)
      requires LogFormed(bc.memdisk, Where()) && Count(bc.memdisk, Where()) == 0
      modifies bc, bc.buf, bc.next, bc.prev
      ensures Separate() && ok == HasFree(old(bc.bufs))
      ensures !ok ==> bc.bufs == old(bc.bufs) && bc.memdisk == old(bc.memdisk) && bc.trace == old(bc.trace)
      ensures ok ==>
                var news := Views(old(bc.bufs), old(bc.memdisk), homes);
                && AtCommitPoint(old(bc.bufs), bc.bufs, bc.memdisk, Where(), homes)
                && bc.memdisk == Committed(old(bc.memdisk), Where(), homes, news)
                && bc.trace == old(bc.trace) + LogTrace(old(bc.memdisk), Where(), news, n) + [bc.memdisk]
    {
      ghost var b0, d0, r := bc.bufs, bc.memdisk, Where();
      ok := WriteLog(Views(b0, d0, homes));
      if ok {
        ghost var b1 := bc.bufs;
        LoggedReady(b0, b1, d0, bc.memdisk, r, homes);
        WriteHead();
        CommitPointReached(b0, b1, bc.bufs, d0, bc.memdisk, r, homes);
      }
    }

    /** What commit and recovery end with: install_trans, then an empty header. */
    method InstallAndClear()
      requires Separate() && Movable(bc.bufs, bc.memdisk, Where(), homes)
      requires LogFormed(bc.memdisk, Where()) && Count(bc.memdisk, Where()) == n && Homes(bc.memdisk, Where()) == homes
      requires HasFree(bc.bufs) && RoomToInstall(bc.bufs, homes, 0)
      modifies this`n, this`homes, bc, bc.buf, bc.next, bc.prev
      ensures Separate() && n == 0 && Settles(old(bc.bufs), bc.bufs, old(homes))
      ensures bc.memdisk == Recovered(old(bc.memdisk), Where())
      ensures bc.trace == old(bc.trace) + RecoveryTrace(old(bc.memdisk), Where())
    {
      ghost var b2, d2, installed := bc.bufs, bc.memdisk, homes;
      InstallTrans();
      ghost var b3 := bc.bufs;
      assert installed[..n] == installed;
      InstalledReady(b2, b3, d2, bc.memdisk, Where(), installed);
      n, homes := 0, [];
      WriteHead();
      SettlesTrans(b2, b3, bc.bufs, installed, []);
      assert installed + [] == installed;
    }

    /** Reads the header block from disk into the in-memory header. */
    method ReadHead()
      requires Separate() && HasFree(bc.bufs) && Movable(bc.bufs, bc.memdisk, Where(), [])
      requires LogFormed(bc.memdisk, Where())
      modifies this`n, this`homes, block, bc, bc.buf, bc.next, bc.prev
      ensures Separate() && Settles(old(bc.bufs), bc.bufs, [])
      ensures bc.memdisk == old(bc.memdisk) && bc.trace == old(bc.trace)
      ensures n == Count(bc.memdisk, Where()) && homes == Homes(bc.memdisk, Where())
    {
      ghost var b0 := bc.bufs;
      assert InLog(Where(), start);
      var b := OpenHeader();
      HomesAreBlocks(bc.memdisk, Where());
      LoadHeader(bc.buf[b].data);
      bc.Brelse(b);
      SettlesRefl(b0);
      SettlesOne(b0, b0, bc.bufs, [], b, start, bc.memdisk[start]);
    }

    method LoadHeader(lh: Block)
      requires block.Length == LOGSIZE && 0 <= lh[0] <= LOGSIZE
      requires forall i :: 1 <= i <= lh[0] ==> lh[i] >= 0
      modifies this`n, this`homes, block
      ensures n == lh[0] && homes == block[..n] == lh[1..1 + n]
    {
      n := lh[0];
      var i := 0;
      while i < n
        invariant 0 <= i <= n && n == lh[0]
        invariant forall j :: 0 <= j < i ==> block[j] == lh[j + 1]
      {
        block[i] := lh[i + 1];
        i := i + 1;
      }
      homes := block[..n];
    }

    /** Installs whatever the header on disk names, then clears the header. */
    method RecoverFromLog()
      requires Separate() && LogFormed(bc.memdisk, Where())
      requires forall i :: 0 <= i < NBUF ==> Free(bc.bufs[i])
      modifies this`n, this`homes, block, bc, bc.buf, bc.next, bc.prev
      ensures Separate() && n == 0
      ensures forall i :: 0 <= i < NBUF ==> Free(bc.bufs[i])
      ensures bc.memdisk == Recovered(old(bc.memdisk), Where())
      ensures bc.trace == old(bc.trace) + RecoveryTrace(old(bc.memdisk), Where())
    {
      AllFreeRoom(bc.bufs);
      ReadHead();
      AllFreeRoom(bc.bufs);
      InstallAndClear();
    }

    // --- end_op -----------------------------------------------------------------------

    /** Operation e ends; the last one out commits.  It fails, where the kernel
        panics, exactly when it would commit and no buffer is free. */
    method EndOp(ghost e: nat) returns (ok: bool)
      requires Valid() && e < |spent|
      requires HomesUnlocked(bc.bufs, homes)
      modifies this`n, this`homes, this`outstanding, this`committing, this`spent, bc, bc.buf, bc.next, bc.prev
      ensures ok == (old(outstanding) > 1 || old(n) == 0 || HasFree(old(bc.bufs)))
      ensures spent == old(spent)[..e] + old(spent)[e + 1..]
      ensures ok ==> Valid()
      ensures old(outstanding) > 1 || old(n) == 0 || !ok ==>
                n == old(n) && bc.bufs == old(bc.bufs) && bc.memdisk == old(bc.memdisk) && bc.trace == old(bc.trace)
      ensures ok && old(outstanding) == 1 && old(n) > 0 ==>
                n == 0 && CommitEffect(old(bc.bufs), old(bc.memdisk), old(bc.trace), Where(), old(homes),
                                       bc.bufs, bc.memdisk, bc.trace)
    {
      hide LogInv, CommitEffect, HomesUnlocked, HasFree, CacheInv, Linked, Permutation;
      LeaveOp(e);
      ok := true;
      if outstanding == 0 {
        assert spent == [] && Reserved(spent) == 0;
        committing := true;
        ok := GroupCommit();
        committing := false;
      }
    }

    method LeaveOp(ghost e: nat)
      requires Valid() && e < |spent|
      modifies this`outstanding, this`spent
      ensures Valid() && outstanding == old(outstanding) - 1
      ensures spent == old(spent)[..e] + old(spent)[e + 1..]
    {
      ReservedRemove(spent, e);
      ReservedBounds(spent);
      outstanding := outstanding - 1;
      spent := spent[..e] + spent[e + 1..];
    }

    method GroupCommit() returns (ok: bool)
      requires Separate() && LogInv(bc.bufs, bc.memdisk, Where(), homes)
      requires HomesUnlocked(bc.bufs, homes)
      modifies this`n, this`homes, bc, bc.buf, bc.next, bc.prev
      ensures Separate() && ok == (old(n) == 0 || HasFree(old(bc.bufs)))
      ensures ok ==> n == 0 && homes == [] && LogInv(bc.bufs, bc.memdisk, Where(), homes)
      ensures !ok || old(n) == 0 ==>
                n == old(n) && bc.bufs == old(bc.bufs) && bc.memdisk == old(bc.memdisk) && bc.trace == old(bc.trace)
      ensures ok && old(n) > 0 ==>
                CommitEffect(old(bc.bufs), old(bc.memdisk), old(bc.trace), Where(), old(homes),
                             bc.bufs, bc.memdisk, bc.trace)
    {
      ghost var b0, d0, logged := bc.bufs, bc.memdisk, homes;
      LogInvMovable(b0, d0, Where(), logged);
      ok := Commit();
      if ok && logged != [] {
        CommitKeepsViews(b0, bc.bufs, d0, bc.memdisk, Where(), logged);
      }
    }

    // --- A file-system operation's use of blocks ---------------------------------------

    /** bread, brelse: what a reader sees, also between any two turns of a commit. */
    method ReadBlock(bn: nat) returns (data: Block, ok: bool)
      requires Separate() && bn < |bc.memdisk| && !InLog(Where(), bn)
      requires Unlocked(bc.bufs, ROOTDEV, bn)
      modifies bc, bc.buf, bc.next, bc.prev
      ensures Separate() && (old(Valid()) ==> Valid())
      ensures bc.memdisk == old(bc.memdisk) && bc.trace == old(bc.trace)
      ensures ok <==> HasFree(old(bc.bufs)) || !Absent(old(bc.bufs), ROOTDEV, bn)
      ensures ok ==> data == View(old(bc.bufs), bc.memdisk, bn)
      ensures ok ==> SameViews(old(bc.bufs), bc.memdisk, bc.bufs, bc.memdisk, Where())
    {
      ghost var b0, d0, r := bc.bufs, bc.memdisk, Where();
      data := seq(BWORDS, _ => 0);
      var b;
      b, ok := bc.Bread(ROOTDEV, bn);
      if ok {
        ghost var b1 := bc.bufs;
        data := bc.buf[b].data;
        BufReadBack(b0, d0, b, bn);
        bc.Brelse(b);
        if LogInv(b0, d0, r, homes) {
          LogInvChange(b0, bc.bufs, d0, r, homes, b);
        }
        ReadKeepsViews(b0, bc.bufs, d0, b, bn, r);
      }
    }

    /** bread, change, log_write, brelse within operation e: from now on readers
        see the new contents, and nothing is on disk yet.  A panic is reported as
        failure. */
    method UpdateBlock(bn: nat, data: Block, ghost e: nat) returns (ok: bool)
      requires Valid() && bn < |bc.memdisk| && !InLog(Where(), bn)
      requires Unlocked(bc.bufs, ROOTDEV, bn)
      requires e < |spent| && (bn !in homes ==> spent[e] < MAXOPBLOCKS)
      modifies this`n, this`homes, this`spent, block, bc, bc.buf, bc.next, bc.prev
      ensures bc.memdisk == old(bc.memdisk) && bc.trace == old(bc.trace)
      ensures ok <==> (HasFree(old(bc.bufs)) || !Absent(old(bc.bufs), ROOTDEV, bn))
                      && old(n) < LOGSIZE && old(n) < size - 1
      ensures ok ==> Valid() && View(bc.bufs, bc.memdisk, bn) == data
      ensures ok ==> forall other: nat :: other < |bc.memdisk| && other != bn ==>
                View(bc.bufs, bc.memdisk, other) == View(old(bc.bufs), bc.memdisk, other)
      ensures ok ==>
                if bn in old(homes) then homes == old(homes) && spent == old(spent)
                else homes == old(homes) + [bn] && spent == old(spent)[e := old(spent)[e] + 1]
      ensures ok && Quiescent(old(bc.bufs)) ==> Quiescent(bc.bufs)
    {
      hide LogInv, HasFree, Absent, View, CacheInv, Linked, Permutation, Unlocked, Quiescent;
      ghost var b0 := bc.bufs;
      var b;
      b, ok := OpenAndSet(bn, data);
      if ok {
        ghost var b1 := bc.bufs;
        ok := LogWrite(b, e);
        if ok {
          Release(b);
          UpdateDone(b0, b1, bc.bufs, bc.memdisk, b, bn, data);
        }
      }
    }

    method Release(b: nat)
      requires Valid() && b < NBUF && bc.bufs[b].locked && bc.bufs[b].dirty
      requires !InLog(Where(), bc.bufs[b].blockno)
      modifies bc, bc.buf, bc.next, bc.prev
      ensures Valid() && bc.memdisk == old(bc.memdisk) && bc.trace == old(bc.trace)
      ensures bc.bufs == old(bc.bufs)[b := Closed(old(bc.bufs)[b])]
    {
      ghost var b3 := bc.bufs;
      bc.Brelse(b);
      LogInvChange(b3, bc.bufs, bc.memdisk, Where(), homes, b);
    }

    method OpenAndSet(bn: nat, data: Block) returns (b: nat, ok: bool)
      requires Valid() && bn < |bc.memdisk| && !InLog(Where(), bn)
      requires Unlocked(bc.bufs, ROOTDEV, bn)
      modifies bc, bc.buf
      ensures Valid() && bc.memdisk == old(bc.memdisk) && bc.trace == old(bc.trace)
      ensures ok <==> HasFree(old(bc.bufs)) || !Absent(old(bc.bufs), ROOTDEV, bn)
      ensures ok ==> b < NBUF && Changed2(old(bc.bufs), bc.bufs, b, b)
      ensures ok ==> Names(old(bc.bufs)[b], ROOTDEV, bn) || Free(old(bc.bufs)[b])
      ensures ok ==> bc.bufs[b] == Opened(old(bc.bufs), bc.memdisk, b, bn).(data := data)
    {
      ghost var b0 := bc.bufs;
      b, ok := bc.Bread(ROOTDEV, bn);
      if ok {
        bc.SetData(b, data);
        LogInvChange(b0, bc.bufs, bc.memdisk, Where(), homes, b);
      }
    }

    // --- begin_op -----------------------------------------------------------------

    /** One pass of begin_op's loop: the operation is admitted, or sleeps until
        the next wakeup and tries again. */
    method BeginOp() returns (admitted: bool)
      requires committing || Valid()
      modifies this`outstanding, this`spent
      ensures admitted <==> !committing && n + (old(outstanding) + 1) * MAXOPBLOCKS <= LOGSIZE
      ensures spent == if admitted then old(spent) + [0] else old(spent)
      ensures outstanding == if admitted then old(outstanding) + 1 else old(outstanding)
      ensures !committing ==> Valid()
    {
      if committing {
        admitted := false;
      } else if n + (outstanding + 1) * MAXOPBLOCKS > LOGSIZE {
        admitted := false;
      } else {
        ReservedAppend(spent, 0);
        ReservedBounds(spent);
        outstanding := outstanding + 1;
        spent := spent + [0];
        admitted := true;
      }
    }

    // --- log_write ------------------------------------------------------------------

    /** Records a locked buffer in operation e's transaction.  It fails, where the
        kernel panics, exactly under the guards that open it; a new block within
        the operation's reservation never meets them while the region is larger
        than LOGSIZE. */
    method LogWrite(b: nat, ghost e: nat) returns (ok: bool)
      requires Valid() && b < NBUF && bc.bufs[b].locked && bc.bufs[b].valid
      requires !InLog(Where(), bc.bufs[b].blockno)
      requires e < |spent|
      requires bc.bufs[b].blockno !in homes ==> spent[e] < MAXOPBLOCKS
      modifies this`n, this`homes, this`spent, block, bc`bufs, bc.buf
      ensures Valid()
      ensures ok <==> old(n) < LOGSIZE && old(n) < size - 1
      ensures old(bc.bufs)[b].blockno !in old(homes) && size > LOGSIZE ==> ok
      ensures !ok ==> bc.bufs == old(bc.bufs) && homes == old(homes) && spent == old(spent)
      ensures ok ==> bc.bufs == old(bc.bufs)[b := old(bc.bufs)[b].(dirty := true)]
      ensures ok ==>
                var bn := old(bc.bufs)[b].blockno;
                if bn in old(homes) then homes == old(homes) && spent == old(spent)
                else homes == old(homes) + [bn] && spent == old(spent)[e := old(spent)[e] + 1]
    {
      hide Linked, Permutation, PinnedExactly, LogClean;
      ReservedBounds(spent);
      if n >= LOGSIZE || n >= size - 1 {
        return false;
      }
      ghost var b0, known, bn := bc.bufs, homes, bc.bufs[b].blockno;
      RecordBlock(bc.buf[b].blockno);
      if bn !in known {
        ReservedUpdate(spent, e, spent[e] + 1);
        spent := spent[e := spent[e] + 1];
      }
      bc.SetDirty(b);
      LogInvMore(b0, bc.memdisk, Where(), b, known, homes);
      ok := true;
    }

    /** The search for the block number, and its absorption or appending. */
    method RecordBlock(bn: nat)
      requires block.Length == LOGSIZE && n < LOGSIZE && homes == block[..n]
      modifies this`n, this`homes, block
      ensures n <= LOGSIZE && homes == block[..n]
      ensures homes == if bn in old(homes) then old(homes) else old(homes) + [bn]
    {
      var i := 0;
      while i < n
        invariant 0 <= i <= n
        invariant bn !in homes[..i]
      {
        if block[i] == bn {
          break;
        }
        i := i + 1;
      }
      block[i] := bn;
      if i == n {
        n := n + 1;
        homes := homes + [bn];
      } else {
        assert homes[i] == bn;
      }
      assert homes == block[..n];
    }
  }

  /** Setting one more buffer dirty pins one more block. */
  lemma {:induction false} PinnedMore(bufs: seq<Buf>, b: nat, homes: seq<int>, more: seq<int>)
    requires PinnedExactly(bufs, homes) && b < |bufs| && bufs[b].dev == ROOTDEV
    requires more == if bufs[b].blockno in homes then homes else homes + [bufs[b].blockno]
    ensures PinnedExactly(bufs[b := bufs[b].(dirty := true)], more)
  {
    var bufs1 := bufs[b := bufs[b].(dirty := true)];
    forall i | 0 <= i < |bufs1|
      ensures Recorded(bufs1[i], more)
    {
      assert Recorded(bufs[i], homes);
    }
    forall t | 0 <= t < |more|
      ensures Pinned(bufs1, more[t])
    {
      if t < |homes| {
        assert Pinned(bufs, homes[t]);
        var i :| 0 <= i < |bufs| && bufs[i].dev == ROOTDEV && bufs[i].blockno == homes[t] && bufs[i].dirty;
        assert bufs1[i].dirty;
      } else {
        assert bufs1[b].dirty;
      }
    }
  }

  lemma {:induction false} LogInvMore(bufs: seq<Buf>, disk: seq<Block>, r: Region, b: nat, homes: seq<int>,
                                      more: seq<int>)
    requires CacheInv(bufs, disk) && LogInv(bufs, disk, r, homes) && b < NBUF && bufs[b].valid
    requires !InLog(r, bufs[b].blockno) && |homes| < LOGSIZE && |homes| < r.size - 1
    requires more == if bufs[b].blockno in homes then homes else homes + [bufs[b].blockno]
    ensures LogInv(bufs[b := bufs[b].(dirty := true)], disk, r, more)
  {
    assert BufOk(bufs[b], disk);
    PinnedMore(bufs, b, homes, more);
  }

  /** What three operations have logged once k blocks are logged in turn. */
  function SpentAfter(k: nat): (spent: seq<nat>)
    ensures |spent| == 3
    ensures k < 3 * MAXOPBLOCKS ==> spent[k / MAXOPBLOCKS] < MAXOPBLOCKS
  {
    if k <= 10 then [k, 0, 0]
    else if k <= 20 then [10, k - 10, 0]
    else [10, 10, k - 20]
  }

  lemma {:induction false} SpentStep(k: nat)
    requires k < 3 * MAXOPBLOCKS
    ensures SpentAfter(k + 1) == SpentAfter(k)[k / MAXOPBLOCKS := SpentAfter(k)[k / MAXOPBLOCKS] + 1]
  {
  }

  lemma {:induction false} QuiescentUnlocked(bufs: seq<Buf>, disk: seq<Block>, bn: nat)
    requires CacheInv(bufs, disk) && Quiescent(bufs)
    ensures Unlocked(bufs, ROOTDEV, bn)
  {
    forall i | 0 <= i < |bufs| && Names(bufs[i], ROOTDEV, bn)
      ensures !bufs[i].locked
    {
      assert BufOk(bufs[i], disk);
    }
  }

  method LogNext(log: Log, blocks: seq<nat>, data: Block, k: nat)
    requires log.Valid() && k < log.size - 1 && Quiescent(log.bc.bufs)
    requires |blocks| == 3 * MAXOPBLOCKS && Distinct(blocks) && k < |blocks|
    requires blocks[k] < |log.bc.memdisk| && !InLog(log.Where(), blocks[k])
    requires log.homes == blocks[..k] && log.spent == SpentAfter(k)
    modifies log, log.block, log.bc, log.bc.buf, log.bc.next, log.bc.prev
    ensures log.Valid() && Quiescent(log.bc.bufs) && log.bc.memdisk == old(log.bc.memdisk)
    ensures log.homes == blocks[..k + 1] && log.spent == SpentAfter(k + 1)
  {
    RoomToCommit(log.bc.bufs, log.bc.memdisk, log.Where(), log.homes);
    QuiescentUnlocked(log.bc.bufs, log.bc.memdisk, blocks[k]);
    ghost var homes := log.homes;
    assert blocks[..k + 1] == homes + [blocks[k]] && blocks[k] !in homes;
    assert log.n == |homes| == k;
    SpentStep(k);
    var ok := log.UpdateBlock(blocks[k], data, k / MAXOPBLOCKS);
  }

  method BeginThree(log: Log)
    requires log.Valid() && log.n == 0 && log.outstanding == 0
    modifies log`outstanding, log`spent
    ensures log.Valid() && log.spent == SpentAfter(0)
  {
    var admitted := log.BeginOp();
    admitted := log.BeginOp();
    admitted := log.BeginOp();
  }

  method EndThree(log: Log) returns (committed: bool)
    requires log.Valid() && log.n > 0 && |log.spent| == 3 && HomesUnlocked(log.bc.bufs, log.homes)
    modifies log, log.bc, log.bc.buf, log.bc.next, log.bc.prev
    ensures committed == HasFree(old(log.bc.bufs))
  {
    var done := log.EndOp(0);
    done := log.EndOp(0);
    committed := log.EndOp(0);
  }

  /** The next block is within its operation's reservation, but the log has no room left. */
  method RefusedNext(log: Log, blocks: seq<nat>, data: Block, k: nat) returns (ok: bool)
    requires log.Valid() && k == log.size - 1 && Quiescent(log.bc.bufs)
    requires |blocks| == 3 * MAXOPBLOCKS && Distinct(blocks) && k < |blocks|
    requires blocks[k] < |log.bc.memdisk| && !InLog(log.Where(), blocks[k])
    requires log.homes == blocks[..k] && log.spent == SpentAfter(k)
    modifies log, log.block, log.bc, log.bc.buf, log.bc.next, log.bc.prev
    ensures !ok
  {
    QuiescentUnlocked(log.bc.bufs, log.bc.memdisk, blocks[k]);
    assert log.n == |log.homes| == k;
    ok := log.UpdateBlock(blocks[k], data, k / MAXOPBLOCKS);
  }

  /** Three operations, all admitted, log their full reservations of distinct blocks.
      A block that was reserved is refused exactly if the region is no larger than
      LOGSIZE, and then it is the one after size - 1; mkfs makes it LOGSIZE, so this is
      the thirtieth.  In a larger region all are logged, but LOGSIZE equals NBUF, so the
      commit finds every buffer pinned.  Either way the kernel panics. */
  method ThreeFullOperations(log: Log, blocks: seq<nat>, data: Block)
    returns (logged: nat, refused: bool, committed: bool)
    requires log.Valid() && log.n == 0 && log.outstanding == 0
    requires Quiescent(log.bc.bufs)
    requires |blocks| == 3 * MAXOPBLOCKS && Distinct(blocks)
    requires forall k :: 0 <= k < |blocks| ==> blocks[k] < |log.bc.memdisk| && !InLog(log.Where(), blocks[k])
    modifies log, log.block, log.bc, log.bc.buf, log.bc.next, log.bc.prev
    ensures refused <==> log.size <= LOGSIZE
    ensures logged == if refused then log.size - 1 else |blocks|
    ensures !committed
  {
    BeginThree(log);
    logged, refused, committed := 0, false, false;
    while logged < |blocks| && logged < log.size - 1
      invariant 0 <= logged <= |blocks| && logged <= log.size - 1
      invariant log.Valid() && Quiescent(log.bc.bufs) && log.homes == blocks[..logged]
      invariant log.bc.memdisk == old(log.bc.memdisk)
      invariant log.spent == SpentAfter(logged)
    {
      LogNext(log, blocks, data, logged);
      logged := logged + 1;
    }
    if logged < |blocks| {
      var ok := RefusedNext(log, blocks, data, logged);
      refused := !ok;
    } else {
      assert blocks[..logged] == blocks;
      RoomToCommit(log.bc.bufs, log.bc.memdisk, log.Where(), log.homes);
      committed := EndThree(log);
    }
  }
}
