/** What the redo log's disk writes mean across crashes, on disk contents alone.
    A crash leaves the disk as it was after some write; recovery may itself be
    cut short by further crashes. */
module CrashSafety {
  import opened BufferCache

  const LOGSIZE: nat := 30
  const MAXOPBLOCKS: nat := 10

  /** Where the log lies: one header block, then room for size - 1 blocks. */
  datatype Region = Region(start: nat, size: nat)

  predicate InLog(r: Region, bn: int) {
    r.start <= bn < r.start + r.size
  }

  // --- The header block: a count, then block numbers --------------------------

  function Count(d: seq<Block>, r: Region): int
    requires r.start < |d|
  {
    d[r.start][0]
  }

  function Homes(d: seq<Block>, r: Region): seq<int>
    requires r.start < |d| && 0 <= Count(d, r) <= LOGSIZE
  {
    d[r.start][1..1 + Count(d, r)]
  }

  /** The header after write_head: words past the last entry keep their old values. */
  function Header(was: Block, homes: seq<int>): Block
    requires |homes| <= LOGSIZE
  {
    [|homes|] + homes + was[1 + |homes|..]
  }

  predicate HomesOk(homes: seq<int>, size: nat, r: Region) {
    && |homes| <= LOGSIZE && |homes| <= r.size - 1
    && forall i :: 0 <= i < |homes| ==> 0 <= homes[i] < size && !InLog(r, homes[i])
  }

  /** A disk that recovery can start from. */
  predicate LogFormed(d: seq<Block>, r: Region) {
    && 0 < r.size && r.start + r.size <= |d|
    && 0 <= Count(d, r) <= LOGSIZE
    && HomesOk(Homes(d, r), |d|, r)
  }

  /** The two disks agree outside the log. */
  ghost predicate SameHome(d0: seq<Block>, d1: seq<Block>, r: Region) {
    |d0| == |d1| && forall bn :: 0 <= bn < |d0| && !InLog(r, bn) ==> d0[bn] == d1[bn]
  }

  // --- Installing and recovering ------------------------------------------------

  /** The disk after the first k log blocks went to their homes. */
  function Installed(d: seq<Block>, r: Region, homes: seq<int>, k: nat): (d1: seq<Block>)
    requires k <= |homes| && HomesOk(homes, |d|, r) && r.start + r.size <= |d|
    ensures |d1| == |d|
    ensures forall bn :: 0 <= bn < |d| && InLog(r, bn) ==> d1[bn] == d[bn]
    ensures forall bn :: 0 <= bn < |d| && bn !in homes[..k] ==> d1[bn] == d[bn]
  {
    if k == 0 then d
    else
      var before := Installed(d, r, homes, k - 1);
      before[homes[k - 1] := before[r.start + k]]
  }

  function Cleared(d: seq<Block>, r: Region): seq<Block>
    requires r.start < |d|
  {
    d[r.start := Header(d[r.start], [])]
  }

  /** The disk after a completed recovery. */
  function Recovered(d: seq<Block>, r: Region): (d1: seq<Block>)
    requires LogFormed(d, r)
    ensures |d1| == |d| && LogFormed(d1, r) && Count(d1, r) == 0
  {
    Cleared(Installed(d, r, Homes(d, r), Count(d, r)), r)
  }

  /** The disk after the first k of recovery's Count + 1 writes. */
  function RecoveryState(d: seq<Block>, r: Region, k: nat): seq<Block>
    requires LogFormed(d, r) && k <= Count(d, r) + 1
  {
    if k <= Count(d, r) then Installed(d, r, Homes(d, r), k) else Recovered(d, r)
  }

  lemma {:induction false} InstalledTwice(d: seq<Block>, r: Region, homes: seq<int>, j: nat, k: nat)
    requires j <= |homes| && k <= |homes| && HomesOk(homes, |d|, r) && r.start + r.size <= |d|
    ensures var again, once := Installed(Installed(d, r, homes, j), r, homes, k), Installed(d, r, homes, k);
            forall bn :: 0 <= bn < |d| && (bn in homes[..k] || bn !in homes[..j]) ==> again[bn] == once[bn]
    decreases k
  {
    if k > 0 {
      InstalledTwice(d, r, homes, j, k - 1);
      assert homes[..k] == homes[..k - 1] + [homes[k - 1]];
      assert InLog(r, r.start + k);
    }
  }

  /** Reinstalling from any intermediate disk gives the same disk: recovery is idempotent. */
  lemma {:induction false} InstalledIdempotent(d: seq<Block>, r: Region, homes: seq<int>, j: nat)
    requires j <= |homes| && HomesOk(homes, |d|, r) && r.start + r.size <= |d|
    ensures Installed(Installed(d, r, homes, j), r, homes, |homes|) == Installed(d, r, homes, |homes|)
  {
    InstalledTwice(d, r, homes, j, |homes|);
    assert homes[..|homes|] == homes;
    forall bn | 0 <= bn < |d|
      ensures bn in homes[..|homes|] || bn !in homes[..j]
    {
    }
  }

  lemma {:induction false} ClearedIsStable(d: seq<Block>, r: Region)
    requires LogFormed(d, r) && Count(d, r) == 0
    ensures SameHome(Recovered(d, r), d, r)
    ensures Header(d[r.start], []) == d[r.start] && Recovered(d, r) == d
  {
    assert d[r.start] == [d[r.start][0]] + d[r.start][1..];
  }

  /** Wherever recovery is cut short, recovering again ends in the same disk. */
  lemma {:induction false} RecoveryRestartable(d: seq<Block>, r: Region, k: nat)
    requires LogFormed(d, r) && k <= Count(d, r) + 1
    ensures var s := RecoveryState(d, r, k); LogFormed(s, r) && Recovered(s, r) == Recovered(d, r)
  {
    if k <= Count(d, r) {
      InstalledIdempotent(d, r, Homes(d, r), k);
    } else {
      ClearedIsStable(Recovered(d, r), r);
    }
  }

  /** A boot history: each entry says after how many writes a crash cut that
      recovery short; the last recovery completes. */
  ghost predicate CrashPoints(d: seq<Block>, r: Region, crashes: seq<nat>)
    decreases |crashes|
  {
    LogFormed(d, r) && (crashes == [] ||
      (crashes[0] <= Count(d, r) + 1 && CrashPoints(RecoveryState(d, r, crashes[0]), r, crashes[1..])))
  }

  ghost function AfterCrashes(d: seq<Block>, r: Region, crashes: seq<nat>): seq<Block>
    requires CrashPoints(d, r, crashes)
    decreases |crashes|
  {
    if crashes == [] then Recovered(d, r)
    else AfterCrashes(RecoveryState(d, r, crashes[0]), r, crashes[1..])
  }

  /** Any number of interrupted recoveries followed by a complete one has the
      effect of a single recovery. */
  lemma {:induction false} CrashesDoNotMatter(d: seq<Block>, r: Region, crashes: seq<nat>)
    requires CrashPoints(d, r, crashes)
    ensures AfterCrashes(d, r, crashes) == Recovered(d, r)
    decreases |crashes|
  {
    if crashes != [] {
      RecoveryRestartable(d, r, crashes[0]);
      CrashesDoNotMatter(RecoveryState(d, r, crashes[0]), r, crashes[1..]);
    }
  }

  // --- The writes of one commit -------------------------------------------------

  /** The disk after write_log copied the first k new contents into the log. */
  function Logged(d: seq<Block>, r: Region, news: seq<Block>, k: nat): (d1: seq<Block>)
    requires k <= |news| < r.size && r.start + r.size <= |d|
    ensures |d1| == |d| && SameHome(d, d1, r) && d1[r.start] == d[r.start]
    ensures forall j :: 0 <= j < k ==> d1[r.start + j + 1] == news[j]
  {
    if k == 0 then d else Logged(d, r, news, k - 1)[r.start + k := news[k - 1]]
  }

  predicate CommitOk(d: seq<Block>, r: Region, homes: seq<int>, news: seq<Block>) {
    LogFormed(d, r) && Count(d, r) == 0 && HomesOk(homes, |d|, r) && |news| == |homes|
  }

  /** The commit point: the header names the logged blocks. */
  function Committed(d: seq<Block>, r: Region, homes: seq<int>, news: seq<Block>): (d1: seq<Block>)
    requires CommitOk(d, r, homes, news)
    ensures |d1| == |d| && LogFormed(d1, r) && Count(d1, r) == |homes| && Homes(d1, r) == homes
    ensures SameHome(d, d1, r)
    ensures forall j :: 0 <= j < |news| ==> d1[r.start + j + 1] == news[j]
  {
    var l := Logged(d, r, news, |news|);
    l[r.start := Header(l[r.start], homes)]
  }

  /** The disk after the first k of the 2n + 2 writes that commit n blocks. */
  function CommitState(d: seq<Block>, r: Region, homes: seq<int>, news: seq<Block>, k: nat): seq<Block>
    requires CommitOk(d, r, homes, news) && k <= 2 * |homes| + 2
  {
    var n := |homes|;
    if k <= n then Logged(d, r, news, k)
    else RecoveryState(Committed(d, r, homes, news), r, k - n - 1)
  }

  // --- The same states as the sequences of disk contents the writes produce -----

  function LogTrace(d: seq<Block>, r: Region, news: seq<Block>, k: nat): (t: seq<seq<Block>>)
    requires k <= |news| < r.size && r.start + r.size <= |d|
    ensures |t| == k
  {
    if k == 0 then [] else LogTrace(d, r, news, k - 1) + [Logged(d, r, news, k)]
  }

  function InstallTrace(d: seq<Block>, r: Region, homes: seq<int>, k: nat): (t: seq<seq<Block>>)
    requires k <= |homes| && HomesOk(homes, |d|, r) && r.start + r.size <= |d|
    ensures |t| == k
  {
    if k == 0 then [] else InstallTrace(d, r, homes, k - 1) + [Installed(d, r, homes, k)]
  }

  function RecoveryTrace(d: seq<Block>, r: Region): (t: seq<seq<Block>>)
    requires LogFormed(d, r)
    ensures |t| == Count(d, r) + 1
  {
    InstallTrace(d, r, Homes(d, r), Count(d, r)) + [Recovered(d, r)]
  }

  function CommitTrace(d: seq<Block>, r: Region, homes: seq<int>, news: seq<Block>): (t: seq<seq<Block>>)
    requires CommitOk(d, r, homes, news)
    ensures |t| == 2 * |homes| + 2
  {
    var c := Committed(d, r, homes, news);
    LogTrace(d, r, news, |news|) + [c] + RecoveryTrace(c, r)
  }

  lemma {:induction false} CommitTraceParts(t0: seq<seq<Block>>, d: seq<Block>, r: Region, homes: seq<int>,
                                            news: seq<Block>)
    requires CommitOk(d, r, homes, news)
    ensures var c := Committed(d, r, homes, news);
            t0 + LogTrace(d, r, news, |news|) + [c] + RecoveryTrace(c, r) == t0 + CommitTrace(d, r, homes, news)
  {
  }

  lemma {:induction false} LogTraceAt(d: seq<Block>, r: Region, news: seq<Block>, n: nat, k: nat)
    requires k < n <= |news| < r.size && r.start + r.size <= |d|
    ensures LogTrace(d, r, news, n)[k] == Logged(d, r, news, k + 1)
  {
    if k < n - 1 {
      LogTraceAt(d, r, news, n - 1, k);
    }
  }

  lemma {:induction false} InstallTraceAt(d: seq<Block>, r: Region, homes: seq<int>, n: nat, k: nat)
    requires k < n <= |homes| && HomesOk(homes, |d|, r) && r.start + r.size <= |d|
    ensures InstallTrace(d, r, homes, n)[k] == Installed(d, r, homes, k + 1)
  {
    if k < n - 1 {
      InstallTraceAt(d, r, homes, n - 1, k);
    }
  }

  lemma {:induction false} RecoveryTraceAt(d: seq<Block>, r: Region, k: nat)
    requires LogFormed(d, r) && k <= Count(d, r)
    ensures RecoveryTrace(d, r)[k] == RecoveryState(d, r, k + 1)
  {
    if k < Count(d, r) {
      InstallTraceAt(d, r, Homes(d, r), Count(d, r), k);
    }
  }

  /** The k-th content that the trace of a commit shows is the k-th commit state. */
  lemma {:induction false} CommitTraceAt(d: seq<Block>, r: Region, homes: seq<int>, news: seq<Block>, k: nat)
    requires CommitOk(d, r, homes, news) && k < 2 * |homes| + 2
    ensures CommitTrace(d, r, homes, news)[k] == CommitState(d, r, homes, news, k + 1)
  {
    var n := |homes|;
    if k < n {
      LogTraceAt(d, r, news, n, k);
    } else if k > n {
      RecoveryTraceAt(Committed(d, r, homes, news), r, k - n - 1);
    }
  }

  /** The whole transaction applied to the home blocks. */
  function Applied(d: seq<Block>, homes: seq<int>, news: seq<Block>): (d1: seq<Block>)
    requires |news| == |homes| && forall i :: 0 <= i < |homes| ==> 0 <= homes[i] < |d|
    ensures |d1| == |d|
  {
    if homes == [] then d
    else
      var n := |homes| - 1;
      Applied(d, homes[..n], news[..n])[homes[n] := news[n]]
  }

  lemma {:induction false} InstalledApplies(d: seq<Block>, r: Region, homes: seq<int>, news: seq<Block>, k: nat)
    requires HomesOk(homes, |d|, r) && r.start + r.size <= |d| && k <= |homes| == |news|
    requires forall j :: 0 <= j < |news| ==> d[r.start + j + 1] == news[j]
    ensures Installed(d, r, homes, k) == Applied(d, homes[..k], news[..k])
    decreases k
  {
    if k > 0 {
      InstalledApplies(d, r, homes, news, k - 1);
      assert homes[..k][..k - 1] == homes[..k - 1] && news[..k][..k - 1] == news[..k - 1];
      assert InLog(r, r.start + k);
    }
  }

  lemma {:induction false} AppliedSameHome(d0: seq<Block>, d1: seq<Block>, r: Region, homes: seq<int>, news: seq<Block>)
    requires |news| == |homes| && (forall i :: 0 <= i < |homes| ==> 0 <= homes[i] < |d0|) && SameHome(d0, d1, r)
    ensures SameHome(Applied(d0, homes, news), Applied(d1, homes, news), r)
  {
    if homes != [] {
      var n := |homes| - 1;
      AppliedSameHome(d0, d1, r, homes[..n], news[..n]);
    }
  }

  lemma {:induction false} AppliedContents(d: seq<Block>, homes: seq<int>, news: seq<Block>)
    requires |news| == |homes| && forall i :: 0 <= i < |homes| ==> 0 <= homes[i] < |d|
    requires forall i, j :: 0 <= i < j < |homes| ==> homes[i] != homes[j]
    ensures forall i :: 0 <= i < |homes| ==> Applied(d, homes, news)[homes[i]] == news[i]
    ensures forall bn :: 0 <= bn < |d| && bn !in homes ==> Applied(d, homes, news)[bn] == d[bn]
  {
    if homes != [] {
      var n := |homes| - 1;
      AppliedContents(d, homes[..n], news[..n]);
      assert homes == homes[..n] + [homes[n]];
    }
  }

  /** Recovering the disk at the commit point applies the whole transaction. */
  lemma {:induction false} CommittedRecovers(d: seq<Block>, r: Region, homes: seq<int>, news: seq<Block>)
    requires CommitOk(d, r, homes, news)
    ensures SameHome(Recovered(Committed(d, r, homes, news), r), Applied(d, homes, news), r)
  {
    var c := Committed(d, r, homes, news);
    InstalledApplies(c, r, homes, news, |homes|);
    assert homes[..|homes|] == homes && news[..|news|] == news;
    AppliedSameHome(c, d, r, homes, news);
    assert InLog(r, r.start);
  }

  lemma {:induction false} CommitStateRecovers(d: seq<Block>, r: Region, homes: seq<int>, news: seq<Block>, k: nat)
    requires CommitOk(d, r, homes, news) && k <= 2 * |homes| + 2 && LogFormed(CommitState(d, r, homes, news, k), r)
    ensures SameHome(Recovered(CommitState(d, r, homes, news, k), r),
                     if k <= |homes| then d else Applied(d, homes, news), r)
  {
    hide Recovered, RecoveryState, Committed, Applied, Logged;
    if k <= |homes| {
      ClearedIsStable(Logged(d, r, news, k), r);
    } else {
      RecoveryRestartable(Committed(d, r, homes, news), r, k - |homes| - 1);
      CommittedRecovers(d, r, homes, news);
    }
  }

  /** Crash atomicity.  After a crash between any two of commit's writes, and any
      number of interrupted recoveries, the home blocks hold all of the
      transaction if the header write had happened, and none of it otherwise. */
  lemma {:induction false} CommitAtomic(d: seq<Block>, r: Region, homes: seq<int>, news: seq<Block>, k: nat,
                                        crashes: seq<nat>)
    requires CommitOk(d, r, homes, news) && k <= 2 * |homes| + 2
    requires CrashPoints(CommitState(d, r, homes, news, k), r, crashes)
    ensures var after := AfterCrashes(CommitState(d, r, homes, news, k), r, crashes);
            SameHome(after, if k <= |homes| then d else Applied(d, homes, news), r)
  {
    hide CommitState, AfterCrashes, Recovered, Applied;
    CrashesDoNotMatter(CommitState(d, r, homes, news, k), r, crashes);
    CommitStateRecovers(d, r, homes, news, k);
  }

  /** The same said of the disk contents that a commit is seen to write, one by one. */
  lemma {:induction false} TraceAtomic(d: seq<Block>, r: Region, homes: seq<int>, news: seq<Block>, k: nat,
                                       crashes: seq<nat>)
    requires CommitOk(d, r, homes, news) && k < 2 * |homes| + 2
    requires CrashPoints(CommitTrace(d, r, homes, news)[k], r, crashes)
    ensures var after := AfterCrashes(CommitTrace(d, r, homes, news)[k], r, crashes);
            SameHome(after, if k < |homes| then d else Applied(d, homes, news), r)
  {
    CommitTraceAt(d, r, homes, news, k);
    CommitAtomic(d, r, homes, news, k + 1, crashes);
  }

  /** Every disk that commit can leave behind is one that recovery can start from,
      so CommitAtomic's premise holds with no crash at all, and for every crash
      point that a recovery has. */
  lemma {:induction false} CommitStatesFormed(d: seq<Block>, r: Region, homes: seq<int>, news: seq<Block>, k: nat)
    requires CommitOk(d, r, homes, news) && k <= 2 * |homes| + 2
    ensures LogFormed(CommitState(d, r, homes, news, k), r)
    ensures k == 2 * |homes| + 2 ==> Count(CommitState(d, r, homes, news, k), r) == 0
  {
    if k > |homes| {
      RecoveryRestartable(Committed(d, r, homes, news), r, k - |homes| - 1);
    }
  }
}
