/** Whole histories of the log: the cache, the log and the disk together are one store in
    which log_write is an assignment; what is assigned before everybody has left is
    committed; reservations suffice; and a commit ends after a bounded number of steps. */
module LogHistory {
  import opened BufferCache
  import opened CrashSafety
  import opened LogRun

  // --- The last one out commits ---------------------------------------------------------------

  /** With no operation open and no commit under way, no block waits in the log. */
  predicate Settled(s: Sys) {
    s.stage.Running? && s.ops == {} ==> s.homes == []
  }

  lemma {:induction false} SettledKept(s: Sys, ev: Event)
    requires Inv(s) && Settled(s) && CanHappen(s, ev)
    ensures Settled(After(s, ev))
  {
    hide CacheOk, DiskOk;
    if ev.LogWrite? {
      EditorInOps(s, ev.h, s.handles[ev.h].b);
    }
  }

  /** In every run: whenever nobody is inside an operation or a commit, everything logged
      so far is on disk for good. */
  lemma {:induction false} IdleIsCommitted(states: seq<Sys>, events: seq<Event>, k: nat)
    requires IsRun(states, events) && k < |states|
    ensures Settled(states[k])
    ensures states[k].stage.Running? && states[k].ops == {} ==>
              states[k].homes == [] && states[k].durable == states[k].contents
  {
    hide CacheOk, After, CanHappen;
    RunInv(states, events, k);
    if k > 0 {
      IdleIsCommitted(states, events, k - 1);
      RunInv(states, events, k - 1);
      assert Follows(states, events, k - 1);
      SettledKept(states[k - 1], events[k - 1]);
    }
  }

  // --- One store ------------------------------------------------------------------------------

  /** What the operations think they use: blocks that change at log_write.  blocks and
      drafts are what each handle is for, and the last data it was given. */
  datatype Store = Store(contents: seq<Block>, blocks: seq<nat>, drafts: seq<Block>)

  /** Only three events matter, and nothing but the event itself. */
  function Assign(f: Store, ev: Event): (f1: Store)
    ensures |f1.contents| == |f.contents| && |f1.blocks| == |f.blocks| && |f1.drafts| == |f.drafts|
  {
    match ev
    case Get(h, bn, _) => if h < |f.blocks| then f.(blocks := f.blocks[h := bn]) else f
    case Edit(h, _, data) => if h < |f.drafts| then f.(drafts := f.drafts[h := data]) else f
    case LogWrite(h) =>
      if h < |f.blocks| && h < |f.drafts| && f.blocks[h] < |f.contents|
      then f.(contents := f.contents[f.blocks[h] := f.drafts[h]]) else f
    case _ => f
  }

  /** The store after these events. */
  function Assigned(f: Store, events: seq<Event>): (f1: Store)
    ensures |f1.contents| == |f.contents| && |f1.blocks| == |f.blocks| && |f1.drafts| == |f.drafts|
  {
    if events == [] then f else Assign(Assigned(f, events[..|events| - 1]), events[|events| - 1])
  }

  predicate HandleSim(s: Sys, f: Store, h: nat)
    requires h < |s.handles| == |f.blocks| == |f.drafts|
  {
    match s.handles[h]
    case Wants(_, bn) => f.blocks[h] == bn
    case Has(b, bn, editor) => f.blocks[h] == bn && b < |s.bufs| && (editor != NOBODY ==> f.drafts[h] == s.bufs[b].data)
    case _ => true
  }

  ghost predicate Sim(s: Sys, f: Store) {
    && |s.handles| == |f.blocks| == |f.drafts| && s.contents == f.contents
    && forall h {:trigger HandleSim(s, f, h)} :: 0 <= h < |s.handles| ==> HandleSim(s, f, h)
  }

  /** A buffer that handle h is editing is changed by nobody else. */
  lemma {:induction false} DraftKept(s: Sys, ev: Event, h: nat)
    requires Inv(s) && CanHappen(s, ev) && h < |s.handles| && s.handles[h].Has? && s.handles[h].editor != NOBODY
    requires !(ev.Edit? && ev.h == h)
    ensures s.handles[h].b < |s.bufs| && s.handles[h].b < |After(s, ev).bufs|
    ensures After(s, ev).bufs[s.handles[h].b].data == s.bufs[s.handles[h].b].data
  {
    hide DiskOk;
    var b := s.handles[h].b;
    assert HandleOk(s, h) && EditedBy(s, h, b);
    assert CountOk(s, b);
    UserCounts(s.handles, h, b);
    if !s.stage.Running? {
      EditorInOps(s, h, b);
    } else if ev.Load? || ev.Edit? || ev.LogWrite? || ev.Lock? || ev.Unlock? || ev.Drop? {
      assert HandleOk(s, ev.h) && Apart(s, h, ev.h);
    }
  }

  lemma {:induction false} SimKept(s: Sys, f: Store, ev: Event)
    requires Inv(s) && Sim(s, f) && CanHappen(s, ev)
    ensures Sim(After(s, ev), Assign(f, ev))
  {
    hide DiskOk, CacheOk, Inv;
    var s1, f1 := After(s, ev), Assign(f, ev);
    if ev.LogWrite? {
      assert HandleSim(s, f, ev.h);
    }
    assert s1.contents == f1.contents;
    forall h | 0 <= h < |s1.handles|
      ensures HandleSim(s1, f1, h)
    {
      assert HandleSim(s, f, h);
      if s.handles[h].Has? && s.handles[h].editor != NOBODY && !(ev.Edit? && ev.h == h) {
        DraftKept(s, ev, h);
      }
    }
  }

  /** The store a run starts with. */
  ghost predicate Fresh(s: Sys, f: Store) {
    f.contents == s.disk && |f.blocks| == |f.drafts| == |s.handles|
  }

  /** The machine refines the store, whatever is cached, logged, installed or waiting. */
  lemma {:induction false} RefinesStore(states: seq<Sys>, events: seq<Event>, f: Store, k: nat)
    requires IsRun(states, events) && Fresh(states[0], f) && k < |states|
    ensures Sim(states[k], Assigned(f, events[..k]))
  {
    hide Inv, After, CanHappen;
    if k > 0 {
      RefinesStore(states, events, f, k - 1);
      RunInv(states, events, k - 1);
      assert Follows(states, events, k - 1);
      SimKept(states[k - 1], Assigned(f, events[..k - 1]), events[k - 1]);
      assert events[..k][..k - 1] == events[..k - 1];
    }
  }

  /** A process that has locked a block and not changed it reads what was assigned last. */
  lemma {:induction false} ReadsTheStore(states: seq<Sys>, events: seq<Event>, f: Store, k: nat, h: nat)
    requires IsRun(states, events) && Fresh(states[0], f) && k < |states|
    requires 2 <= h < |states[k].handles| && Ready(states[k], h) && states[k].handles[h].editor == NOBODY
    ensures var hd := states[k].handles[h];
            && hd.bn < |states[k].disk| == |f.contents|
            && states[k].bufs[hd.b].data == Assigned(f, events[..k]).contents[hd.bn]
  {
    RefinesStore(states, events, f, k);
    RunInv(states, events, k);
    ReaderSees(states[k], h);
  }

  lemma {:induction false} LastCommitGrows(states: seq<Sys>, events: seq<Event>, j: nat, k: nat)
    requires j <= k < |states| == |events| + 1
    ensures LastCommit(states, events, j) <= LastCommit(states, events, k)
    ensures LastCommit(states, events, k) > j || LastCommit(states, events, k) == LastCommit(states, events, j)
    decreases k
  {
    if j < k {
      LastCommitGrows(states, events, j, k - 1);
    }
  }

  /** All or nothing for the whole history.  After a crash at any moment, and recoveries
      that may crash themselves, the disk is the store as it was at one moment j, at which
      no operation was open; and j is no earlier than any moment i at which nobody was
      inside, unless nothing was assigned in between. */
  lemma {:induction false} CrashIsAMoment(states: seq<Sys>, events: seq<Event>, f: Store, i: nat, k: nat,
                                          crashes: seq<nat>)
    requires IsRun(states, events) && Fresh(states[0], f) && i <= k < |states|
    requires states[i].stage.Running? && states[i].ops == {}
    requires CrashPoints(states[k].disk, states[k].r, crashes)
    ensures var j := LastCommit(states, events, k);
            && states[j].ops == {}
            && SameHome(AfterCrashes(states[k].disk, states[k].r, crashes), Assigned(f, events[..j]).contents,
                        states[k].r)
            && (j >= i || Assigned(f, events[..j]).contents == Assigned(f, events[..i]).contents)
  {
    hide Inv;
    var j := LastCommit(states, events, k);
    CrashConsistent(states, events, k, crashes);
    RefinesStore(states, events, f, j);
    if j < i {
      LastCommitGrows(states, events, i, k);
      IdleIsCommitted(states, events, i);
      CommittedIsDurable(states, events, i);
      RefinesStore(states, events, f, i);
    }
  }

  // --- Reservations ---------------------------------------------------------------------------

  /** What each open operation may still add to the log. */
  ghost function LeftAfter(left: map<nat, int>, s: Sys, ev: Event): map<nat, int> {
    match ev
    case BeginOp(e) => left[e := MAXOPBLOCKS]
    case EndOp(e) => left - {e}
    case LogWrite(h) =>
      if h < |s.handles| && s.handles[h].Has? && s.handles[h].bn !in s.homes && s.handles[h].editor in left
      then left[s.handles[h].editor := left[s.handles[h].editor] - 1] else left
    case _ => left
  }

  ghost function Left(states: seq<Sys>, events: seq<Event>, k: nat): map<nat, int>
    requires k <= |events| <= |states|
  {
    if k == 0 then map[] else LeftAfter(Left(states, events, k - 1), states[k - 1], events[k - 1])
  }

  ghost function Total(left: map<nat, int>): int {
    if left == map[] then 0
    else
      var e :| e in left;
      left[e] + Total(left - {e})
  }

  /** Nobody has added more than ten blocks. */
  predicate NoneOver(left: map<nat, int>) {
    forall e :: e in left ==> left[e] >= 0
  }

  lemma {:induction false} TotalWithout(left: map<nat, int>, e: nat)
    requires e in left
    ensures Total(left) == left[e] + Total(left - {e})
  {
    var d :| d in left && Total(left) == left[d] + Total(left - {d});
    if d != e {
      TotalWithout(left - {d}, e);
      TotalWithout(left - {e}, d);
      assert left - {d} - {e} == left - {e} - {d};
    }
  }

  lemma {:induction false} TotalChanged(left: map<nat, int>, e: nat, n: int)
    ensures Total(left[e := n]) == Total(left) - (if e in left then left[e] else 0) + n
  {
    TotalWithout(left[e := n], e);
    assert left[e := n] - {e} == left - {e};
    if e in left {
      TotalWithout(left, e);
    } else {
      assert left - {e} == left;
    }
  }

  lemma {:induction false} TotalBounds(left: map<nat, int>, e: nat)
    requires NoneOver(left) && forall d :: d in left ==> left[d] <= MAXOPBLOCKS
    ensures 0 <= Total(left) <= |left| * MAXOPBLOCKS
    ensures e in left ==> left[e] <= Total(left)
    decreases |left|, e !in left
  {
    if e in left {
      TotalWithout(left, e);
      assert |left - {e}| == |left| - 1 by {
        assert (left - {e}).Keys == left.Keys - {e};
        assert |left.Keys - {e}| == |left.Keys| - 1;
      }
      TotalBounds(left - {e}, e);
    } else if left != map[] {
      var d :| d in left;
      TotalBounds(left, d);
    }
  }

  /** No operation logs more than ten blocks that were not in the log. */
  ghost predicate Modest(states: seq<Sys>, events: seq<Event>, k: nat)
    requires k <= |events| <= |states|
  {
    forall j :: 0 <= j <= k ==> NoneOver(Left(states, events, j))
  }

  ghost predicate Reserved(s: Sys, left: map<nat, int>) {
    && left.Keys == s.ops && |s.homes| + Total(left) <= LOGSIZE
    && forall e :: e in left ==> left[e] <= MAXOPBLOCKS
  }

  lemma {:induction false} BeginReserves(s: Sys, left: map<nat, int>, e: nat)
    requires Reserved(s, left) && NoneOver(left) && Admits(s) && e !in s.ops
    ensures Reserved(s.(ops := s.ops + {e}), left[e := MAXOPBLOCKS])
  {
    hide Total;
    TotalBounds(left, e);
    TotalChanged(left, e, MAXOPBLOCKS);
    assert |left.Keys| == |left|;
  }

  lemma {:induction false} EndReleases(s: Sys, left: map<nat, int>, e: nat)
    requires Reserved(s, left) && NoneOver(left) && e in s.ops
    ensures Reserved(s.(ops := s.ops - {e}), left - {e})
  {
    hide Total;
    TotalBounds(left, e);
    TotalWithout(left, e);
    assert (left - {e}).Keys == left.Keys - {e};
  }

  lemma {:induction false} LoggingUses(s: Sys, left: map<nat, int>, e: nat, bn: int)
    requires Reserved(s, left) && e in left
    ensures Reserved(s.(homes := s.homes + [bn]), left[e := left[e] - 1])
  {
    hide Total;
    TotalChanged(left, e, left[e] - 1);
  }

  lemma {:induction false} ReservedKept(s: Sys, left: map<nat, int>, ev: Event)
    requires Inv(s) && CanHappen(s, ev) && Reserved(s, left) && NoneOver(left)
    ensures Reserved(After(s, ev), LeftAfter(left, s, ev))
  {
    hide CacheOk, DiskOk, Total;
    match ev
    case BeginOp(e) => BeginReserves(s, left, e);
    case EndOp(e) => EndReleases(s, left, e);
    case LogWrite(h) =>
      EditorInOps(s, h, s.handles[h].b);
      if s.handles[h].bn !in s.homes {
        LoggingUses(s, left, s.handles[h].editor, s.handles[h].bn);
      }
    case _ =>
  }

  lemma {:induction false} NothingLeft(left: map<nat, int>)
    requires left.Keys == {}
    ensures Total(left) == 0
  {
    assert left == map[];
  }

  /** What begin_op admits can be served: as long as no operation adds more than ten blocks,
      every operation that has not added ten finds room in the log. */
  lemma {:induction false} ReservationsSuffice(states: seq<Sys>, events: seq<Event>, k: nat, e: nat)
    requires IsRun(states, events) && k < |states| && Modest(states, events, k)
    ensures Reserved(states[k], Left(states, events, k)) && |states[k].homes| <= LOGSIZE
    ensures e in states[k].ops && Left(states, events, k)[e] > 0 ==> |states[k].homes| < LOGSIZE
  {
    hide Inv, CanHappen, After, LeftAfter, Total;
    if k > 0 {
      ReservationsSuffice(states, events, k - 1, e);
      RunInv(states, events, k - 1);
      assert Follows(states, events, k - 1);
      ReservedKept(states[k - 1], Left(states, events, k - 1), events[k - 1]);
    } else {
      NothingLeft(Left(states, events, 0));
    }
    TotalBounds(Left(states, events, k), e);
  }

  /** Nobody waits for nothing: with an empty log three operations are let in at once, and
      whenever nobody is inside the log is empty. */
  lemma {:induction false} EmptyLogAdmits(states: seq<Sys>, events: seq<Event>, k: nat)
    requires IsRun(states, events) && k < |states| && states[k].stage.Running?
    ensures states[k].homes == [] ==> (Admits(states[k]) <==> |states[k].ops| < 3)
    ensures states[k].ops == {} ==> Admits(states[k])
  {
    IdleIsCommitted(states, events, k);
  }

  // --- The commit comes to an end -------------------------------------------------------------

  /** A handle of the commit has let go only after the disk write of its turn. */
  predicate TurnOk(s: Sys) {
    |s.handles| >= 2 && forall h :: 0 <= h < 2 && s.handles[h].Leaves? ==> Done(s)
  }

  lemma {:induction false} TurnKept(s: Sys, ev: Event)
    requires Inv(s) && TurnOk(s) && CanHappen(s, ev)
    ensures TurnOk(After(s, ev))
  {
    hide CacheOk, DiskOk;
  }

  /** What handle h of the commit has still to do in this turn. */
  function HandleWork(s: Sys, h: nat): nat
    requires h < |s.handles|
  {
    match s.handles[h]
    case Away => if Done(s) then 0 else 5
    case Wants(_, _) => 4
    case Has(b, _, _) => if b < |s.bufs| && s.bufs[b].valid then 2 else 3
    case Leaves(_) => 1
  }

  /** The turns that follow this one. */
  function TurnsLeft(s: Sys): int {
    match s.stage
    case Running => 0
    case Log(k, _) => 2 * |s.homes| - k + 1
    case Head(_) => |s.homes| + 1
    case Install(k, _) => |s.homes| - k
    case Clear(_) => 0
  }

  function Work(s: Sys): int
    requires |s.handles| >= 2
  {
    if s.stage.Running? then 0
    else 12 * TurnsLeft(s) + HandleWork(s, 0) + HandleWork(s, 1) + if Done(s) then 1 else 2
  }

  lemma {:induction false} OthersLeaveWork(s: Sys, ev: Event, h: nat)
    requires Inv(s) && !s.stage.Running? && CanHappen(s, ev) && !OfCommit(ev) && h < 2
    ensures |After(s, ev).handles| == |s.handles| && HandleWork(After(s, ev), h) == HandleWork(s, h)
  {
    NothingMeanwhile(s, ev);
    assert HandleOk(s, h);
    if s.handles[h].Has? {
      var b := s.handles[h].b;
      assert CountOk(s, b);
      UserCounts(s.handles, h, b);
      if ev.Load? {
        assert Apart(s, h, ev.h);
      }
    }
  }

  lemma {:induction false} DifferentBuffers(s: Sys, h: nat, g: nat)
    requires Inv(s) && h < |s.handles| && g < |s.handles| && h != g && s.handles[h].Has? && s.handles[g].Has?
    ensures s.handles[h].b != s.handles[g].b
  {
    assert Apart(s, h, g);
  }

  lemma {:induction false} OwnHandleWorks(s: Sys, ev: Event, h: nat)
    requires Inv(s) && TurnOk(s) && !s.stage.Running? && CanHappen(s, ev) && h < 2
    requires ev.Get? || ev.Lock? || ev.Load? || ev.Unlock? || ev.Drop?
    requires OfCommit(ev)
    ensures var s1 := After(s, ev);
            && |s1.handles| == |s.handles| && s1.stage == s.stage && s1.homes == s.homes
            && HandleWork(s1, h) <= HandleWork(s, h) - if ev.h == h then 1 else 0
  {
    hide DiskOk, Apart, DataOk;
    assert HandleOk(s, h) && HandleOk(s, ev.h);
    if s.handles[h].Has? {
      var b := s.handles[h].b;
      assert CountOk(s, b);
      UserCounts(s.handles, h, b);
      if ev.h != h && s.handles[ev.h].Has? {
        DifferentBuffers(s, h, ev.h);
      }
    }
  }

  /** Every step of the commit uses up work, and nobody else adds any. */
  lemma {:induction false} CommitWorks(s: Sys, ev: Event)
    requires Inv(s) && TurnOk(s) && !s.stage.Running? && CanHappen(s, ev)
    ensures |After(s, ev).handles| >= 2
    ensures 0 <= Work(After(s, ev)) <= Work(s) - if OfCommit(ev) then 1 else 0
  {
    hide CacheOk, DiskOk;
    if !OfCommit(ev) {
      OthersLeaveWork(s, ev, 0);
      OthersLeaveWork(s, ev, 1);
      NothingMeanwhile(s, ev);
    } else if !ev.WriteOut? && !ev.Next? {
      OwnHandleWorks(s, ev, 0);
      OwnHandleWorks(s, ev, 1);
    }
  }

  /** How many of the events from j to k are the committing process's. */
  function CommitSteps(events: seq<Event>, j: nat, k: nat): nat
    requires j <= k <= |events|
    decreases k
  {
    if j == k then 0 else CommitSteps(events, j, k - 1) + if OfCommit(events[k - 1]) then 1 else 0
  }

  lemma {:induction false} TurnsOk(states: seq<Sys>, events: seq<Event>, k: nat)
    requires IsRun(states, events) && k < |states|
    ensures TurnOk(states[k])
  {
    if k > 0 {
      TurnsOk(states, events, k - 1);
      RunInv(states, events, k - 1);
      assert Follows(states, events, k - 1);
      TurnKept(states[k - 1], events[k - 1]);
    }
  }

  /** A commit of n blocks that is under way takes at most 24 (n + 1) steps of its own, and
      by CommitGoesOn there is always one to take, or one to wait for, unless the cache has
      run out of buffers. */
  lemma {:induction false} CommitEnds(states: seq<Sys>, events: seq<Event>, j: nat, k: nat)
    requires IsRun(states, events) && j <= k < |states|
    requires forall m :: j <= m < k ==> !states[m].stage.Running?
    ensures |states[j].handles| >= 2 && |states[k].handles| >= 2
    ensures 0 <= Work(states[k]) <= Work(states[j]) - CommitSteps(events, j, k)
    ensures states[j].stage.Log? ==> CommitSteps(events, j, k) <= 24 * (|states[j].homes| + 1)
    decreases k
  {
    hide CacheOk, DiskOk, After, CanHappen;
    RunInv(states, events, j);
    TurnsOk(states, events, j);
    if j < k {
      CommitEnds(states, events, j, k - 1);
      RunInv(states, events, k - 1);
      TurnsOk(states, events, k - 1);
      assert Follows(states, events, k - 1);
      CommitWorks(states[k - 1], events[k - 1]);
    }
  }

  /** What a process can do next with a handle: nothing but a lock that somebody holds,
      a full log or a full cache stops it. */
  lemma {:induction false} ProcessGoesOn(s: Sys, h: nat, bn: nat) returns (ev: Event)
    requires Inv(s) && 2 <= h < |s.handles|
    requires s.handles[h].Away? ==> bn < |s.disk| && !InLog(s.r, bn)
    ensures match s.handles[h]
            case Away => ev.Get? && ev.h == h && ev.bn == bn
            case Wants(_, _) => ev == Lock(h)
            case Has(b, _, e) =>
              b < |s.bufs| && ev == if !s.bufs[b].valid then Load(h) else if e == NOBODY then Unlock(h) else LogWrite(h)
            case Leaves(_) => ev == Drop(h)
    ensures CanHappen(s, ev) <==>
              match s.handles[h]
              case Away => HasFree(s.bufs) || !Absent(s.bufs, ROOTDEV, bn)
              case Wants(b, _) => b < |s.bufs| && !s.bufs[b].locked
              case Has(_, _, e) => e == NOBODY || (|s.homes| < LOGSIZE && |s.homes| < s.r.size - 1)
              case Leaves(_) => true
  {
    assert HandleOk(s, h);
    match s.handles[h]
    case Away =>
      if !Absent(s.bufs, ROOTDEV, bn) {
        var b :| 0 <= b < |s.bufs| && Names(s.bufs[b], ROOTDEV, bn);
        ev := Get(h, bn, b);
      } else if HasFree(s.bufs) {
        var b :| 0 <= b < |s.bufs| && Free(s.bufs[b]);
        ev := Get(h, bn, b);
      } else {
        ev := Get(h, bn, 0);
      }
    case Wants(_, _) => ev := Lock(h);
    case Has(b, _, e) =>
      ev := if !s.bufs[b].valid then Load(h) else if e == NOBODY then Unlock(h) else LogWrite(h);
    case Leaves(b) =>
      ev := Drop(h);
      assert CountOk(s, b);
      UserCounts(s.handles, h, b);
  }

  /** The steps from where the process is in its use of the block until it has let go. */
  function UseWork(s: Sys, h: nat): nat
    requires h < |s.handles|
  {
    match s.handles[h]
    case Away => 0
    case Leaves(_) => 1
    case Has(b, _, e) => if b < |s.bufs| && !s.bufs[b].valid then 4 else if e == NOBODY then 2 else 3
    case Wants(_, _) => 5
  }

  /** Each of these steps brings the process nearer to letting go; only a new change takes it back. */
  lemma {:induction false} UseEnds(s: Sys, ev: Event)
    requires Inv(s) && CanHappen(s, ev)
    requires ev.Lock? || ev.Load? || ev.LogWrite? || ev.Unlock? || ev.Drop?
    ensures ev.h < |s.handles| == |After(s, ev).handles| && UseWork(After(s, ev), ev.h) < UseWork(s, ev.h)
  {
    hide DiskOk;
    assert HandleOk(s, ev.h);
  }

  /** An operation may change any block it has locked, and may end once it has logged all
      that it changed. */
  lemma {:induction false} OperationGoesOn(s: Sys, e: nat, h: nat, data: Block)
    requires Inv(s) && e in s.ops
    ensures CanHappen(s, EndOp(e)) <==>
              forall g :: 0 <= g < |s.handles| && s.handles[g].Has? ==> s.handles[g].editor != e
    ensures 2 <= h < |s.handles| && Ready(s, h) && s.handles[h].editor == NOBODY ==> CanHappen(s, Edit(h, e, data))
  {
  }
}
