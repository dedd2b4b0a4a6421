/** The log and the cache under concurrency: a state machine in which any number of
    processes read blocks, operations change and log them, and the last operation out
    commits, with every process free to move between any two steps of the commit. */
module LogRun {
  import opened BufferCache
  import opened CrashSafety
  import opened Finite

  const NOBODY := -1

  /** What one bread of a process has reached: the buffer referenced, then locked, then
      unlocked again and still referenced.  editor is the operation that has changed
      the data and not yet called log_write. */
  datatype Handle =
    | Away
    | Wants(b: nat, bn: nat)
    | Has(b: nat, bn: nat, editor: int)
    | Leaves(b: nat)

  /** Where the commit is; done tells whether the disk write of this turn has happened. */
  datatype Stage = Running | Log(k: nat, done: bool) | Head(done: bool) | Install(k: nat, done: bool)
    | Clear(done: bool)

  /** Handles 0 and 1 belong to the committing process.  contents is what the blocks
      outside the log hold for the operations: the latest that was logged; durable is
      what they held at the last commit. */
  datatype Sys = Sys(r: Region, bufs: seq<Buf>, disk: seq<Block>, handles: seq<Handle>, ops: set<nat>,
                     homes: seq<int>, stage: Stage, contents: seq<Block>, durable: seq<Block>)

  // --- Steps ----------------------------------------------------------------------------

  datatype Event =
    | BeginOp(e: nat) | BeginWaits | EndOp(e: nat)
    | Get(h: nat, bn: nat, b: nat) | Lock(h: nat) | Load(h: nat) | Edit(h: nat, e: nat, data: Block) | LogWrite(h: nat)
    | Unlock(h: nat) | Drop(h: nat)
    | WriteOut | Next

  /** begin_op's test. */
  predicate Admits(s: Sys) {
    s.stage.Running? && |s.homes| + (|s.ops| + 1) * MAXOPBLOCKS <= LOGSIZE
  }

  /** The block that a bread with handle h may be for: anything outside the log for
      processes; for the commit, the two blocks of its turn. */
  predicate Aim(s: Sys, h: nat, bn: nat) {
    if h >= 2 then bn < |s.disk| && !InLog(s.r, bn)
    else
      match s.stage
      case Running => false
      case Log(k, _) => k < |s.homes| && bn == if h == 0 then s.r.start + k + 1 else s.homes[k]
      case Install(k, _) => k < |s.homes| && bn == if h == 0 then s.r.start + k + 1 else s.homes[k]
      case Head(_) => h == 0 && bn == s.r.start
      case Clear(_) => h == 0 && bn == s.r.start
  }

  predicate Done(s: Sys) { !s.stage.Running? && s.stage.done }

  predicate Ready(s: Sys, h: nat)
    requires h < |s.handles|
  {
    s.handles[h].Has? && s.handles[h].b < |s.bufs| && s.bufs[s.handles[h].b].valid
  }

  /** Needs two blocks in this turn. */
  predicate Copies(s: Sys) { s.stage.Log? || s.stage.Install? }

  ghost predicate CanHappen(s: Sys, ev: Event) {
    |s.handles| >= 2 &&
    match ev
    case BeginOp(e) => Admits(s) && e !in s.ops
    case BeginWaits => !Admits(s)
    case EndOp(e) => e in s.ops && forall h :: 0 <= h < |s.handles| && s.handles[h].Has? ==> s.handles[h].editor != e
    case Get(h, bn, b) =>
      h < |s.handles| && s.handles[h].Away? && Aim(s, h, bn) && bn < |s.disk| && (h < 2 ==> !Done(s))
          && CanGet(s.bufs, b, ROOTDEV, bn)
    case Lock(h) => h < |s.handles| && s.handles[h].Wants? && s.handles[h].b < |s.bufs|
        && !s.bufs[s.handles[h].b].locked
    case Load(h) =>
      && h < |s.handles| && s.handles[h].Has? && s.handles[h].b < |s.bufs| && s.handles[h].bn < |s.disk|
      && !s.bufs[s.handles[h].b].valid
    case Edit(h, e, _) => 2 <= h < |s.handles| && Ready(s, h) && e in s.ops
        && (s.handles[h].editor == NOBODY || s.handles[h].editor == e)
    // The guards are panics in the original.
    case LogWrite(h) =>
      && 2 <= h < |s.handles| && Ready(s, h) && s.handles[h].editor != NOBODY && s.handles[h].bn < |s.contents|
      && |s.homes| < LOGSIZE && |s.homes| < s.r.size - 1
    case Unlock(h) =>
      && h < |s.handles| && s.handles[h].Has? && s.handles[h].b < |s.bufs| && s.handles[h].editor == NOBODY
      && if h < 2 then Done(s) else s.bufs[s.handles[h].b].valid
    case Drop(h) => h < |s.handles| && s.handles[h].Leaves? && s.handles[h].b < |s.bufs|
        && s.bufs[s.handles[h].b].refcnt > 0
    case WriteOut =>
      && !s.stage.Running? && !s.stage.done && Ready(s, 0) && s.handles[0].bn < |s.disk|
      && (Copies(s) ==> Ready(s, 1) && s.handles[1].bn < |s.disk|) && |s.homes| <= LOGSIZE
    case Next => Done(s) && s.handles[0].Away? && s.handles[1].Away?
  }

  function Moved(s: Sys, h: nat, hd: Handle, b: nat, to: Buf): Sys
    requires h < |s.handles| && b < |s.bufs|
  {
    s.(handles := s.handles[h := hd], bufs := s.bufs[b := to])
  }

  ghost function After(s: Sys, ev: Event): Sys
    requires CanHappen(s, ev)
  {
    match ev
    case BeginOp(e) => s.(ops := s.ops + {e})
    case BeginWaits => s
    case EndOp(e) =>
      s.(ops := s.ops - {e}, stage := if s.ops == {e} && s.homes != [] then Log(0, false) else s.stage)
    case Get(h, bn, b) => Moved(s, h, Wants(b, bn), b, Gotten(s.bufs, b, ROOTDEV, bn))
    case Lock(h) =>
      var b := s.handles[h].b;
      Moved(s, h, Has(b, s.handles[h].bn, NOBODY), b, s.bufs[b].(locked := true))
    case Load(h) =>
      var b := s.handles[h].b;
      Moved(s, h, s.handles[h], b, s.bufs[b].(valid := true, data := s.disk[s.handles[h].bn]))
    case Edit(h, e, data) =>
      var b := s.handles[h].b;
      Moved(s, h, s.handles[h].(editor := e), b, s.bufs[b].(data := data))
    case LogWrite(h) => LogWritten(s, h)
    case Unlock(h) =>
      var b := s.handles[h].b;
      Moved(s, h, Leaves(b), b, s.bufs[b].(locked := false))
    case Drop(h) =>
      var b := s.handles[h].b;
      Moved(s, h, Away, b, s.bufs[b].(refcnt := s.bufs[b].refcnt - 1))
    case WriteOut => Written(s)
    case Next => Advanced(s)
  }

  /** log_write: the block is recorded, once, and pinned; from now on it is the latest. */
  function LogWritten(s: Sys, h: nat): Sys
    requires h < |s.handles| && Ready(s, h) && s.handles[h].bn < |s.contents|
  {
    var b, bn := s.handles[h].b, s.handles[h].bn;
    Moved(s, h, s.handles[h].(editor := NOBODY), b, s.bufs[b].(dirty := true))
      .(homes := if bn in s.homes then s.homes else s.homes + [bn], contents := s.contents[bn := s.bufs[b].data])
  }

  /** memmove and bwrite: nobody else can see the locked buffer in between. */
  function Written(s: Sys): Sys
    requires |s.handles| >= 2 && !s.stage.Running? && Ready(s, 0) && s.handles[0].bn < |s.disk| && |s.homes| <= LOGSIZE
    requires Copies(s) ==> Ready(s, 1) && s.handles[1].bn < |s.disk|
  {
    var b0 := s.handles[0].b;
    match s.stage
    case Running => s
    case Log(k, _) => WrittenTo(s, b0, s.handles[0].bn, s.bufs[s.handles[1].b].data).(stage := Log(k, true))
    case Head(_) =>
      WrittenTo(s, b0, s.handles[0].bn, Header(s.bufs[b0].data, s.homes)).(stage := Head(true), durable := s.contents)
    case Install(k, _) => WrittenTo(s, s.handles[1].b, s.handles[1].bn, s.bufs[b0].data).(stage := Install(k, true))
    case Clear(_) => WrittenTo(s, b0, s.handles[0].bn, Header(s.bufs[b0].data, s.homes)).(stage := Clear(true))
  }

  function WrittenTo(s: Sys, b: nat, bn: nat, data: Block): Sys
    requires b < |s.bufs| && bn < |s.disk|
  {
    s.(bufs := s.bufs[b := s.bufs[b].(dirty := false, data := data)], disk := s.disk[bn := data])
  }

  function Advanced(s: Sys): Sys {
    match s.stage
    case Running => s
    case Log(k, _) => s.(stage := if k + 1 < |s.homes| then Log(k + 1, false) else Head(false))
    case Head(_) => s.(stage := Install(0, false))
    case Install(k, _) =>
      if k + 1 < |s.homes| then s.(stage := Install(k + 1, false)) else s.(stage := Clear(false), homes := [])
    case Clear(_) => s.(stage := Running)
  }

  // --- What every step keeps ----------------------------------------------------------------

  predicate Uses(hd: Handle, b: nat) { !hd.Away? && hd.b == b }

  function Users(handles: seq<Handle>, b: nat): set<nat> {
    set h: nat | h < |handles| && Uses(handles[h], b)
  }

  /** The homes before this one are installed. */
  function FirstPending(s: Sys): nat {
    if s.stage.Install? then (if s.stage.done then s.stage.k + 1 else s.stage.k) else 0
  }

  /** The block's latest contents are not at home yet. */
  ghost predicate Pending(s: Sys, bn: int) {
    exists t :: FirstPending(s) <= t < |s.homes| && s.homes[t] == bn
  }

  ghost predicate EditedBy(s: Sys, h: int, b: nat) {
    0 <= h < |s.handles| && s.handles[h].Has? && s.handles[h].b == b && s.handles[h].editor != NOBODY
  }

  ghost predicate Edited(s: Sys, b: nat) {
    exists h :: EditedBy(s, h, b)
  }

  ghost predicate HeldBy(s: Sys, h: int, b: nat) {
    0 <= h < |s.handles| && s.handles[h].Has? && s.handles[h].b == b
  }

  ghost predicate Shape(s: Sys) {
    && |s.bufs| == NBUF && |s.handles| >= 2
    && 0 < s.r.size && s.r.start + s.r.size <= |s.disk| == |s.contents| == |s.durable|
    && HomesOk(s.homes, |s.disk|, s.r) && Distinct(s.homes)
    && (!s.stage.Running? ==> s.ops == {})
    && ((s.stage.Log? || s.stage.Install?) ==> s.stage.k < |s.homes|)
    && (s.stage.Head? ==> s.homes != []) && (s.stage.Clear? ==> s.homes == [])
  }

  ghost predicate CountOk(s: Sys, b: nat)
    requires b < |s.bufs|
  {
    && s.bufs[b].refcnt == |Users(s.handles, b)|
    && (s.bufs[b].locked ==> exists h :: HeldBy(s, h, b))
  }

  ghost predicate DataOk(s: Sys, b: nat)
    requires b < |s.bufs| && |s.contents| == |s.disk|
  {
    var o := s.bufs[b];
    && (o.valid ==> o.dev == ROOTDEV && o.blockno < |s.disk|)
    && (o.dirty ==> o.valid && Pending(s, o.blockno))
    && (o.valid && InLog(s.r, o.blockno) ==> o.data == s.disk[o.blockno])
    && (o.valid && !InLog(s.r, o.blockno) ==> o.data == s.contents[o.blockno] || Edited(s, b))
  }

  predicate HandleOk(s: Sys, h: nat)
    requires h < |s.handles| && |s.bufs| == NBUF
  {
    match s.handles[h]
    case Away => true
    case Wants(b, bn) => b < NBUF && Names(s.bufs[b], ROOTDEV, bn) && bn < |s.disk| && Aim(s, h, bn)
    case Has(b, bn, editor) =>
      && b < NBUF && Names(s.bufs[b], ROOTDEV, bn) && bn < |s.disk| && Aim(s, h, bn) && s.bufs[b].locked
      && (editor != NOBODY ==> 2 <= h && 0 <= editor && editor in s.ops && s.bufs[b].valid)
    case Leaves(b) => b < NBUF
  }

  predicate Apart(s: Sys, h: nat, g: nat)
    requires h < |s.handles| && g < |s.handles|
  {
    h != g && s.handles[h].Has? && s.handles[g].Has? ==> s.handles[h].b != s.handles[g].b
  }

  ghost predicate CacheOk(s: Sys)
    requires |s.bufs| == NBUF && |s.contents| == |s.disk|
  {
    && (forall i, j {:trigger Clash(s.bufs, i, j)} :: 0 <= i < NBUF && 0 <= j < NBUF ==> !Clash(s.bufs, i, j))
    && (forall b {:trigger CountOk(s, b)} :: 0 <= b < NBUF ==> CountOk(s, b))
    && (forall b {:trigger DataOk(s, b)} :: 0 <= b < NBUF ==> DataOk(s, b))
    && (forall h {:trigger HandleOk(s, h)} :: 0 <= h < |s.handles| ==> HandleOk(s, h))
    && (forall h, g {:trigger Apart(s, h, g)} :: 0 <= h < |s.handles| && 0 <= g < |s.handles| ==> Apart(s, h, g))
    && (forall t {:trigger s.homes[t]} :: FirstPending(s) <= t < |s.homes| ==> Pinned(s.bufs, s.homes[t]))
  }

  /** Recovering the disk gives durable: the header names log blocks that hold it, and
      every other block holds it already. */
  ghost predicate RedoOk(disk: seq<Block>, durable: seq<Block>, r: Region) {
    && |durable| == |disk| && LogFormed(disk, r) && Distinct(Homes(disk, r))
    && (forall t {:trigger Homes(disk, r)[t]} :: 0 <= t < Count(disk, r) ==>
          disk[r.start + t + 1] == durable[Homes(disk, r)[t]])
    && (forall bn {:trigger disk[bn]} ::
          0 <= bn < |disk| && !InLog(r, bn) && bn !in Homes(disk, r) ==> disk[bn] == durable[bn])
  }

  /** The first n log blocks hold the latest contents. */
  ghost predicate InTheLog(s: Sys, n: nat)
    requires Shape(s) && n <= |s.homes|
  {
    forall t {:trigger s.homes[t]} :: 0 <= t < n ==> s.disk[s.r.start + t + 1] == s.contents[s.homes[t]]
  }

  ghost predicate DiskOk(s: Sys)
    requires Shape(s)
  {
    && RedoOk(s.disk, s.durable, s.r)
    && (forall bn {:trigger s.disk[bn]} ::
          0 <= bn < |s.disk| && !InLog(s.r, bn) && !Pending(s, bn) ==> s.disk[bn] == s.contents[bn])
    && match s.stage
       case Running => Count(s.disk, s.r) == 0 && (s.homes == [] ==> s.durable == s.contents)
       case Log(k, done) => Count(s.disk, s.r) == 0 && InTheLog(s, if done then k + 1 else k)
       case Head(done) =>
         if done then Homes(s.disk, s.r) == s.homes && s.durable == s.contents
         else Count(s.disk, s.r) == 0 && InTheLog(s, |s.homes|)
       case Install(_, _) => Homes(s.disk, s.r) == s.homes && s.durable == s.contents
       case Clear(done) => s.durable == s.contents && (done ==> Count(s.disk, s.r) == 0)
  }

  ghost predicate Inv(s: Sys) {
    Shape(s) && CacheOk(s) && DiskOk(s)
  }

  // --- Counting users -------------------------------------------------------------------------

  lemma {:induction false} UsersMoved(handles: seq<Handle>, h: nat, hd: Handle, b: nat)
    requires h < |handles|
    ensures |Users(handles[h := hd], b)|
            == |Users(handles, b)| - (if Uses(handles[h], b) then 1 else 0) + (if Uses(hd, b) then 1 else 0)
  {
    var before, after := Users(handles, b), Users(handles[h := hd], b);
    var rest := before - {h};
    assert after - {h} == rest;
    assert Uses(handles[h], b) ==> before == rest + {h};
    assert !Uses(handles[h], b) ==> before == rest;
    assert Uses(hd, b) ==> after == rest + {h};
    assert !Uses(hd, b) ==> after == rest;
  }

  lemma {:induction false} UserCounts(handles: seq<Handle>, h: nat, b: nat)
    requires h < |handles| && Uses(handles[h], b)
    ensures |Users(handles, b)| > 0
  {
    assert h in Users(handles, b);
  }

  // --- Steps of one handle and its buffer -------------------------------------------------------

  /** Handle h moves on and its buffer b becomes to, which keeps its block, or gets a new
      one that no buffer holds while nobody uses it. */
  ghost predicate MoveOk(s: Sys, h: nat, hd: Handle, b: nat, to: Buf) {
    && Inv(s) && h < |s.handles| && b < NBUF
    && (s.handles[h].Away? || s.handles[h].b == b) && (hd.Away? || hd.b == b)
    && to.refcnt == s.bufs[b].refcnt - (if s.handles[h].Away? then 0 else 1) + (if hd.Away? then 0 else 1)
    && to.dirty == s.bufs[b].dirty
    && (|| (Names(to, s.bufs[b].dev, s.bufs[b].blockno) && (s.bufs[b].valid ==> to.valid))
        || (Free(s.bufs[b]) && Absent(s.bufs, to.dev, to.blockno)))
    && to.locked == (if hd.Has? then true else if s.handles[h].Has? then false else s.bufs[b].locked)
    && (hd.Has? && !s.handles[h].Has? ==> !s.bufs[b].locked)
  }

  lemma {:induction false} MoveCounts(s: Sys, h: nat, hd: Handle, b: nat, to: Buf, c: nat)
    requires MoveOk(s, h, hd, b, to) && c < NBUF
    ensures CountOk(Moved(s, h, hd, b, to), c)
  {
    var s1 := Moved(s, h, hd, b, to);
    assert CountOk(s, c);
    UsersMoved(s.handles, h, hd, c);
    if s1.bufs[c].locked {
      if c == b && hd.Has? {
        assert HeldBy(s1, h, c);
      } else {
        assert s.bufs[c].locked;
        var g :| HeldBy(s, g, c);
        assert g != h ==> HeldBy(s1, g, c);
      }
    }
  }

  lemma {:induction false} MoveHandles(s: Sys, h: nat, hd: Handle, b: nat, to: Buf, g: nat)
    requires MoveOk(s, h, hd, b, to) && g < |s.handles| && g != h
    ensures HandleOk(Moved(s, h, hd, b, to), g)
  {
    assert HandleOk(s, g) && CountOk(s, b) && Apart(s, g, h);
    if Uses(s.handles[g], b) {
      UserCounts(s.handles, g, b);
    }
  }

  lemma {:induction false} MoveData(s: Sys, h: nat, hd: Handle, b: nat, to: Buf, c: nat)
    requires MoveOk(s, h, hd, b, to) && c < NBUF && c != b
    ensures DataOk(Moved(s, h, hd, b, to), c)
  {
    var s1 := Moved(s, h, hd, b, to);
    assert DataOk(s, c);
    assert Pending(s, s.bufs[c].blockno) ==> Pending(s1, s.bufs[c].blockno) by {
      if Pending(s, s.bufs[c].blockno) {
        var t :| FirstPending(s) <= t < |s.homes| && s.homes[t] == s.bufs[c].blockno;
        assert s1.homes[t] == s.bufs[c].blockno;
      }
    }
    if Edited(s, c) {
      var g :| EditedBy(s, g, c);
      assert EditedBy(s1, g, c);
    }
  }

  lemma {:induction false} MoveClash(s: Sys, h: nat, hd: Handle, b: nat, to: Buf, i: nat, j: nat)
    requires MoveOk(s, h, hd, b, to) && i < NBUF && j < NBUF
    ensures !Clash(Moved(s, h, hd, b, to).bufs, i, j)
  {
    assert !Clash(s.bufs, i, j);
  }

  lemma {:induction false} MovePins(s: Sys, h: nat, hd: Handle, b: nat, to: Buf, t: nat)
    requires MoveOk(s, h, hd, b, to) && FirstPending(s) <= t < |s.homes|
    ensures Pinned(Moved(s, h, hd, b, to).bufs, s.homes[t])
  {
    assert Pinned(s.bufs, s.homes[t]);
    var i :| 0 <= i < |s.bufs| && s.bufs[i].dev == ROOTDEV && s.bufs[i].blockno == s.homes[t] && s.bufs[i].dirty;
    var bufs1 := Moved(s, h, hd, b, to).bufs;
    assert bufs1[i].dev == ROOTDEV && bufs1[i].blockno == s.homes[t] && bufs1[i].dirty;
  }

  lemma {:induction false} MoveDisk(s: Sys, h: nat, hd: Handle, b: nat, to: Buf)
    requires MoveOk(s, h, hd, b, to)
    ensures Shape(Moved(s, h, hd, b, to)) && DiskOk(Moved(s, h, hd, b, to))
  {
    var s1 := Moved(s, h, hd, b, to);
    assert forall bn :: Pending(s, bn) ==> Pending(s1, bn);
  }

  /** Such a move keeps the invariant if it is right for the handle and the buffer themselves. */
  lemma {:induction false} MoveKeeps(s: Sys, h: nat, hd: Handle, b: nat, to: Buf)
    requires MoveOk(s, h, hd, b, to)
    requires var s1 := Moved(s, h, hd, b, to); HandleOk(s1, h) && DataOk(s1, b)
    ensures Inv(Moved(s, h, hd, b, to))
  {
    var s1 := Moved(s, h, hd, b, to);
    MoveDisk(s, h, hd, b, to);
    forall i, j | 0 <= i < NBUF && 0 <= j < NBUF
      ensures !Clash(s1.bufs, i, j)
    {
      MoveClash(s, h, hd, b, to, i, j);
    }
    forall c | 0 <= c < NBUF
      ensures CountOk(s1, c) && DataOk(s1, c)
    {
      MoveCounts(s, h, hd, b, to, c);
      if c != b {
        MoveData(s, h, hd, b, to, c);
      }
    }
    forall g | 0 <= g < |s1.handles|
      ensures HandleOk(s1, g)
    {
      if g != h {
        MoveHandles(s, h, hd, b, to, g);
      }
    }
    forall g, f | 0 <= g < |s1.handles| && 0 <= f < |s1.handles|
      ensures Apart(s1, g, f)
    {
      assert Apart(s, g, f) && HandleOk(s, g) && HandleOk(s, f);
    }
    forall t | FirstPending(s1) <= t < |s1.homes|
      ensures Pinned(s1.bufs, s1.homes[t])
    {
      MovePins(s, h, hd, b, to, t);
    }
  }

  lemma {:induction false} SamePending(s: Sys, s1: Sys, bn: int)
    requires s1.homes == s.homes && FirstPending(s1) == FirstPending(s)
    ensures Pending(s1, bn) <==> Pending(s, bn)
  {
  }

  /** Edits under way in a buffer that handle h leaves alone, or goes on editing. */
  lemma {:induction false} EditsKept(s: Sys, s1: Sys, h: nat, b: nat)
    requires |s.handles| == |s1.handles|
             && (forall g :: 0 <= g < |s.handles| && g != h ==> s1.handles[g] == s.handles[g])
    requires EditedBy(s, h, b) ==> EditedBy(s1, h, b)
    ensures Edited(s, b) ==> Edited(s1, b)
  {
    if Edited(s, b) {
      var g :| EditedBy(s, g, b);
      assert EditedBy(s1, g, b);
    }
  }

  lemma {:induction false} GetKeeps(s: Sys, ev: Event)
    requires Inv(s) && ev.Get? && CanHappen(s, ev)
    ensures Inv(After(s, ev))
  {
    var h, bn, b := ev.h, ev.bn, ev.b;
    var to := Gotten(s.bufs, b, ROOTDEV, bn);
    var s1 := Moved(s, h, Wants(b, bn), b, to);
    assert MoveOk(s, h, Wants(b, bn), b, to) by {
      assert DataOk(s, b) && CountOk(s, b);
      if s.bufs[b].refcnt == 0 && s.bufs[b].locked {
        var g :| HeldBy(s, g, b);
        UserCounts(s.handles, g, b);
      }
    }
    assert DataOk(s, b);
    SamePending(s, s1, s.bufs[b].blockno);
    EditsKept(s, s1, h, b);
    MoveKeeps(s, h, Wants(b, bn), b, to);
  }

  lemma {:induction false} LockKeeps(s: Sys, ev: Event)
    requires Inv(s) && ev.Lock? && CanHappen(s, ev)
    ensures Inv(After(s, ev))
  {
    var h, b := ev.h, s.handles[ev.h].b;
    var hd, to := Has(b, s.handles[h].bn, NOBODY), s.bufs[b].(locked := true);
    var s1 := Moved(s, h, hd, b, to);
    assert HandleOk(s, h) && DataOk(s, b);
    SamePending(s, s1, s.bufs[b].blockno);
    EditsKept(s, s1, h, b);
    MoveKeeps(s, h, hd, b, to);
  }

  /** The buffer of a block that is not home yet is the one that pins it. */
  lemma {:induction false} PendingIsDirty(s: Sys, b: nat, bn: nat)
    requires Inv(s) && b < NBUF && Names(s.bufs[b], ROOTDEV, bn) && Pending(s, bn)
    ensures s.bufs[b].dirty && s.bufs[b].valid
  {
    var t :| FirstPending(s) <= t < |s.homes| && s.homes[t] == bn;
    assert Pinned(s.bufs, s.homes[t]);
    var i :| 0 <= i < |s.bufs| && s.bufs[i].dev == ROOTDEV && s.bufs[i].blockno == bn && s.bufs[i].dirty;
    assert DataOk(s, i) && !Clash(s.bufs, i, b);
  }

  lemma {:induction false} EditorInOps(s: Sys, h: nat, b: nat)
    requires Inv(s) && EditedBy(s, h, b)
    ensures s.handles[h].editor in s.ops
  {
    assert HandleOk(s, h);
  }

  lemma {:induction false} LoadKeeps(s: Sys, ev: Event)
    requires Inv(s) && ev.Load? && CanHappen(s, ev)
    ensures Inv(After(s, ev))
  {
    var h, hd, b := ev.h, s.handles[ev.h], s.handles[ev.h].b;
    var to := s.bufs[b].(valid := true, data := s.disk[hd.bn]);
    var s1 := Moved(s, h, hd, b, to);
    assert HandleOk(s, h) && DataOk(s, b);
    if Pending(s, hd.bn) {
      PendingIsDirty(s, b, hd.bn);
    }
    SamePending(s, s1, hd.bn);
    MoveKeeps(s, h, hd, b, to);
  }

  lemma {:induction false} EditKeeps(s: Sys, ev: Event)
    requires Inv(s) && ev.Edit? && CanHappen(s, ev)
    ensures Inv(After(s, ev))
  {
    var h, b := ev.h, s.handles[ev.h].b;
    var hd, to := s.handles[h].(editor := ev.e), s.bufs[b].(data := ev.data);
    var s1 := Moved(s, h, hd, b, to);
    assert HandleOk(s, h) && DataOk(s, b);
    assert EditedBy(s1, h, b);
    SamePending(s, s1, s.bufs[b].blockno);
    MoveKeeps(s, h, hd, b, to);
  }

  /** Who has the buffer locked is the only one who can be editing it. */
  lemma {:induction false} HolderEdits(s: Sys, h: nat, b: nat)
    requires Inv(s) && HeldBy(s, h, b) && b < NBUF
    ensures Edited(s, b) <==> EditedBy(s, h, b)
  {
    if Edited(s, b) {
      var g :| EditedBy(s, g, b);
      assert Apart(s, g, h);
    }
  }

  lemma {:induction false} UnlockKeeps(s: Sys, ev: Event)
    requires Inv(s) && ev.Unlock? && CanHappen(s, ev)
    ensures Inv(After(s, ev))
  {
    var h, b := ev.h, s.handles[ev.h].b;
    var to := s.bufs[b].(locked := false);
    var s1 := Moved(s, h, Leaves(b), b, to);
    assert HandleOk(s, h) && DataOk(s, b);
    HolderEdits(s, h, b);
    SamePending(s, s1, s.bufs[b].blockno);
    MoveKeeps(s, h, Leaves(b), b, to);
  }

  lemma {:induction false} DropKeeps(s: Sys, ev: Event)
    requires Inv(s) && ev.Drop? && CanHappen(s, ev)
    ensures Inv(After(s, ev))
  {
    var h, b := ev.h, s.handles[ev.h].b;
    var to := s.bufs[b].(refcnt := s.bufs[b].refcnt - 1);
    var s1 := Moved(s, h, Away, b, to);
    assert HandleOk(s, h) && DataOk(s, b);
    SamePending(s, s1, s.bufs[b].blockno);
    EditsKept(s, s1, h, b);
    MoveKeeps(s, h, Away, b, to);
  }

  // --- Steps of the operations ----------------------------------------------------------------

  lemma {:induction false} OpsKeep(s: Sys, ev: Event)
    requires Inv(s) && (ev.BeginOp? || ev.BeginWaits? || ev.EndOp?) && CanHappen(s, ev)
    ensures Inv(After(s, ev))
  {
    var s1 := After(s, ev);
    forall b | 0 <= b < NBUF
      ensures CountOk(s1, b) && DataOk(s1, b)
    {
      assert CountOk(s, b) && DataOk(s, b);
      SamePending(s, s1, s.bufs[b].blockno);
      EditsKept(s, s1, |s.handles|, b);
      if s.bufs[b].locked {
        var h :| HeldBy(s, h, b);
        assert HeldBy(s1, h, b);
      }
    }
    forall h | 0 <= h < |s1.handles|
      ensures HandleOk(s1, h)
    {
      assert HandleOk(s, h);
    }
    forall h, g | 0 <= h < |s1.handles| && 0 <= g < |s1.handles|
      ensures Apart(s1, h, g)
    {
      assert Apart(s, h, g);
    }
    assert forall bn :: Pending(s, bn) ==> Pending(s1, bn);
  }

  lemma {:induction false} LogWriteShape(s: Sys, h: nat)
    requires Inv(s) && CanHappen(s, LogWrite(h))
    ensures var s1 := LogWritten(s, h);
            && Shape(s1) && s.stage.Running? && s.handles[h].b < NBUF
            && (forall bn :: Pending(s, bn) ==> Pending(s1, bn)) && Pending(s1, s.handles[h].bn)
            && Names(s.bufs[s.handles[h].b], ROOTDEV, s.handles[h].bn)
            && !InLog(s.r, s.handles[h].bn) && s.handles[h].bn < |s.disk|
  {
    assert HandleOk(s, h);
    var s1, bn := LogWritten(s, h), s.handles[h].bn;
    forall x | Pending(s, x)
      ensures Pending(s1, x)
    {
      var t :| FirstPending(s) <= t < |s.homes| && s.homes[t] == x;
      assert s1.homes[t] == x;
    }
    if bn in s.homes {
      var t :| 0 <= t < |s.homes| && s.homes[t] == bn;
      assert s1.homes[t] == bn;
    } else {
      assert s1.homes[|s.homes|] == bn;
    }
  }

  lemma {:induction false} LogWriteData(s: Sys, h: nat, c: nat)
    requires Inv(s) && CanHappen(s, LogWrite(h)) && c < NBUF
    ensures |LogWritten(s, h).contents| == |s.disk| && |LogWritten(s, h).bufs| == NBUF
    ensures CountOk(LogWritten(s, h), c) && DataOk(LogWritten(s, h), c)
  {
    LogWriteShape(s, h);
    var s1, b := LogWritten(s, h), s.handles[h].b;
    assert CountOk(s, c) && DataOk(s, c) && DataOk(s, b) && !Clash(s.bufs, b, c);
    UsersMoved(s.handles, h, s1.handles[h], c);
    if s.bufs[c].locked {
      var g :| HeldBy(s, g, c);
      assert HeldBy(s1, g, c);
    }
    if c != b {
      EditsKept(s, s1, h, c);
    }
  }

  lemma {:induction false} LogWriteKeeps(s: Sys, ev: Event)
    requires Inv(s) && ev.LogWrite? && CanHappen(s, ev)
    ensures Inv(After(s, ev))
  {
    var h, s1 := ev.h, LogWritten(s, ev.h);
    LogWriteShape(s, h);
    forall c | 0 <= c < NBUF
      ensures CountOk(s1, c) && DataOk(s1, c)
    {
      LogWriteData(s, h, c);
    }
    forall i, j | 0 <= i < NBUF && 0 <= j < NBUF
      ensures !Clash(s1.bufs, i, j)
    {
      assert !Clash(s.bufs, i, j);
    }
    forall g | 0 <= g < |s1.handles|
      ensures HandleOk(s1, g)
    {
      assert HandleOk(s, g);
    }
    forall g, f | 0 <= g < |s1.handles| && 0 <= f < |s1.handles|
      ensures Apart(s1, g, f)
    {
      assert Apart(s, g, f);
    }
    LogWritePins(s, h);
  }

  lemma {:induction false} LogWritePins(s: Sys, h: nat)
    requires Inv(s) && CanHappen(s, LogWrite(h)) && s.handles[h].b < NBUF
    requires Names(s.bufs[s.handles[h].b], ROOTDEV, s.handles[h].bn)
    ensures var s1 := LogWritten(s, h);
            forall t {:trigger s1.homes[t]} :: FirstPending(s) <= t < |s1.homes| ==> Pinned(s1.bufs, s1.homes[t])
  {
    var s1, b := LogWritten(s, h), s.handles[h].b;
    forall t | FirstPending(s) <= t < |s1.homes|
      ensures Pinned(s1.bufs, s1.homes[t])
    {
      if t < |s.homes| {
        assert Pinned(s.bufs, s.homes[t]);
        var i :| 0 <= i < |s.bufs| && s.bufs[i].dev == ROOTDEV && s.bufs[i].blockno == s.homes[t] && s.bufs[i].dirty;
        assert s1.bufs[i].dirty && s1.bufs[i].dev == ROOTDEV && s1.bufs[i].blockno == s.homes[t];
      } else {
        assert s1.bufs[b].dirty && s1.bufs[b].dev == ROOTDEV && s1.bufs[b].blockno == s1.homes[t];
      }
    }
  }

  // --- Steps of the commit ----------------------------------------------------------------------

  /** The committing process writes the buffer b of block bn, which it has locked. */
  ghost predicate WriteOk(s: Sys, s1: Sys, b: nat, bn: nat, data: Block) {
    && Inv(s) && Shape(s1) && b < NBUF && bn < |s.disk|
    && Names(s.bufs[b], ROOTDEV, bn) && s.bufs[b].valid && s.ops == {}
    && s1 == WrittenTo(s, b, bn, data).(stage := s1.stage, durable := s1.durable)
    && (InLog(s.r, bn) || data == s.contents[bn])
    && (forall h, x: nat :: h < 2 && Aim(s, h, x) ==> Aim(s1, h, x))
    && FirstPending(s) <= FirstPending(s1)
    && (forall t :: FirstPending(s1) <= t < |s.homes| ==> s.homes[t] != bn)
    && (forall t :: FirstPending(s) <= t < FirstPending(s1) ==> s.homes[t] == bn)
  }

  lemma {:induction false} WriteData(s: Sys, s1: Sys, b: nat, bn: nat, data: Block, c: nat)
    requires WriteOk(s, s1, b, bn, data) && c < NBUF
    ensures CountOk(s1, c) && DataOk(s1, c)
  {
    assert CountOk(s, c) && DataOk(s, c) && !Clash(s.bufs, c, b);
    if s.bufs[c].locked {
      var g :| HeldBy(s, g, c);
      assert HeldBy(s1, g, c);
    }
    if c != b {
      EditsKept(s, s1, |s.handles|, c);
      if s.bufs[c].dirty {
        var t :| FirstPending(s) <= t < |s.homes| && s.homes[t] == s.bufs[c].blockno;
        assert s1.homes[t] == s.bufs[c].blockno;
      }
    }
  }

  lemma {:induction false} WritePins(s: Sys, s1: Sys, b: nat, bn: nat, data: Block, t: nat)
    requires WriteOk(s, s1, b, bn, data) && FirstPending(s1) <= t < |s1.homes|
    ensures Pinned(s1.bufs, s1.homes[t])
  {
    assert Pinned(s.bufs, s.homes[t]);
    var i :| 0 <= i < |s.bufs| && s.bufs[i].dev == ROOTDEV && s.bufs[i].blockno == s.homes[t] && s.bufs[i].dirty;
    assert i != b;
    assert s1.bufs[i].dirty && s1.bufs[i].dev == ROOTDEV && s1.bufs[i].blockno == s1.homes[t];
  }

  lemma {:induction false} WriteKeepsCache(s: Sys, s1: Sys, b: nat, bn: nat, data: Block)
    requires WriteOk(s, s1, b, bn, data)
    ensures CacheOk(s1)
  {
    forall c | 0 <= c < NBUF
      ensures CountOk(s1, c) && DataOk(s1, c)
    {
      WriteData(s, s1, b, bn, data, c);
    }
    forall i, j | 0 <= i < NBUF && 0 <= j < NBUF
      ensures !Clash(s1.bufs, i, j)
    {
      assert !Clash(s.bufs, i, j);
    }
    forall g | 0 <= g < |s1.handles|
      ensures HandleOk(s1, g)
    {
      assert HandleOk(s, g);
    }
    forall g, f | 0 <= g < |s1.handles| && 0 <= f < |s1.handles|
      ensures Apart(s1, g, f)
    {
      assert Apart(s, g, f);
    }
    forall t | FirstPending(s1) <= t < |s1.homes|
      ensures Pinned(s1.bufs, s1.homes[t])
    {
      WritePins(s, s1, b, bn, data, t);
    }
  }

  /** During the commit a locked valid buffer has the latest contents, or those on disk. */
  lemma {:induction false} HeldData(s: Sys, h: nat)
    requires Inv(s) && !s.stage.Running? && h < |s.handles| && Ready(s, h)
    ensures var hd := s.handles[h];
            && hd.b < NBUF && hd.bn < |s.disk| && Names(s.bufs[hd.b], ROOTDEV, hd.bn) && Aim(s, h, hd.bn)
            && s.bufs[hd.b].data == if InLog(s.r, hd.bn) then s.disk[hd.bn] else s.contents[hd.bn]
  {
    var b := s.handles[h].b;
    assert HandleOk(s, h) && DataOk(s, b);
    if Edited(s, b) {
      var g :| EditedBy(s, g, b);
      EditorInOps(s, g, b);
    }
  }

  lemma {:induction false} LogWriteOut(s: Sys)
    requires Inv(s) && s.stage.Log? && CanHappen(s, WriteOut)
    ensures Inv(Written(s))
  {
    hide CountOk, DataOk, HandleOk, Apart, Clash;
    HeldData(s, 0);
    HeldData(s, 1);
    var s1, hd := Written(s), s.handles[0];
    var data := s.bufs[s.handles[1].b].data;
    assert InLog(s.r, hd.bn) && hd.bn != s.r.start;
    WriteKeepsCache(s, s1, hd.b, hd.bn, data);
    assert forall bn :: Pending(s, bn) ==> Pending(s1, bn);
  }

  lemma {:induction false} HeadCache(s: Sys)
    requires Inv(s) && s.stage.Head? && CanHappen(s, WriteOut) && Shape(Written(s))
    ensures CacheOk(Written(s))
  {
    HeldData(s, 0);
    assert InLog(s.r, s.handles[0].bn);
    WriteKeepsCache(s, Written(s), s.handles[0].b, s.handles[0].bn, Header(s.bufs[s.handles[0].b].data, s.homes));
  }

  lemma {:induction false} HeadRedo(s: Sys)
    requires Shape(s) && DiskOk(s) && s.stage == Head(false)
    ensures RedoOk(s.disk[s.r.start := Header(s.disk[s.r.start], s.homes)], s.contents, s.r)
  {
    HeaderOnDisk(s.disk, s.r, s.homes);
    forall bn | 0 <= bn < |s.disk| && !InLog(s.r, bn) && bn !in s.homes
      ensures s.disk[bn] == s.contents[bn]
    {
      assert !Pending(s, bn);
    }
  }

  /** The header write that commits. */
  lemma {:induction false} HeadWriteOut(s: Sys)
    requires Inv(s) && s.stage.Head? && CanHappen(s, WriteOut)
    ensures Inv(Written(s))
  {
    hide CountOk, DataOk, HandleOk, Apart, Clash, Header;
    HeldData(s, 0);
    assert InLog(s.r, s.handles[0].bn);
    assert Written(s).disk == s.disk[s.r.start := Header(s.disk[s.r.start], s.homes)];
    HeaderOnDisk(s.disk, s.r, s.homes);
    HeadRedo(s);
    HeadCache(s);
    assert forall bn :: Pending(s, bn) ==> Pending(Written(s), bn);
  }

  lemma {:induction false} HeaderOnDisk(disk: seq<Block>, r: Region, homes: seq<int>)
    requires 0 < r.size && r.start + r.size <= |disk| && HomesOk(homes, |disk|, r)
    ensures var d1 := disk[r.start := Header(disk[r.start], homes)];
            LogFormed(d1, r) && Count(d1, r) == |homes| && Homes(d1, r) == homes
  {
  }

  /** What the home gets is what the block is to hold. */
  lemma {:induction false} InstallData(s: Sys)
    requires Inv(s) && s.stage.Install? && CanHappen(s, WriteOut)
    ensures s.handles[1].bn == s.homes[s.stage.k] && Names(s.bufs[s.handles[1].b], ROOTDEV, s.handles[1].bn)
    ensures s.bufs[s.handles[0].b].data == s.contents[s.handles[1].bn]
  {
    HeldData(s, 0);
    HeldData(s, 1);
    assert InLog(s.r, s.handles[0].bn);
    assert Homes(s.disk, s.r)[s.stage.k] == s.homes[s.stage.k];
  }

  lemma {:induction false} InstallCache(s: Sys)
    requires Inv(s) && s.stage.Install? && CanHappen(s, WriteOut) && Shape(Written(s))
    ensures CacheOk(Written(s))
  {
    InstallData(s);
    WriteKeepsCache(s, Written(s), s.handles[1].b, s.handles[1].bn, s.bufs[s.handles[0].b].data);
  }

  lemma {:induction false} InstallRedo(s: Sys, bn: nat)
    requires Shape(s) && DiskOk(s) && s.stage.Install? && bn < |s.disk| && bn in s.homes
    ensures var d1 := s.disk[bn := s.contents[bn]];
            RedoOk(d1, s.durable, s.r) && Homes(d1, s.r) == s.homes
  {
    var d1 := s.disk[bn := s.contents[bn]];
    assert !InLog(s.r, bn) && Homes(d1, s.r) == Homes(s.disk, s.r);
  }

  lemma {:induction false} InstallPending(s: Sys, bn: int)
    requires Shape(s) && s.stage.Install? && !s.stage.done && Pending(s, bn) && bn != s.homes[s.stage.k]
    ensures Pending(s.(stage := Install(s.stage.k, true)), bn)
  {
    var t :| FirstPending(s) <= t < |s.homes| && s.homes[t] == bn;
  }

  /** The home block of this turn on disk, and counted as installed. */
  lemma {:induction false} InstallDisk(s: Sys, s1: Sys)
    requires Shape(s) && DiskOk(s) && s.stage.Install? && !s.stage.done
    requires var bn := s.homes[s.stage.k];
             s1 == s.(bufs := s1.bufs, disk := s.disk[bn := s.contents[bn]], stage := Install(s.stage.k, true))
                 && |s1.bufs| == NBUF
    ensures Shape(s1) && DiskOk(s1)
  {
    InstallRedo(s, s.homes[s.stage.k]);
    forall bn | 0 <= bn < |s1.disk| && !InLog(s1.r, bn) && !Pending(s1, bn)
      ensures s1.disk[bn] == s1.contents[bn]
    {
      if bn != s.homes[s.stage.k] && Pending(s, bn) {
        InstallPending(s, bn);
      }
    }
  }

  lemma {:induction false} InstallWriteOut(s: Sys)
    requires Inv(s) && s.stage.Install? && CanHappen(s, WriteOut)
    ensures Inv(Written(s))
  {
    hide CountOk, DataOk, HandleOk, Apart, Clash, DiskOk, Pending;
    InstallData(s);
    InstallDisk(s, Written(s));
    InstallCache(s);
  }

  lemma {:induction false} ClearWriteOut(s: Sys)
    requires Inv(s) && s.stage.Clear? && CanHappen(s, WriteOut)
    ensures Inv(Written(s))
  {
    HeldData(s, 0);
    var s1, hd := Written(s), s.handles[0];
    assert InLog(s.r, hd.bn);
    HeaderOnDisk(s.disk, s.r, []);
    WriteKeepsCache(s, s1, hd.b, hd.bn, Header(s.bufs[hd.b].data, s.homes));
  }

  lemma {:induction false} NextPending(s: Sys, bn: int)
    requires Inv(s) && CanHappen(s, Next)
    ensures Pending(Advanced(s), bn) <==> Pending(s, bn)
  {
    var s1 := Advanced(s);
    if Pending(s, bn) {
      var t :| FirstPending(s) <= t < |s.homes| && s.homes[t] == bn;
      assert s1.homes[t] == bn;
    }
    if Pending(s1, bn) {
      var t :| FirstPending(s1) <= t < |s1.homes| && s1.homes[t] == bn;
      assert s.homes[t] == bn;
    }
  }

  lemma {:induction false} NextDisk(s: Sys)
    requires Inv(s) && CanHappen(s, Next)
    ensures Shape(Advanced(s)) && DiskOk(Advanced(s))
  {
    hide CacheOk, Pending;
    forall bn
      ensures Pending(Advanced(s), bn) <==> Pending(s, bn)
    {
      NextPending(s, bn);
    }
  }

  lemma {:induction false} NextData(s: Sys, b: nat)
    requires Inv(s) && CanHappen(s, Next) && b < NBUF
    ensures CountOk(Advanced(s), b) && DataOk(Advanced(s), b)
  {
    var s1 := Advanced(s);
    assert CountOk(s, b) && DataOk(s, b);
    NextPending(s, s.bufs[b].blockno);
    EditsKept(s, s1, |s.handles|, b);
    if s.bufs[b].locked {
      var h :| HeldBy(s, h, b);
      assert HeldBy(s1, h, b);
    }
  }

  lemma {:induction false} NextPins(s: Sys)
    requires Inv(s) && CanHappen(s, Next)
    ensures var s1 := Advanced(s);
            forall t {:trigger s1.homes[t]} :: FirstPending(s1) <= t < |s1.homes| ==> Pinned(s1.bufs, s1.homes[t])
  {
    var s1 := Advanced(s);
    forall t | FirstPending(s1) <= t < |s1.homes|
      ensures Pinned(s1.bufs, s1.homes[t])
    {
      assert Pinned(s.bufs, s.homes[t]);
    }
  }

  lemma {:induction false} NextKeeps(s: Sys, ev: Event)
    requires Inv(s) && ev.Next? && CanHappen(s, ev)
    ensures Inv(After(s, ev))
  {
    hide CountOk, DataOk, DiskOk;
    var s1 := Advanced(s);
    NextDisk(s);
    NextPins(s);
    forall b | 0 <= b < NBUF
      ensures CountOk(s1, b) && DataOk(s1, b)
    {
      NextData(s, b);
    }
    forall h | 0 <= h < |s1.handles|
      ensures HandleOk(s1, h)
    {
      assert HandleOk(s, h);
    }
    forall h, g | 0 <= h < |s1.handles| && 0 <= g < |s1.handles|
      ensures Apart(s1, h, g)
    {
      assert Apart(s, h, g);
    }
  }

  /** Every step keeps the invariant. */
  lemma {:induction false} InvKept(s: Sys, ev: Event)
    requires Inv(s) && CanHappen(s, ev)
    ensures Inv(After(s, ev))
  {
    match ev
    case BeginOp(_) => OpsKeep(s, ev);
    case BeginWaits => OpsKeep(s, ev);
    case EndOp(_) => OpsKeep(s, ev);
    case Get(_, _, _) => GetKeeps(s, ev);
    case Lock(_) => LockKeeps(s, ev);
    case Load(_) => LoadKeeps(s, ev);
    case Edit(_, _, _) => EditKeeps(s, ev);
    case LogWrite(_) => LogWriteKeeps(s, ev);
    case Unlock(_) => UnlockKeeps(s, ev);
    case Drop(_) => DropKeeps(s, ev);
    case Next => NextKeeps(s, ev);
    case WriteOut =>
      match s.stage
      case Log(_, _) => LogWriteOut(s);
      case Head(_) => HeadWriteOut(s);
      case Install(_, _) => InstallWriteOut(s);
      case Clear(_) => ClearWriteOut(s);
  }

  // --- What a reader sees ------------------------------------------------------------------------

  /** A process that has a block locked and has not changed it holds the latest contents. */
  lemma {:induction false} ReaderSees(s: Sys, h: nat)
    requires Inv(s) && 2 <= h < |s.handles| && Ready(s, h) && s.handles[h].editor == NOBODY
    ensures var hd := s.handles[h];
            hd.bn < |s.contents| && Names(s.bufs[hd.b], ROOTDEV, hd.bn) && s.bufs[hd.b].data == s.contents[hd.bn]
  {
    var b := s.handles[h].b;
    assert HandleOk(s, h) && DataOk(s, b);
    HolderEdits(s, h, b);
  }

  /** The cache over the disk shows the latest contents of every block that is not being
      changed at this moment. */
  lemma {:induction false} ViewIsLatest(s: Sys, bn: nat)
    requires Inv(s) && bn < |s.disk| && !InLog(s.r, bn)
    requires forall b {:trigger Edited(s, b)} :: 0 <= b < NBUF && Names(s.bufs[b], ROOTDEV, bn) ==> !Edited(s, b)
    ensures View(s.bufs, s.disk, bn) == s.contents[bn]
  {
    var b := Holder(s.bufs, bn, 0);
    if b < NBUF {
      assert DataOk(s, b);
      if Pending(s, bn) {
        PendingIsDirty(s, b, bn);
      }
    } else {
      NotCached(s, bn);
    }
  }

  lemma {:induction false} NotCached(s: Sys, bn: nat)
    requires Inv(s) && Holder(s.bufs, bn, 0) == NBUF
    ensures !Pending(s, bn)
  {
    forall t | FirstPending(s) <= t < |s.homes|
      ensures s.homes[t] != bn
    {
      assert Pinned(s.bufs, s.homes[t]);
      var i :| 0 <= i < |s.bufs| && s.bufs[i].dev == ROOTDEV && s.bufs[i].blockno == s.homes[t] && s.bufs[i].dirty;
      assert !Names(s.bufs[i], ROOTDEV, bn);
    }
  }

  lemma {:induction false} QuietView(s: Sys, bn: nat)
    requires Inv(s) && s.ops == {} && bn < |s.disk| && !InLog(s.r, bn)
    ensures View(s.bufs, s.disk, bn) == s.contents[bn]
  {
    forall b | 0 <= b < NBUF
      ensures !Edited(s, b)
    {
      if Edited(s, b) {
        var h :| EditedBy(s, h, b);
        EditorInOps(s, h, b);
      }
    }
    ViewIsLatest(s, bn);
  }

  /** While a commit is under way no operation begins, and nothing is changed or logged. */
  lemma {:induction false} NothingMeanwhile(s: Sys, ev: Event)
    requires Inv(s) && !s.stage.Running? && CanHappen(s, ev)
    ensures !Admits(s) && !ev.BeginOp? && !ev.EndOp? && !ev.Edit? && !ev.LogWrite?
    ensures var s1 := After(s, ev);
            && s1.ops == {} && s1.contents == s.contents
            && (s1.homes == s.homes || (s1.homes == [] && FirstPending(s) == |s.homes|))
  {
    if ev.LogWrite? {
      EditorInOps(s, ev.h, s.handles[ev.h].b);
    }
  }

  // --- Crashes ---------------------------------------------------------------------------------

  function Redone(disk: seq<Block>, r: Region, n: nat): (news: seq<Block>)
    requires r.start + n < |disk|
    ensures |news| == n && forall t :: 0 <= t < n ==> news[t] == disk[r.start + t + 1]
  {
    disk[r.start + 1..r.start + n + 1]
  }

  lemma {:induction false} RedoRecovers(disk: seq<Block>, durable: seq<Block>, r: Region)
    requires RedoOk(disk, durable, r)
    ensures SameHome(Recovered(disk, r), durable, r)
  {
    var homes, n := Homes(disk, r), Count(disk, r);
    var news := Redone(disk, r, n);
    assert homes[..n] == homes && news[..n] == news;
    InstalledApplies(disk, r, homes, news, n);
    AppliedContents(disk, homes, news);
    forall bn | 0 <= bn < |disk| && !InLog(r, bn)
      ensures Recovered(disk, r)[bn] == durable[bn]
    {
      assert InLog(r, r.start);
      if bn in homes {
        var t :| 0 <= t < |homes| && homes[t] == bn;
        assert news[t] == durable[homes[t]];
      }
    }
  }

  /** A crash at any moment, and recoveries that may crash themselves, lead to durable. */
  lemma {:induction false} RecoversDurable(s: Sys, crashes: seq<nat>)
    requires Inv(s) && CrashPoints(s.disk, s.r, crashes)
    ensures SameHome(AfterCrashes(s.disk, s.r, crashes), s.durable, s.r)
  {
    CrashesDoNotMatter(s.disk, s.r, crashes);
    RedoRecovers(s.disk, s.durable, s.r);
  }

  /** Until the header is written no logged block has reached its home. */
  lemma {:induction false} HomesUntouched(s: Sys, bn: nat)
    requires Inv(s) && bn < |s.disk| && !InLog(s.r, bn)
    requires s.stage.Running? || s.stage.Log? || s.stage == Head(false)
    ensures s.disk[bn] == s.durable[bn]
  {
    assert Homes(s.disk, s.r) == [];
  }

  // --- Whole runs ------------------------------------------------------------------------------

  /** After boot: recovery has run, nobody uses a buffer. */
  ghost predicate Booted(s: Sys) {
    && |s.handles| >= 2 && (forall h :: 0 <= h < |s.handles| ==> s.handles[h] == Away)
    && s.ops == {} && s.homes == [] && s.stage == Running
    && LogFormed(s.disk, s.r) && Count(s.disk, s.r) == 0
    && CacheInv(s.bufs, s.disk) && (forall b :: 0 <= b < NBUF ==> Free(s.bufs[b]))
    && s.contents == s.disk && s.durable == s.disk
  }

  lemma {:induction false} BootInv(s: Sys)
    requires Booted(s)
    ensures Inv(s)
  {
    forall b | 0 <= b < NBUF
      ensures CountOk(s, b) && DataOk(s, b)
    {
      assert BufOk(s.bufs[b], s.disk) && Free(s.bufs[b]);
      assert Users(s.handles, b) == {};
    }
    assert Homes(s.disk, s.r) == [];
  }

  ghost predicate Follows(states: seq<Sys>, events: seq<Event>, k: nat)
    requires k < |events| && |states| == |events| + 1
  {
    CanHappen(states[k], events[k]) && states[k + 1] == After(states[k], events[k])
  }

  ghost predicate IsRun(states: seq<Sys>, events: seq<Event>) {
    && |states| == |events| + 1 && Booted(states[0])
    && forall k :: 0 <= k < |events| ==> Follows(states, events, k)
  }

  lemma {:induction false} RunInv(states: seq<Sys>, events: seq<Event>, k: nat)
    requires IsRun(states, events) && k < |states|
    ensures Inv(states[k]) && states[k].r == states[0].r && |states[k].disk| == |states[0].disk|
  {
    if k == 0 {
      BootInv(states[0]);
    } else {
      RunInv(states, events, k - 1);
      assert Follows(states, events, k - 1);
      InvKept(states[k - 1], events[k - 1]);
    }
  }

  /** No reader can tell that a commit is under way: from its beginning to its end, and
      at every state between, every block outside the log reads the same. */
  lemma {:induction false} ReadersCannotTell(states: seq<Sys>, events: seq<Event>, j: nat, k: nat, bn: nat)
    requires IsRun(states, events) && j <= k < |states|
    requires states[j].ops == {} && forall m :: j <= m < k ==> !states[m].stage.Running?
    requires bn < |states[j].disk| && !InLog(states[j].r, bn)
    ensures |states[k].bufs| == NBUF && |states[j].bufs| == NBUF && |states[k].disk| == |states[j].disk|
    ensures states[k].ops == {} && states[k].contents == states[j].contents
    ensures View(states[k].bufs, states[k].disk, bn) == View(states[j].bufs, states[j].disk, bn)
    decreases k
  {
    hide CacheOk, DiskOk, After, CanHappen;
    RunInv(states, events, j);
    RunInv(states, events, k);
    if j < k {
      ReadersCannotTell(states, events, j, k - 1, bn);
      RunInv(states, events, k - 1);
      assert Follows(states, events, k - 1);
      NothingMeanwhile(states[k - 1], events[k - 1]);
    }
    QuietView(states[j], bn);
    QuietView(states[k], bn);
  }

  /** The last state up to k in which the header of a transaction had just been written. */
  ghost function LastCommit(states: seq<Sys>, events: seq<Event>, k: nat): (j: nat)
    requires k < |states| == |events| + 1
    ensures j <= k
  {
    if k == 0 || (events[k - 1].WriteOut? && states[k - 1].stage.Head?) then k else LastCommit(states, events, k - 1)
  }

  lemma {:induction false} DurableIsCommitted(states: seq<Sys>, events: seq<Event>, k: nat)
    requires IsRun(states, events) && k < |states|
    ensures var c := states[LastCommit(states, events, k)]; c.ops == {} && c.contents == states[k].durable
  {
    RunInv(states, events, k);
    if k > 0 {
      RunInv(states, events, k - 1);
      assert Follows(states, events, k - 1);
      if !(events[k - 1].WriteOut? && states[k - 1].stage.Head?) {
        DurableIsCommitted(states, events, k - 1);
      } else {
        NothingMeanwhile(states[k - 1], events[k - 1]);
      }
    }
  }

  /** Crash consistency of the whole history: in any run, with any interleaving, a crash
      at any moment and any chain of interrupted recoveries leave the home blocks as they
      were for the operations at the last commit, when no operation was half done. */
  lemma {:induction false} CrashConsistent(states: seq<Sys>, events: seq<Event>, k: nat, crashes: seq<nat>)
    requires IsRun(states, events) && k < |states|
    requires CrashPoints(states[k].disk, states[k].r, crashes)
    ensures var c := states[LastCommit(states, events, k)];
            c.ops == {} && SameHome(AfterCrashes(states[k].disk, states[k].r, crashes), c.contents, states[k].r)
  {
    RunInv(states, events, k);
    DurableIsCommitted(states, events, k);
    RecoversDurable(states[k], crashes);
  }

  /** What operations have logged is on disk for good once no transaction is open. */
  lemma {:induction false} CommittedIsDurable(states: seq<Sys>, events: seq<Event>, k: nat)
    requires IsRun(states, events) && k < |states| && states[k].stage.Running? && states[k].homes == []
    ensures states[LastCommit(states, events, k)].contents == states[k].contents
  {
    RunInv(states, events, k);
    DurableIsCommitted(states, events, k);
  }

  // --- The commit does not get stuck ---------------------------------------------------------

  predicate OfCommit(ev: Event) {
    match ev
    case WriteOut => true
    case Next => true
    case Get(h, _, _) => h < 2
    case Lock(h) => h < 2
    case Load(h) => h < 2
    case Unlock(h) => h < 2
    case Drop(h) => h < 2
    case _ => false
  }

  /** The commit is to read a block that is not cached, and no buffer is free: a panic. */
  ghost predicate NoRoom(s: Sys) {
    exists h, bn :: 0 <= h < 2 && Missing(s, h, bn)
  }

  ghost predicate Missing(s: Sys, h: nat, bn: nat) {
    Aim(s, h, bn) && Absent(s.bufs, ROOTDEV, bn) && !HasFree(s.bufs)
  }

  /** A process other than the committing one has locked what the commit waits for. */
  predicate Blocks(s: Sys, h: nat, ev: Event)
    requires h < |s.handles|
  {
    (ev.Unlock? || ev.Load?) && 2 <= ev.h < |s.handles| && s.handles[h].Wants? && s.handles[ev.h].Has?
    && s.handles[ev.h].b == s.handles[h].b
  }

  /** Something moves the commit on, or the process it waits for, or there is no room. */
  ghost predicate GoesOn(s: Sys, ev: Event)
    requires |s.handles| >= 2
  {
    NoRoom(s) || (CanHappen(s, ev) && (OfCommit(ev) || Blocks(s, 0, ev) || Blocks(s, 1, ev)))
  }

  lemma {:induction false} GetGoesOn(s: Sys, h: nat, bn: nat) returns (ev: Event)
    requires Inv(s) && h < 2 && s.handles[h].Away? && Aim(s, h, bn) && bn < |s.disk| && !Done(s)
    ensures GoesOn(s, ev)
  {
    if Absent(s.bufs, ROOTDEV, bn) {
      if HasFree(s.bufs) {
        var b :| 0 <= b < |s.bufs| && Free(s.bufs[b]);
        ev := Get(h, bn, b);
      } else {
        assert Missing(s, h, bn);
        ev := Next;
      }
    } else {
      var b :| 0 <= b < |s.bufs| && Names(s.bufs[b], ROOTDEV, bn);
      ev := Get(h, bn, b);
    }
  }

  lemma {:induction false} LockGoesOn(s: Sys, h: nat) returns (ev: Event)
    requires Inv(s) && h < 2 && s.handles[h].Wants? && !s.stage.Running?
    ensures GoesOn(s, ev)
  {
    var b := s.handles[h].b;
    assert HandleOk(s, h);
    ev := Lock(h);
    if s.bufs[b].locked {
      assert CountOk(s, b);
      var g :| HeldBy(s, g, b);
      assert HandleOk(s, g);
      if s.handles[g].editor != NOBODY {
        EditorInOps(s, g, b);
      }
      OtherBlock(s, h, g);
      ev := if s.bufs[b].valid then Unlock(g) else Load(g);
    }
  }

  /** The two blocks of a turn are different, so the commit never waits for itself. */
  lemma {:induction false} OtherBlock(s: Sys, h: nat, g: nat)
    requires Inv(s) && h < 2 && g < |s.handles| && s.handles[h].Wants? && s.handles[g].Has?
             && s.handles[g].b == s.handles[h].b
    ensures g >= 2
  {
    assert HandleOk(s, h) && HandleOk(s, g);
    if Copies(s) && s.stage.k < |s.homes| {
      assert InLog(s.r, s.r.start + s.stage.k + 1) && !InLog(s.r, s.homes[s.stage.k]);
    }
  }

  lemma {:induction false} DropGoesOn(s: Sys, h: nat)
    requires Inv(s) && h < 2 && s.handles[h].Leaves?
    ensures GoesOn(s, Drop(h))
  {
    assert HandleOk(s, h) && CountOk(s, s.handles[h].b);
    UserCounts(s.handles, h, s.handles[h].b);
  }

  /** A handle of the commit that is not yet Away, or not yet ready, moves on. */
  lemma {:induction false} HandleGoesOn(s: Sys, h: nat, bn: nat) returns (ev: Event)
    requires Inv(s) && h < 2 && !s.stage.Running?
    requires if Done(s) then !s.handles[h].Away? else !Ready(s, h) && Aim(s, h, bn) && bn < |s.disk|
    ensures GoesOn(s, ev)
  {
    assert HandleOk(s, h);
    match s.handles[h]
    case Away => ev := GetGoesOn(s, h, bn);
    case Wants(_, _) => ev := LockGoesOn(s, h);
    case Has(b, _, _) => ev := if s.bufs[b].valid then Unlock(h) else Load(h);
    case Leaves(_) =>
      DropGoesOn(s, h);
      ev := Drop(h);
  }

  /** In every state of a commit the committing process can take a step, or a process that
      holds the buffer it waits for can, unless the cache has run out of buffers. */
  lemma {:induction false} CommitGoesOn(s: Sys) returns (ev: Event)
    requires Inv(s) && !s.stage.Running?
    ensures GoesOn(s, ev)
  {
    if Done(s) {
      if !s.handles[0].Away? {
        ev := HandleGoesOn(s, 0, 0);
      } else if !s.handles[1].Away? {
        ev := HandleGoesOn(s, 1, 0);
      } else {
        ev := Next;
      }
    } else if !Ready(s, 0) {
      ev := HandleGoesOn(s, 0, if Copies(s) then s.r.start + s.stage.k + 1 else s.r.start);
    } else if Copies(s) && !Ready(s, 1) {
      ev := HandleGoesOn(s, 1, s.homes[s.stage.k]);
    } else {
      HeldData(s, 0);
      if Copies(s) {
        HeldData(s, 1);
      }
      ev := WriteOut;
    }
  }
}
