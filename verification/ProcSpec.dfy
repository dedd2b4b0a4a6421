/** The process table as a state machine.  Every critical section of ptable.lock is one
    step; so are the writes fork makes to its new slot outside the lock.  Any number of
    slots, any interleaving of any number of processors. */
module ProcSpec {

  datatype ProcState = UNUSED | EMBRYO | SLEEPING | RUNNABLE | RUNNING | ZOMBIE

  /** wait sleeps on the caller's own slot; everything else sleeps on other addresses. */
  datatype Chan = OnProc(slot: int) | OnOther(address: int)

  /** Where the process is within fork: it has slot np in hand, its parent set or not. */
  datatype Activity = Idle | Forking(np: int, parentSet: bool)

  const NONE := -1

  /** maker is the process whose fork is filling the slot, while it is EMBRYO. */
  datatype Proc = Proc(state: ProcState, pid: int, parent: int, chan: Chan, killed: bool, tickets: int,
                       act: Activity, maker: int)

  datatype Table = Table(procs: seq<Proc>, nextpid: int)

  /** The slot of initproc. */
  const INIT := 0

  predicate Alive(p: Proc) { p.state.SLEEPING? || p.state.RUNNABLE? || p.state.RUNNING? }

  /** Fully created, and not yet reaped. */
  predicate Created(p: Proc) { Alive(p) || p.state.ZOMBIE? }

  predicate InWait(ps: seq<Proc>, k: int)
    requires 0 <= k < |ps|
  {
    ps[k].state.SLEEPING? && ps[k].chan == OnProc(k)
  }

  // --- Searches through the table ----------------------------------------------------

  predicate Unused(p: Proc) { p.state.UNUSED? }

  predicate ZombieOf(p: Proc, parent: int) { p.parent == parent && p.state.ZOMBIE? }

  /** The first slot from k on that is unused; |ps| if there is none. */
  function FindUnused(ps: seq<Proc>, k: nat): (r: nat)
    requires k <= |ps|
    ensures k <= r <= |ps| && (r < |ps| ==> Unused(ps[r]))
    ensures forall j :: k <= j < r ==> !Unused(ps[j])
    decreases |ps| - k
  {
    if k == |ps| || Unused(ps[k]) then k else FindUnused(ps, k + 1)
  }

  function FindZombie(ps: seq<Proc>, parent: int, k: nat): (r: nat)
    requires k <= |ps|
    ensures k <= r <= |ps| && (r < |ps| ==> ZombieOf(ps[r], parent))
    ensures forall j :: k <= j < r ==> !ZombieOf(ps[j], parent)
    decreases |ps| - k
  {
    if k == |ps| || ZombieOf(ps[k], parent) then k else FindZombie(ps, parent, k + 1)
  }

  function FindPid(ps: seq<Proc>, pid: int, k: nat): (r: nat)
    requires k <= |ps|
    ensures k <= r <= |ps| && (r < |ps| ==> ps[r].pid == pid)
    ensures forall j :: k <= j < r ==> ps[j].pid != pid
    decreases |ps| - k
  {
    if k == |ps| || ps[k].pid == pid then k else FindPid(ps, pid, k + 1)
  }

  predicate HasKids(ps: seq<Proc>, i: int) {
    exists k :: 0 <= k < |ps| && ps[k].parent == i
  }

  // --- What the routines do to the slots -------------------------------------------------

  function Woken(p: Proc, chan: Chan): Proc {
    if p.state.SLEEPING? && p.chan == chan then p.(state := RUNNABLE) else p
  }

  /** wakeup1. */
  function WakeAll(ps: seq<Proc>, chan: Chan): (r: seq<Proc>)
    ensures |r| == |ps| && forall k {:trigger r[k]} :: 0 <= k < |r| ==> r[k] == Woken(ps[k], chan)
  {
    seq(|ps|, k requires 0 <= k < |ps| => Woken(ps[k], chan))
  }

  function Adopted(p: Proc, i: int): Proc {
    if p.parent == i then p.(parent := INIT) else p
  }

  /** exit's loop: the children of i go to init. */
  function AdoptAll(ps: seq<Proc>, i: int): (r: seq<Proc>)
    ensures |r| == |ps| && forall k {:trigger r[k]} :: 0 <= k < |r| ==> r[k] == Adopted(ps[k], i)
  {
    seq(|ps|, k requires 0 <= k < |ps| => Adopted(ps[k], i))
  }

  /** exit: the parent is woken, the children are handed over, init is woken if one of
      them is dead, and i becomes a zombie. */
  function Exited(ps: seq<Proc>, i: int): (r: seq<Proc>)
    requires 0 <= i < |ps|
    ensures |r| == |ps|
  {
    var woken := WakeAll(ps, OnProc(ps[i].parent));
    var adopted := AdoptAll(woken, i);
    var all := if FindZombie(ps, i, 0) < |ps| then WakeAll(adopted, OnProc(INIT)) else adopted;
    all[i := all[i].(state := ZOMBIE)]
  }

  /** allocproc: the slot, as the caller finds it. */
  function Embryo(p: Proc, pid: int, maker: int): Proc {
    p.(state := EMBRYO, pid := pid, tickets := 1, maker := maker)
  }

  /** wait's clearing of a zombie's slot. */
  function Reaped(p: Proc): Proc {
    p.(state := UNUSED, pid := 0, parent := NONE, killed := false)
  }

  // --- Steps --------------------------------------------------------------------------------

  datatype Step =
    | Alloc(i: int) | ForkFails(i: int) | ForkSetsParent(i: int) | ForkDone(i: int)
    | Exit(i: int) | Wait(i: int) | Sleep(i: int, address: int) | Yield(i: int) | SetTickets(i: int, tickets: int)
    | Run(i: int) | Wakeup(address: int) | Kill(pid: int)

  predicate Running(ps: seq<Proc>, i: int) { 0 <= i < |ps| && ps[i].state.RUNNING? }

  predicate Free(ps: seq<Proc>, i: int) { Running(ps, i) && ps[i].act.Idle? }

  predicate InFork(ps: seq<Proc>, i: int, parentSet: bool) {
    Running(ps, i) && ps[i].act.Forking? && ps[i].act.parentSet == parentSet && 0 <= ps[i].act.np < |ps|
  }

  predicate CanStep(t: Table, a: Step) {
    match a
    case Alloc(i) => Free(t.procs, i) && FindUnused(t.procs, 0) < |t.procs|
    case ForkFails(i) => InFork(t.procs, i, false)
    case ForkSetsParent(i) => InFork(t.procs, i, false)
    case ForkDone(i) => InFork(t.procs, i, true)
    case Exit(i) => Free(t.procs, i) && i != INIT
    case Wait(i) => Free(t.procs, i)
    case Sleep(i, _) => Free(t.procs, i)
    case Yield(i) => Running(t.procs, i)
    case SetTickets(i, _) => Free(t.procs, i)
    case Run(i) => 0 <= i < |t.procs| && t.procs[i].state.RUNNABLE?
    case Wakeup(_) => true
    case Kill(_) => true
  }

  /** wait's scan: a zombie child is reaped; else the caller sleeps, unless it has no
      children or was killed. */
  function Waited(ps: seq<Proc>, i: int): (r: seq<Proc>)
    requires 0 <= i < |ps|
    ensures |r| == |ps|
  {
    var z := FindZombie(ps, i, 0);
    if z < |ps| then ps[z := Reaped(ps[z])]
    else if !HasKids(ps, i) || ps[i].killed then ps
    else ps[i := ps[i].(state := SLEEPING, chan := OnProc(i))]
  }

  /** kill: the first slot with that pid, whatever its state. */
  function Killed(ps: seq<Proc>, pid: int): (r: seq<Proc>)
    ensures |r| == |ps|
  {
    var k := FindPid(ps, pid, 0);
    if k == |ps| then ps
    else ps[k := ps[k].(killed := true, state := if ps[k].state.SLEEPING? then RUNNABLE else ps[k].state)]
  }

  function Next(t: Table, a: Step): (r: Table)
    requires CanStep(t, a)
    ensures |r.procs| == |t.procs|
  {
    var ps := t.procs;
    match a
    case Alloc(i) =>
      var np := FindUnused(ps, 0);
      Table(ps[np := Embryo(ps[np], t.nextpid, i)][i := ps[i].(act := Forking(np, false))], t.nextpid + 1)
    case ForkFails(i) =>
      var np := ps[i].act.np;
      t.(procs := ps[np := ps[np].(state := UNUSED)][i := ps[i].(act := Idle)])
    case ForkSetsParent(i) =>
      var np := ps[i].act.np;
      t.(procs := ps[np := ps[np].(parent := i, tickets := ps[i].tickets)][i := ps[i].(act := Forking(np, true))])
    case ForkDone(i) =>
      var np := ps[i].act.np;
      t.(procs := ps[np := ps[np].(state := RUNNABLE)][i := ps[i].(act := Idle)])
    case Exit(i) => t.(procs := Exited(ps, i))
    case Wait(i) => t.(procs := Waited(ps, i))
    case Sleep(i, address) => t.(procs := ps[i := ps[i].(state := SLEEPING, chan := OnOther(address))])
    case Yield(i) => t.(procs := ps[i := ps[i].(state := RUNNABLE)])
    case SetTickets(i, tickets) => t.(procs := ps[i := ps[i].(tickets := tickets)])
    case Run(i) => t.(procs := ps[i := ps[i].(state := RUNNING)])
    case Wakeup(address) => t.(procs := WakeAll(ps, OnOther(address)))
    case Kill(pid) => t.(procs := Killed(ps, pid))
  }

  // --- The invariant -------------------------------------------------------------------------

  predicate SlotOk(ps: seq<Proc>, nextpid: int, k: int)
    requires 0 <= k < |ps|
  {
    var p := ps[k];
    && 0 <= p.pid < nextpid
    && (p.state.UNUSED? ==> p.parent == NONE)
    && (!Alive(p) ==> p.act.Idle?)
    && (p.state.EMBRYO? ==> EmbryoOk(ps, k))
    && (Created(p) && k != INIT ==> ParentOk(ps, k))
    && (p.act.Forking? ==> ForkOk(ps, k))
    && (p.state.SLEEPING? && p.chan.OnProc? ==> p.chan.slot == k)
  }

  /** The parent of a created process is alive and older, and does not sleep in wait
      if the process is dead. */
  predicate ParentOk(ps: seq<Proc>, k: int)
    requires 0 <= k < |ps|
  {
    var parent := ps[k].parent;
    && 0 <= parent < |ps| && Alive(ps[parent]) && ps[parent].pid < ps[k].pid
    && ps[INIT].pid < ps[k].pid
    && !(ps[k].state.ZOMBIE? && InWait(ps, parent))
  }

  predicate EmbryoOk(ps: seq<Proc>, k: int)
    requires 0 <= k < |ps|
  {
    var m := ps[k].maker;
    && 0 <= m < |ps| && ps[m].act.Forking? && ps[m].act.np == k
    && ps[k].parent == (if ps[m].act.parentSet then m else NONE)
  }

  predicate ForkOk(ps: seq<Proc>, k: int)
    requires 0 <= k < |ps| && ps[k].act.Forking?
  {
    var np := ps[k].act.np;
    0 <= np < |ps| && ps[np].state.EMBRYO? && ps[np].maker == k && ps[k].pid < ps[np].pid
  }

  ghost predicate Inv(t: Table) {
    && |t.procs| > 0 && Alive(t.procs[INIT]) && t.procs[INIT].parent == NONE
    && t.procs[INIT].pid > 0
    && forall k {:trigger SlotOk(t.procs, t.nextpid, k)} :: 0 <= k < |t.procs| ==> SlotOk(t.procs, t.nextpid, k)
  }

  /** After userinit: init runnable, the other slots unused. */
  predicate Booted(t: Table) {
    && |t.procs| > 0 && t.nextpid == 2
    && t.procs[0] == Proc(RUNNABLE, 1, NONE, OnOther(0), false, 1, Idle, NONE)
    && forall k :: 0 < k < |t.procs| ==> t.procs[k] == Proc(UNUSED, 0, NONE, OnOther(0), false, 0, Idle, NONE)
  }

  lemma {:induction false} BootInv(t: Table)
    requires Booted(t)
    ensures Inv(t)
  {
  }

  lemma {:induction false} AllocKeeps(t: Table, i: int)
    requires Inv(t) && CanStep(t, Alloc(i))
    ensures Inv(Next(t, Alloc(i)))
  {
    var t1 := Next(t, Alloc(i));
    assert SlotOk(t.procs, t.nextpid, i);
    forall k | 0 <= k < |t1.procs|
      ensures SlotOk(t1.procs, t1.nextpid, k)
    {
      assert SlotOk(t.procs, t.nextpid, k);
    }
  }

  lemma {:induction false} ForkKeeps(t: Table, a: Step)
    requires Inv(t) && CanStep(t, a) && (a.ForkFails? || a.ForkSetsParent? || a.ForkDone?)
    ensures Inv(Next(t, a))
  {
    var t1 := Next(t, a);
    assert SlotOk(t.procs, t.nextpid, a.i);
    forall k | 0 <= k < |t1.procs|
      ensures SlotOk(t1.procs, t1.nextpid, k)
    {
      assert SlotOk(t.procs, t.nextpid, k);
    }
  }

  lemma {:induction false} WakeKeeps(t: Table, chan: Chan)
    requires Inv(t)
    ensures Inv(t.(procs := WakeAll(t.procs, chan)))
    ensures forall k :: 0 <= k < |t.procs| && chan == OnProc(k) ==> !InWait(WakeAll(t.procs, chan), k)
  {
    var ps1 := WakeAll(t.procs, chan);
    forall k | 0 <= k < |ps1|
      ensures SlotOk(ps1, t.nextpid, k)
    {
      assert SlotOk(t.procs, t.nextpid, k);
    }
  }

  lemma {:induction false} AdoptKeeps(t: Table, i: int)
    requires Inv(t) && Free(t.procs, i) && i != INIT
    requires FindZombie(t.procs, i, 0) < |t.procs| ==> !InWait(t.procs, INIT)
    ensures Inv(t.(procs := AdoptAll(t.procs, i)))
    ensures forall k :: 0 <= k < |t.procs| ==> AdoptAll(t.procs, i)[k].parent != i
  {
    var ps1 := AdoptAll(t.procs, i);
    forall k | 0 <= k < |ps1|
      ensures SlotOk(ps1, t.nextpid, k)
    {
      assert SlotOk(t.procs, t.nextpid, k);
    }
  }

  lemma {:induction false} DieKeeps(t: Table, i: int)
    requires Inv(t) && Free(t.procs, i) && i != INIT
    requires forall k :: 0 <= k < |t.procs| ==> t.procs[k].parent != i
    requires 0 <= t.procs[i].parent < |t.procs| && !InWait(t.procs, t.procs[i].parent)
    ensures Inv(t.(procs := t.procs[i := t.procs[i].(state := ZOMBIE)]))
  {
    var ps1 := t.procs[i := t.procs[i].(state := ZOMBIE)];
    forall k | 0 <= k < |ps1|
      ensures SlotOk(ps1, t.nextpid, k)
    {
      assert SlotOk(t.procs, t.nextpid, k);
    }
  }

  lemma ZombiesStay(ps: seq<Proc>, chan: Chan, i: int, k: nat)
    requires k <= |ps|
    ensures FindZombie(WakeAll(ps, chan), i, k) == FindZombie(ps, i, k)
    decreases |ps| - k
  {
  }

  lemma {:induction false} ExitKeeps(t: Table, i: int)
    requires Inv(t) && CanStep(t, Exit(i))
    ensures Inv(Next(t, Exit(i)))
  {
    var ps := t.procs;
    var woken := WakeAll(ps, OnProc(ps[i].parent));
    WakeKeeps(t, OnProc(ps[i].parent));
    WakeKeeps(t.(procs := woken), OnProc(INIT));
    ZombiesStay(ps, OnProc(ps[i].parent), i, 0);
    ZombiesStay(woken, OnProc(INIT), i, 0);
    var both := if FindZombie(ps, i, 0) < |ps| then WakeAll(woken, OnProc(INIT)) else woken;
    AdoptKeeps(t.(procs := both), i);
    var adopted := AdoptAll(both, i);
    assert SlotOk(ps, t.nextpid, i) && !InWait(woken, ps[i].parent);
    assert adopted[i].parent == ps[i].parent;
    DieKeeps(t.(procs := adopted), i);
    assert Exited(ps, i) == adopted[i := adopted[i].(state := ZOMBIE)];
  }

  lemma {:induction false} WaitKeeps(t: Table, i: int)
    requires Inv(t) && CanStep(t, Wait(i))
    ensures Inv(Next(t, Wait(i)))
  {
    var t1 := Next(t, Wait(i));
    forall k | 0 <= k < |t1.procs|
      ensures SlotOk(t1.procs, t1.nextpid, k)
    {
      assert SlotOk(t.procs, t.nextpid, k);
    }
  }

  /** A change of a slot that the rest of the table cannot tell: who it is, whose child,
      what fork it is in, and whether it is alive, unused, or dead. */
  predicate Mild(p: Proc, p1: Proc) {
    && p1.pid == p.pid && p1.parent == p.parent && p1.act == p.act && p1.maker == p.maker
    && (if Alive(p) then Alive(p1) else p1.state == p.state)
    && (p1.state.SLEEPING? && p1.chan.OnProc? ==> p.state.SLEEPING? && p.chan == p1.chan)
  }

  lemma {:induction false} MildKeeps(t: Table, i: int, p1: Proc)
    requires Inv(t) && 0 <= i < |t.procs| && Mild(t.procs[i], p1)
    ensures Inv(t.(procs := t.procs[i := p1]))
  {
    var t1 := t.(procs := t.procs[i := p1]);
    forall k | 0 <= k < |t1.procs|
      ensures SlotOk(t1.procs, t1.nextpid, k)
    {
      assert SlotOk(t.procs, t.nextpid, k);
    }
  }

  lemma {:induction false} OthersKeep(t: Table, a: Step)
    requires Inv(t) && CanStep(t, a)
    requires a.Sleep? || a.Yield? || a.SetTickets? || a.Run? || a.Wakeup? || a.Kill?
    ensures Inv(Next(t, a))
  {
    hide Inv;
    match a
    case Sleep(i, _) => MildKeeps(t, i, Next(t, a).procs[i]);
    case Yield(i) => MildKeeps(t, i, Next(t, a).procs[i]);
    case SetTickets(i, _) => MildKeeps(t, i, Next(t, a).procs[i]);
    case Run(i) => MildKeeps(t, i, Next(t, a).procs[i]);
    case Wakeup(address) => WakeKeeps(t, OnOther(address));
    case Kill(pid) =>
      var k := FindPid(t.procs, pid, 0);
      if k < |t.procs| {
        MildKeeps(t, k, Next(t, a).procs[k]);
      }
    case _ =>
  }

  lemma {:induction false} InvKept(t: Table, a: Step)
    requires Inv(t) && CanStep(t, a)
    ensures Inv(Next(t, a))
  {
    match a
    case Alloc(i) => AllocKeeps(t, i);
    case ForkFails(_) => ForkKeeps(t, a);
    case ForkSetsParent(_) => ForkKeeps(t, a);
    case ForkDone(_) => ForkKeeps(t, a);
    case Exit(i) => ExitKeeps(t, i);
    case Wait(i) => WaitKeeps(t, i);
    case _ => OthersKeep(t, a);
  }

  // --- Runs -------------------------------------------------------------------------------------

  predicate Follows(tables: seq<Table>, steps: seq<Step>, k: nat)
    requires k < |steps| && |tables| == |steps| + 1
  {
    CanStep(tables[k], steps[k]) && tables[k + 1] == Next(tables[k], steps[k])
  }

  ghost predicate IsRun(tables: seq<Table>, steps: seq<Step>) {
    && |tables| == |steps| + 1 && Booted(tables[0])
    && forall k :: 0 <= k < |steps| ==> Follows(tables, steps, k)
  }

  lemma {:induction false} RunInv(tables: seq<Table>, steps: seq<Step>, k: nat)
    requires IsRun(tables, steps) && k < |tables|
    ensures Inv(tables[k])
  {
    if k == 0 {
      BootInv(tables[0]);
    } else {
      RunInv(tables, steps, k - 1);
      assert Follows(tables, steps, k - 1);
      InvKept(tables[k - 1], steps[k - 1]);
    }
  }

  /** In every reachable table the processes form a tree below init: each but init has an
      older parent that is neither unused nor dead. */
  lemma {:induction false} ForestInEveryRun(tables: seq<Table>, steps: seq<Step>, k: nat, i: int)
    requires IsRun(tables, steps) && k < |tables|
    requires 0 <= i < |tables[k].procs| && i != INIT && Created(tables[k].procs[i])
    ensures var ps := tables[k].procs;
            var parent := ps[i].parent;
            0 <= parent < |ps| && Alive(ps[parent]) && ps[parent].pid < ps[i].pid
  {
    RunInv(tables, steps, k);
    assert SlotOk(tables[k].procs, tables[k].nextpid, i);
  }

  /** A line of parents. */
  ghost predicate Line(ps: seq<Proc>, line: seq<int>) {
    && |line| > 0
    && (forall j :: 0 <= j < |line| ==> 0 <= line[j] < |ps| && Created(ps[line[j]]))
    && forall j :: 0 <= j < |line| - 1 ==> ps[line[j]].parent == line[j + 1]
  }

  /** From every process the parents lead to init. */
  lemma {:induction false} DescendsFromInit(t: Table, i: int) returns (line: seq<int>)
    requires Inv(t) && 0 <= i < |t.procs| && Created(t.procs[i])
    ensures Line(t.procs, line) && line[0] == i && line[|line| - 1] == INIT
    decreases t.procs[i].pid
  {
    if i == INIT {
      line := [i];
    } else {
      assert SlotOk(t.procs, t.nextpid, i);
      var parent := t.procs[i].parent;
      assert SlotOk(t.procs, t.nextpid, parent);
      var rest := DescendsFromInit(t, parent);
      line := [i] + rest;
    }
  }

  /** No wakeup is lost: the parent of a dead process is never asleep in wait, and when
      it runs wait it reaps a dead child of its own instead of going to sleep. */
  lemma {:induction false} NoLostWakeup(tables: seq<Table>, steps: seq<Step>, k: nat, z: int)
    requires IsRun(tables, steps) && k < |tables|
    requires 0 <= z < |tables[k].procs| && tables[k].procs[z].state.ZOMBIE?
    ensures var ps := tables[k].procs;
            var parent := ps[z].parent;
            && 0 <= parent < |ps| && Alive(ps[parent]) && !InWait(ps, parent)
            && var first := FindZombie(ps, parent, 0);
               && first < |ps| && ZombieOf(ps[first], parent)
               && Waited(ps, parent)[first].state.UNUSED?
               && forall j :: 0 <= j < |ps| && j != first ==> Waited(ps, parent)[j] == ps[j]
  {
    RunInv(tables, steps, k);
    assert SlotOk(tables[k].procs, tables[k].nextpid, z);
  }

  /** exit leaves no child behind, and changes of the others at most who sleeps and whose child they are. */
  lemma {:induction false} ExitHandsOver(t: Table, i: int)
    requires Inv(t) && CanStep(t, Exit(i))
    ensures var ps, ps1 := t.procs, Next(t, Exit(i)).procs;
            && ps1[i].state.ZOMBIE? && ps1[i].parent == ps[i].parent
            && (forall k :: 0 <= k < |ps| ==> ps1[k].parent == if ps[k].parent == i then INIT else ps[k].parent)
            && (forall k :: 0 <= k < |ps| && k != i ==> (Alive(ps1[k]) <==> Alive(ps[k])) && ps1[k].pid == ps[k].pid)
  {
    assert SlotOk(t.procs, t.nextpid, i);
  }

  // --- Process numbers, and what kill finds -------------------------------------------------------

  predicate SamePid(ps: seq<Proc>, i: int, j: int)
    requires 0 <= i < |ps| && 0 <= j < |ps|
  {
    ps[i].pid == ps[j].pid && ps[i].pid != 0
  }

  /** No two slots have the same number, left-over numbers of failed forks included. */
  ghost predicate PidsOk(t: Table) {
    && (forall i {:trigger t.procs[i].pid} :: 0 <= i < |t.procs| ==> t.procs[i].pid < t.nextpid)
    && forall i, j {:trigger SamePid(t.procs, i, j)} :: 0 <= i < j < |t.procs| ==> !SamePid(t.procs, i, j)
  }

  lemma {:induction false} PidsKept(t: Table, a: Step)
    requires PidsOk(t) && CanStep(t, a) && t.nextpid > 0
    ensures PidsOk(Next(t, a))
  {
    var t1 := Next(t, a);
    forall i, j | 0 <= i < j < |t1.procs|
      ensures !SamePid(t1.procs, i, j)
    {
      assert !SamePid(t.procs, i, j);
    }
  }

  lemma {:induction false} PidsInEveryRun(tables: seq<Table>, steps: seq<Step>, k: nat)
    requires IsRun(tables, steps) && k < |tables|
    ensures PidsOk(tables[k])
  {
    if k > 0 {
      PidsInEveryRun(tables, steps, k - 1);
      RunInv(tables, steps, k - 1);
      assert Follows(tables, steps, k - 1) && SlotOk(tables[k - 1].procs, tables[k - 1].nextpid, INIT);
      PidsKept(tables[k - 1], steps[k - 1]);
    }
  }

  /** A process that exists is the one that kill of its number finds. */
  lemma {:induction false} KillFindsTheProcess(t: Table, k: int)
    requires PidsOk(t) && 0 <= k < |t.procs| && t.procs[k].pid != 0
    ensures FindPid(t.procs, t.procs[k].pid, 0) == k
    ensures var ps1 := Killed(t.procs, t.procs[k].pid);
            ps1[k].killed && forall j :: 0 <= j < |ps1| && j != k ==> ps1[j] == t.procs[j]
  {
    var r := FindPid(t.procs, t.procs[k].pid, 0);
    assert r < k ==> !SamePid(t.procs, r, k);
  }

  /** Slots in no use carry no mark of kill, so that fork's children start without one. */
  ghost predicate CleanSlots(ps: seq<Proc>) {
    forall k :: 0 <= k < |ps| && (ps[k].state.UNUSED? || ps[k].state.EMBRYO?) ==> !ps[k].killed
  }

  /** kill tests no state: slots stay clean exactly as long as the first slot with the
      given number, if there is one, is a created process.  Number 0 is that of the
      unused slots. */
  lemma {:induction false} CleanUnlessKillMisses(t: Table, a: Step)
    requires Inv(t) && CanStep(t, a) && CleanSlots(t.procs)
    ensures CleanSlots(Next(t, a).procs) <==>
              (a.Kill? && FindPid(t.procs, a.pid, 0) < |t.procs| ==> Created(t.procs[FindPid(t.procs, a.pid, 0)]))
  {
    if a.Kill? {
      var k := FindPid(t.procs, a.pid, 0);
      if k < |t.procs| {
        assert Next(t, a).procs[k].killed;
      }
    } else if a.ForkFails? {
      assert SlotOk(t.procs, t.nextpid, a.i);
    } else if a.Exit? {
      assert SlotOk(t.procs, t.nextpid, a.i);
    }
  }

  /** For instance: after kill of process 0 the next child of init is killed at birth. */
  lemma {:induction false} KilledAtBirth(t: Table)
    requires Booted(t) && |t.procs| > 1
    ensures var steps := [Run(0), Kill(0), Alloc(0), ForkSetsParent(0), ForkDone(0)];
            && CanStep(t, steps[0]) && var t1 := Next(t, steps[0]);
            && CanStep(t1, steps[1]) && var t2 := Next(t1, steps[1]);
            && CanStep(t2, steps[2]) && var t3 := Next(t2, steps[2]);
            && CanStep(t3, steps[3]) && var t4 := Next(t3, steps[3]);
            && CanStep(t4, steps[4]) && var t5 := Next(t4, steps[4]);
            t5.procs[1].state.RUNNABLE? && t5.procs[1].pid == 2 && t5.procs[1].parent == 0 && t5.procs[1].killed
  {
    var t1 := Next(t, Run(0));
    assert FindPid(t1.procs, 0, 0) == 1;
    var t2 := Next(t1, Kill(0));
    assert FindUnused(t2.procs, 0) == 1;
  }
}
