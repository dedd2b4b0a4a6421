/** The life of a process: which step moves a slot from which state to which, who is woken
    by what, what a child inherits, and that no process in the table is stuck for want of
    a step. */
module ProcLife {
  import opened ProcSpec

  // --- The state diagram ----------------------------------------------------------------------

  /** i has a dead child. */
  ghost predicate HasZombie(ps: seq<Proc>, i: int) {
    exists k :: 0 <= k < |ps| && ZombieOf(ps[k], i)
  }

  /** k is the first of its kind. */
  ghost predicate FirstUnused(ps: seq<Proc>, k: int) {
    0 <= k < |ps| && Unused(ps[k]) && forall j :: 0 <= j < k ==> !Unused(ps[j])
  }

  ghost predicate FirstZombie(ps: seq<Proc>, i: int, k: int) {
    0 <= k < |ps| && ZombieOf(ps[k], i) && forall j :: 0 <= j < k ==> !ZombieOf(ps[j], i)
  }

  ghost predicate FirstWithPid(ps: seq<Proc>, pid: int, k: int) {
    0 <= k < |ps| && ps[k].pid == pid && forall j :: 0 <= j < k ==> ps[j].pid != pid
  }

  /** What step a wakes in slot k: sleepers on the channel; the target of kill; a parent in
      wait whose child exits; and init, if it inherits a dead process. */
  ghost predicate Wakes(ps: seq<Proc>, a: Step, k: int)
    requires 0 <= k < |ps|
  {
    match a
    case Wakeup(address) => ps[k].chan == OnOther(address)
    case Kill(pid) => FirstWithPid(ps, pid, k)
    case Exit(i) => InWait(ps, k) && 0 <= i < |ps| && (ps[i].parent == k || (k == INIT && HasZombie(ps, i)))
    case _ => false
  }

  /** Process k goes to sleep in wait: it has children, all of them living, and was not killed. */
  ghost predicate WaitSleeps(ps: seq<Proc>, k: int)
    requires 0 <= k < |ps|
  {
    (exists j :: 0 <= j < |ps| && ps[j].parent == k) && !HasZombie(ps, k) && !ps[k].killed
  }

  /** The state of slot k after step a. */
  ghost function Moved(ps: seq<Proc>, a: Step, k: int): ProcState
    requires 0 <= k < |ps|
  {
    match ps[k].state
    case UNUSED => if a.Alloc? && FirstUnused(ps, k) then EMBRYO else UNUSED
    case EMBRYO =>
      if a.ForkFails? && InFork(ps, a.i, false) && ps[a.i].act.np == k then UNUSED
      else if a.ForkDone? && InFork(ps, a.i, true) && ps[a.i].act.np == k then RUNNABLE
      else EMBRYO
    case RUNNABLE => if a == Run(k) then RUNNING else RUNNABLE
    case RUNNING =>
      if a == Yield(k) then RUNNABLE
      else if a == Exit(k) then ZOMBIE
      else if (a.Sleep? && a.i == k) || (a == Wait(k) && WaitSleeps(ps, k)) then SLEEPING
      else RUNNING
    case SLEEPING => if Wakes(ps, a, k) then RUNNABLE else SLEEPING
    case ZOMBIE => if a.Wait? && FirstZombie(ps, a.i, k) then UNUSED else ZOMBIE
  }

  lemma {:induction false} Searches(ps: seq<Proc>, i: int, pid: int)
    ensures FindUnused(ps, 0) < |ps| ==> FirstUnused(ps, FindUnused(ps, 0))
    ensures FindZombie(ps, i, 0) < |ps| <==> HasZombie(ps, i)
    ensures FindZombie(ps, i, 0) < |ps| ==> FirstZombie(ps, i, FindZombie(ps, i, 0))
    ensures FindPid(ps, pid, 0) < |ps| ==> FirstWithPid(ps, pid, FindPid(ps, pid, 0))
    ensures FindPid(ps, pid, 0) == |ps| ==> forall k :: 0 <= k < |ps| ==> ps[k].pid != pid
  {
  }

  /** exit wakes the sleepers on its parent's slot, and on init's if it has a dead child. */
  lemma {:induction false} ExitStates(ps: seq<Proc>, i: int, k: int)
    requires 0 <= i < |ps| && 0 <= k < |ps|
    ensures k == i ==> Exited(ps, i)[k].state == ZOMBIE
    ensures k != i ==>
              Exited(ps, i)[k].state
              == if ps[k].state.SLEEPING?
                    && (ps[k].chan == OnProc(ps[i].parent) || (ps[k].chan == OnProc(INIT) && HasZombie(ps, i)))
                 then RUNNABLE else ps[k].state
  {
    Searches(ps, i, 0);
  }

  lemma {:induction false} ExitMoves(t: Table, i: int, k: int)
    requires Inv(t) && CanStep(t, Exit(i)) && 0 <= k < |t.procs|
    ensures Next(t, Exit(i)).procs[k].state == Moved(t.procs, Exit(i), k)
  {
    hide Exited, HasZombie;
    var ps := t.procs;
    ExitStates(ps, i, k);
    assert SlotOk(ps, t.nextpid, k) && SlotOk(ps, t.nextpid, i);
  }

  lemma {:induction false} ForkMoves(t: Table, a: Step, k: int)
    requires Inv(t) && CanStep(t, a) && 0 <= k < |t.procs|
    requires a.ForkFails? || a.ForkSetsParent? || a.ForkDone?
    ensures Next(t, a).procs[k].state == Moved(t.procs, a, k)
  {
    assert SlotOk(t.procs, t.nextpid, a.i);
  }

  lemma {:induction false} WaitMoves(t: Table, i: int, k: int)
    requires CanStep(t, Wait(i)) && 0 <= k < |t.procs|
    ensures Next(t, Wait(i)).procs[k].state == Moved(t.procs, Wait(i), k)
  {
    Searches(t.procs, i, 0);
  }

  /** The state diagram: in every table that can occur, every step moves every slot exactly
      as the diagram says. */
  lemma {:induction false} EveryStepMoves(t: Table, a: Step, k: int)
    requires Inv(t) && CanStep(t, a) && 0 <= k < |t.procs|
    ensures Next(t, a).procs[k].state == Moved(t.procs, a, k)
  {
    hide Inv;
    match a
    case Exit(i) => ExitMoves(t, i, k);
    case ForkFails(_) => ForkMoves(t, a, k);
    case ForkSetsParent(_) => ForkMoves(t, a, k);
    case ForkDone(_) => ForkMoves(t, a, k);
    case Alloc(i) => Searches(t.procs, i, 0);
    case Wait(i) => WaitMoves(t, i, k);
    case Kill(pid) => Searches(t.procs, 0, pid);
    case _ =>
  }

  /** A sleeper sleeps on what it went to sleep on. */
  lemma {:induction false} SleepsOn(t: Table, i: int, address: int)
    requires Inv(t)
    ensures CanStep(t, Sleep(i, address)) ==>
              var p := Next(t, Sleep(i, address)).procs[i]; p.state.SLEEPING? && p.chan == OnOther(address)
    ensures CanStep(t, Wait(i)) && WaitSleeps(t.procs, i) ==> InWait(Next(t, Wait(i)).procs, i)
  {
    if CanStep(t, Wait(i)) {
      Searches(t.procs, i, 0);
    }
  }

  /** Nothing but a wakeup on its channel, a kill, or a death in the family changes what a
      sleeper waits for. */
  lemma {:induction false} SleeperKept(t: Table, a: Step, k: int)
    requires Inv(t) && CanStep(t, a) && 0 <= k < |t.procs| && t.procs[k].state.SLEEPING? && !Wakes(t.procs, a, k)
    ensures Next(t, a).procs[k].state.SLEEPING? && Next(t, a).procs[k].chan == t.procs[k].chan
  {
    EveryStepMoves(t, a, k);
  }

  /** A process killed in its sleep wakes up, and can go on to die. */
  lemma {:induction false} KilledCanDie(t: Table, k: int)
    requires Inv(t) && PidsOk(t) && 0 <= k < |t.procs| && k != INIT
    requires t.procs[k].state.SLEEPING? && t.procs[k].act.Idle? && t.procs[k].pid != 0
    ensures var t1 := Next(t, Kill(t.procs[k].pid));
            && t1.procs[k].killed && CanStep(t1, Run(k)) && CanStep(Next(t1, Run(k)), Exit(k))
            && Next(Next(t1, Run(k)), Exit(k)).procs[k].state.ZOMBIE?
  {
    KillFindsTheProcess(t, k);
  }

  // --- Birth and burial ---------------------------------------------------------------------------

  /** While a fork is past its second write, the child has its parent and its tickets. */
  predicate Inherits(ps: seq<Proc>, i: int)
    requires 0 <= i < |ps|
  {
    ps[i].act.Forking? && ps[i].act.parentSet && 0 <= ps[i].act.np < |ps| ==>
      ps[ps[i].act.np].tickets == ps[i].tickets
  }

  ghost predicate AllInherit(ps: seq<Proc>) {
    forall i {:trigger Inherits(ps, i)} :: 0 <= i < |ps| ==> Inherits(ps, i)
  }

  lemma {:induction false} ForkInherits(t: Table, a: Step, i: int)
    requires Inv(t) && AllInherit(t.procs) && CanStep(t, a) && 0 <= i < |t.procs|
    requires a.ForkFails? || a.ForkSetsParent? || a.ForkDone?
    ensures Inherits(Next(t, a).procs, i)
  {
    assert Inherits(t.procs, i) && SlotOk(t.procs, t.nextpid, i) && SlotOk(t.procs, t.nextpid, a.i);
  }

  lemma {:induction false} SameTickets(ps: seq<Proc>, i: int, k: int)
    requires 0 <= i < |ps| && 0 <= k < |ps|
    ensures Exited(ps, i)[k].tickets == ps[k].tickets && Exited(ps, i)[k].act == ps[k].act
    ensures Waited(ps, i)[k].tickets == ps[k].tickets && Waited(ps, i)[k].act == ps[k].act
  {
  }

  /** A step that is no part of a fork changes the tickets of running processes without one only. */
  lemma {:induction false} OtherInherits(t: Table, a: Step, i: int)
    requires Inv(t) && AllInherit(t.procs) && CanStep(t, a) && 0 <= i < |t.procs|
    requires !a.ForkFails? && !a.ForkSetsParent? && !a.ForkDone?
    ensures Inherits(Next(t, a).procs, i)
  {
    hide ParentOk, EmbryoOk, Exited, Waited;
    assert Inherits(t.procs, i) && SlotOk(t.procs, t.nextpid, i);
    if a.Exit? || a.Wait? {
      SameTickets(t.procs, a.i, i);
      if t.procs[i].act.Forking? {
        SameTickets(t.procs, a.i, t.procs[i].act.np);
      }
    }
  }

  lemma {:induction false} InheritKept(t: Table, a: Step)
    requires Inv(t) && AllInherit(t.procs) && CanStep(t, a)
    ensures AllInherit(Next(t, a).procs)
  {
    hide Inv, Inherits, CanStep, Next;
    forall i | 0 <= i < |t.procs|
      ensures Inherits(Next(t, a).procs, i)
    {
      if a.ForkFails? || a.ForkSetsParent? || a.ForkDone? {
        ForkInherits(t, a, i);
      } else {
        OtherInherits(t, a, i);
      }
    }
  }

  lemma {:induction false} InheritInEveryRun(tables: seq<Table>, steps: seq<Step>, k: nat)
    requires IsRun(tables, steps) && k < |tables|
    ensures AllInherit(tables[k].procs)
  {
    if k > 0 {
      InheritInEveryRun(tables, steps, k - 1);
      RunInv(tables, steps, k - 1);
      assert Follows(tables, steps, k - 1);
      InheritKept(tables[k - 1], steps[k - 1]);
    }
  }

  /** A child is born runnable, with a new and greater number, with its parent's tickets,
      and as its parent's child. */
  lemma {:induction false} ChildIsBorn(tables: seq<Table>, steps: seq<Step>, k: nat)
    requires IsRun(tables, steps) && k < |steps| && steps[k].ForkDone?
    ensures var ps, i := tables[k].procs, steps[k].i;
            && 0 <= i < |ps| && ps[i].act.Forking? && 0 <= ps[i].act.np < |ps| == |tables[k + 1].procs|
            && var child := tables[k + 1].procs[ps[i].act.np];
               && child.state.RUNNABLE? && child.parent == i && child.tickets == ps[i].tickets
               && child.pid > ps[i].pid
  {
    RunInv(tables, steps, k);
    InheritInEveryRun(tables, steps, k);
    assert Follows(tables, steps, k);
    var i := steps[k].i;
    assert SlotOk(tables[k].procs, tables[k].nextpid, i) && Inherits(tables[k].procs, i);
    assert SlotOk(tables[k].procs, tables[k].nextpid, tables[k].procs[i].act.np);
  }

  /** wait gives back the slot of the first dead child, cleared, and nothing else. */
  lemma {:induction false} ChildIsReaped(t: Table, i: int, z: int)
    requires Inv(t) && CanStep(t, Wait(i)) && FirstZombie(t.procs, i, z)
    ensures var ps1 := Next(t, Wait(i)).procs;
            && Unused(ps1[z]) && ps1[z].pid == 0 && ps1[z].parent == NONE && !ps1[z].killed
            && forall k :: 0 <= k < |ps1| && k != z ==> ps1[k] == t.procs[k]
  {
    Searches(t.procs, i, 0);
  }

  // --- Nobody is stuck ------------------------------------------------------------------------------

  /** Whatever is runnable can run; whatever runs can do anything a process may, a fork can
      always be brought to its end, and a new one needs no more than an unused slot. */
  lemma {:induction false} NoneStuck(t: Table, k: int, address: int, tickets: int)
    requires Inv(t) && 0 <= k < |t.procs|
    ensures t.procs[k].state.RUNNABLE? <==> CanStep(t, Run(k))
    ensures t.procs[k].state.RUNNING? <==> CanStep(t, Yield(k))
    ensures t.procs[k].state.RUNNING? && t.procs[k].act.Idle? ==>
              && CanStep(t, Wait(k)) && CanStep(t, Sleep(k, address)) && CanStep(t, SetTickets(k, tickets))
              && (CanStep(t, Exit(k)) <==> k != INIT)
              && (CanStep(t, Alloc(k)) <==> exists j :: 0 <= j < |t.procs| && Unused(t.procs[j]))
    ensures t.procs[k].state.RUNNING? && t.procs[k].act.Forking? ==>
              if t.procs[k].act.parentSet then CanStep(t, ForkDone(k))
              else CanStep(t, ForkFails(k)) && CanStep(t, ForkSetsParent(k))
    ensures t.procs[k].state.EMBRYO? ==>
              var m := t.procs[k].maker; 0 <= m < |t.procs| && t.procs[m].act.Forking? && t.procs[m].act.np == k
  {
    assert SlotOk(t.procs, t.nextpid, k);
  }
}
