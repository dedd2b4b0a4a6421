/** The critical sections of the process table in place, each proved to be the step of
    the state machine. */
module ProcTable {
  import opened ProcSpec

  datatype WaitResult = Child(pid: int) | NoChildren | Asleep

  class Ptable {
    const proc: array<Proc>
    var nextpid: int

    ghost function Now(): Table
      reads this, proc
    {
      Table(proc[..], nextpid)
    }

    constructor (slots: array<Proc>)
      ensures proc == slots && nextpid == 1
    {
      proc, nextpid := slots, 1;
    }

    method Wakeup1(chan: Chan)
      modifies proc
      ensures proc[..] == WakeAll(old(proc[..]), chan)
    {
      for k := 0 to proc.Length
        invariant forall j :: 0 <= j < k ==> proc[j] == Woken(old(proc[j]), chan)
        invariant forall j :: k <= j < proc.Length ==> proc[j] == old(proc[j])
      {
        if proc[k].state.SLEEPING? && proc[k].chan == chan {
          proc[k] := proc[k].(state := RUNNABLE);
        }
      }
    }

    /** Takes the first unused slot for process maker; NONE if there is none. */
    method Allocproc(maker: int) returns (np: int)
      requires 0 <= maker < proc.Length && !proc[maker].state.UNUSED?
      modifies this, proc
      ensures np == (if FindUnused(old(proc[..]), 0) < proc.Length then FindUnused(old(proc[..]), 0) else NONE)
      ensures np == NONE ==> Now() == old(Now())
      ensures np != NONE ==> nextpid == old(nextpid) + 1
      ensures np != NONE ==>
                0 <= np < proc.Length && proc[np].state.EMBRYO? && proc[np].pid == old(nextpid) && proc[np].tickets == 1
      ensures np != NONE ==> proc[..] == old(proc[..])[np := Embryo(old(proc[np]), old(nextpid), maker)]
    {
      np := 0;
      while np < proc.Length && !proc[np].state.UNUSED?
        invariant 0 <= np <= proc.Length
        invariant FindUnused(proc[..], 0) == FindUnused(proc[..], np)
      {
        np := np + 1;
      }
      if np == proc.Length {
        return NONE;
      }
      proc[np] := proc[np].(state := EMBRYO, pid := nextpid, tickets := 1, maker := maker);
      nextpid := nextpid + 1;
    }

    /** The caller becomes a zombie; its children become init's. */
    method Exit(i: int)
      requires 0 <= i < proc.Length && i != INIT
      modifies proc
      ensures proc[..] == Exited(old(proc[..]), i)
    {
      ghost var ps := proc[..];
      Wakeup1(OnProc(proc[i].parent));
      ghost var woken := proc[..];
      ghost var first := FindZombie(woken, i, 0);
      ZombiesStay(ps, OnProc(ps[i].parent), i, 0);
      for k := 0 to proc.Length
        invariant forall j :: 0 <= j < proc.Length ==> proc[j] == MidExit(woken, i, k, first < k, j)
      {
        if proc[k].parent == i {
          proc[k] := proc[k].(parent := INIT);
          if proc[k].state.ZOMBIE? {
            Wakeup1(OnProc(INIT));
          }
        }
      }
      proc[i] := proc[i].(state := ZOMBIE);
    }

    /** Marks the first slot with that number; -1 if there is none. */
    method Kill(pid: int) returns (r: int)
      modifies proc
      ensures proc[..] == Killed(old(proc[..]), pid)
      ensures r == if FindPid(old(proc[..]), pid, 0) < proc.Length then 0 else -1
    {
      for k := 0 to proc.Length
        invariant proc[..] == old(proc[..]) && FindPid(proc[..], pid, 0) == FindPid(proc[..], pid, k)
      {
        if proc[k].pid == pid {
          proc[k] := proc[k].(killed := true);
          if proc[k].state.SLEEPING? {
            proc[k] := proc[k].(state := RUNNABLE);
          }
          return 0;
        }
      }
      return -1;
    }

    /** One scan of wait by process i, up to its return or to falling asleep. */
    method Wait(i: int) returns (r: WaitResult)
      requires 0 <= i < proc.Length
      modifies proc
      ensures proc[..] == Waited(old(proc[..]), i)
      ensures var ps := old(proc[..]);
              var z := FindZombie(ps, i, 0);
              r == if z < |ps| then Child(ps[z].pid) else if !HasKids(ps, i) || ps[i].killed then NoChildren else Asleep
    {
      var havekids := false;
      for k := 0 to proc.Length
        invariant proc[..] == old(proc[..]) && FindZombie(proc[..], i, 0) == FindZombie(proc[..], i, k)
        invariant havekids <==> exists j :: 0 <= j < k && proc[j].parent == i
      {
        if proc[k].parent == i {
          havekids := true;
          if proc[k].state.ZOMBIE? {
            r := Child(proc[k].pid);
            proc[k] := proc[k].(pid := 0, parent := NONE, killed := false);
            proc[k] := proc[k].(state := UNUSED);
            return;
          }
        }
      }
      assert havekids <==> HasKids(proc[..], i);
      if !havekids || proc[i].killed {
        return NoChildren;
      }
      proc[i] := proc[i].(chan := OnProc(i));
      proc[i] := proc[i].(state := SLEEPING);
      return Asleep;
    }
  }

  /** exit's loop before slot k; initWoken tells whether a zombie child was met. */
  function MidExit(woken: seq<Proc>, i: int, k: int, initWoken: bool, j: int): Proc
    requires 0 <= j < |woken|
  {
    var p := if j < k then Adopted(woken[j], i) else woken[j];
    if initWoken then Woken(p, OnProc(INIT)) else p
  }
}
