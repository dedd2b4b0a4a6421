/** The lottery scheduler: the two passes over the process table, when a draw finds a
    process, and how many of the possible draws each process wins. */
module Lottery {
  import opened ProcSpec

  const TWO_32 := 0x1_0000_0000

  function Tickets(p: Proc): int {
    if p.state.RUNNABLE? then p.tickets else 0
  }

  /** The tickets of the runnable processes in the first k slots. */
  function Total(ps: seq<Proc>, k: nat): int
    requires k <= |ps|
  {
    if k == 0 then 0 else Total(ps, k - 1) + Tickets(ps[k - 1])
  }

  predicate Sane(ps: seq<Proc>) {
    (forall k :: 0 <= k < |ps| ==> Tickets(ps[k]) >= 0) && Total(ps, |ps|) < TWO_32
  }

  lemma {:induction false} TotalGrows(ps: seq<Proc>, j: nat, k: nat)
    requires Sane(ps) && j <= k <= |ps|
    ensures 0 <= Total(ps, j) <= Total(ps, k)
    decreases k
  {
    if j < k {
      TotalGrows(ps, j, k - 1);
    } else if k > 0 {
      TotalGrows(ps, k - 1, k - 1);
    }
  }

  /** Slot k is runnable and the tickets up to and including it reach the draw. */
  predicate Wins(ps: seq<Proc>, lottery: int, k: nat)
    requires k < |ps|
  {
    ps[k].state.RUNNABLE? && lottery <= Total(ps, k + 1)
  }

  /** The slot switched to: the first that wins; |ps| if none does. */
  function Chosen(ps: seq<Proc>, lottery: int, from: nat): (r: nat)
    requires from <= |ps|
    ensures from <= r <= |ps| && (r < |ps| ==> Wins(ps, lottery, r))
    ensures forall j :: from <= j < r ==> !Wins(ps, lottery, j)
    decreases |ps| - from
  {
    if from == |ps| || Wins(ps, lottery, from) then from else Chosen(ps, lottery, from + 1)
  }

  // --- The two passes -----------------------------------------------------------------

  /** The first pass, in unsigned arithmetic. */
  method TotalTickets(proc: array<Proc>) returns (total: nat)
    requires Sane(proc[..])
    ensures total == Total(proc[..], proc.Length)
  {
    total := 0;
    for k := 0 to proc.Length
      invariant total == Total(proc[..], k)
    {
      if proc[k].state.RUNNABLE? {
        TotalGrows(proc[..], 0, k);
        TotalGrows(proc[..], k + 1, proc.Length);
        total := (total + proc[k].tickets) % TWO_32;
      }
    }
  }

  /** The second pass, for a given draw; proc.Length if no process is switched to. */
  method Draw(proc: array<Proc>, lottery: nat) returns (k: nat)
    requires Sane(proc[..])
    ensures k == Chosen(proc[..], lottery, 0)
  {
    var cumulative := 0;
    k := 0;
    while k < proc.Length
      invariant 0 <= k <= proc.Length
      invariant cumulative == Total(proc[..], k)
      invariant Chosen(proc[..], lottery, 0) == Chosen(proc[..], lottery, k)
    {
      if proc[k].state.RUNNABLE? {
        TotalGrows(proc[..], 0, k);
        TotalGrows(proc[..], k + 1, proc.Length);
        cumulative := (cumulative + proc[k].tickets) % TWO_32;
        if !(lottery > cumulative) {
          return;
        }
      }
      k := k + 1;
    }
  }

  /** One round: the hash is reduced to a draw by the total found before the lock was released. */
  function LotteryOf(total: nat, hash: nat): (l: nat)
    ensures total > 0 ==> l < total
    ensures total == 0 ==> l == 0
  {
    if total > 0 then hash % total else 0
  }

  // --- When a draw finds a process --------------------------------------------------------

  predicate AnyRunnable(ps: seq<Proc>) {
    exists k :: 0 <= k < |ps| && ps[k].state.RUNNABLE?
  }

  lemma {:induction false} AfterLastRunnable(ps: seq<Proc>, k: nat)
    requires k < |ps| && forall j :: k < j < |ps| ==> !ps[j].state.RUNNABLE?
    ensures Total(ps, |ps|) == Total(ps, k + 1)
  {
    SameFrom(ps, k + 1, |ps|);
  }

  lemma {:induction false} SameFrom(ps: seq<Proc>, j: nat, k: nat)
    requires j <= k <= |ps| && forall m :: j <= m < k ==> !ps[m].state.RUNNABLE?
    ensures Total(ps, k) == Total(ps, j)
    decreases k
  {
    if j < k {
      SameFrom(ps, j, k - 1);
    }
  }

  lemma {:induction false} LastRunnable(ps: seq<Proc>, n: nat) returns (k: nat)
    requires n <= |ps| && exists j :: 0 <= j < n && ps[j].state.RUNNABLE?
    ensures k < n && ps[k].state.RUNNABLE? && forall j :: k < j < n ==> !ps[j].state.RUNNABLE?
  {
    if ps[n - 1].state.RUNNABLE? {
      k := n - 1;
    } else {
      k := LastRunnable(ps, n - 1);
    }
  }

  /** The second pass switches to a process exactly if one is runnable and the draw does
      not exceed the tickets then in play. */
  lemma {:induction false} FindsProcessIff(ps: seq<Proc>, lottery: int)
    requires Sane(ps)
    ensures Chosen(ps, lottery, 0) < |ps| <==> AnyRunnable(ps) && lottery <= Total(ps, |ps|)
  {
    var k := Chosen(ps, lottery, 0);
    if k < |ps| {
      TotalGrows(ps, k + 1, |ps|);
    }
    if AnyRunnable(ps) && lottery <= Total(ps, |ps|) {
      var last := LastRunnable(ps, |ps|);
      AfterLastRunnable(ps, last);
      assert Wins(ps, lottery, last);
    }
  }

  /** Between the passes processes may become runnable, but none ceases to be, nor
      changes its tickets. */
  predicate OnlyGrows(ps: seq<Proc>, ps1: seq<Proc>) {
    |ps| == |ps1| && forall k :: 0 <= k < |ps| && ps[k].state.RUNNABLE? ==>
      ps1[k].state.RUNNABLE? && ps1[k].tickets == ps[k].tickets
  }

  lemma {:induction false} MoreTickets(ps: seq<Proc>, ps1: seq<Proc>, k: nat)
    requires OnlyGrows(ps, ps1) && Sane(ps1) && k <= |ps|
    ensures Total(ps, k) <= Total(ps1, k)
  {
    if k > 0 {
      MoreTickets(ps, ps1, k - 1);
      assert Tickets(ps1[k - 1]) >= 0;
    }
  }

  /** Then every round with a runnable process switches to one. */
  lemma {:induction false} NoIdleRound(ps: seq<Proc>, ps1: seq<Proc>, hash: nat)
    requires Sane(ps) && Sane(ps1) && OnlyGrows(ps, ps1) && AnyRunnable(ps1)
    ensures Total(ps, |ps|) >= 0
    ensures Chosen(ps1, LotteryOf(Total(ps, |ps|), hash), 0) < |ps1|
  {
    TotalGrows(ps, 0, |ps|);
    MoreTickets(ps, ps1, |ps|);
    FindsProcessIff(ps1, LotteryOf(Total(ps, |ps|), hash));
  }

  // --- How many draws each process wins ----------------------------------------------------

  predicate FirstRunnable(ps: seq<Proc>, i: nat)
    requires i < |ps|
  {
    ps[i].state.RUNNABLE? && forall j :: 0 <= j < i ==> !ps[j].state.RUNNABLE?
  }

  /** Process i wins exactly the draws above the tickets before it, up to and including
      its own last; the first also wins draw 0. */
  lemma {:induction false} WinsInterval(ps: seq<Proc>, i: nat, lottery: nat)
    requires Sane(ps) && i < |ps| && ps[i].state.RUNNABLE?
    ensures Chosen(ps, lottery, 0) == i <==>
              (FirstRunnable(ps, i) || lottery > Total(ps, i)) && lottery <= Total(ps, i + 1)
  {
    var k := Chosen(ps, lottery, 0);
    TotalGrows(ps, 0, i);
    if k == i && !FirstRunnable(ps, i) {
      var j :| 0 <= j < i && ps[j].state.RUNNABLE?;
      var last := LastRunnable(ps, i);
      SameFrom(ps, last + 1, i);
      assert !Wins(ps, lottery, last);
    }
    if (FirstRunnable(ps, i) || lottery > Total(ps, i)) && lottery <= Total(ps, i + 1) {
      assert Wins(ps, lottery, i);
      if k < i {
        TotalGrows(ps, k + 1, i);
      }
    }
  }

  /** The draws below m that choose i. */
  function Draws(ps: seq<Proc>, i: nat, m: nat): nat {
    if m == 0 then 0 else Draws(ps, i, m - 1) + if Chosen(ps, m - 1, 0) == i then 1 else 0
  }

  function Min(a: int, b: int): int { if a < b then a else b }

  lemma {:induction false} DrawsBelow(ps: seq<Proc>, i: nat, m: nat)
    requires Sane(ps) && i < |ps| && ps[i].state.RUNNABLE?
    ensures var lo := if FirstRunnable(ps, i) then 0 else Total(ps, i) + 1;
            Draws(ps, i, m) == Min(m, Total(ps, i + 1) + 1) - Min(m, Min(lo, Total(ps, i + 1) + 1))
  {
    TotalGrows(ps, 0, i);
    TotalGrows(ps, i, i + 1);
    if m > 0 {
      DrawsBelow(ps, i, m - 1);
      WinsInterval(ps, i, m - 1);
    }
  }

  /** Of the draws 0 .. total - 1 each process wins as many as it has tickets, except
      that draw 0 goes to the first runnable process in place of the draw at the very
      end, which belongs to the process whose tickets complete the total. */
  lemma {:induction false} ShareIsExact(ps: seq<Proc>, i: nat)
    requires Sane(ps) && i < |ps| && ps[i].state.RUNNABLE? && Total(ps, |ps|) > 0
    ensures var t := Total(ps, |ps|);
            Draws(ps, i, t) == ps[i].tickets + (if FirstRunnable(ps, i) then 1 else 0)
                               - (if Total(ps, i) < t == Total(ps, i + 1) then 1 else 0)
  {
    TotalGrows(ps, i + 1, |ps|);
    TotalGrows(ps, i, i + 1);
    TotalGrows(ps, 0, i);
    DrawsBelow(ps, i, Total(ps, |ps|));
    if FirstRunnable(ps, i) {
      SameFrom(ps, 0, i);
    }
  }

  lemma {:induction false} ShareWithinOne(ps: seq<Proc>, i: nat)
    requires Sane(ps) && i < |ps| && ps[i].state.RUNNABLE? && Total(ps, |ps|) > 0
    ensures -1 <= Draws(ps, i, Total(ps, |ps|)) - ps[i].tickets <= 1
  {
    ShareIsExact(ps, i);
  }

  function AllDraws(ps: seq<Proc>, n: nat, m: nat): nat {
    if n == 0 then 0 else AllDraws(ps, n - 1, m) + Draws(ps, n - 1, m)
  }

  lemma {:induction false} OneMoreDraw(ps: seq<Proc>, n: nat, m: nat)
    requires m > 0 && n <= |ps|
    ensures AllDraws(ps, n, m) == AllDraws(ps, n, m - 1) + if Chosen(ps, m - 1, 0) < n then 1 else 0
  {
    if n > 0 {
      OneMoreDraw(ps, n - 1, m);
    }
  }

  lemma {:induction false} NoDrawsYet(ps: seq<Proc>, n: nat)
    ensures AllDraws(ps, n, 0) == 0
  {
    if n > 0 {
      NoDrawsYet(ps, n - 1);
    }
  }

  /** Every draw is won by someone: the shares sum to the total. */
  lemma {:induction false} SharesSumUp(ps: seq<Proc>, m: nat)
    requires Sane(ps) && m <= Total(ps, |ps|)
    ensures AllDraws(ps, |ps|, m) == m
  {
    if m == 0 {
      NoDrawsYet(ps, |ps|);
    } else {
      SharesSumUp(ps, m - 1);
      OneMoreDraw(ps, |ps|, m);
      SomeTickets(ps, |ps|);
      FindsProcessIff(ps, m - 1);
    }
  }

  lemma {:induction false} SomeTickets(ps: seq<Proc>, k: nat)
    requires k <= |ps| && Total(ps, k) > 0
    ensures AnyRunnable(ps)
  {
    if !ps[k - 1].state.RUNNABLE? {
      SomeTickets(ps, k - 1);
    }
  }
}
