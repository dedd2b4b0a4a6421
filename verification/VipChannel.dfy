/** The VIP channel: passengers of two directions share one corridor through group
    locks.  The first of a group locks what the last one out unlocks, so the group locks
    are modelled without an owner.  Any number of threads, any interleaving. */
module VipChannel {

  datatype Direction = LeftToRight | RightToLeft

  /** The statements the two functions share; those on left_side_empty are the left's alone. */
  datatype Stage =
    | LockCount | CountUp | LockLeft | LockChannel | UnlockCount
    | Pass | LockCount2 | CountDown | UnlockChannel | UnlockLeft | UnlockCount2

  /** The statement a thread is about to execute.  RightToLeftVIP begins with a gate.  A
      counter and the test on it are one step: both happen under the counter's lock. */
  datatype Pc = Outside | GateLock | GateUnlock | At(dir: Direction, stage: Stage)

  /** A direction's counter, and the thread that holds the lock on it, if any. */
  datatype Side = Side(count: int, holder: int)

  const NOBODY := -1

  /** gate is the thread that holds left_side_empty between the gate's two statements. */
  datatype State = State(pcs: seq<Pc>, lr: Side, rl: Side, channel: bool, left: bool, gate: int)

  function Init(n: nat): State {
    State(seq(n, i => Outside), Side(0, NOBODY), Side(0, NOBODY), false, false, NOBODY)
  }

  function Of(s: State, d: Direction): Side {
    if d.LeftToRight? then s.lr else s.rl
  }

  function WithSide(s: State, d: Direction, side: Side): State {
    if d.LeftToRight? then s.(lr := side) else s.(rl := side)
  }

  // --- Steps ----------------------------------------------------------------------

  /** A thread waits only for a lock that is held. */
  predicate Enabled(s: State, i: nat)
    requires i < |s.pcs|
  {
    match s.pcs[i]
    case Outside => false
    case GateLock => !s.left
    case GateUnlock => true
    case At(d, stage) =>
      match stage
      case LockCount => Of(s, d).holder == NOBODY
      case LockCount2 => Of(s, d).holder == NOBODY
      case LockLeft => !s.left
      case LockChannel => !s.channel
      case _ => true
  }

  /** Where the thread goes next. */
  function Next(s: State, i: nat): Pc
    requires i < |s.pcs|
  {
    match s.pcs[i]
    case Outside => Outside
    case GateLock => GateUnlock
    case GateUnlock => At(RightToLeft, LockCount)
    case At(d, stage) =>
      match stage
      case LockCount => At(d, CountUp)
      case CountUp =>
        if Of(s, d).count + 1 == 1 then At(d, if d.LeftToRight? then LockLeft else LockChannel) else At(d, UnlockCount)
      case LockLeft => At(d, LockChannel)
      case LockChannel => At(d, UnlockCount)
      case UnlockCount => At(d, Pass)
      case Pass => At(d, LockCount2)
      case LockCount2 => At(d, CountDown)
      case CountDown => if Of(s, d).count - 1 == 0 then At(d, UnlockChannel) else At(d, UnlockCount2)
      case UnlockChannel => At(d, if d.LeftToRight? then UnlockLeft else UnlockCount2)
      case UnlockLeft => At(d, UnlockCount2)
      case UnlockCount2 => Outside
  }

  /** What the thread's statement does to its direction's counter and lock. */
  function NextSide(s: State, i: nat, d: Direction, stage: Stage): Side {
    var side := Of(s, d);
    match stage
    case LockCount => side.(holder := i)
    case LockCount2 => side.(holder := i)
    case UnlockCount => side.(holder := NOBODY)
    case UnlockCount2 => side.(holder := NOBODY)
    case CountUp => side.(count := side.count + 1)
    case CountDown => side.(count := side.count - 1)
    case _ => side
  }

  /** One step of thread i. */
  function Step(s: State, i: nat): State
    requires i < |s.pcs| && Enabled(s, i)
  {
    var s1 := s.(pcs := s.pcs[i := Next(s, i)]);
    match s.pcs[i]
    case Outside => s1
    case GateLock => s1.(left := true, gate := i)
    case GateUnlock => s1.(left := false, gate := NOBODY)
    case At(d, stage) =>
      WithSide(s1, d, NextSide(s, i, d, stage))
        .(channel := if stage.LockChannel? then true else if stage.UnlockChannel? then false else s.channel,
          left := if stage.LockLeft? then true else if stage.UnlockLeft? then false else s.left)
  }

  /** A passenger who is outside calls one of the two functions. */
  function Arrive(s: State, i: nat, dir: Direction): State
    requires i < |s.pcs|
  {
    s.(pcs := s.pcs[i := if dir.LeftToRight? then At(LeftToRight, LockCount) else GateLock])
  }

  datatype Event = Runs(i: nat) | Arrives(i: nat, dir: Direction)

  predicate CanHappen(s: State, e: Event) {
    e.i < |s.pcs| && if e.Runs? then Enabled(s, e.i) else s.pcs[e.i] == Outside
  }

  function After(s: State, e: Event): State
    requires CanHappen(s, e)
  {
    if e.Runs? then Step(s, e.i) else Arrive(s, e.i, e.dir)
  }

  /** The states of a run: each follows from the one before by some event. */
  predicate IsRun(states: seq<State>, events: seq<Event>) {
    && |states| == |events| + 1
    && forall k :: 0 <= k < |events| ==> Follows(states, events, k)
  }

  predicate Follows(states: seq<State>, events: seq<Event>, k: nat)
    requires k < |events| && |states| == |events| + 1
  {
    CanHappen(states[k], events[k]) && states[k + 1] == After(states[k], events[k])
  }

  // --- Who holds what -------------------------------------------------------------------

  /** At this statement a thread of direction d holds the lock on d's counter. */
  predicate Holds(pc: Pc, d: Direction) {
    pc.At? && pc.dir == d && !pc.stage.LockCount? && !pc.stage.Pass? && !pc.stage.LockCount2?
  }

  /** At this statement d's counter counts the thread. */
  predicate Counted(pc: Pc, d: Direction) {
    pc.At? && pc.dir == d
    && (pc.stage.LockLeft? || pc.stage.LockChannel? || pc.stage.UnlockCount? || pc.stage.Pass? || pc.stage.LockCount2?
        || pc.stage.CountDown?)
  }

  function Members(pcs: seq<Pc>, d: Direction): set<nat> {
    set i: nat | i < |pcs| && Counted(pcs[i], d)
  }

  lemma {:induction false} Toggled(a: set<nat>, b: set<nat>, i: nat)
    requires forall j: nat :: j != i ==> (j in a <==> j in b)
    ensures |b| == |a| - (if i in a then 1 else 0) + (if i in b then 1 else 0)
  {
    assert a - {i} == b - {i};
    assert i in a ==> |a - {i}| == |a| - 1;
    assert i in b ==> |b - {i}| == |b| - 1;
    assert i !in a ==> a - {i} == a;
    assert i !in b ==> b - {i} == b;
  }

  lemma {:induction false} MembersMoved(pcs: seq<Pc>, i: nat, to: Pc, d: Direction)
    requires i < |pcs|
    ensures |Members(pcs[i := to], d)|
            == |Members(pcs, d)| - (if Counted(pcs[i], d) then 1 else 0) + (if Counted(to, d) then 1 else 0)
  {
    Toggled(Members(pcs, d), Members(pcs[i := to], d), i);
  }

  /** The stage of the thread that holds d's counter; Pass, where none holds it, if none. */
  function HolderStage(s: State, d: Direction): Stage {
    var h := Of(s, d).holder;
    if 0 <= h < |s.pcs| && s.pcs[h].At? then s.pcs[h].stage else Pass
  }

  /** The group owns a lock from the first passenger's lock to the last one's unlock. */
  predicate HasChannel(s: State, d: Direction) {
    var h := HolderStage(s, d);
    h.UnlockChannel? || (Of(s, d).count > 0 && !h.LockLeft? && !h.LockChannel?)
  }

  predicate HasLeft(s: State) {
    var h := HolderStage(s, LeftToRight);
    h.UnlockChannel? || h.UnlockLeft? || (s.lr.count > 0 && !h.LockLeft?)
  }

  predicate Placed(s: State, i: nat)
    requires i < |s.pcs|
  {
    && (Holds(s.pcs[i], LeftToRight) <==> s.lr.holder == i)
    && (Holds(s.pcs[i], RightToLeft) <==> s.rl.holder == i)
    && (s.pcs[i] == GateUnlock <==> s.gate == i)
    && (s.pcs[i].At? && (s.pcs[i].stage.LockLeft? || s.pcs[i].stage.UnlockLeft?) ==> s.pcs[i].dir.LeftToRight?)
  }

  /** Exactly the thread at a statement under a lock is its holder. */
  ghost predicate Locks(s: State) {
    && NOBODY <= s.lr.holder < |s.pcs| && NOBODY <= s.rl.holder < |s.pcs| && NOBODY <= s.gate < |s.pcs|
    && forall i {:trigger Placed(s, i)} :: 0 <= i < |s.pcs| ==> Placed(s, i)
  }

  /** The counter is right, and the tests on it found out who is first and who last. */
  predicate Counts(s: State, d: Direction) {
    && Of(s, d).count == |Members(s.pcs, d)|
    && (HolderStage(s, d).LockLeft? || HolderStage(s, d).LockChannel? ==> Of(s, d).count == 1)
    && (HolderStage(s, d).UnlockChannel? || HolderStage(s, d).UnlockLeft? ==> Of(s, d).count == 0)
  }

  /** Each group lock is held exactly while its group, or the thread in the gate, owns it. */
  predicate Owned(s: State) {
    && s.channel == (HasChannel(s, LeftToRight) || HasChannel(s, RightToLeft))
    && !(HasChannel(s, LeftToRight) && HasChannel(s, RightToLeft))
    && s.left == (HasLeft(s) || s.gate != NOBODY)
    && !(HasLeft(s) && s.gate != NOBODY)
  }

  ghost predicate Inv(s: State) {
    Locks(s) && Counts(s, LeftToRight) && Counts(s, RightToLeft) && Owned(s)
  }

  lemma {:induction false} InitInv(n: nat)
    ensures Inv(Init(n))
  {
    assert Members(Init(n).pcs, LeftToRight) == {} && Members(Init(n).pcs, RightToLeft) == {};
  }

  lemma {:induction false} LocksKept(s: State, i: nat)
    requires Locks(s) && Owned(s) && i < |s.pcs| && Enabled(s, i)
    ensures Locks(Step(s, i))
  {
    var s1 := Step(s, i);
    assert Placed(s, i);
    forall j | 0 <= j < |s1.pcs|
      ensures Placed(s1, j)
    {
      assert Placed(s, j);
    }
  }

  lemma {:induction false} CountsKeptOwn(s: State, i: nat, d: Direction)
    requires Locks(s) && Counts(s, d) && i < |s.pcs| && Enabled(s, i) && s.pcs[i].At? && s.pcs[i].dir == d
    ensures Counts(Step(s, i), d)
  {
    assert Placed(s, i);
    MembersMoved(s.pcs, i, Next(s, i), d);
  }

  lemma {:induction false} CountsKept(s: State, i: nat, d: Direction)
    requires Locks(s) && Counts(s, d) && i < |s.pcs| && Enabled(s, i)
    ensures Counts(Step(s, i), d)
  {
    if s.pcs[i].At? && s.pcs[i].dir == d {
      CountsKeptOwn(s, i, d);
    } else {
      assert Placed(s, i);
      MembersMoved(s.pcs, i, Next(s, i), d);
    }
  }

  lemma {:induction false} OwnedKeptLeft(s: State, i: nat)
    requires Inv(s) && i < |s.pcs| && Enabled(s, i) && s.pcs[i].At? && s.pcs[i].dir.LeftToRight?
    ensures Owned(Step(s, i))
  {
    assert Placed(s, i);
    MembersMoved(s.pcs, i, Next(s, i), LeftToRight);
    OtherSide(s, i, RightToLeft);
  }

  lemma {:induction false} OwnedKeptRight(s: State, i: nat)
    requires Inv(s) && i < |s.pcs| && Enabled(s, i) && s.pcs[i].At? && s.pcs[i].dir.RightToLeft?
    ensures Owned(Step(s, i))
  {
    assert Placed(s, i);
    MembersMoved(s.pcs, i, Next(s, i), RightToLeft);
    OtherSide(s, i, LeftToRight);
  }

  /** A step of the one direction changes nothing that the other one owns. */
  lemma {:induction false} OtherSide(s: State, i: nat, d: Direction)
    requires Inv(s) && i < |s.pcs| && Enabled(s, i) && s.pcs[i].At? && s.pcs[i].dir != d
    ensures var s1 := Step(s, i);
            Of(s1, d) == Of(s, d) && HolderStage(s1, d) == HolderStage(s, d) && HasChannel(s1, d) == HasChannel(s, d)
            && (d.LeftToRight? ==> HasLeft(s1) == HasLeft(s))
  {
    assert Placed(s, i);
  }

  lemma {:induction false} OwnedKept(s: State, i: nat)
    requires Inv(s) && i < |s.pcs| && Enabled(s, i)
    ensures Owned(Step(s, i))
  {
    match s.pcs[i]
    case At(LeftToRight, _) => OwnedKeptLeft(s, i);
    case At(RightToLeft, _) => OwnedKeptRight(s, i);
    case _ => GateKeepsOwned(s, i);
  }

  lemma {:induction false} GateKeepsOwned(s: State, i: nat)
    requires Inv(s) && i < |s.pcs| && Enabled(s, i) && !s.pcs[i].At?
    ensures Owned(Step(s, i))
  {
    assert Placed(s, i);
  }

  lemma {:induction false} ArriveKeeps(s: State, i: nat, dir: Direction)
    requires Inv(s) && i < |s.pcs| && s.pcs[i] == Outside
    ensures Inv(Arrive(s, i, dir))
  {
    var s1 := Arrive(s, i, dir);
    MembersMoved(s.pcs, i, s1.pcs[i], LeftToRight);
    MembersMoved(s.pcs, i, s1.pcs[i], RightToLeft);
    assert Placed(s, i);
    forall j | 0 <= j < |s1.pcs|
      ensures Placed(s1, j)
    {
      assert Placed(s, j);
    }
  }

  lemma {:induction false} InvKept(s: State, e: Event)
    requires Inv(s) && CanHappen(s, e)
    ensures Inv(After(s, e))
  {
    if e.Arrives? {
      ArriveKeeps(s, e.i, e.dir);
    } else {
      LocksKept(s, e.i);
      CountsKept(s, e.i, LeftToRight);
      CountsKept(s, e.i, RightToLeft);
      OwnedKept(s, e.i);
    }
  }

  lemma {:induction false} RunInv(states: seq<State>, events: seq<Event>, k: nat)
    requires IsRun(states, events) && Inv(states[0]) && k < |states|
    ensures Inv(states[k])
  {
    if k > 0 {
      RunInv(states, events, k - 1);
      assert Follows(states, events, k - 1);
      InvKept(states[k - 1], events[k - 1]);
    }
  }

  // --- Mutual exclusion ------------------------------------------------------------------------

  predicate InChannel(pc: Pc, dir: Direction) {
    pc.At? && pc.dir == dir && (pc.stage.UnlockCount? || pc.stage.Pass? || pc.stage.LockCount2? || pc.stage.CountDown?)
  }

  lemma {:induction false} AloneIfOne(members: set<nat>, a: nat, i: nat)
    requires i in members
    ensures |members| > 0
    ensures a in members && |members| == 1 ==> a == i
  {
    assert |members - {i}| == |members| - 1;
    assert a in members && a != i ==> a in members - {i};
  }

  /** Whoever is in the channel, his group owns it. */
  lemma {:induction false} InsiderOwns(s: State, i: nat, d: Direction)
    requires Inv(s) && i < |s.pcs| && InChannel(s.pcs[i], d)
    ensures HasChannel(s, d)
  {
    var h := Of(s, d).holder;
    assert Placed(s, i) && i in Members(s.pcs, d);
    AloneIfOne(Members(s.pcs, d), if h >= 0 then h else i, i);
    if h >= 0 {
      assert Placed(s, h);
    }
  }

  /** In any run from the start, no two passengers are in the channel in opposite directions. */
  lemma {:induction false} MutualExclusion(n: nat, states: seq<State>, events: seq<Event>, k: nat, i: nat, j: nat)
    requires IsRun(states, events) && states[0] == Init(n) && k < |states|
    requires i < |states[k].pcs| && j < |states[k].pcs|
    ensures !(InChannel(states[k].pcs[i], LeftToRight) && InChannel(states[k].pcs[j], RightToLeft))
  {
    InitInv(n);
    RunInv(states, events, k);
    if InChannel(states[k].pcs[i], LeftToRight) {
      InsiderOwns(states[k], i, LeftToRight);
    }
    if InChannel(states[k].pcs[j], RightToLeft) {
      InsiderOwns(states[k], j, RightToLeft);
    }
  }

  /** No thread unlocks a lock that is free, and a counter's lock is unlocked by its holder. */
  lemma {:induction false} UnlocksAreOfHeldLocks(s: State, i: nat)
    requires Inv(s) && i < |s.pcs|
    ensures s.pcs[i].At? && (s.pcs[i].stage.UnlockCount? || s.pcs[i].stage.UnlockCount2?) ==>
              Of(s, s.pcs[i].dir).holder == i
    ensures s.pcs[i].At? && s.pcs[i].stage.UnlockChannel? ==> s.channel
    ensures s.pcs[i] == GateUnlock || (s.pcs[i].At? && s.pcs[i].stage.UnlockLeft?) ==> s.left
  {
    assert Placed(s, i);
  }

  // --- Progress ----------------------------------------------------------------------------------

  predicate Quiet(s: State) {
    forall i :: 0 <= i < |s.pcs| ==> s.pcs[i] == Outside
  }

  /** A group that owns the channel has a member who can go on. */
  lemma {:induction false} GroupGoesOn(s: State, d: Direction) returns (i: nat)
    requires Inv(s) && HasChannel(s, d)
    ensures i < |s.pcs| && Enabled(s, i)
  {
    if Of(s, d).holder != NOBODY {
      i := Of(s, d).holder;
    } else {
      assert Members(s.pcs, d) != {};
      i :| i in Members(s.pcs, d);
    }
    assert Placed(s, i);
  }

  /** While a passenger is in the protocol some passenger in it can go on: follow the
      locks from whoever is stuck to whoever holds them. */
  lemma {:induction false} NoDeadlock(s: State) returns (i: nat)
    requires Inv(s) && !Quiet(s)
    ensures i < |s.pcs| && Enabled(s, i)
  {
    var j: nat :| j < |s.pcs| && s.pcs[j] != Outside;
    assert Placed(s, j);
    if Enabled(s, j) {
      i := j;
    } else if s.gate != NOBODY {
      i := s.gate;
    } else if HasChannel(s, LeftToRight) {
      i := GroupGoesOn(s, LeftToRight);
    } else if HasChannel(s, RightToLeft) {
      i := GroupGoesOn(s, RightToLeft);
    } else if s.lr.holder != NOBODY {
      i := s.lr.holder;
    } else {
      i := s.rl.holder;
    }
    assert Placed(s, i);
  }

  /** An upper bound on the steps a passenger has left. */
  function Left(pc: Pc): nat {
    match pc
    case Outside => 0
    case GateLock => 13
    case GateUnlock => 12
    case At(_, stage) =>
      match stage
      case LockCount => 11
      case CountUp => 10
      case LockLeft => 9
      case LockChannel => 8
      case UnlockCount => 7
      case Pass => 6
      case LockCount2 => 5
      case CountDown => 4
      case UnlockChannel => 3
      case UnlockLeft => 2
      case UnlockCount2 => 1
  }

  function AllLeft(pcs: seq<Pc>): nat {
    if pcs == [] then 0 else Left(pcs[0]) + AllLeft(pcs[1..])
  }

  lemma {:induction false} AllLeftMoved(pcs: seq<Pc>, i: nat, to: Pc)
    requires i < |pcs|
    ensures AllLeft(pcs[i := to]) == AllLeft(pcs) - Left(pcs[i]) + Left(to)
  {
    if i > 0 {
      AllLeftMoved(pcs[1..], i - 1, to);
      assert pcs[i := to][1..] == pcs[1..][i - 1 := to];
    } else {
      assert pcs[i := to][1..] == pcs[1..];
    }
  }

  lemma {:induction false} StepUses(s: State, i: nat)
    requires i < |s.pcs| && Enabled(s, i)
    ensures AllLeft(Step(s, i).pcs) + 1 <= AllLeft(s.pcs)
  {
    AllLeftMoved(s.pcs, i, Next(s, i));
    assert Left(Next(s, i)) < Left(s.pcs[i]);
    assert Step(s, i).pcs == s.pcs[i := Next(s, i)];
  }

  /** Without new arrivals every schedule comes to an end: a run has no more steps than
      the passengers in it have left. */
  lemma {:induction false} ScheduleIsBounded(states: seq<State>, events: seq<Event>, k: nat)
    requires IsRun(states, events) && k < |states| && forall e :: e in events ==> e.Runs?
    ensures AllLeft(states[k].pcs) + k <= AllLeft(states[0].pcs)
  {
    if k > 0 {
      ScheduleIsBounded(states, events, k - 1);
      assert Follows(states, events, k - 1);
      assert events[k - 1] in events;
      StepUses(states[k - 1], events[k - 1].i);
    }
  }

  lemma {:induction false} HolderInside(s: State, h: int)
    requires Locks(s) && (h == s.lr.holder || h == s.rl.holder || h == s.gate)
    ensures h != NOBODY ==> s.pcs[h] != Outside
  {
    if h != NOBODY {
      assert Placed(s, h);
    }
  }

  lemma {:induction false} QuietIsFree(s: State)
    requires Inv(s) && Quiet(s)
    ensures !s.channel && !s.left && s.lr == s.rl == Side(0, NOBODY)
  {
    assert Members(s.pcs, LeftToRight) == {} && Members(s.pcs, RightToLeft) == {};
    HolderInside(s, s.lr.holder);
    HolderInside(s, s.rl.holder);
    HolderInside(s, s.gate);
  }

  /** So every schedule that cannot be continued has brought all passengers through, and
      left every lock free. */
  lemma {:induction false} EveryoneGetsThrough(n: nat, states: seq<State>, events: seq<Event>)
    requires IsRun(states, events) && states[0] == Init(n)
    requires forall i: nat :: i < |states[|events|].pcs| ==> !Enabled(states[|events|], i)
    ensures var s := states[|events|];
            Quiet(s) && !s.channel && !s.left && s.lr == s.rl == Side(0, NOBODY)
  {
    InitInv(n);
    RunInv(states, events, |events|);
    var s := states[|events|];
    if !Quiet(s) {
      var i := NoDeadlock(s);
    }
    QuietIsFree(s);
  }

  // --- Priority from the left ---------------------------------------------------------------------

  /** Past the gate at the right end, and not yet out. */
  predicate PastGate(pc: Pc) {
    pc == GateUnlock || (pc.At? && pc.dir.RightToLeft?)
  }

  /** As long as a group from the left keeps left_side_empty, no passenger from the right
      passes the gate who had not passed it when the group took the lock. */
  lemma {:induction false} GateStaysShut(states: seq<State>, events: seq<Event>, k: nat, j: nat)
    requires IsRun(states, events) && Inv(states[0]) && k < |states| && j < |states[0].pcs|
    requires forall m :: 0 <= m < k ==> HasLeft(states[m])
    requires !PastGate(states[0].pcs[j])
    ensures j < |states[k].pcs| && !PastGate(states[k].pcs[j])
  {
    if k > 0 {
      GateStaysShut(states, events, k - 1, j);
      RunInv(states, events, k - 1);
      assert Follows(states, events, k - 1);
      GateStep(states[k - 1], events[k - 1], j);
    }
  }

  lemma {:induction false} GateStep(s: State, e: Event, j: nat)
    requires Inv(s) && HasLeft(s) && CanHappen(s, e) && j < |s.pcs| && !PastGate(s.pcs[j])
    ensures j < |After(s, e).pcs| && !PastGate(After(s, e).pcs[j])
  {
  }

  /** In particular: while passengers from the left follow one another through the channel,
      nobody from the right gets past the gate. */
  lemma {:induction false} LeftGoesFirst(n: nat, states: seq<State>, events: seq<Event>, from: nat, k: nat, j: nat)
    requires IsRun(states, events) && states[0] == Init(n) && from <= k < |states| && j < |states[from].pcs|
    requires forall m :: from <= m < k ==> SomeoneFromLeft(states[m])
    requires !PastGate(states[from].pcs[j])
    ensures j < |states[k].pcs| && !PastGate(states[k].pcs[j])
    decreases k
  {
    if from < k {
      LeftGoesFirst(n, states, events, from, k - 1, j);
      InitInv(n);
      RunInv(states, events, k - 1);
      assert Follows(states, events, k - 1) && SomeoneFromLeft(states[k - 1]);
      var i: nat :| i < |states[k - 1].pcs| && InChannel(states[k - 1].pcs[i], LeftToRight);
      InsiderOwns(states[k - 1], i, LeftToRight);
      GateStep(states[k - 1], events[k - 1], j);
    }
  }

  ghost predicate SomeoneFromLeft(s: State) {
    exists i: nat :: i < |s.pcs| && InChannel(s.pcs[i], LeftToRight)
  }

  // --- Everybody goes where he is going ---------------------------------------------------------------

  /** How often passenger i came for direction d, and how often he passed in it. */
  function Arrivals(events: seq<Event>, k: nat, i: nat, d: Direction): nat
    requires k <= |events|
  {
    if k == 0 then 0 else Arrivals(events, k - 1, i, d) + if events[k - 1] == Arrives(i, d) then 1 else 0
  }

  function Passes(states: seq<State>, events: seq<Event>, k: nat, i: nat, d: Direction): nat
    requires k <= |events| <= |states|
  {
    if k == 0 then 0
    else
      var s := states[k - 1];
      Passes(states, events, k - 1, i, d)
        + if events[k - 1] == Runs(i) && i < |s.pcs| && s.pcs[i] == At(d, Pass) then 1 else 0
  }

  /** In the protocol for direction d, and not through yet. */
  predicate OnTheWay(pc: Pc, d: Direction) {
    match pc
    case Outside => false
    case At(dir, stage) =>
      dir == d && (stage.LockCount? || stage.CountUp? || stage.LockLeft? || stage.LockChannel? || stage.UnlockCount?
        || stage.Pass?)
    case _ => d.RightToLeft?
  }

  /** Every passenger passes exactly once for every time he comes, in the direction he came
      for: when he is outside again he has been through. */
  lemma {:induction false} ThroughOnce(n: nat, states: seq<State>, events: seq<Event>, k: nat, i: nat, d: Direction)
    requires IsRun(states, events) && states[0] == Init(n) && k < |states| && i < n
    ensures |states[k].pcs| == n
    ensures Arrivals(events, k, i, d)
            == Passes(states, events, k, i, d) + if OnTheWay(states[k].pcs[i], d) then 1 else 0
    ensures states[k].pcs[i] == Outside ==> Arrivals(events, k, i, d) == Passes(states, events, k, i, d)
  {
    if k > 0 {
      ThroughOnce(n, states, events, k - 1, i, d);
      assert Follows(states, events, k - 1);
    }
  }
}
