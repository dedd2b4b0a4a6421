/** The lottery over a whole cycle of the tick counter: since every hash comes up once, each
    process is drawn as often as its tickets and 2^32 allow. */
module LotteryShare {
  import opened ProcSpec
  import opened Lottery
  import opened Murmur
  import opened Words

  /** The hashes below n that draw process i. */
  function Hashes(ps: seq<Proc>, i: nat, total: nat, n: nat): set<nat> {
    set h: nat | h < n && Chosen(ps, LotteryOf(total, h), 0) == i
  }

  /** The values of the tick counter at which process i is drawn, with the scheduler's key. */
  function Ticks(ps: seq<Proc>, i: nat, total: nat, key: seq<Byte>): set<nat>
    requires |key| < 0x8000_0000
  {
    set t: nat | t < TWO32 && Chosen(ps, LotteryOf(total, Hash(t, key)), 0) == i
  }

  /** The draw is what remains when the hash is divided by the total. */
  lemma {:induction false} DrawOf(total: nat, q: nat, r: nat)
    requires r < total
    ensures LotteryOf(total, q * total + r) == r
  {
    QuotientIs(q * total + r, total, q, r);
  }

  lemma {:induction false} OneMoreHash(ps: seq<Proc>, i: nat, total: nat, n: nat)
    ensures |Hashes(ps, i, total, n + 1)|
            == |Hashes(ps, i, total, n)| + if Chosen(ps, LotteryOf(total, n), 0) == i then 1 else 0
  {
    hide Chosen, LotteryOf;
    var more := if Chosen(ps, LotteryOf(total, n), 0) == i then {n} else {};
    assert Hashes(ps, i, total, n + 1) == Hashes(ps, i, total, n) + more;
  }

  lemma {:induction false} NoHashes(ps: seq<Proc>, i: nat, total: nat)
    ensures |Hashes(ps, i, total, 0)| == 0 && Draws(ps, i, 0) == 0
  {
    assert Hashes(ps, i, total, 0) == {};
  }

  lemma {:induction false} OneMoreDraw(ps: seq<Proc>, i: nat, r: nat)
    ensures Draws(ps, i, r + 1) == Draws(ps, i, r) + if Chosen(ps, r, 0) == i then 1 else 0
  {
  }

  lemma {:induction false} OneMoreRound(q: nat, x: nat)
    ensures (q + 1) * x == q * x + x
  {
  }

  /** Of q whole rounds of the total, and r hashes more. */
  lemma {:induction false} HashesCounted(ps: seq<Proc>, i: nat, total: nat, q: nat, r: nat)
    requires r <= total && total > 0
    ensures |Hashes(ps, i, total, q * total + r)| == q * Draws(ps, i, total) + Draws(ps, i, r)
    decreases q, r
  {
    hide Hashes, Draws, Chosen, LotteryOf;
    NoHashes(ps, i, total);
    if r > 0 {
      HashesCounted(ps, i, total, q, r - 1);
      OneMoreHash(ps, i, total, q * total + (r - 1));
      OneMoreDraw(ps, i, r - 1);
      DrawOf(total, q, r - 1);
    } else if q > 0 {
      HashesCounted(ps, i, total, q - 1, total);
      OneMoreRound(q - 1, total);
      OneMoreRound(q - 1, Draws(ps, i, total));
    }
  }

  /** The hash maps the set a of ticks onto the set b of hashes, one to one. */
  lemma {:induction false} OneToOne(a: set<nat>, b: set<nat>, key: seq<Byte>)
    requires |key| < 0x8000_0000 && (forall t :: t in a ==> t < TWO32) && (forall h :: h in b ==> h < TWO32)
    requires forall t: Word :: t in a <==> Hash(t, key) in b
    ensures |a| == |b|
    decreases a
  {
    hide Hash, SeedOf;
    if a == {} {
      forall h | h in b
        ensures false
      {
        SeedBijection(h, key);
      }
    } else {
      var t :| t in a;
      var h := Hash(t, key);
      forall s: Word
        ensures s in a - {t} <==> Hash(s, key) in b - {h}
      {
        SeedBijection(s, key);
        SeedBijection(t, key);
      }
      OneToOne(a - {t}, b - {h}, key);
    }
  }

  /** How often the total goes into 2^32. */
  function Rounds(total: nat): (q: nat)
    requires total > 0
    ensures 0 <= TWO32 - q * total < total
  {
    assert TWO32 == total * (TWO32 / total) + TWO32 % total;
    TWO32 / total
  }

  /** Over the 2^32 values of the tick counter process i is drawn once for every draw it
      wins in each of the whole rounds that 2^32 holds, and for those of the part of a round
      that is left. */
  lemma {:induction false} TicksCounted(ps: seq<Proc>, i: nat, total: nat, key: seq<Byte>)
    requires |key| < 0x8000_0000 && 0 < total
    ensures |Ticks(ps, i, total, key)|
            == Rounds(total) * Draws(ps, i, total) + Draws(ps, i, TWO32 - Rounds(total) * total)
  {
    var q, r := Rounds(total), TWO32 - Rounds(total) * total;
    HashesCounted(ps, i, total, q, r);
    assert q * total + r == TWO32;
    OneToOne(Ticks(ps, i, total, key), Hashes(ps, i, total, TWO32), key);
  }

  lemma {:induction false} DrawsGrow(ps: seq<Proc>, i: nat, m: nat, n: nat)
    requires m <= n
    ensures Draws(ps, i, m) <= Draws(ps, i, n)
    decreases n
  {
    if m < n {
      DrawsGrow(ps, i, m, n - 1);
    }
  }

  /** In q rounds, and part of another, n tickets are drawn that often, give or take one a round. */
  predicate IsShare(q: nat, n: int, count: int) {
    q * (n - 1) <= count <= (q + 1) * (n + 1)
  }

  /** So its share of the cycle is its share of the tickets, up to one draw more or less of
      every round. */
  lemma {:induction false} TickShare(ps: seq<Proc>, i: nat, key: seq<Byte>)
    requires |key| < 0x8000_0000 && Sane(ps) && i < |ps| && ps[i].state.RUNNABLE? && Total(ps, |ps|) > 0
    ensures var t := Total(ps, |ps|);
            IsShare(Rounds(t), ps[i].tickets, |Ticks(ps, i, t, key)|)
  {
    var t := Total(ps, |ps|);
    hide Draws, Ticks, Total, Sane, Rounds, IsShare;
    var q, d := Rounds(t), Draws(ps, i, t);
    var e := Draws(ps, i, TWO32 - q * t);
    TicksCounted(ps, i, t, key);
    ShareWithinOne(ps, i);
    DrawsGrow(ps, i, TWO32 - q * t, t);
    Between(q, ps[i].tickets, d, e);
  }

  lemma {:induction false} Between(q: nat, n: int, d: nat, e: nat)
    requires -1 <= d - n <= 1 && e <= d
    ensures IsShare(q, n, q * d + e)
  {
    var up, down := n + 1 - d, d - n + 1;
    assert q * (n + 1) == q * d + q * up && q * d == q * (n - 1) + q * down;
    assert (q + 1) * (n + 1) == q * (n + 1) + (n + 1);
  }
}
