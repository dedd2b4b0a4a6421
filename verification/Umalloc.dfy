/** malloc and free in place: a circular list of headers threaded through the free
    memory itself.  Addresses count header-sized units (8 bytes); memory is a map
    from address to the header that can be read there. */
module Umalloc {
  import opened HeapSpec

  datatype Header = Header(ptr: nat, size: nat)

  const HEADER_BYTES := 8

  // --- Sizes --------------------------------------------------------------------

  /** The units malloc looks for, in C's unsigned arithmetic. */
  function Units(nbytes: nat): nat
    requires nbytes < 0x1_0000_0000
  {
    (nbytes + HEADER_BYTES - 1) % 0x1_0000_0000 / HEADER_BYTES + 1
  }

  /** The block found has room for nbytes behind its header exactly when the
      rounding does not wrap around. */
  lemma {:induction false} RoomForRequest(nbytes: nat)
    requires nbytes < 0x1_0000_0000
    ensures (Units(nbytes) - 1) * HEADER_BYTES >= nbytes <==> nbytes + HEADER_BYTES - 1 < 0x1_0000_0000
    // and then it has no unit to spare.
    ensures nbytes + HEADER_BYTES - 1 < 0x1_0000_0000 ==> (Units(nbytes) - 2) * HEADER_BYTES < nbytes
  {
    if nbytes + HEADER_BYTES - 1 >= 0x1_0000_0000 {
      assert (nbytes + HEADER_BYTES - 1) % 0x1_0000_0000 == nbytes + HEADER_BYTES - 1 - 0x1_0000_0000;
    }
  }

  // --- The list in memory -----------------------------------------------------------

  function Next(bs: seq<Block>, i: nat): nat
    requires i < |bs|
  {
    bs[if i + 1 < |bs| then i + 1 else 0].addr
  }

  predicate Node(mem: map<nat, Header>, bs: seq<Block>, i: nat)
    requires i < |bs|
  {
    bs[i].addr in mem && mem[bs[i].addr] == Header(Next(bs, i), bs[i].size)
  }

  /** The headers of the blocks, each pointing to the next and the last to the first. */
  ghost predicate Linked(mem: map<nat, Header>, bs: seq<Block>) {
    forall i :: 0 <= i < |bs| ==> Node(mem, bs, i)
  }

  /** free's stopping test at list element p. */
  predicate Stops(p: nat, next: nat, bp: nat) {
    (bp > p && bp < next) || (p >= next && (bp > p || bp < next))
  }

  /** The search stops exactly at the block after which bp belongs. */
  lemma {:induction false} StopsAtPosition(bs: seq<Block>, base: nat, bp: nat, i: nat)
    requires WellFormed(bs, base) && base < bp && i < |bs|
    requires forall j :: 0 <= j < |bs| ==> bs[j].addr != bp
    ensures Stops(bs[i].addr, Next(bs, i), bp) <==> i == Position(bs, base, bp)
  {
    AllOrdered(bs, base);
  }

  /** The headers after free joined bp to the list behind p. */
  function FreedMem(mem: map<nat, Header>, p: nat, bp: nat): map<nat, Header>
    requires p in mem && bp in mem && mem[p].ptr in mem && p != bp
  {
    var next := mem[p].ptr;
    var m1 := if bp + mem[bp].size == next
              then mem[bp := Header(mem[next].ptr, mem[bp].size + mem[next].size)]
              else mem[bp := Header(next, mem[bp].size)];
    if p + m1[p].size == bp
    then m1[p := Header(m1[bp].ptr, m1[p].size + m1[bp].size)]
    else m1[p := Header(bp, m1[p].size)]
  }

  ghost predicate Ascending(bs: seq<Block>) {
    forall i, j :: 0 <= i < j < |bs| ==> bs[i].addr < bs[j].addr
  }

  lemma {:induction false} InsertedLinked(mem: map<nat, Header>, bs: seq<Block>, k: nat, b: Block)
    requires Linked(mem, bs) && k < |bs| && Ascending(Inserted(bs, k, b))
    ensures Linked(InsertedMem(mem, bs, k, b), Inserted(bs, k, b))
  {
    var l := Inserted(bs, k, b);
    var mem1 := InsertedMem(mem, bs, k, b);
    assert l[k] == bs[k] && l[k + 1] == b;
    forall i | 0 <= i < |l|
      ensures Node(mem1, l, i)
    {
      if i < k {
        assert Node(mem, bs, i) && l[i] == bs[i] && l[i + 1] == bs[i + 1];
      } else if i > k + 1 {
        assert Node(mem, bs, i - 1) && l[i] == bs[i - 1];
        assert i + 1 < |l| ==> l[i + 1] == bs[i];
      } else if i == k + 1 {
        assert i + 1 < |l| ==> l[i + 1] == bs[i];
      }
    }
  }

  function InsertedMem(mem: map<nat, Header>, bs: seq<Block>, k: nat, b: Block): map<nat, Header>
    requires k < |bs|
  {
    mem[b.addr := Header(Next(bs, k), b.size)][bs[k].addr := Header(b.addr, bs[k].size)]
  }

  function JoinedMem(mem: map<nat, Header>, bs: seq<Block>, i: nat): map<nat, Header> {
    if Touch(bs, i) then mem[bs[i].addr := Header(Next(bs, i + 1), bs[i].size + bs[i + 1].size)] else mem
  }

  lemma {:induction false} JoinedLinked(mem: map<nat, Header>, bs: seq<Block>, i: nat)
    requires Linked(mem, bs) && Ascending(bs)
    ensures Linked(JoinedMem(mem, bs, i), Joined(bs, i))
  {
    if Touch(bs, i) {
      var l, mem1 := Joined(bs, i), JoinedMem(mem, bs, i);
      JoinedAt(bs, i);
      hide Joined;
      forall j | 0 <= j < |l|
        ensures Node(mem1, l, j)
      {
        assert Node(mem, bs, if j <= i then j else j + 1);
      }
    }
  }

  lemma {:induction false} JoinedAscending(bs: seq<Block>, i: nat)
    requires Ascending(bs)
    ensures Ascending(Joined(bs, i))
  {
  }

  lemma {:induction false} InsertedAscending(bs: seq<Block>, base: nat, b: Block)
    requires Returnable(bs, base, b)
    ensures Ascending(Inserted(bs, Position(bs, base, b.addr), b))
  {
    var k := Position(bs, base, b.addr);
    InsertedBetween(bs, base, b);
    AllOrdered(bs, base);
    var l := Inserted(bs, k, b);
    forall i, j | 0 <= i < j < |l|
      ensures l[i].addr < l[j].addr
    {
      assert l[i] == if i <= k then bs[i] else if i == k + 1 then b else bs[i - 1];
      assert l[j] == if j <= k then bs[j] else if j == k + 1 then b else bs[j - 1];
    }
  }

  lemma {:induction false} InsertedShape(bs: seq<Block>, k: nat, b: Block)
    requires k < |bs|
    ensures var l := Inserted(bs, k, b);
            |l| == |bs| + 1 && l[k] == bs[k] && l[k + 1] == b && (k + 1 < |bs| ==> l[k + 2] == bs[k + 1])
            && (Touch(l, k + 1) <==> k + 1 < |bs| && End(b) == bs[k + 1].addr)
            && (Touch(l, k + 1) ==> Next(l, k + 2) == Next(bs, k + 1))
  {
  }

  lemma {:induction false} JoinedUpperShape(bs: seq<Block>, k: nat, b: Block)
    requires k < |bs|
    ensures var l1 := Joined(Inserted(bs, k, b), k + 1);
            var joins := k + 1 < |bs| && End(b) == bs[k + 1].addr;
            |l1| > k + 1 && l1[k] == bs[k] && l1[k + 1].addr == b.addr
            && l1[k + 1].size == (if joins then b.size + bs[k + 1].size else b.size)
            && Next(l1, k + 1) == (if joins then Next(bs, k + 1) else Next(bs, k))
  {
    InsertedShape(bs, k, b);
  }

  /** The C statements of free compose the insertion and the two joins. */
  lemma {:induction false} FreedMemIsJoined(mem: map<nat, Header>, bs: seq<Block>, base: nat, b: Block)
    requires Returnable(bs, base, b) && Linked(mem, bs) && b.addr in mem && mem[b.addr].size == b.size
    ensures var k := Position(bs, base, b.addr);
            var l := Inserted(bs, k, b);
            bs[k].addr in mem && mem[bs[k].addr].ptr in mem && bs[k].addr != b.addr
            && FreedMem(mem, bs[k].addr, b.addr)
               == JoinedMem(JoinedMem(InsertedMem(mem, bs, k, b), l, k + 1), Joined(l, k + 1), k)
  {
    hide Joined, Inserted;
    var k := Position(bs, base, b.addr);
    InsertedBetween(bs, base, b);
    InsertedShape(bs, k, b);
    JoinedUpperShape(bs, k, b);
    AllOrdered(bs, base);
    assert Node(mem, bs, k) && Node(mem, bs, if k + 1 < |bs| then k + 1 else 0);
  }

  lemma {:induction false} FreedLinked(mem: map<nat, Header>, bs: seq<Block>, base: nat, b: Block)
    requires Returnable(bs, base, b) && Linked(mem, bs) && b.addr in mem && mem[b.addr].size == b.size
    ensures var k := Position(bs, base, b.addr);
            bs[k].addr in mem && mem[bs[k].addr].ptr in mem && bs[k].addr != b.addr
            && Linked(FreedMem(mem, bs[k].addr, b.addr), Freed(bs, k, b))
            && k < |Freed(bs, k, b)| && Freed(bs, k, b)[k].addr == bs[k].addr
  {
    var k := Position(bs, base, b.addr);
    var l := Inserted(bs, k, b);
    InsertedAscending(bs, base, b);
    InsertedLinked(mem, bs, k, b);
    JoinedLinked(InsertedMem(mem, bs, k, b), l, k + 1);
    JoinedAscending(l, k + 1);
    JoinedLinked(JoinedMem(InsertedMem(mem, bs, k, b), l, k + 1), Joined(l, k + 1), k);
    FreedMemIsJoined(mem, bs, base, b);
    JoinedUpperShape(bs, k, b);
  }

  /** The headers after malloc took nunits from the block at p, whose predecessor is prevp. */
  function TakenMem(mem: map<nat, Header>, prevp: nat, p: nat, nunits: nat): map<nat, Header>
    requires p in mem && prevp in mem && mem[p].size >= nunits
  {
    if mem[p].size == nunits then mem[prevp := mem[prevp].(ptr := mem[p].ptr)]
    else
      var m1 := mem[p := mem[p].(size := mem[p].size - nunits)];
      var tail := p + m1[p].size;
      m1[tail := Header(if tail in m1 then m1[tail].ptr else 0, nunits)]
  }

  lemma {:induction false} RemovedLinked(mem: map<nat, Header>, bs: seq<Block>, k: nat)
    requires Linked(mem, bs) && Ascending(bs) && 0 < k < |bs|
    ensures bs[k - 1].addr in mem
    ensures Linked(mem[bs[k - 1].addr := Header(Next(bs, k), bs[k - 1].size)], bs[..k] + bs[k + 1..])
  {
    assert Node(mem, bs, k - 1);
    var t, mem1 := bs[..k] + bs[k + 1..], mem[bs[k - 1].addr := Header(Next(bs, k), bs[k - 1].size)];
    forall i | 0 <= i < |t|
      ensures Node(mem1, t, i)
    {
      assert Node(mem, bs, if i < k then i else i + 1);
    }
  }

  lemma {:induction false} ShrunkLinked(mem: map<nat, Header>, mem1: map<nat, Header>, bs: seq<Block>, base: nat,
                                        k: nat, nunits: nat)
    requires WellFormed(bs, base) && Linked(mem, bs) && 0 < k < |bs| && bs[k].size > nunits > 0
    requires bs[k].addr in mem1 && mem1[bs[k].addr] == Header(Next(bs, k), bs[k].size - nunits)
    requires forall a :: a in mem && a != bs[k].addr && a != Tail(bs[k], nunits).addr ==> a in mem1 && mem1[a] == mem[a]
    ensures Linked(mem1, bs[k := bs[k].(size := bs[k].size - nunits)])
  {
    AllOrdered(bs, base);
    var t := bs[k := bs[k].(size := bs[k].size - nunits)];
    forall i | 0 <= i < |t|
      ensures Node(mem1, t, i)
    {
      assert Node(mem, bs, i) && Next(t, i) == Next(bs, i);
    }
  }

  lemma {:induction false} TakenLinked(mem: map<nat, Header>, bs: seq<Block>, base: nat, k: nat, nunits: nat)
    requires WellFormed(bs, base) && Linked(mem, bs) && 0 < k < |bs| && bs[k].size >= nunits > 0
    ensures bs[k].addr in mem && bs[k - 1].addr in mem && mem[bs[k].addr].size == bs[k].size
    ensures Linked(TakenMem(mem, bs[k - 1].addr, bs[k].addr, nunits), Taken(bs, k, nunits))
  {
    assert Node(mem, bs, k) && Node(mem, bs, k - 1);
    if bs[k].size == nunits {
      AllOrdered(bs, base);
      RemovedLinked(mem, bs, k);
    } else {
      ShrunkLinked(mem, TakenMem(mem, bs[k - 1].addr, bs[k].addr, nunits), bs, base, k, nunits);
    }
  }

  lemma {:induction false} LiveNotFree(base: nat, brk: nat, bs: seq<Block>, live: map<nat, nat>, obtained: set<int>)
    requires HeapInv(base, brk, bs, live, obtained)
    ensures forall a, i :: a in live && 0 <= i < |bs| ==> bs[i].addr != a
  {
    forall a, i | a in live && 0 <= i < |bs|
      ensures bs[i].addr != a
    {
      assert AllocOk(base, brk, bs, a, live[a]);
      assert Apart(bs[i], Block(a, live[a]));
    }
  }

  // --- Next fit ------------------------------------------------------------------------

  /** m steps around the circle of n blocks from block s. */
  function Around(n: nat, s: nat, m: nat): (i: nat)
    requires s < n && m <= n
    ensures i < n
  {
    if s + m < n then s + m else s + m - n
  }

  /** Block Around(s, m) is the first after s that is large enough; s itself comes last. */
  ghost predicate FirstFit(bs: seq<Block>, s: nat, m: nat, nunits: nat) {
    && s < |bs| && 1 <= m <= |bs|
    && bs[Around(|bs|, s, m)].size >= nunits
    && forall j :: 1 <= j < m ==> bs[Around(|bs|, s, j)].size < nunits
  }

  ghost predicate Fits(bs: seq<Block>, nunits: nat) {
    exists i :: 0 <= i < |bs| && bs[i].size >= nunits
  }

  lemma {:induction false} FitsSomewhere(bs: seq<Block>, s: nat, nunits: nat)
    requires s < |bs| && forall j :: 1 <= j <= |bs| ==> bs[Around(|bs|, s, j)].size < nunits
    ensures !Fits(bs, nunits)
  {
    forall i | 0 <= i < |bs|
      ensures bs[i].size < nunits
    {
      var j := if i > s then i - s else i - s + |bs|;
      assert Around(|bs|, s, j) == i;
    }
  }

  /** A request served from list bs with the search starting behind start. */
  ghost predicate Served(bs: seq<Block>, start: nat, nunits: nat, bs1: seq<Block>, freep1: nat, header: nat) {
    exists s: nat, m: nat :: FirstFit(bs, s, m, nunits) && bs[s].addr == start
      && var k := Around(|bs|, s, m);
         k > 0 && bs1 == Taken(bs, k, nunits) && freep1 == bs[k - 1].addr && header == Tail(bs[k], nunits).addr
  }

  const MIN_CORE: nat := 4096

  /** What morecore asks for: the request, but not less than 4096 units. */
  function CoreUnits(nunits: nat): (units: nat)
    ensures units >= nunits && units >= 4096 && (units == nunits || units == 4096)
  {
    if nunits < MIN_CORE then MIN_CORE else nunits
  }

  /** What morecore makes of the list: the new memory, from the old break on, is freed. */
  ghost predicate Cored(bs: seq<Block>, brk: nat, base: nat, nunits: nat, bs1: seq<Block>, freep1: nat) {
    var b := Block(brk, CoreUnits(nunits));
    Returnable(bs, base, b)
    && bs1 == Freed(bs, Position(bs, base, brk), b) && freep1 == bs[Position(bs, base, brk)].addr
    && Fits(bs1, nunits)
  }

  lemma {:induction false} CoredFits(bs: seq<Block>, brk: nat, base: nat, nunits: nat)
    requires Returnable(bs, base, Block(brk, CoreUnits(nunits)))
    ensures var k := Position(bs, base, brk);
            Cored(bs, brk, base, nunits, Freed(bs, k, Block(brk, CoreUnits(nunits))), bs[k].addr)
  {
    FreedIsHeld(bs, base, Block(brk, CoreUnits(nunits)));
  }

  /** morecore was called if and only if nothing fitted, and at most once. */
  ghost predicate Asked(bs: seq<Block>, freep: nat, brk: nat, obtained: set<int>, base: nat, nunits: nat, grant: bool,
                        bs1: seq<Block>, freep1: nat, brk1: nat, obtained1: set<int>) {
    if grant && !Fits(bs, nunits) then
      && Cored(bs, brk, base, nunits, bs1, freep1)
      && brk1 == brk + CoreUnits(nunits)
      && obtained1 == obtained + Cells(Block(brk, CoreUnits(nunits)))
    else
      bs1 == bs && freep1 == freep && brk1 == brk && obtained1 == obtained
  }

  /** The search ended at block p, whose predecessor is prevp. */
  ghost predicate Found(bs: seq<Block>, freep: nat, nunits: nat, s: nat, m: nat, prevp: nat, p: nat) {
    FirstFit(bs, s, m, nunits) && bs[s].addr == freep
    && var k := Around(|bs|, s, m);
       k > 0 && p == bs[k].addr && prevp == bs[k - 1].addr
  }

  /** malloc's loop after m blocks behind freep were found too small. */
  ghost predicate Walking(bs: seq<Block>, freep: nat, s: nat, m: nat, nunits: nat, prevp: nat, p: nat) {
    && s < |bs| && m < |bs| && bs[s].addr == freep
    && prevp == bs[Around(|bs|, s, m)].addr
    && p == Next(bs, Around(|bs|, s, m))
    && forall j :: 1 <= j <= m ==> bs[Around(|bs|, s, j)].size < nunits
  }

  lemma {:induction false} WalkStart(mem: map<nat, Header>, bs: seq<Block>, freep: nat, nunits: nat) returns (s: nat)
    requires Linked(mem, bs) && OnList(bs, freep)
    ensures freep in mem && Walking(bs, freep, s, 0, nunits, freep, mem[freep].ptr)
  {
    s :| s < |bs| && bs[s].addr == freep;
    assert Node(mem, bs, s);
  }

  /** The walk either continues, or ends with a block found, or has seen every block. */
  lemma {:induction false} WalkStep(mem: map<nat, Header>, bs: seq<Block>, base: nat, freep: nat, s: nat, m: nat,
                                    nunits: nat, prevp: nat, p: nat)
    requires WellFormed(bs, base) && Linked(mem, bs) && nunits > 0 && Walking(bs, freep, s, m, nunits, prevp, p)
    ensures p in mem
    ensures mem[p].size >= nunits ==>
              Found(bs, freep, nunits, s, m + 1, prevp, p) && p > 0 && Fits(bs, nunits)
    ensures mem[p].size < nunits && p == freep ==> !Fits(bs, nunits)
    ensures mem[p].size < nunits && p != freep ==> m + 1 < |bs| && Walking(bs, freep, s, m + 1, nunits, p, mem[p].ptr)
  {
    var k := Around(|bs|, s, m + 1);
    assert Node(mem, bs, k) && p == bs[k].addr;
    AllOrdered(bs, base);
    if mem[p].size < nunits && p == freep {
      assert k == s;
      FitsSomewhere(bs, s, nunits);
    }
  }

  lemma {:induction false} NewHeaderClear(mem: map<nat, Header>, mem1: map<nat, Header>, base: nat, p: nat,
                                          bs: seq<Block>)
    requires WellFormed(bs, base) && base < p && Linked(mem, bs)
    requires forall i :: 0 <= i < |bs| ==> End(bs[i]) <= p
    requires forall a :: a in mem && a != p ==> a in mem1 && mem1[a] == mem[a]
    ensures Linked(mem1, bs)
  {
    forall i | 0 <= i < |bs|
      ensures Node(mem1, bs, i)
    {
      assert Node(mem, bs, i);
    }
  }


  // --- The whole state ---------------------------------------------------------------

  ghost predicate Allocated(mem: map<nat, Header>, live: map<nat, nat>) {
    forall a :: a in live ==> a in mem && mem[a].size == live[a]
  }

  ghost predicate OnList(bs: seq<Block>, a: nat) {
    exists k :: 0 <= k < |bs| && bs[k].addr == a
  }

  /** Before the first malloc freep is null and the list is not yet linked. */
  ghost predicate State(base: nat, mem: map<nat, Header>, freep: nat, brk: nat, bs: seq<Block>, live: map<nat, nat>,
                        obtained: set<int>) {
    && 0 < base < brk
    && HeapInv(base, brk, bs, live, obtained)
    && Allocated(mem, live)
    && (if freep == 0 then bs == [Block(base, 0)] else Linked(mem, bs) && OnList(bs, freep))
  }

  lemma {:induction false} FreedState(base: nat, mem: map<nat, Header>, freep: nat, brk: nat, bs: seq<Block>,
                                      live: map<nat, nat>,
                   obtained: set<int>, a: nat)
    requires State(base, mem, freep, brk, bs, live, obtained) && freep != 0 && a in live
    ensures Returnable(bs, base, Block(a, live[a]))
    ensures var k := Position(bs, base, a);
            && bs[k].addr in mem && a in mem && mem[bs[k].addr].ptr in mem && bs[k].addr != a
            && State(base, FreedMem(mem, bs[k].addr, a), bs[k].addr, brk, Freed(bs, k, Block(a, live[a])),
                live - {a}, obtained)
  {
    FreedKeeps(base, brk, bs, live, obtained, a);
    LiveNotFree(base, brk, bs, live, obtained);
    FreedLinked(mem, bs, base, Block(a, live[a]));
    var k := Position(bs, base, a);
    OthersAllocated(mem, FreedMem(mem, bs[k].addr, a), bs[k].addr, a, live);
    assert bs[k].addr >= base by { AllOrdered(bs, base); }
  }

  lemma {:induction false} OthersAllocated(mem: map<nat, Header>, mem1: map<nat, Header>, p: nat, a: nat,
                                           live: map<nat, nat>)
    requires Allocated(mem, live) && p !in live
    requires forall c :: c in mem && c != p && c != a ==> c in mem1 && mem1[c] == mem[c]
    ensures Allocated(mem1, live - {a})
  {
  }

  lemma {:induction false} ServedState(base: nat, mem: map<nat, Header>, freep: nat, brk: nat, bs: seq<Block>,
                                       live: map<nat, nat>,
                    obtained: set<int>, k: nat, nunits: nat)
    requires State(base, mem, freep, brk, bs, live, obtained) && freep != 0
    requires 0 < k < |bs| && bs[k].size >= nunits > 0
    ensures bs[k].addr in mem && bs[k - 1].addr in mem && mem[bs[k].addr].size == bs[k].size
    ensures var t := Tail(bs[k], nunits).addr;
            && t !in live && t > 0
            && State(base, TakenMem(mem, bs[k - 1].addr, bs[k].addr, nunits), bs[k - 1].addr, brk, Taken(bs, k, nunits),
                     live[t := nunits], obtained)
  {
    TakenKeeps(base, brk, bs, live, obtained, k, nunits);
    TakenLinked(mem, bs, base, k, nunits);
    LiveNotFree(base, brk, bs, live, obtained);
    AllOrdered(bs, base);
    var t, mem1 := Tail(bs[k], nunits).addr, TakenMem(mem, bs[k - 1].addr, bs[k].addr, nunits);
    assert Taken(bs, k, nunits)[k - 1].addr == bs[k - 1].addr;
    assert t in mem1 && mem1[t].size == nunits;
    assert forall c :: c in mem && c != bs[k - 1].addr && c != bs[k].addr && c != t ==> c in mem1 && mem1[c] == mem[c];
    assert Allocated(mem1, live);
  }

  /** The memory that sbrk gives, made an allocated block by its header. */
  lemma {:induction false} GrownState(base: nat, mem: map<nat, Header>, freep: nat, brk: nat, bs: seq<Block>,
                                      live: map<nat, nat>,
                   obtained: set<int>, nu: nat, h: Header)
    requires State(base, mem, freep, brk, bs, live, obtained) && freep != 0 && nu > 0 && h.size == nu
    ensures brk !in live
    ensures State(base, mem[brk := h], freep, brk + nu, bs, live[brk := nu], obtained + Cells(Block(brk, nu)))
  {
    GrownKeeps(base, brk, bs, live, obtained, nu);
    NewHeaderClear(mem, mem[brk := h], base, brk, bs);
  }

  lemma {:induction false} BaseLinked(base: nat, mem: map<nat, Header>, brk: nat, bs: seq<Block>, live: map<nat,
                                      nat>, obtained: set<int>)
    requires State(base, mem, 0, brk, bs, live, obtained)
    ensures State(base, mem[base := Header(base, 0)], base, brk, bs, live, obtained)
  {
    assert Node(mem[base := Header(base, 0)], bs, 0);
    forall a | a in live
      ensures a != base
    {
      assert AllocOk(base, brk, bs, a, live[a]);
    }
  }

  lemma {:induction false} AddedAndTaken(live: map<nat, nat>, a: nat, size: nat)
    requires a !in live
    ensures live[a := size] - {a} == live && live[a := size][a] == size
  {
  }

  class Heap {
    /** The address of the static header base, below all memory that sbrk gives. */
    const base: nat
    var mem: map<nat, Header>
    /** Null until the first call of malloc. */
    var freep: nat
    var brk: nat
    ghost var bs: seq<Block>
    /** The blocks handed out, from the address of their header to their size. */
    ghost var live: map<nat, nat>
    /** Every unit that sbrk has given. */
    ghost var obtained: set<int>

    ghost predicate Valid()
      reads this
    {
      State(base, mem, freep, brk, bs, live, obtained)
    }

    constructor (base: nat, brk: nat)
      requires 0 < base < brk
      ensures Valid() && this.base == base && live == map[] && obtained == {}
    {
      this.base, this.brk, freep, mem := base, brk, 0, map[];
      bs, live, obtained := [Block(base, 0)], map[], {};
      new;
      assert !Has(bs[0], base);
    }

    /** The process writes within a block it holds, past the header. */
    method Scribble(a: nat, at: nat, h: Header)
      requires Valid() && a in live && a < at < a + live[a]
      modifies this`mem
      ensures Valid()
    {
      forall c | c in live && c != a
        ensures c != at
      {
        assert Apart(Block(a, live[a]), Block(c, live[c])) && AllocOk(base, brk, bs, c, live[c]);
      }
      assert AllocOk(base, brk, bs, a, live[a]);
      ghost var old_mem := mem;
      mem := mem[at := h];
      if freep != 0 {
        forall i | 0 <= i < |bs|
          ensures Node(mem, bs, i)
        {
          assert Node(old_mem, bs, i) && Apart(bs[i], Block(a, live[a]));
        }
      }
    }

    /** Another part of the process moves the break up. */
    method OtherSbrk(n: nat)
      requires Valid()
      modifies this`brk
      ensures Valid() && brk == old(brk) + n
    {
      forall a | a in live
        ensures AllocOk(base, brk + n, bs, a, live[a])
      {
        assert AllocOk(base, brk, bs, a, live[a]);
      }
      brk := brk + n;
    }

    /** free's walk from freep to the block behind which bp belongs. */
    method FindPlace(bp: nat) returns (p: nat)
      requires Valid() && freep != 0 && bp in live
      ensures Returnable(bs, base, Block(bp, live[bp])) && p == bs[Position(bs, base, bp)].addr
    {
      FreedKeeps(base, brk, bs, live, obtained, bp);
      LiveNotFree(base, brk, bs, live, obtained);
      ghost var k := Position(bs, base, bp);
      ghost var i: nat :| 0 <= i < |bs| && bs[i].addr == freep;
      p := freep;
      assert Node(mem, bs, i);
      while !Stops(p, mem[p].ptr, bp)
        invariant 0 <= i < |bs| && p == bs[i].addr && Node(mem, bs, i)
        decreases if i <= k then k - i else |bs| - i + k
      {
        StopsAtPosition(bs, base, bp, i);
        p := mem[p].ptr;
        i := if i + 1 < |bs| then i + 1 else 0;
        assert Node(mem, bs, i);
      }
      StopsAtPosition(bs, base, bp, i);
    }

    /** Returns the block whose payload starts at ap. */
    method Free(ap: nat)
      requires Valid() && freep != 0 && ap > 0 && ap - 1 in live
      modifies this`mem, this`freep, this`bs, this`live
      ensures Valid() && freep != 0 && live == old(live) - {ap - 1}
      ensures var b := Block(ap - 1, old(live)[ap - 1]);
              && Returnable(old(bs), base, b)
              && var k := Position(old(bs), base, ap - 1);
                 bs == Freed(old(bs), k, b) && freep == old(bs)[k].addr
    {
      var bp := ap - 1;
      var p := FindPlace(bp);
      FreedState(base, mem, freep, brk, bs, live, obtained, bp);
      JoinFreed(p, bp);
      freep := p;
      bs := Freed(bs, Position(bs, base, bp), Block(bp, live[bp]));
      live := live - {bp};
      AllOrdered(old(bs), base);
    }

    /** The pointer and size updates of free. */
    method JoinFreed(p: nat, bp: nat)
      requires p in mem && bp in mem && mem[p].ptr in mem && p != bp
      modifies this`mem
      ensures mem == FreedMem(old(mem), p, bp)
    {
      if bp + mem[bp].size == mem[p].ptr {
        var next := mem[p].ptr;
        mem := mem[bp := mem[bp].(size := mem[bp].size + mem[next].size)];
        mem := mem[bp := mem[bp].(ptr := mem[next].ptr)];
      } else {
        mem := mem[bp := mem[bp].(ptr := mem[p].ptr)];
      }
      if p + mem[p].size == bp {
        mem := mem[p := mem[p].(size := mem[p].size + mem[bp].size)];
        mem := mem[p := mem[p].(ptr := mem[bp].ptr)];
      } else {
        mem := mem[p := mem[p].(ptr := bp)];
      }
    }

    /** Asks sbrk for at least nunits and frees them; 0 if sbrk refuses. */
    method MoreCore(nunits: nat, grant: bool) returns (p: nat)
      requires Valid() && freep != 0 && nunits > 0
      modifies this
      ensures Valid() && live == old(live) && freep != 0
      ensures !grant ==> p == 0 && bs == old(bs) && obtained == old(obtained) && brk == old(brk) && freep == old(freep)
      ensures grant ==> Cored(old(bs), old(brk), base, nunits, bs, freep)
      ensures grant ==> p == freep && brk == old(brk) + CoreUnits(nunits)
      ensures grant ==> obtained == old(obtained) + Cells(Block(old(brk), CoreUnits(nunits)))
    {
      var nu := nunits;
      if nu < MIN_CORE {
        nu := MIN_CORE;
      }
      if !grant {
        return 0;
      }
      p := brk;
      var header := Header(if p in mem then mem[p].ptr else 0, nu);
      GrownState(base, mem, freep, brk, bs, live, obtained, nu, header);
      brk := brk + nu;
      mem := mem[p := header];
      obtained := obtained + Cells(Block(p, nu));
      live := live[p := nu];
      AddedAndTaken(old(live), p, nu);
      Free(p + 1);
      assert bs == Freed(old(bs), Position(old(bs), base, p), Block(p, nu));
      CoredFits(old(bs), old(brk), base, nunits);
      p := freep;
    }

    /** The block at p, found large enough, gives up nunits of its tail, or all of itself. */
    method TakeFrom(prevp: nat, p: nat, nunits: nat) returns (header: nat)
      requires p in mem && prevp in mem && mem[p].size >= nunits
      modifies this`mem
      ensures mem == TakenMem(old(mem), prevp, p, nunits)
      ensures header == p + old(mem)[p].size - nunits
    {
      header := p;
      if mem[header].size == nunits {
        mem := mem[prevp := mem[prevp].(ptr := mem[header].ptr)];
      } else {
        mem := mem[header := mem[header].(size := mem[header].size - nunits)];
        header := header + mem[header].size;
        mem := mem[header := Header(if header in mem then mem[header].ptr else 0, nunits)];
      }
    }

    /** The request is served from block k of the list. */
    method Serve(prevp: nat, p: nat, nunits: nat, ghost k: nat) returns (ap: nat)
      requires Valid() && freep != 0 && 0 < k < |bs| && bs[k].size >= nunits > 0
      requires p == bs[k].addr && prevp == bs[k - 1].addr
      modifies this`mem, this`freep, this`bs, this`live
      ensures Valid() && ap > 0 && freep == prevp
      ensures ap - 1 == Tail(old(bs)[k], nunits).addr && bs == Taken(old(bs), k, nunits)
      ensures ap - 1 !in old(live) && live == old(live)[ap - 1 := nunits]
    {
      ServedState(base, mem, freep, brk, bs, live, obtained, k, nunits);
      var header := TakeFrom(prevp, p, nunits);
      freep := prevp;
      bs := Taken(bs, k, nunits);
      live := live[header := nunits];
      ap := header + 1;
    }

    /** malloc's loop: from freep around the list to a block large enough, by way of
        morecore when the walk is back where it began; p == 0 if sbrk refuses. */
    method Search(nunits: nat, grant: bool) returns (prevp: nat, p: nat, ghost s: nat, ghost m: nat)
      requires Valid() && freep != 0 && nunits > 0
      modifies this
      ensures Valid() && freep != 0 && live == old(live)
      ensures Asked(old(bs), old(freep), old(brk), old(obtained), base, nunits, grant, bs, freep, brk, obtained)
      ensures p == 0 <==> !grant && !Fits(old(bs), nunits)
      ensures p != 0 ==> Found(bs, freep, nunits, s, m, prevp, p)
    {
      s := WalkStart(mem, bs, freep, nunits);
      m := 0;
      ghost var cored := false;
      prevp := freep;
      p := mem[prevp].ptr;
      while true
        invariant Valid() && freep != 0 && live == old(live)
        invariant Walking(bs, freep, s, m, nunits, prevp, p)
        invariant !cored ==> bs == old(bs) && freep == old(freep) && brk == old(brk) && obtained == old(obtained)
        invariant cored ==> grant && !Fits(old(bs), nunits) && Fits(bs, nunits)
        invariant cored ==> Asked(old(bs), old(freep), old(brk), old(obtained), base, nunits, grant, bs, freep, brk,
                    obtained)
        decreases if cored then 0 else 1, |bs| - m
      {
        WalkStep(mem, bs, base, freep, s, m, nunits, prevp, p);
        if mem[p].size >= nunits {
          m := m + 1;
          return;
        }
        if p == freep {
          p := MoreCore(nunits, grant);
          if p == 0 {
            return;
          }
          cored := true;
          s := WalkStart(mem, bs, freep, nunits);
          m := 0;
        } else {
          m := m + 1;
        }
        prevp := p;
        p := mem[p].ptr;
      }
    }

    /** malloc; grant says whether sbrk would succeed.  Next fit over the circular
        list: the request is served from the first block behind start in list more,
        which is the list as it was if something fitted, and otherwise the list that
        a single call of morecore made. */
    method Malloc(nbytes: nat, grant: bool) returns (ap: nat, ghost more: seq<Block>, ghost start: nat)
      requires Valid() && nbytes < 0x1_0000_0000 && Units(nbytes) * HEADER_BYTES < 0x8000_0000
      modifies this
      ensures Valid()
      ensures Asked(old(bs), if old(freep) == 0 then base
                else old(freep), old(brk), old(obtained), base, Units(nbytes), grant,
                    more, start, brk, obtained)
      ensures ap == 0 <==> !grant && !Fits(old(bs), Units(nbytes))
      ensures ap == 0 ==> bs == old(bs) && live == old(live)
      ensures ap != 0 ==> Served(more, start, Units(nbytes), bs, freep, ap - 1)
      ensures ap != 0 ==> ap - 1 !in old(live) && live == old(live)[ap - 1 := Units(nbytes)]
    {
      var nunits := Units(nbytes);
      if freep == 0 {
        BaseLinked(base, mem, brk, bs, live, obtained);
        mem := mem[base := Header(base, 0)];
        freep := base;
      }
      var prevp, p;
      ghost var s, m;
      prevp, p, s, m := Search(nunits, grant);
      more, start := bs, freep;
      if p == 0 {
        ap := 0;
        return;
      }
      ap := Serve(prevp, p, nunits, Around(|bs|, s, m));
    }
  }
}
