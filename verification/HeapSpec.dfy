/** The free list of the Kernighan and Ritchie allocator on values: blocks in
    address order, the first of them the empty base block, no two adjacent.
    Addresses and sizes count header-sized units. */
module HeapSpec {

  datatype Block = Block(addr: nat, size: nat)

  function End(b: Block): nat { b.addr + b.size }

  predicate Has(b: Block, x: int) { b.addr <= x < End(b) }

  ghost predicate Covers(bs: seq<Block>, x: int) {
    exists i :: 0 <= i < |bs| && Has(bs[i], x)
  }

  predicate Apart(a: Block, b: Block) {
    End(a) <= b.addr || End(b) <= a.addr
  }

  /** Unallocated blocks i and i + 1 do not touch. */
  predicate Gap(bs: seq<Block>, i: nat)
    requires i + 1 < |bs|
  {
    End(bs[i]) < bs[i + 1].addr
  }

  /** The base block, then blocks in address order with a gap before each. */
  ghost predicate WellFormed(bs: seq<Block>, base: nat) {
    && |bs| > 0 && bs[0] == Block(base, 0)
    && (forall i :: 0 < i < |bs| ==> bs[i].size > 0)
    && (forall i :: 0 <= i < |bs| - 1 ==> Gap(bs, i))
  }

  lemma {:induction false} Ordered(bs: seq<Block>, base: nat, i: nat, j: nat)
    requires WellFormed(bs, base) && i < j < |bs|
    ensures End(bs[i]) < bs[j].addr
  {
    assert Gap(bs, j - 1);
    if i < j - 1 {
      Ordered(bs, base, i, j - 1);
    }
  }

  lemma {:induction false} AllOrdered(bs: seq<Block>, base: nat)
    requires WellFormed(bs, base)
    ensures forall i, j :: 0 <= i < j < |bs| ==> End(bs[i]) < bs[j].addr
  {
    forall i, j | 0 <= i < j < |bs|
      ensures End(bs[i]) < bs[j].addr
    {
      Ordered(bs, base, i, j);
    }
  }

  // --- free -------------------------------------------------------------------

  /** The last block of the list below address a. */
  function Position(bs: seq<Block>, base: nat, a: nat): (k: nat)
    requires WellFormed(bs, base) && base < a
    ensures k < |bs| && bs[k].addr < a
    ensures forall i :: k < i < |bs| ==> a <= bs[i].addr
  {
    AllOrdered(bs, base);
    PositionIn(bs, a, 0)
  }

  function PositionIn(bs: seq<Block>, a: nat, from: nat): (k: nat)
    requires from < |bs| && bs[from].addr < a
    requires forall i, j :: 0 <= i < j < |bs| ==> bs[i].addr < bs[j].addr
    ensures from <= k < |bs| && bs[k].addr < a
    ensures forall i :: k < i < |bs| ==> a <= bs[i].addr
    decreases |bs| - from
  {
    if from + 1 < |bs| && bs[from + 1].addr < a then PositionIn(bs, a, from + 1) else from
  }

  function Inserted(bs: seq<Block>, k: nat, b: Block): seq<Block>
    requires k < |bs|
  {
    bs[..k + 1] + [b] + bs[k + 1..]
  }

  predicate Touch(bs: seq<Block>, i: nat) {
    i + 1 < |bs| && End(bs[i]) == bs[i + 1].addr
  }

  /** Blocks i and i + 1 made one, if they touch. */
  function Joined(bs: seq<Block>, i: nat): seq<Block> {
    if Touch(bs, i) then bs[..i] + [bs[i].(size := bs[i].size + bs[i + 1].size)] + bs[i + 2..] else bs
  }

  /** Block b returned behind block k, merged with whichever neighbours it touches. */
  function Freed(bs: seq<Block>, k: nat, b: Block): seq<Block>
    requires k < |bs|
  {
    Joined(Joined(Inserted(bs, k, b), k + 1), k)
  }

  ghost predicate Returnable(bs: seq<Block>, base: nat, b: Block) {
    WellFormed(bs, base) && b.size > 0 && base < b.addr && forall i :: 0 <= i < |bs| ==> Apart(bs[i], b)
  }

  lemma {:induction false} InsertedBetween(bs: seq<Block>, base: nat, b: Block)
    requires Returnable(bs, base, b)
    ensures var k := Position(bs, base, b.addr);
            End(bs[k]) <= b.addr && (k + 1 < |bs| ==> End(b) <= bs[k + 1].addr)
  {
    var k := Position(bs, base, b.addr);
    assert Apart(bs[k], b);
    if k + 1 < |bs| {
      assert Apart(bs[k + 1], b);
    }
  }

  /** Blocks i and i + 1 may touch only if i is between a and b. */
  predicate LooseGap(bs: seq<Block>, i: nat, a: nat, b: nat)
    requires i + 1 < |bs|
  {
    Gap(bs, i) || (a <= i < b && End(bs[i]) == bs[i + 1].addr)
  }

  ghost predicate Loose(bs: seq<Block>, base: nat, a: nat, b: nat) {
    && |bs| > 0 && bs[0] == Block(base, 0)
    && (forall i :: 0 < i < |bs| ==> bs[i].size > 0)
    && (|bs| > 1 ==> base < bs[1].addr)
    && (forall i :: 0 <= i < |bs| - 1 ==> LooseGap(bs, i, a, b))
  }

  lemma {:induction false} JoinedLoose(bs: seq<Block>, base: nat, a: nat, i: nat)
    requires a <= i && Loose(bs, base, a, i + 1)
    ensures Loose(Joined(bs, i), base, a, i)
  {
    var l := Joined(bs, i);
    forall j | 0 <= j < |l| - 1
      ensures LooseGap(l, j, a, i)
    {
      if Touch(bs, i) && j >= i {
        assert l[j + 1] == bs[j + 2] && End(l[j]) == End(bs[j + 1]);
        assert LooseGap(bs, j + 1, a, i + 1);
      } else {
        assert l[j] == bs[j] && l[j + 1].addr == bs[j + 1].addr;
        assert LooseGap(bs, j, a, i + 1);
      }
    }
    if Touch(bs, i) {
      assert i > 0;
      assert l[0] == bs[0];
      assert forall j :: 0 < j < |l| ==> l[j].size > 0;
    }
  }

  lemma {:induction false} FreedWellFormed(bs: seq<Block>, base: nat, b: Block)
    requires Returnable(bs, base, b)
    ensures WellFormed(Freed(bs, Position(bs, base, b.addr), b), base)
  {
    var k := Position(bs, base, b.addr);
    InsertedBetween(bs, base, b);
    var l := Inserted(bs, k, b);
    var hi := k + 2;
    forall i | 0 <= i < |l| - 1
      ensures LooseGap(l, i, k, hi)
    {
      if i < k {
        assert l[i] == bs[i] && l[i + 1] == bs[i + 1] && Gap(bs, i);
      } else if i > k + 1 {
        assert l[i] == bs[i - 1] && l[i + 1] == bs[i] && Gap(bs, i - 1);
      }
    }
    assert |bs| > 1 ==> Gap(bs, 0);
    JoinedLoose(l, base, k, k + 1);
    var l1 := Joined(l, k + 1);
    JoinedLoose(l1, base, k, k);
    var l2 := Joined(l1, k);
    forall i | 0 <= i < |l2| - 1
      ensures Gap(l2, i)
    {
      assert LooseGap(l2, i, k, k);
    }
  }

  lemma {:induction false} InsertedCovers(bs: seq<Block>, k: nat, b: Block, x: int)
    requires k < |bs|
    ensures Covers(Inserted(bs, k, b), x) <==> Covers(bs, x) || Has(b, x)
  {
    var l := Inserted(bs, k, b);
    if Covers(l, x) {
      var i :| 0 <= i < |l| && Has(l[i], x);
      assert i <= k ==> l[i] == bs[i];
      assert i > k + 1 ==> l[i] == bs[i - 1];
    }
    if Covers(bs, x) {
      var i :| 0 <= i < |bs| && Has(bs[i], x);
      assert l[if i <= k then i else i + 1] == bs[i];
    }
    assert l[k + 1] == b;
  }

  lemma {:induction false} JoinedCovers(bs: seq<Block>, k: nat, x: int)
    ensures Covers(Joined(bs, k), x) <==> Covers(bs, x)
  {
    if Touch(bs, k) {
      var l := Joined(bs, k);
      JoinedAt(bs, k);
      if Covers(l, x) {
        var i :| 0 <= i < |l| && Has(l[i], x);
        assert Has(bs[if i <= k then i else i + 1], x) || (i == k && Has(bs[k + 1], x));
      }
      if Covers(bs, x) {
        var i :| 0 <= i < |bs| && Has(bs[i], x);
        assert Has(l[if i <= k then i else i - 1], x);
      }
    }
  }

  lemma {:induction false} JoinedAt(bs: seq<Block>, k: nat)
    requires Touch(bs, k)
    ensures var l := Joined(bs, k);
            && |l| == |bs| - 1 && l[k] == Block(bs[k].addr, bs[k].size + bs[k + 1].size)
            && (forall i :: 0 <= i < k ==> l[i] == bs[i])
            && forall i :: k < i < |l| ==> l[i] == bs[i + 1]
  {
    var front, back := bs[..k] + [Block(bs[k].addr, bs[k].size + bs[k + 1].size)], bs[k + 2..];
    assert Joined(bs, k) == front + back;
    hide Joined;
    forall i | k < i < |front + back|
      ensures (front + back)[i] == bs[i + 1]
    {
      assert (front + back)[i] == back[i - k - 1];
    }
  }

  /** Freeing adds exactly the block's cells. */
  lemma {:induction false} FreedCovers(bs: seq<Block>, base: nat, b: Block, x: int)
    requires Returnable(bs, base, b)
    ensures Covers(Freed(bs, Position(bs, base, b.addr), b), x) <==> Covers(bs, x) || Has(b, x)
  {
    var k := Position(bs, base, b.addr);
    InsertedCovers(bs, k, b, x);
    JoinedCovers(Inserted(bs, k, b), k + 1, x);
    JoinedCovers(Joined(Inserted(bs, k, b), k + 1), k, x);
  }

  // --- malloc ---------------------------------------------------------------------

  /** The list after nunits were taken from block k: all of it, or its tail end. */
  function Taken(bs: seq<Block>, k: nat, nunits: nat): seq<Block>
    requires k < |bs| && bs[k].size >= nunits
  {
    if bs[k].size == nunits then bs[..k] + bs[k + 1..]
    else bs[k := bs[k].(size := bs[k].size - nunits)]
  }

  /** The block handed out. */
  function Tail(b: Block, nunits: nat): Block
    requires b.size >= nunits
  {
    Block(b.addr + b.size - nunits, nunits)
  }

  lemma {:induction false} TakenWellFormed(bs: seq<Block>, base: nat, k: nat, nunits: nat)
    requires WellFormed(bs, base) && 0 < k < |bs| && bs[k].size >= nunits > 0
    ensures WellFormed(Taken(bs, k, nunits), base)
  {
    var t := Taken(bs, k, nunits);
    AllOrdered(bs, base);
    forall i | 0 <= i < |t| - 1
      ensures Gap(t, i)
    {
    }
  }

  lemma {:induction false} RemovedCovers(bs: seq<Block>, base: nat, k: nat, x: int)
    requires WellFormed(bs, base) && k < |bs|
    ensures Covers(bs[..k] + bs[k + 1..], x) <==> Covers(bs, x) && !Has(bs[k], x)
  {
    var t := bs[..k] + bs[k + 1..];
    if Covers(t, x) {
      var i :| 0 <= i < |t| && Has(t[i], x);
      var j := if i < k then i else i + 1;
      assert t[i] == bs[j];
      if j < k {
        Ordered(bs, base, j, k);
      } else {
        Ordered(bs, base, k, j);
      }
    }
    if Covers(bs, x) && !Has(bs[k], x) {
      var i :| 0 <= i < |bs| && Has(bs[i], x);
      assert t[if i < k then i else i - 1] == bs[i];
    }
  }

  lemma {:induction false} ShrunkCovers(bs: seq<Block>, base: nat, k: nat, nunits: nat, x: int)
    requires WellFormed(bs, base) && k < |bs| && bs[k].size > nunits
    ensures Covers(bs[k := bs[k].(size := bs[k].size - nunits)], x) <==> Covers(bs, x) && !Has(Tail(bs[k], nunits), x)
  {
    var t := bs[k := bs[k].(size := bs[k].size - nunits)];
    AllOrdered(bs, base);
    if Covers(t, x) {
      var i :| 0 <= i < |t| && Has(t[i], x);
      assert Has(bs[i], x);
    }
    if Covers(bs, x) && !Has(Tail(bs[k], nunits), x) {
      var i :| 0 <= i < |bs| && Has(bs[i], x);
      assert Has(t[i], x);
    }
  }

  /** malloc removes exactly the cells it hands out, all of them free before. */
  lemma {:induction false} TakenCovers(bs: seq<Block>, base: nat, k: nat, nunits: nat, x: int)
    requires WellFormed(bs, base) && 0 < k < |bs| && bs[k].size >= nunits > 0
    ensures Covers(Taken(bs, k, nunits), x) <==> Covers(bs, x) && !Has(Tail(bs[k], nunits), x)
    ensures Has(Tail(bs[k], nunits), x) ==> Covers(bs, x)
  {
    if bs[k].size == nunits {
      RemovedCovers(bs, base, k, x);
    } else {
      ShrunkCovers(bs, base, k, nunits, x);
    }
    if Has(Tail(bs[k], nunits), x) {
      assert Has(bs[k], x);
    }
  }

  // --- The list is determined by the free memory ------------------------------------

  ghost predicate SameCells(xs: seq<Block>, ys: seq<Block>) {
    forall x: int :: Covers(xs, x) <==> Covers(ys, x)
  }

  lemma {:induction false} FirstBlockBelow(xs: seq<Block>, ys: seq<Block>, base: nat)
    requires WellFormed(xs, base) && WellFormed(ys, base) && SameCells(xs, ys) && |xs| > 1
    ensures |ys| > 1 && ys[1].addr <= xs[1].addr
  {
    assert Has(xs[1], xs[1].addr);
    assert Covers(ys, xs[1].addr);
    var j :| 0 <= j < |ys| && Has(ys[j], xs[1].addr);
    if j > 1 {
      Ordered(ys, base, 1, j);
    }
  }

  lemma {:induction false} FirstBlockEndsBelow(xs: seq<Block>, ys: seq<Block>, base: nat)
    requires WellFormed(xs, base) && WellFormed(ys, base) && SameCells(xs, ys)
    requires |xs| > 1 && |ys| > 1 && xs[1].addr == ys[1].addr
    ensures End(ys[1]) <= End(xs[1])
  {
    var x := End(xs[1]);
    if x < End(ys[1]) {
      assert Has(ys[1], x);
      assert Covers(xs, x);
      AllOrdered(xs, base);
      assert false;
    }
  }

  lemma {:induction false} RestCovers(xs: seq<Block>, base: nat, x: int)
    requires WellFormed(xs, base) && |xs| > 1
    ensures WellFormed([xs[0]] + xs[2..], base)
    ensures Covers([xs[0]] + xs[2..], x) <==> Covers(xs, x) && !Has(xs[1], x)
  {
    var rest := [xs[0]] + xs[2..];
    AllOrdered(xs, base);
    forall i | 0 <= i < |rest| - 1
      ensures Gap(rest, i)
    {
    }
    if Covers(rest, x) {
      var i :| 0 <= i < |rest| && Has(rest[i], x);
      assert Has(xs[i + 1], x);
    }
    if Covers(xs, x) && !Has(xs[1], x) {
      var i :| 0 <= i < |xs| && Has(xs[i], x);
      assert Has(rest[i - 1], x);
    }
  }

  /** Two free lists over the same free memory are the same list: whatever order
      blocks were freed in, and wherever the search started, the result is equal. */
  lemma {:induction false} ListIsCanonical(xs: seq<Block>, ys: seq<Block>, base: nat)
    requires WellFormed(xs, base) && WellFormed(ys, base) && SameCells(xs, ys)
    ensures xs == ys
    decreases |xs|
  {
    if |xs| > 1 {
      FirstBlockBelow(xs, ys, base);
      FirstBlockBelow(ys, xs, base);
      FirstBlockEndsBelow(xs, ys, base);
      FirstBlockEndsBelow(ys, xs, base);
      var xr, yr := [xs[0]] + xs[2..], [ys[0]] + ys[2..];
      forall x: int
        ensures Covers(xr, x) <==> Covers(yr, x)
      {
        RestCovers(xs, base, x);
        RestCovers(ys, base, x);
      }
      RestCovers(xs, base, 0);
      RestCovers(ys, base, 0);
      ListIsCanonical(xr, yr, base);
      assert xs == [xs[0], xs[1]] + xr[1..] && ys == [ys[0], ys[1]] + yr[1..];
    } else if |ys| > 1 {
      FirstBlockBelow(ys, xs, base);
    }
  }

  // --- Free and allocated memory together ----------------------------------------------

  ghost predicate InUse(live: map<nat, nat>, x: int) {
    exists a :: a in live && Has(Block(a, live[a]), x)
  }

  /** What sbrk gave is split between the free list and the allocated blocks,
      which keep clear of each other. */
  ghost predicate HeapInv(base: nat, brk: nat, bs: seq<Block>, live: map<nat, nat>, obtained: set<int>) {
    && WellFormed(bs, base)
    && base <= brk
    && (forall i :: 0 <= i < |bs| ==> End(bs[i]) <= brk)
    && (forall a :: a in live ==> AllocOk(base, brk, bs, a, live[a]))
    && (forall a, c :: a in live && c in live && a != c ==> Apart(Block(a, live[a]), Block(c, live[c])))
    && (forall x: int :: x in obtained <==> Covers(bs, x) || InUse(live, x))
  }

  ghost predicate AllocOk(base: nat, brk: nat, bs: seq<Block>, a: nat, size: nat) {
    && base < a && 0 < size && a + size <= brk
    && forall i :: 0 <= i < |bs| ==> Apart(bs[i], Block(a, size))
  }

  /** Blocks that share no unit are apart. */
  lemma {:induction false} ApartFromCells(bs: seq<Block>, b: Block)
    requires b.size > 0 && forall x :: Has(b, x) ==> !Covers(bs, x)
    ensures forall i :: 0 <= i < |bs| && bs[i].size > 0 ==> Apart(bs[i], b)
  {
    forall i | 0 <= i < |bs| && bs[i].size > 0
      ensures Apart(bs[i], b)
    {
      var x := if bs[i].addr <= b.addr then b.addr else bs[i].addr;
      if !Apart(bs[i], b) {
        assert Has(b, x) && Has(bs[i], x);
        assert Covers(bs, x);
        assert false;
      }
    }
  }

  lemma {:induction false} InUseWithout(live: map<nat, nat>, a: nat, x: int)
    requires a in live
    requires forall c :: c in live && c != a ==> Apart(Block(a, live[a]), Block(c, live[c]))
    ensures InUse(live - {a}, x) <==> InUse(live, x) && !Has(Block(a, live[a]), x)
  {
    var rest := live - {a};
    if InUse(rest, x) {
      var c :| c in rest && Has(Block(c, rest[c]), x);
      assert c in live && live[c] == rest[c];
    }
    if InUse(live, x) && !Has(Block(a, live[a]), x) {
      var c :| c in live && Has(Block(c, live[c]), x);
      assert c in rest && rest[c] == live[c];
    }
  }

  lemma {:induction false} InUseWith(live: map<nat, nat>, a: nat, size: nat, x: int)
    requires a !in live
    ensures InUse(live[a := size], x) <==> InUse(live, x) || Has(Block(a, size), x)
  {
    var more := live[a := size];
    if InUse(more, x) {
      var c :| c in more && Has(Block(c, more[c]), x);
      assert c != a ==> c in live && live[c] == more[c];
    }
    if InUse(live, x) {
      var c :| c in live && Has(Block(c, live[c]), x);
      assert c in more && more[c] == live[c];
    }
    assert a in more && more[a] == size;
  }

  /** free moves a block from the allocated ones to the list. */
  lemma {:induction false} FreedKeeps(base: nat, brk: nat, bs: seq<Block>, live: map<nat, nat>, obtained: set<int>,
                                      a: nat)
    requires HeapInv(base, brk, bs, live, obtained) && a in live
    ensures Returnable(bs, base, Block(a, live[a]))
    ensures var bs1 := Freed(bs, Position(bs, base, a), Block(a, live[a]));
            HeapInv(base, brk, bs1, live - {a}, obtained)
  {
    var b := Block(a, live[a]);
    assert AllocOk(base, brk, bs, a, live[a]);
    var bs1 := Freed(bs, Position(bs, base, a), b);
    var rest := live - {a};
    FreedWellFormed(bs, base, b);
    forall x: int
      ensures Covers(bs1, x) <==> Covers(bs, x) || Has(b, x)
      ensures InUse(rest, x) <==> InUse(live, x) && !Has(b, x)
    {
      FreedCovers(bs, base, b, x);
      InUseWithout(live, a, x);
    }
    BelowBreak(bs, bs1, b, brk);
    forall c | c in rest
      ensures AllocOk(base, brk, bs1, c, rest[c])
    {
      assert AllocOk(base, brk, bs, c, live[c]);
      StillApart(bs, bs1, base, b, Block(c, live[c]));
    }
  }

  lemma {:induction false} BelowBreak(bs: seq<Block>, bs1: seq<Block>, b: Block, brk: nat)
    requires (forall i :: 0 <= i < |bs| ==> End(bs[i]) <= brk) && End(b) <= brk
    requires forall x: int :: Covers(bs1, x) ==> Covers(bs, x) || Has(b, x)
    ensures forall i :: 0 <= i < |bs1| && bs1[i].size > 0 ==> End(bs1[i]) <= brk
  {
    forall i | 0 <= i < |bs1| && bs1[i].size > 0
      ensures End(bs1[i]) <= brk
    {
      var x := End(bs1[i]) - 1;
      assert Has(bs1[i], x);
      assert Covers(bs1, x);
      if !Has(b, x) {
        var j :| 0 <= j < |bs| && Has(bs[j], x);
      }
    }
  }

  lemma {:induction false} StillApart(bs: seq<Block>, bs1: seq<Block>, base: nat, b: Block, c: Block)
    requires WellFormed(bs, base) && WellFormed(bs1, base) && c.size > 0 && base < c.addr
    requires (forall i :: 0 <= i < |bs| ==> Apart(bs[i], c)) && Apart(b, c)
    requires forall x: int :: Covers(bs1, x) ==> Covers(bs, x) || Has(b, x)
    ensures forall i :: 0 <= i < |bs1| ==> Apart(bs1[i], c)
  {
    forall x: int | Covers(bs1, x)
      ensures !Has(c, x)
    {
      if Covers(bs, x) {
        var i :| 0 <= i < |bs| && Has(bs[i], x);
        assert Apart(bs[i], c);
      }
    }
    ApartFromCells(bs1, c);
  }

  /** malloc moves the tail of a free block to the allocated ones. */
  lemma {:induction false} TakenKeeps(base: nat, brk: nat, bs: seq<Block>, live: map<nat, nat>, obtained: set<int>,
                                      k: nat, nunits: nat)
    requires HeapInv(base, brk, bs, live, obtained) && 0 < k < |bs| && bs[k].size >= nunits > 0
    ensures var t := Tail(bs[k], nunits);
            t.addr !in live && HeapInv(base, brk, Taken(bs, k, nunits), live[t.addr := nunits], obtained)
  {
    var t, bs1 := Tail(bs[k], nunits), Taken(bs, k, nunits);
    TakenWellFormed(bs, base, k, nunits);
    AllOrdered(bs, base);
    forall c | c in live
      ensures c != t.addr
    {
      assert AllocOk(base, brk, bs, c, live[c]);
      assert Apart(bs[k], Block(c, live[c]));
    }
    var more := live[t.addr := nunits];
    forall x: int
      ensures Covers(bs1, x) <==> Covers(bs, x) && !Has(t, x)
      ensures Has(t, x) ==> Covers(bs, x)
      ensures InUse(more, x) <==> InUse(live, x) || Has(t, x)
    {
      TakenCovers(bs, base, k, nunits, x);
      InUseWith(live, t.addr, nunits, x);
    }
    ApartFromCells(bs1, t);
    forall c | c in live
      ensures AllocOk(base, brk, bs1, c, live[c]) && Apart(t, Block(c, live[c]))
    {
      assert AllocOk(base, brk, bs, c, live[c]);
      assert Apart(bs[k], Block(c, live[c]));
      StillApart(bs, bs1, base, t, Block(c, live[c]));
    }
  }

  /** sbrk's new memory starts out as one allocated block, which morecore then frees. */
  lemma {:induction false} GrownKeeps(base: nat, brk: nat, bs: seq<Block>, live: map<nat, nat>, obtained: set<int>,
                                      nu: nat)
    requires HeapInv(base, brk, bs, live, obtained) && nu > 0 && base < brk
    ensures brk !in live
    ensures HeapInv(base, brk + nu, bs, live[brk := nu], obtained + Cells(Block(brk, nu)))
  {
    forall c | c in live
      ensures c != brk
    {
      assert AllocOk(base, brk, bs, c, live[c]);
    }
    var more := live[brk := nu];
    forall x: int
      ensures InUse(more, x) <==> InUse(live, x) || Has(Block(brk, nu), x)
    {
      InUseWith(live, brk, nu, x);
    }
    forall c | c in live
      ensures AllocOk(base, brk + nu, bs, c, live[c]) && Apart(Block(brk, nu), Block(c, live[c]))
    {
      assert AllocOk(base, brk, bs, c, live[c]);
    }
    assert AllocOk(base, brk + nu, bs, brk, nu);
  }

  function Cells(b: Block): (s: set<int>)
    ensures forall x :: x in s <==> Has(b, x)
  {
    set x: int | b.addr <= x < End(b) && Has(b, x)
  }

  /** The block that was freed lies whole in one block of the list. */
  lemma {:induction false} FreedIsHeld(bs: seq<Block>, base: nat, b: Block)
    requires Returnable(bs, base, b)
    ensures var f := Freed(bs, Position(bs, base, b.addr), b); exists i :: 0 < i < |f| && f[i].size >= b.size
  {
    var k := Position(bs, base, b.addr);
    var f := Freed(bs, k, b);
    var l := Inserted(bs, k, b);
    FreedWellFormed(bs, base, b);
    if Touch(Joined(l, k + 1), k) {
      assert f[k].size >= b.size;
    } else {
      assert f[k + 1].size >= b.size;
    }
  }
}
