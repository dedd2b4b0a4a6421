/** How many frames the page-table routines take: a page costs its frame, and the first
    page of a stretch without a table costs the table too. */
module PageCount {
  import opened Words
  import opened Finite
  import opened PageSpec
  import opened PageSteps

  /** Directory entries with a table. */
  function Tables(page: Page): set<nat> {
    set i: nat | i < ENTRIES && Present(page[i])
  }

  lemma {:induction false} TableFilled(page: Page, i: nat, w: Word)
    requires i < ENTRIES && !Present(page[i]) && Present(w)
    ensures Tables(page[i := w]) == Tables(page) + {i} && |Tables(page[i := w])| == |Tables(page)| + 1
  {
    assert Tables(page[i := w]) == Tables(page) + {i};
  }

  /** The directory entries that the pages from lo up to hi need. */
  function Indices(lo: nat, hi: nat): set<nat> {
    set i: nat | i < ENTRIES && Reached(i, lo, hi)
  }

  predicate Reached(i: nat, lo: nat, hi: nat) { lo < hi && lo / ENTRIES <= i <= (hi - 1) / ENTRIES }

  lemma {:induction false} IndicesAre(lo: nat, hi: nat, i: nat)
    requires hi <= PAGES
    ensures i in Indices(lo, hi) <==> exists q :: lo <= q < hi && Hi(q) == i
  {
    if i in Indices(lo, hi) {
      var q := if i == lo / ENTRIES then lo else i * ENTRIES;
      assert lo <= q < hi && Hi(q) == i;
    }
  }

  lemma {:induction false} IndicesStep(lo: nat, hi: nat)
    requires lo <= hi < PAGES
    ensures Indices(lo, hi + 1) == Indices(lo, hi) + {Hi(hi)}
  {
  }

  lemma {:induction false} IndicesMore(lo: nat, hi: nat, hi1: nat)
    requires lo <= hi <= hi1
    ensures Indices(lo, hi) <= Indices(lo, hi1)
  {
    assert forall i: nat :: Reached(i, lo, hi) ==> Reached(i, lo, hi1);
  }

  /** The tables that a directory lacks for these pages. */
  function Lacking(page: Page, lo: nat, hi: nat): set<nat> { Indices(lo, hi) - Tables(page) }

  /** The frames that filling these pages takes: one each, and one for every table lacking. */
  function Need(page: Page, lo: nat, hi: nat): nat
    requires lo <= hi
  {
    hi - lo + |Lacking(page, lo, hi)|
  }

  lemma {:induction false} NothingNeeded(page: Page, lo: nat)
    ensures Indices(lo, lo) == {} && Need(page, lo, lo) == 0
  {
    assert Lacking(page, lo, lo) == {};
  }

  lemma {:induction false} NeedStep(page: Page, lo: nat, hi: nat)
    requires lo <= hi < PAGES
    ensures Need(page, lo, hi + 1) == Need(page, lo, hi) + 1
              + (if Hi(hi) in Tables(page) + Indices(lo, hi) then 0 else 1)
    ensures Lacking(page, lo, hi) <= Lacking(page, lo, hi + 1)
  {
    IndicesStep(lo, hi);
    assert Lacking(page, lo, hi + 1)
           == if Hi(hi) in Tables(page) + Indices(lo, hi) then Lacking(page, lo, hi)
               else Lacking(page, lo, hi) + {Hi(hi)};
  }

  lemma {:induction false} NeedGrows(page: Page, lo: nat, mid: nat, hi: nat)
    requires lo <= mid <= hi <= PAGES
    ensures Need(page, lo, mid) + (hi - mid) <= Need(page, lo, hi) && Lacking(page, lo, mid) <= Lacking(page, lo, hi)
    decreases hi
  {
    if mid < hi {
      NeedGrows(page, lo, mid, hi - 1);
      NeedStep(page, lo, hi - 1);
    }
  }

  lemma {:induction false} TablesJoin(page: Page, page1: Page, lo: nat, hi: nat)
    requires Tables(page1) == Tables(page) + Indices(lo, hi)
    ensures |Tables(page1)| == |Tables(page)| + |Lacking(page, lo, hi)|
  {
    assert Tables(page1) == Tables(page) + Lacking(page, lo, hi);
  }

  /** Page q is the first from lo on whose table is lacking. */
  predicate FirstLacking(page: Page, lo: nat, q: nat)
    requires q < PAGES
  {
    lo <= q && Hi(q) !in Tables(page) && Lacking(page, lo, q) == {}
  }

  /** Filling the pages from lo up to hi with so many free frames before stopped after n
      pages, and everything but the tables made was given back.  A table was made exactly
      if the frames sufficed for the pages up to the first one whose table is lacking,
      and that table. */
  ghost predicate RanOut(page: Page, lo: nat, hi: nat, n: nat, before: nat, after: int)
    requires hi <= PAGES
  {
    && lo + n < hi
    && Need(page, lo, lo + n) <= before < Need(page, lo, lo + n + 1)
    && after == before - |Lacking(page, lo, lo + n)|
    && (after < before <==> exists q :: lo <= q < hi && FirstLacking(page, lo, q) && before >= (q - lo + 1) + 1)
  }

  lemma {:induction false} RanOutAt(page: Page, lo: nat, hi: nat, n: nat, before: nat, after: int)
    requires lo + n < hi <= PAGES && Need(page, lo, lo + n) <= before < Need(page, lo, lo + n + 1)
    requires after == before - |Lacking(page, lo, lo + n)|
    ensures RanOut(page, lo, hi, n, before, after) && before < Need(page, lo, hi)
  {
    hide Lacking, Need;
    NeedGrows(page, lo, lo + n + 1, hi);
    if Lacking(page, lo, lo + n) != {} {
      var q := FindLacking(page, lo, lo + n);
      LackingCost(page, lo, q);
      NeedGrows(page, lo, q + 1, lo + n);
    }
    forall q | lo <= q < hi && FirstLacking(page, lo, q) && before >= (q - lo + 1) + 1
      ensures Lacking(page, lo, lo + n) != {}
    {
      LackingCost(page, lo, q);
      if q + 1 <= lo + n {
        NeedGrows(page, lo, q + 1, lo + n);
      } else {
        NeedGrows(page, lo, lo + n + 1, q + 1);
      }
    }
  }

  lemma {:induction false} LackingCost(page: Page, lo: nat, q: nat)
    requires q < PAGES && FirstLacking(page, lo, q)
    ensures Need(page, lo, q + 1) == (q - lo + 1) + 1 && Hi(q) in Lacking(page, lo, q + 1)
  {
    NeedStep(page, lo, q);
    IndicesStep(lo, q);
  }

  lemma {:induction false} FindLacking(page: Page, lo: nat, hi: nat) returns (q: nat)
    requires lo <= hi <= PAGES && Lacking(page, lo, hi) != {}
    ensures q < hi && FirstLacking(page, lo, q)
    decreases hi
  {
    assert lo < hi;
    if Lacking(page, lo, hi - 1) != {} {
      q := FindLacking(page, lo, hi - 1);
    } else {
      NeedStep(page, lo, hi - 1);
      IndicesStep(lo, hi - 1);
      q := hi - 1;
      var i :| i in Lacking(page, lo, hi);
      assert i !in Lacking(page, lo, hi - 1);
    }
  }

  // --- Free frames and tables of d, counted in the account ---------------------------------

  lemma {:induction false} SizeOfDistinct(s: seq<nat>, all: set<nat>)
    requires Distinct(s) && forall x :: x in s <==> x in all
    ensures |s| == |all|
    decreases |s|
  {
    if s != [] {
      var rest := s[1..];
      assert forall x :: x in rest <==> x in all - {s[0]};
      SizeOfDistinct(rest, all - {s[0]});
    } else {
      assert all == {};
    }
  }

  lemma {:induction false} SizeOfFrames(page: Page, at: set<nat>, all: set<nat>)
    requires forall i :: i in at ==> i < ENTRIES && Frame(page[i]) in all
    requires forall i, j :: i in at && j in at && i != j ==> Frame(page[i]) != Frame(page[j])
    requires forall f :: f in all ==> exists i :: i in at && Frame(page[i]) == f
    ensures |at| == |all|
    decreases |at|
  {
    if i :| i in at {
      var at1, all1 := at - {i}, all - {Frame(page[i])};
      forall f | f in all1
        ensures exists j :: j in at1 && Frame(page[j]) == f
      {
        var j :| j in at && Frame(page[j]) == f;
        assert j in at1;
      }
      SizeOfFrames(page, at1, all1);
    } else {
      assert forall f :: f !in all;
      assert all == {};
    }
  }

  /** Frames that are free or tables of d. */
  ghost function Reserve(owner: Owners, d: nat): set<nat> {
    set f | f in owner && (owner[f] == Free || OfTables(owner[f], d))
  }

  lemma {:induction false} ReserveCounted(mem: Memory, owner: Owners, free: seq<nat>, head: nat, d: nat)
    requires Inv(mem, owner, free, head) && IsDir(owner, d)
    ensures |Reserve(owner, d)| == |free| + |Tables(mem[d])|
  {
    var frees, tables := set f | f in owner && owner[f] == Free, set f | f in owner && OfTables(owner[f], d);
    SizeOfDistinct(free, frees);
    assert FrameOk(mem, owner, d);
    forall i | i in Tables(mem[d])
      ensures Frame(mem[d][i]) in tables && owner[Frame(mem[d][i])] == Table(d, i)
    {
      assert EntryOk(mem, owner, d, i);
    }
    forall f | f in tables
      ensures exists i :: i in Tables(mem[d]) && Frame(mem[d][i]) == f
    {
      assert FrameOk(mem, owner, f) && owner[f].index in Tables(mem[d]);
    }
    SizeOfFrames(mem[d], Tables(mem[d]), tables);
    assert Reserve(owner, d) == frees + tables;
  }

  /** A walk, or growth taken back, loses no frame: free ones only became tables of d. */
  lemma {:induction false} ReserveKept(s: Ram, s1: Ram, d: nat)
    requires WalkStep(s, s1, d)
    ensures Reserve(s1.owner, d) == Reserve(s.owner, d)
  {
    forall f | f in s.owner
      ensures f in Reserve(s1.owner, d) <==> f in Reserve(s.owner, d)
    {
      assert TableAddedAt(s, s1, d, f);
    }
  }
}
