/** What one call of the page-table routines does to the frames and to the flat view
    of one directory d, as relations that compose over loops. */
module PageSteps {
  import opened Words
  import opened PageSpec

  /** The frames and what they are used for. */
  datatype Ram = Ram(mem: Memory, owner: Owners)

  predicate OfTables(u: Use, d: nat) { u.Table? && u.dir == d }

  predicate OfPages(u: Use, d: nat, lo: nat, hi: nat) { u.User? && u.dir == d && lo <= u.page < hi }

  ghost predicate SameFrames(s: Ram, s1: Ram) {
    s.mem.Keys == s.owner.Keys == s1.mem.Keys == s1.owner.Keys
  }

  predicate ContentKept(s: Ram, s1: Ram, d: nat, f: nat) {
    f in s.mem && f in s.owner && f in s1.mem && f in s1.owner
    && (s.owner[f] != Free && s1.owner[f] != Free && f != d && !OfTables(s.owner[f], d) ==> s1.mem[f] == s.mem[f])
  }

  /** Memory in use before and after, apart from d and its tables, keeps its contents. */
  ghost predicate ContentsKept(s: Ram, s1: Ram, d: nat) {
    SameFrames(s, s1) && forall f {:trigger ContentKept(s, s1, d, f)} :: f in s.owner ==> ContentKept(s, s1, d, f)
  }

  lemma {:induction false} ContentsKeptOn(s: Ram, s1: Ram, s2: Ram, d: nat)
    requires ContentsKept(s, s1, d) && ContentsKept(s1, s2, d)
    requires forall f {:trigger ContentKept(s, s2, d, f)} ::
               f in s.owner && s.owner[f] != Free && s2.owner[f] != Free && f != d && !OfTables(s.owner[f], d) ==>
               s1.owner[f] != Free && !OfTables(s1.owner[f], d)
    ensures ContentsKept(s, s2, d)
  {
    forall f | f in s.owner
      ensures ContentKept(s, s2, d, f)
    {
      assert ContentKept(s, s1, d, f) && ContentKept(s1, s2, d, f);
    }
  }

  // --- Adding tables and mappings ----------------------------------------------------------

  predicate TableAddedAt(s: Ram, s1: Ram, d: nat, f: nat) {
    f in s.owner && f in s1.owner && (s1.owner[f] == s.owner[f] || (s.owner[f] == Free && OfTables(s1.owner[f], d)))
  }

  /** No view of d changes; frames change use only from free to a table of d. */
  ghost predicate WalkStep(s: Ram, s1: Ram, d: nat) {
    && ContentsKept(s, s1, d)
    && (forall f {:trigger TableAddedAt(s, s1, d, f)} :: f in s.owner ==> TableAddedAt(s, s1, d, f))
    && (forall q: nat :: View(s1.mem, d, q) == View(s.mem, d, q))
  }

  ghost predicate AbsentRange(s: Ram, d: nat, first: nat, n: nat) {
    forall q: nat :: first <= q < first + n ==> View(s.mem, d, q) == 0
  }

  /** Exactly the n pages from first on were mapped, to consecutive frames from pa on. */
  ghost predicate MappedRange(s: Ram, s1: Ram, d: nat, first: nat, n: nat, pa: nat, perm: nat)
    requires pa + n <= PAGES && perm < PGSIZE
  {
    forall q: nat ::
      View(s1.mem, d, q) == if first <= q < first + n then Entry(pa + (q - first), WithP(perm)) else View(s.mem, d, q)
  }

  predicate ChargedAt(s: Ram, s1: Ram, d: nat, first: nat, n: nat, pa: nat, f: nat) {
    f in s.owner && f in s1.owner
    && if pa <= f < pa + n && first + (f - pa) < USER_PAGES
       then s.owner[f] == Other && s1.owner[f] == User(d, first + (f - pa))
       else TableAddedAt(s, s1, d, f)
  }

  /** The frames of user pages in the range are charged to them; else only tables were added. */
  ghost predicate Charged(s: Ram, s1: Ram, d: nat, first: nat, n: nat, pa: nat) {
    forall f {:trigger ChargedAt(s, s1, d, first, n, pa, f)} :: f in s.owner ==> ChargedAt(s, s1, d, first, n, pa, f)
  }

  /** n absent pages from first on were mapped to frames from pa on. */
  ghost predicate MapStep(s: Ram, s1: Ram, d: nat, first: nat, n: nat, pa: nat, perm: nat)
    requires pa + n <= PAGES && perm < PGSIZE
  {
    && ContentsKept(s, s1, d)
    && AbsentRange(s, d, first, n)
    && MappedRange(s, s1, d, first, n, pa, perm)
    && Charged(s, s1, d, first, n, pa)
  }

  /** One entry written for a page that was absent. */
  lemma {:induction false} PageMapped(s: Ram, free: seq<nat>, head: nat, d: nat, p: nat, f: nat, perm: nat)
    requires Inv(s.mem, s.owner, free, head) && IsDir(s.owner, d) && p < PAGES && Present(s.mem[d][Hi(p)])
             && perm < PGSIZE
    requires !Present(Pte(s.mem, d, p)) && f < PAGES && (p < USER_PAGES ==> f in s.owner && s.owner[f] == Other)
    ensures Frame(s.mem[d][Hi(p)]) in s.mem
    ensures var s1 := Ram(Written(s.mem, d, p, Entry(f, WithP(perm))), if p < USER_PAGES
              then s.owner[f := User(d, p)] else s.owner);
            Inv(s1.mem, s1.owner, free, head) && MapStep(s, s1, d, p, 1, f, perm)
  {
    var mem, owner := s.mem, s.owner;
    TableOf(mem, owner, d, p);
    var w := Entry(f, WithP(perm));
    var owner1 := if p < USER_PAGES then owner[f := User(d, p)] else owner;
    assert forall g :: g in owner && owner[g] == User(d, p) ==> FrameOk(mem, owner, g);
    EntryWritten(mem, owner, d, p, w, owner1);
    WrittenPte(mem, owner, d, p, w);
    var t := Frame(mem[d][Hi(p)]);
    FreeListKept(mem, owner, free, head, t, mem[t][Lo(p) := w]);
    FreeListSame(Written(mem, d, p, w), owner, owner1, free, head);
  }

  lemma {:induction false} RangesJoin(s: Ram, s1: Ram, s2: Ram, d: nat, first: nat, n: nat, m: nat, pa: nat, perm: nat)
    requires pa + n + m <= PAGES && perm < PGSIZE
    requires MappedRange(s, s1, d, first, n, pa, perm) && MappedRange(s1, s2, d, first + n, m, pa + n, perm)
    requires AbsentRange(s, d, first, n) && AbsentRange(s1, d, first + n, m)
    ensures MappedRange(s, s2, d, first, n + m, pa, perm) && AbsentRange(s, d, first, n + m)
  {
    var all := n + m;
    forall q: nat | first <= q < first + all
      ensures View(s.mem, d, q) == 0
    {
      assert q >= first + n ==> View(s1.mem, d, q) == 0;
    }
    forall q: nat
      ensures View(s2.mem, d, q) == if first <= q < first + all then Entry(pa + (q - first), WithP(perm))
                else View(s.mem, d, q)
    {
      assert View(s2.mem, d, q) == if first + n <= q < first + n + m then Entry(pa + n + (q - (first + n)), WithP(perm))
                                   else View(s1.mem, d, q);
      assert q >= first + n ==> pa + n + (q - (first + n)) == pa + (q - first);
    }
  }

  lemma {:induction false} ChargesJoin(s: Ram, s1: Ram, s2: Ram, d: nat, first: nat, n: nat, m: nat, pa: nat)
    requires SameFrames(s, s1) && Charged(s, s1, d, first, n, pa) && Charged(s1, s2, d, first + n, m, pa + n)
    ensures Charged(s, s2, d, first, n + m, pa)
  {
    var all := n + m;
    forall f | f in s.owner
      ensures ChargedAt(s, s2, d, first, all, pa, f)
    {
      assert ChargedAt(s, s1, d, first, n, pa, f) && ChargedAt(s1, s2, d, first + n, m, pa + n, f);
    }
  }

  lemma {:induction false} MapStepsJoin(s: Ram, s1: Ram, s2: Ram, d: nat, first: nat, n: nat, m: nat, pa: nat,
                                        perm: nat)
    requires pa + n + m <= PAGES && perm < PGSIZE
    requires MapStep(s, s1, d, first, n, pa, perm) && MapStep(s1, s2, d, first + n, m, pa + n, perm)
    ensures MapStep(s, s2, d, first, n + m, pa, perm)
  {
    RangesJoin(s, s1, s2, d, first, n, m, pa, perm);
    ChargesJoin(s, s1, s2, d, first, n, m, pa);
    forall f | f in s.owner && s.owner[f] != Free && !OfTables(s.owner[f], d)
      ensures s1.owner[f] != Free && !OfTables(s1.owner[f], d)
    {
      assert ChargedAt(s, s1, d, first, n, pa, f);
    }
    ContentsKeptOn(s, s1, s2, d);
  }

  /** A walk that only adds tables maps nothing. */
  lemma {:induction false} WalkIsStep(s: Ram, s1: Ram, d: nat, p: nat, pa: nat, perm: nat)
    requires pa <= PAGES && perm < PGSIZE && WalkStep(s, s1, d)
    ensures MapStep(s, s1, d, p, 0, pa, perm)
  {
    forall f | f in s.owner
      ensures ChargedAt(s, s1, d, p, 0, pa, f)
    {
      assert TableAddedAt(s, s1, d, f);
    }
  }

  lemma {:induction false} NothingMapped(s: Ram, d: nat, first: nat, pa: nat, perm: nat)
    requires s.mem.Keys == s.owner.Keys && pa <= PAGES && perm < PGSIZE
    ensures MapStep(s, s, d, first, 0, pa, perm)
  {
  }

  /** User pages are given frames that nothing else uses. */
  ghost predicate Mappable(s: Ram, first: nat, n: nat, pa: nat) {
    forall f: nat :: pa <= f < pa + n && first + (f - pa) < USER_PAGES ==> f in s.owner && s.owner[f] == Other
  }

  lemma {:induction false} MappableStill(s: Ram, s1: Ram, d: nat, first: nat, count: nat, pa: nat, n: nat, perm: nat)
    requires pa + n <= PAGES && perm < PGSIZE && Mappable(s, first, count, pa) && n < count
    requires MapStep(s, s1, d, first, n, pa, perm)
    ensures first + n < USER_PAGES ==> pa + n in s1.owner && s1.owner[pa + n] == Other
  {
    if first + n < USER_PAGES {
      assert ChargedAt(s, s1, d, first, n, pa, pa + n);
    }
  }

  lemma {:induction false} PresentBefore(s: Ram, s1: Ram, d: nat, first: nat, n: nat, count: nat, pa: nat, perm: nat)
    requires pa + n <= PAGES && perm < PGSIZE && n < count && MapStep(s, s1, d, first, n, pa, perm)
    ensures View(s1.mem, d, first + n) != 0 ==> !AbsentRange(s, d, first, count)
  {
  }

  // --- Removing user mappings ------------------------------------------------------------------

  predicate ReleasedAt(s: Ram, s1: Ram, d: nat, lo: nat, hi: nat, f: nat) {
    f in s.owner && f in s1.owner && s1.owner[f] == if OfPages(s.owner[f], d, lo, hi) then Free else s.owner[f]
  }

  /** The pages lo .. hi are gone and their frames free; nothing else changed. */
  ghost predicate UnmapStep(s: Ram, s1: Ram, d: nat, lo: nat, hi: nat) {
    && ContentsKept(s, s1, d)
    && (forall q: nat :: View(s1.mem, d, q) == if lo <= q < hi then 0 else View(s.mem, d, q))
    && (forall f {:trigger ReleasedAt(s, s1, d, lo, hi, f)} :: f in s.owner ==> ReleasedAt(s, s1, d, lo, hi, f))
  }

  /** The frame behind a present user page. */
  lemma {:induction false} PageFrame(s: Ram, d: nat, p: nat)
    requires Accounted(s.mem, s.owner) && IsDir(s.owner, d) && p < USER_PAGES && Present(Pte(s.mem, d, p))
    ensures var f := Frame(Pte(s.mem, d, p));
            && f in s.owner && s.owner[f] == User(d, p) && f != d
            && Present(s.mem[d][Hi(p)]) && Frame(s.mem[d][Hi(p)]) in s.owner
                && s.owner[Frame(s.mem[d][Hi(p)])] == Table(d, Hi(p))
            && Pte(s.mem, d, p) == s.mem[Frame(s.mem[d][Hi(p)])][Lo(p)]
            && forall g :: g in s.owner && s.owner[g] == User(d, p) ==> g == f
  {
    assert FrameOk(s.mem, s.owner, d) && PageOk(s.mem, s.owner, d, p);
    TableOf(s.mem, s.owner, d, p);
    assert forall g :: g in s.owner && s.owner[g] == User(d, p) ==> FrameOk(s.mem, s.owner, g);
  }

  /** The memory after kfree of the page's frame, with the entry cleared. */
  function PageGone(s: Ram, head: nat, d: nat, p: nat): Memory
    requires d in s.mem && p < PAGES && Frame(s.mem[d][Hi(p)]) in s.mem && head < TOP_FRAME
             && Frame(Pte(s.mem, d, p)) != d
  {
    Written(s.mem[Frame(Pte(s.mem, d, p)) := Junk(head)], d, p, 0)
  }

  lemma {:induction false} PageGoneAccounted(s: Ram, head: nat, d: nat, p: nat)
    requires Accounted(s.mem, s.owner) && IsDir(s.owner, d) && p < USER_PAGES && Present(Pte(s.mem, d, p))
             && head < TOP_FRAME
    ensures var f := Frame(Pte(s.mem, d, p));
            && f != d && Frame(s.mem[d][Hi(p)]) in s.mem
            && Accounted(PageGone(s, head, d, p), s.owner[f := Free])
            && forall q: nat :: Pte(PageGone(s, head, d, p), d, q) == if q == p then 0 else Pte(s.mem, d, q)
  {
    PageFrame(s, d, p);
    var mem, owner := s.mem, s.owner;
    var f := Frame(Pte(mem, d, p));
    EntryWritten(mem, owner, d, p, 0, owner[f := Other]);
    WrittenPte(mem, owner, d, p, 0);
    OtherWritten(Written(mem, d, p, 0), owner[f := Other], f, Junk(head), Free);
    assert Written(mem, d, p, 0)[f := Junk(head)] == PageGone(s, head, d, p);
    assert owner[f := Other][f := Free] == owner[f := Free];
    assert IsDir(owner[f := Other], d);
  }

  /** kfree of the page's frame, then the entry cleared. */
  lemma {:induction false} PageUnmapped(s: Ram, free: seq<nat>, head: nat, d: nat, p: nat)
    requires Inv(s.mem, s.owner, free, head) && IsDir(s.owner, d) && p < USER_PAGES && Present(Pte(s.mem, d, p))
    ensures var f := Frame(Pte(s.mem, d, p));
            && f in s.owner && s.owner[f] == User(d, p) && head < TOP_FRAME && f != d
            && Frame(s.mem[d][Hi(p)]) in s.mem && Frame(s.mem[d][Hi(p)]) != f
            && var s1 := Ram(PageGone(s, head, d, p), s.owner[f := Free]);
               Inv(s1.mem, s1.owner, [f] + free, f) && UnmapStep(s, s1, d, p, p + 1)
  {
    PageFrame(s, d, p);
    var f, t := Frame(Pte(s.mem, d, p)), Frame(s.mem[d][Hi(p)]);
    KfreeKeeps(s.mem, s.owner, free, head, f);
    FreeListKept(s.mem[f := Junk(head)], s.owner[f := Free], [f] + free, f, t, s.mem[t][Lo(p) := 0]);
    PageGoneAccounted(s, head, d, p);
  }

  /** Pages that were not present need no release. */
  lemma {:induction false} NothingUnmapped(s: Ram, d: nat, lo: nat, hi: nat)
    requires Accounted(s.mem, s.owner) && AbsentRange(s, d, lo, if lo <= hi then hi - lo else 0)
    ensures UnmapStep(s, s, d, lo, hi)
  {
    forall f | f in s.owner && s.owner[f].User?
      ensures View(s.mem, s.owner[f].dir, s.owner[f].page) != 0
    {
      NothingLost(s.mem, s.owner, f);
    }
  }

  lemma {:induction false} UnmapStepsJoin(s: Ram, s1: Ram, s2: Ram, d: nat, lo: nat, mid: nat, hi: nat)
    requires lo <= mid <= hi && UnmapStep(s, s1, d, lo, mid) && UnmapStep(s1, s2, d, mid, hi)
    ensures UnmapStep(s, s2, d, lo, hi)
  {
    forall f | f in s.owner
      ensures ReleasedAt(s, s2, d, lo, hi, f)
    {
      assert ReleasedAt(s, s1, d, lo, mid, f) && ReleasedAt(s1, s2, d, mid, hi, f);
    }
    forall f | f in s.owner && s.owner[f] != Free && s2.owner[f] != Free
      ensures s1.owner[f] != Free && (OfTables(s1.owner[f], d) ==> OfTables(s.owner[f], d))
    {
      assert ReleasedAt(s, s1, d, lo, mid, f) && ReleasedAt(s1, s2, d, mid, hi, f);
    }
    ContentsKeptOn(s, s1, s2, d);
  }

  /** The jump over an absent table skips only absent pages. */
  lemma {:induction false} JumpSkipsNothing(s: Ram, d: nat, p: nat, hi: nat)
    requires Accounted(s.mem, s.owner) && IsDir(s.owner, d) && p < USER_PAGES && !Present(s.mem[d][Hi(p)])
    requires p <= hi <= (Hi(p) + 1) * ENTRIES
    ensures UnmapStep(s, s, d, p, hi)
  {
    forall q: nat | p <= q < hi
      ensures View(s.mem, d, q) == 0
    {
      NoTableNoPage(s.mem, d, p, q);
    }
    NothingUnmapped(s, d, p, hi);
  }

  // --- Adding user pages ----------------------------------------------------------------------------

  /** What a page is to hold, and with which permissions. */
  datatype Content = Content(words: Page, perm: nat)

  predicate FilledAt(s: Ram, s1: Ram, d: nat, lo: nat, pages: seq<Content>, k: nat)
    requires k < |pages|
  {
    var w := View(s1.mem, d, lo + k);
    var f := Frame(w);
    && pages[k].perm < PGSIZE
    && Present(w) && Flags(w) == WithP(pages[k].perm)
    && f in s.owner && s.owner[f] == Free
    && f in s1.owner && s1.owner[f] == User(d, lo + k)
    && f in s1.mem && s1.mem[f] == pages[k].words
  }

  predicate GrownAt(s: Ram, s1: Ram, d: nat, lo: nat, hi: nat, f: nat) {
    f in s.owner && f in s1.owner
    && (s1.owner[f] == s.owner[f] || (s.owner[f] == Free
          && (OfTables(s1.owner[f], d) || OfPages(s1.owner[f], d, lo, hi))))
  }

  /** The absent pages from lo on were filled, each with a frame that was free. */
  ghost predicate GrowStep(s: Ram, s1: Ram, d: nat, lo: nat, pages: seq<Content>) {
    && ContentsKept(s, s1, d)
    && AbsentRange(s, d, lo, |pages|)
    && (forall k {:trigger FilledAt(s, s1, d, lo, pages, k)} :: 0 <= k < |pages| ==> FilledAt(s, s1, d, lo, pages, k))
    && (forall q: nat :: !(lo <= q < lo + |pages|) ==> View(s1.mem, d, q) == View(s.mem, d, q))
    && (forall f {:trigger GrownAt(s, s1, d, lo, lo + |pages|, f)} :: f in s.owner ==>
          GrownAt(s, s1, d, lo, lo + |pages|, f))
  }

  lemma {:induction false} PageAdded(s: Ram, s1: Ram, d: nat, p: nat, f: nat, words: Page, perm: nat)
    requires Accounted(s.mem, s.owner) && IsDir(s.owner, d) && p < USER_PAGES && perm < PGSIZE
    requires f in s.owner && s.owner[f] == Free && f < PAGES
    requires MapStep(Ram(s.mem[f := words], s.owner[f := Other]), s1, d, p, 1, f, perm)
    ensures GrowStep(s, s1, d, p, [Content(words, perm)])
  {
    var s0, pages := Ram(s.mem[f := words], s.owner[f := Other]), [Content(words, perm)];
    assert ContentKept(s0, s1, d, f) && ChargedAt(s0, s1, d, p, 1, f, f);
    forall q: nat
      ensures View(s0.mem, d, q) == View(s.mem, d, q)
    {
      PteKept(s.mem, s.owner, f, words, d, q);
    }
    var hi := p + |pages|;
    forall g | g in s.owner
      ensures GrownAt(s, s1, d, p, hi, g) && ContentKept(s, s1, d, g)
    {
      assert ChargedAt(s0, s1, d, p, 1, f, g) && ContentKept(s0, s1, d, g);
    }
    assert FilledAt(s, s1, d, p, pages, 0);
  }

  lemma {:induction false} FilledStill(s: Ram, s1: Ram, s2: Ram, d: nat, lo: nat, ps: seq<Content>, qs: seq<Content>,
                                       k: nat)
    requires IsDir(s1.owner, d) && GrowStep(s, s1, d, lo, ps) && GrowStep(s1, s2, d, lo + |ps|, qs) && k < |ps|
    ensures FilledAt(s, s2, d, lo, ps + qs, k)
  {
    var f := Frame(View(s1.mem, d, lo + k));
    assert FilledAt(s, s1, d, lo, ps, k);
    assert GrownAt(s1, s2, d, lo + |ps|, lo + |ps| + |qs|, f) && ContentKept(s1, s2, d, f);
    assert View(s2.mem, d, lo + k) == View(s1.mem, d, lo + k);
  }

  lemma {:induction false} FilledLater(s: Ram, s1: Ram, s2: Ram, d: nat, lo: nat, ps: seq<Content>, qs: seq<Content>,
                                       k: nat)
    requires GrowStep(s, s1, d, lo, ps) && GrowStep(s1, s2, d, lo + |ps|, qs) && k < |qs|
    ensures FilledAt(s, s2, d, lo, ps + qs, |ps| + k)
  {
    var f := Frame(View(s2.mem, d, lo + |ps| + k));
    assert FilledAt(s1, s2, d, lo + |ps|, qs, k);
    assert GrownAt(s, s1, d, lo, lo + |ps|, f);
    assert lo + (|ps| + k) == lo + |ps| + k;
  }

  lemma {:induction false} GrowOwnersJoin(s: Ram, s1: Ram, s2: Ram, d: nat, lo: nat, ps: seq<Content>, qs: seq<Content>)
    requires IsDir(s1.owner, d) && GrowStep(s, s1, d, lo, ps) && GrowStep(s1, s2, d, lo + |ps|, qs)
    ensures ContentsKept(s, s2, d)
    ensures forall f {:trigger GrownAt(s, s2, d, lo, lo + |ps + qs|, f)} :: f in s.owner ==>
              GrownAt(s, s2, d, lo, lo + |ps + qs|, f)
  {
    forall f | f in s.owner
      ensures GrownAt(s, s2, d, lo, lo + |ps + qs|, f)
    {
      assert GrownAt(s, s1, d, lo, lo + |ps|, f) && GrownAt(s1, s2, d, lo + |ps|, lo + |ps| + |qs|, f);
    }
    forall f | f in s.owner && s.owner[f] != Free && !OfTables(s.owner[f], d)
      ensures s1.owner[f] != Free && !OfTables(s1.owner[f], d)
    {
      assert GrownAt(s, s1, d, lo, lo + |ps|, f);
    }
    ContentsKeptOn(s, s1, s2, d);
  }

  lemma {:induction false} GrowStepsJoin(s: Ram, s1: Ram, s2: Ram, d: nat, lo: nat, ps: seq<Content>, qs: seq<Content>)
    requires IsDir(s1.owner, d) && GrowStep(s, s1, d, lo, ps) && GrowStep(s1, s2, d, lo + |ps|, qs)
    ensures GrowStep(s, s2, d, lo, ps + qs)
  {
    GrowOwnersJoin(s, s1, s2, d, lo, ps, qs);
    var both := ps + qs;
    forall k | 0 <= k < |both|
      ensures FilledAt(s, s2, d, lo, both, k)
    {
      if k < |ps| {
        FilledStill(s, s1, s2, d, lo, ps, qs, k);
      } else {
        FilledLater(s, s1, s2, d, lo, ps, qs, k - |ps|);
      }
    }
    forall q: nat | lo <= q < lo + |both|
      ensures View(s.mem, d, q) == 0
    {
      assert q >= lo + |ps| ==> View(s1.mem, d, q) == 0;
    }
  }

  lemma {:induction false} WalkIsGrowth(s: Ram, s1: Ram, d: nat, lo: nat)
    requires WalkStep(s, s1, d)
    ensures GrowStep(s, s1, d, lo, [])
  {
    var hi := lo + 0;
    forall f | f in s.owner
      ensures GrownAt(s, s1, d, lo, hi, f)
    {
      assert TableAddedAt(s, s1, d, f);
    }
  }

  lemma {:induction false} NothingGrown(s: Ram, d: nat, lo: nat)
    requires s.mem.Keys == s.owner.Keys
    ensures GrowStep(s, s, d, lo, [])
  {
  }

  /** A page that could not be mapped: apart from its frame f, set free, only tables were added. */
  lemma {:induction false} MapFailed(s: Ram, s1: Ram, d: nat, p: nat, f: nat, words: Page, perm: nat)
    requires Accounted(s.mem, s.owner) && IsDir(s.owner, d) && perm < PGSIZE
    requires f in s.owner && s.owner[f] == Free && f < PAGES
    requires MapStep(Ram(s.mem[f := words], s.owner[f := Other]), s1, d, p, 0, f, perm)
    ensures f in s1.owner && s1.owner[f] == Other
    ensures WalkStep(s, Ram(s1.mem, s1.owner[f := Free]), d)
  {
    var s0, s2 := Ram(s.mem[f := words], s.owner[f := Other]), Ram(s1.mem, s1.owner[f := Free]);
    assert ChargedAt(s0, s1, d, p, 0, f, f);
    forall q: nat
      ensures View(s0.mem, d, q) == View(s.mem, d, q)
    {
      PteKept(s.mem, s.owner, f, words, d, q);
    }
    forall g | g in s.owner
      ensures TableAddedAt(s, s2, d, g) && ContentKept(s, s2, d, g)
    {
      assert ChargedAt(s0, s1, d, p, 0, f, g) && ContentKept(s0, s1, d, g);
    }
  }

  /** Growth taken back: every view is as before, and of the frames only tables are kept. */
  lemma {:induction false} GrowthUndone(s: Ram, s1: Ram, s2: Ram, d: nat, lo: nat, pages: seq<Content>, hi: nat)
    requires Accounted(s.mem, s.owner) && IsDir(s.owner, d) && lo + |pages| <= hi && AbsentRange(s, d, lo, hi - lo)
    requires GrowStep(s, s1, d, lo, pages) && UnmapStep(s1, s2, d, lo, hi)
    ensures WalkStep(s, s2, d)
  {
    forall f | f in s.owner
      ensures TableAddedAt(s, s2, d, f)
      ensures s.owner[f] != Free && s2.owner[f] != Free && !OfTables(s.owner[f], d) ==>
                s1.owner[f] != Free && !OfTables(s1.owner[f], d)
    {
      assert GrownAt(s, s1, d, lo, lo + |pages|, f) && ReleasedAt(s1, s2, d, lo, hi, f);
      if s.owner[f].User? {
        NothingLost(s.mem, s.owner, f);
      }
    }
    ContentsKeptOn(s, s1, s2, d);
  }

  /** The same when a frame f, in use for nothing, was set free on the way. */
  lemma {:induction false} UnmapAround(s: Ram, s1: Ram, d: nat, lo: nat, hi: nat, f: nat)
    requires UnmapStep(s, s1, d, lo, hi) && f in s.owner && s.owner[f] == Other
    ensures f in s1.owner && s1.owner[f] == Other
    ensures UnmapStep(Ram(s.mem, s.owner[f := Free]), Ram(s1.mem, s1.owner[f := Free]), d, lo, hi)
  {
    var t, t1 := Ram(s.mem, s.owner[f := Free]), Ram(s1.mem, s1.owner[f := Free]);
    assert ReleasedAt(s, s1, d, lo, hi, f);
    forall g | g in t.owner
      ensures ReleasedAt(t, t1, d, lo, hi, g) && ContentKept(t, t1, d, g)
    {
      assert ReleasedAt(s, s1, d, lo, hi, g) && ContentKept(s, s1, d, g);
    }
  }

  lemma {:induction false} GrowthUndoneAround(s: Ram, s1: Ram, s2: Ram, s3: Ram, d: nat, lo: nat,
                                              pages: seq<Content>, hi: nat, f: nat)
    requires Accounted(s.mem, s.owner) && IsDir(s.owner, d) && lo + |pages| <= hi && AbsentRange(s, d, lo, hi - lo)
    requires GrowStep(s, s1, d, lo, pages) && IsDir(s1.owner, d)
    requires f in s2.owner && s2.owner[f] == Other && WalkStep(s1, Ram(s2.mem, s2.owner[f := Free]), d)
    requires UnmapStep(s2, s3, d, lo, hi)
    ensures f in s3.owner && s3.owner[f] == Other && WalkStep(s, Ram(s3.mem, s3.owner[f := Free]), d)
  {
    var t2 := Ram(s2.mem, s2.owner[f := Free]);
    WalkIsGrowth(s1, t2, d, lo + |pages|);
    GrowStepsJoin(s, s1, t2, d, lo, pages, []);
    assert pages + [] == pages;
    UnmapAround(s2, s3, d, lo, hi, f);
    GrowthUndone(s, t2, Ram(s3.mem, s3.owner[f := Free]), d, lo, pages, hi);
  }

  /** What a free frame holds does not matter. */
  lemma {:induction false} FreeContent(s: Ram, s1: Ram, d: nat, f: nat, words: Page)
    requires Accounted(s1.mem, s1.owner) && IsDir(s1.owner, d) && f in s1.owner && s1.owner[f] == Other
    requires WalkStep(s, Ram(s1.mem, s1.owner[f := Free]), d)
    ensures WalkStep(s, Ram(s1.mem[f := words], s1.owner[f := Free]), d)
  {
    var s2, s3 := Ram(s1.mem, s1.owner[f := Free]), Ram(s1.mem[f := words], s1.owner[f := Free]);
    forall q: nat
      ensures View(s3.mem, d, q) == View(s2.mem, d, q)
    {
      PteKept(s1.mem, s1.owner, f, words, d, q);
    }
    forall g | g in s.owner
      ensures TableAddedAt(s, s3, d, g) && ContentKept(s, s3, d, g)
    {
      assert TableAddedAt(s, s2, d, g) && ContentKept(s, s2, d, g);
    }
  }

  // --- Whole directories -------------------------------------------------------------------------------

  predicate Family(u: Use, d: nat) { (u.Table? || u.User?) && u.dir == d }

  predicate TornAt(s: Ram, s1: Ram, d: nat, f: nat) {
    f in s.owner && f in s1.owner && f in s.mem && f in s1.mem
    && s1.owner[f] == (if f == d || Family(s.owner[f], d) then Free else s.owner[f])
    && (s1.owner[f] != Free ==> s1.mem[f] == s.mem[f])
  }

  /** Directory d is gone: its frame, its tables and its user frames are free. */
  ghost predicate TornStep(s: Ram, s1: Ram, d: nat) {
    SameFrames(s, s1) && forall f {:trigger TornAt(s, s1, d, f)} :: f in s.owner ==> TornAt(s, s1, d, f)
  }

  predicate TearingAt(s: Ram, s1: Ram, d: nat, i: nat, f: nat) {
    f in s.owner && f in s1.owner && f in s.mem && f in s1.mem
    && s1.owner[f] == (if f == d then Other
                       else if OfTables(s.owner[f], d) then (if s.owner[f].index < i then Free else Other)
                       else s.owner[f])
    && (s1.owner[f] != Free ==> s1.mem[f] == s.mem[f])
  }

  /** freevm's loop before directory entry i; s is the state before it. */
  ghost predicate Tearing(s: Ram, s1: Ram, d: nat, i: nat) {
    SameFrames(s, s1) && forall f {:trigger TearingAt(s, s1, d, i, f)} :: f in s.owner ==> TearingAt(s, s1, d, i, f)
  }

  lemma {:induction false} TearingStarts(s: Ram, d: nat)
    requires Accounted(s.mem, s.owner) && IsDir(s.owner, d)
    ensures Tearing(s, Ram(s.mem, Dismantled(s.owner, d)), d, 0)
  {
    var s1 := Ram(s.mem, Dismantled(s.owner, d));
    assert Dismantled(s.owner, d).Keys == s.owner.Keys;
    forall f | f in s.owner
      ensures TearingAt(s, s1, d, 0, f)
    {
    }
  }

  lemma {:induction false} TearingTable(s: Ram, s1: Ram, d: nat, i: nat, words: Page)
    requires Accounted(s.mem, s.owner) && IsDir(s.owner, d) && Tearing(s, s1, d, i) && i < ENTRIES
    ensures s1.mem[d] == s.mem[d]
    ensures Present(s.mem[d][i]) ==>
              var t := Frame(s.mem[d][i]);
              t in s1.owner && t != d && s1.owner[t] == Other
              && Tearing(s, Ram(s1.mem[t := words], s1.owner[t := Free]), d, i + 1)
    ensures !Present(s.mem[d][i]) ==> Tearing(s, s1, d, i + 1)
  {
    assert FrameOk(s.mem, s.owner, d) && EntryOk(s.mem, s.owner, d, i);
    assert TearingAt(s, s1, d, i, d);
    var next := i + 1;
    forall f | f in s.owner
      ensures OfTables(s.owner[f], d) && s.owner[f].index == i ==> Present(s.mem[d][i]) && f == Frame(s.mem[d][i])
    {
      assert FrameOk(s.mem, s.owner, f);
    }
    if Present(s.mem[d][i]) {
      var t := Frame(s.mem[d][i]);
      assert TearingAt(s, s1, d, i, t);
      forall f | f in s.owner
        ensures TearingAt(s, Ram(s1.mem[t := words], s1.owner[t := Free]), d, next, f)
      {
        assert TearingAt(s, s1, d, i, f);
      }
    } else {
      forall f | f in s.owner
        ensures TearingAt(s, s1, d, next, f)
      {
        assert TearingAt(s, s1, d, i, f);
      }
    }
  }

  /** All user pages unmapped, all tables freed, and the directory itself. */
  lemma {:induction false} Torn(s: Ram, s1: Ram, s2: Ram, d: nat, words: Page)
    requires Accounted(s.mem, s.owner) && IsDir(s.owner, d) && UnmapStep(s, s1, d, 0, USER_PAGES)
    requires Accounted(s1.mem, s1.owner) && Tearing(s1, s2, d, ENTRIES)
    ensures d in s2.owner && s2.owner[d] == Other
    ensures TornStep(s, Ram(s2.mem[d := words], s2.owner[d := Free]), d)
  {
    var s3 := Ram(s2.mem[d := words], s2.owner[d := Free]);
    assert TearingAt(s1, s2, d, ENTRIES, d);
    forall f | f in s.owner
      ensures TornAt(s, s3, d, f)
    {
      assert FrameOk(s.mem, s.owner, f) && FrameOk(s1.mem, s1.owner, f);
      assert ReleasedAt(s, s1, d, 0, USER_PAGES, f) && ContentKept(s, s1, d, f);
      assert TearingAt(s1, s2, d, ENTRIES, f);
    }
  }

  predicate BuiltAt(s: Ram, s1: Ram, d: nat, f: nat) {
    f in s.owner && f in s1.owner && f in s.mem && f in s1.mem
    && !Family(s.owner[f], d)
    && (f == d || s1.owner[f] == s.owner[f] || (s.owner[f] == Free && Family(s1.owner[f], d)))
    && (s.owner[f] != Free ==> s1.mem[f] == s.mem[f])
  }

  /** Directory d is new: it, its tables and its user frames were free; nothing in use changed. */
  ghost predicate BuiltStep(s: Ram, s1: Ram, d: nat) {
    && SameFrames(s, s1)
    && d in s.owner && s.owner[d] == Free && s1.owner[d] == Dir
    && forall f {:trigger BuiltAt(s, s1, d, f)} :: f in s.owner ==> BuiltAt(s, s1, d, f)
  }

  /** The directory frame taken, zeroed and put to use. */
  lemma {:induction false} DirectoryMade(s: Ram, d: nat)
    requires Accounted(s.mem, s.owner) && d in s.owner && s.owner[d] == Free
    ensures var s1 := Ram(s.mem[d := Filled(0)], s.owner[d := Dir]);
            BuiltStep(s, s1, d) && Accounted(s1.mem, s1.owner) && forall q: nat :: View(s1.mem, d, q) == 0
  {
    var s1 := Ram(s.mem[d := Filled(0)], s.owner[d := Dir]);
    KallocAccounted(s.mem, s.owner, d);
    OtherWritten(s.mem, s.owner[d := Other], d, Filled(0), Other);
    assert s.owner[d := Other][d := Other] == s.owner[d := Other];
    forall f | f in s.owner
      ensures BuiltAt(s, s1, d, f)
    {
      assert FrameOk(s.mem, s.owner, f);
    }
    var owner0 := s.owner[d := Other];
    forall g | g in s1.owner
      ensures FrameOk(s1.mem, s1.owner, g)
    {
      assert FrameOk(s1.mem, owner0, g);
      if s1.owner[g] == Dir && g != d {
        assert forall i :: 0 <= i < ENTRIES ==> EntryOk(s1.mem, owner0, g, i) ==> EntryOk(s1.mem, s1.owner, g, i);
        assert forall p :: 0 <= p < USER_PAGES ==> PageOk(s1.mem, owner0, g, p) ==> PageOk(s1.mem, s1.owner, g, p);
      }
    }
  }

  lemma {:induction false} BuiltOn(s: Ram, s1: Ram, s2: Ram, d: nat)
    requires BuiltStep(s, s1, d) && ContentsKept(s1, s2, d) && IsDir(s2.owner, d)
    requires forall f :: f in s1.owner ==> s2.owner[f] == s1.owner[f] || (s1.owner[f] == Free && Family(s2.owner[f], d))
    ensures BuiltStep(s, s2, d)
  {
    forall f | f in s.owner
      ensures BuiltAt(s, s2, d, f)
    {
      assert BuiltAt(s, s1, d, f) && ContentKept(s1, s2, d, f);
    }
  }

  predicate RestoredAt(s: Ram, s1: Ram, f: nat) {
    f in s.owner && f in s1.owner && f in s.mem && f in s1.mem
    && s1.owner[f] == s.owner[f] && (s.owner[f] != Free ==> s1.mem[f] == s.mem[f])
  }

  /** The same frames are free, and what was in use holds what it held. */
  ghost predicate Restored(s: Ram, s1: Ram) {
    SameFrames(s, s1) && forall f {:trigger RestoredAt(s, s1, f)} :: f in s.owner ==> RestoredAt(s, s1, f)
  }

  /** Frame conservation: building a directory, in whatever steps, and tearing it down
      gives back exactly the frames it took. */
  lemma {:induction false} BuiltAndTorn(s: Ram, s1: Ram, s2: Ram, d: nat)
    requires BuiltStep(s, s1, d) && TornStep(s1, s2, d)
    ensures Restored(s, s2)
  {
    forall f | f in s.owner
      ensures RestoredAt(s, s2, f)
    {
      assert BuiltAt(s, s1, d, f) && TornAt(s1, s2, d, f);
    }
  }

  /** Building a directory leaves every other directory's views alone. */
  lemma {:induction false} OthersSeeTheSame(s: Ram, s1: Ram, d: nat, e: nat)
    requires Accounted(s.mem, s.owner) && BuiltStep(s, s1, d) && IsDir(s.owner, e)
    ensures IsDir(s1.owner, e) && forall q: nat :: View(s1.mem, e, q) == View(s.mem, e, q)
  {
    assert BuiltAt(s, s1, d, e);
    forall t | t in s.owner && s.owner[t].Table? && s.owner[t].dir == e
      ensures s1.mem[t] == s.mem[t]
    {
      assert BuiltAt(s, s1, d, t);
    }
    ViewKept(s.mem, s1.mem, s.owner, e);
  }
}
