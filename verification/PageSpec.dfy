/** Physical memory as page frames of 32-bit words, read as page directories, page
    tables, user pages or links of the free list, and an account of what every frame
    is in use for.  Frames and virtual pages are counted in pages of 4096 bytes. */
module PageSpec {
  import opened Words
  import opened Finite

  const ENTRIES := 1024
  const PGSIZE := 4096
  /** Virtual pages in all, and those below KERNBASE. */
  const PAGES := 0x10_0000
  const USER_PAGES := 0x8_0000
  /** PHYSTOP. */
  const TOP_FRAME := 0xE000

  const PTE_P: Word := 1
  const PTE_W: Word := 2
  const PTE_U: Word := 4

  function Filled(w: Word): (s: seq<Word>)
    ensures |s| == ENTRIES && forall i :: 0 <= i < ENTRIES ==> s[i] == w
  {
    seq(ENTRIES, i => w)
  }

  type Page = s: seq<Word> | |s| == ENTRIES witness Filled(0)
  type Memory = map<nat, Page>

  // --- Entries --------------------------------------------------------------------

  predicate Present(w: Word) { w % 2 == 1 }
  function Frame(w: Word): (f: nat) { w / PGSIZE }
  function Flags(w: Word): (f: nat) { w % PGSIZE }
  predicate Writable(w: Word) { w / PTE_W % 2 == 1 }
  predicate ForUser(w: Word) { w / PTE_U % 2 == 1 }

  function Entry(f: nat, flags: nat): (w: Word)
    requires f < PAGES && flags < PGSIZE
    ensures Frame(w) == f && Flags(w) == flags && (Present(w) <==> flags % 2 == 1)
  {
    f * PGSIZE + flags
  }

  /** perm | PTE_P. */
  function WithP(perm: nat): (r: nat)
    requires perm < PGSIZE
    ensures r < PGSIZE && r % 2 == 1 && r / 2 == perm / 2
  {
    if perm % 2 == 1 then perm else perm + 1
  }

  /** PDX and PTX. */
  function Hi(p: nat): (i: nat)
    requires p < PAGES
    ensures i < ENTRIES
  {
    p / ENTRIES
  }

  function Lo(p: nat): (j: nat)
    ensures j < ENTRIES
  {
    p % ENTRIES
  }

  /** The entry that the two-level walk from directory d reaches for page p; 0 if
      there is no table. */
  function Pte(mem: Memory, d: nat, p: nat): Word {
    if d in mem && p < PAGES && Present(mem[d][Hi(p)]) && Frame(mem[d][Hi(p)]) in mem
    then mem[Frame(mem[d][Hi(p)])][Lo(p)] else 0
  }

  /** The flat view: what the hardware sees at page p, 0 where nothing is present. */
  function View(mem: Memory, d: nat, p: nat): Word {
    if Present(Pte(mem, d, p)) then Pte(mem, d, p) else 0
  }

  /** What the processor allows user code: both levels must. */
  predicate UserMayRead(mem: Memory, d: nat, p: nat) {
    && d in mem && p < PAGES && Present(mem[d][Hi(p)]) && ForUser(mem[d][Hi(p)])
    && Present(Pte(mem, d, p)) && ForUser(Pte(mem, d, p))
  }

  predicate UserMayWrite(mem: Memory, d: nat, p: nat) {
    UserMayRead(mem, d, p) && Writable(mem[d][Hi(p)]) && Writable(Pte(mem, d, p))
  }

  // --- What frames are used for --------------------------------------------------------

  datatype Use = Free | Other | Dir | Table(dir: nat, index: nat) | User(dir: nat, page: nat)
  type Owners = map<nat, Use>

  predicate EntryOk(mem: Memory, owner: Owners, d: nat, i: nat)
    requires d in mem && i < ENTRIES
  {
    Present(mem[d][i]) ==>
      var t := Frame(mem[d][i]);
      t in owner && owner[t] == Table(d, i) && Flags(mem[d][i]) == PTE_P + PTE_W + PTE_U
  }

  predicate PageOk(mem: Memory, owner: Owners, d: nat, p: nat) {
    Present(Pte(mem, d, p)) ==> var f := Frame(Pte(mem, d, p)); f in owner && owner[f] == User(d, p)
  }

  /** A directory points to tables of its own, and its user entries to frames of its own. */
  ghost predicate DirOk(mem: Memory, owner: Owners, d: nat)
    requires d in mem
  {
    && (forall i {:trigger EntryOk(mem, owner, d, i)} :: 0 <= i < ENTRIES ==> EntryOk(mem, owner, d, i))
    && (forall p {:trigger PageOk(mem, owner, d, p)} :: 0 <= p < USER_PAGES ==> PageOk(mem, owner, d, p))
  }

  predicate TableOk(mem: Memory, owner: Owners, t: nat, d: nat, i: nat) {
    d in owner && owner[d] == Dir && d in mem && i < ENTRIES && Present(mem[d][i]) && Frame(mem[d][i]) == t
  }

  predicate UserOk(mem: Memory, owner: Owners, f: nat, d: nat, p: nat) {
    d in owner && owner[d] == Dir && p < USER_PAGES && Present(Pte(mem, d, p)) && Frame(Pte(mem, d, p)) == f
  }

  ghost predicate FrameOk(mem: Memory, owner: Owners, f: nat)
    requires f in owner && f in mem
  {
    match owner[f]
    case Free => true
    case Other => true
    case Dir => DirOk(mem, owner, f)
    case Table(d, i) => TableOk(mem, owner, f, d, i)
    case User(d, p) => UserOk(mem, owner, f, d, p)
  }

  /** Every frame has one use, and the page tables and the account agree both ways:
      no frame is mapped twice, and none is lost. */
  ghost predicate Accounted(mem: Memory, owner: Owners) {
    && mem.Keys == owner.Keys
    && (forall f :: f in mem ==> 0 < f < TOP_FRAME)
    && (forall f {:trigger FrameOk(mem, owner, f)} :: f in owner ==> FrameOk(mem, owner, f))
  }

  /** The links of the free list, in the first word of each free frame. */
  ghost predicate FreeLinks(mem: Memory, free: seq<nat>, head: nat) {
    && head == (if free == [] then 0 else free[0])
    && (forall k {:trigger Link(mem, free, k)} :: 0 <= k < |free| ==> Link(mem, free, k))
  }

  predicate Link(mem: Memory, free: seq<nat>, k: nat)
    requires k < |free|
  {
    free[k] in mem && mem[free[k]][0] == (if k + 1 < |free| then free[k + 1] else 0)
  }

  /** Exactly the free frames, once each. */
  ghost predicate FreeOk(owner: Owners, free: seq<nat>) {
    Distinct(free) && forall f :: f in free <==> f in owner && owner[f] == Free
  }

  ghost predicate FreeList(mem: Memory, owner: Owners, free: seq<nat>, head: nat) {
    mem.Keys == owner.Keys && (forall f :: f in mem ==> 0 < f < TOP_FRAME) && FreeLinks(mem, free, head)
        && FreeOk(owner, free)
  }

  ghost predicate Inv(mem: Memory, owner: Owners, free: seq<nat>, head: nat) {
    Accounted(mem, owner) && FreeList(mem, owner, free, head)
  }

  // --- The free list --------------------------------------------------------------------

  lemma {:induction false} KallocKeeps(mem: Memory, owner: Owners, free: seq<nat>, head: nat)
    requires FreeList(mem, owner, free, head) && free != []
    ensures head == free[0] && head in owner && owner[head] == Free && head != 0
    ensures FreeList(mem, owner[head := Other], free[1..], mem[head][0])
  {
    assert Link(mem, free, 0) && free[0] in free;
    var rest := free[1..];
    forall k | 0 <= k < |rest|
      ensures Link(mem, rest, k)
    {
      assert Link(mem, free, k + 1);
    }
    var owner1 := owner[head := Other];
    forall f
      ensures f in rest <==> f in owner1 && owner1[f] == Free
    {
      if f in rest {
        assert f in free;
        var k :| 0 <= k < |rest| && rest[k] == f;
        assert free[k + 1] == f;
      }
      if f in free && f != head {
        var k :| 0 <= k < |free| && free[k] == f;
        assert rest[k - 1] == f;
      }
    }
  }

  /** What kfree leaves in the frame. */
  function Junk(head: nat): Page
    requires head < TOP_FRAME
  {
    Filled(0x0101_0101)[0 := head]
  }

  lemma {:induction false} KfreeKeeps(mem: Memory, owner: Owners, free: seq<nat>, head: nat, f: nat)
    requires FreeList(mem, owner, free, head) && f in owner && owner[f] != Free
    ensures head < TOP_FRAME
    ensures FreeList(mem[f := Junk(head)], owner[f := Free], [f] + free, f)
  {
    assert free != [] ==> free[0] in free && Link(mem, free, 0);
    var mem1, free1 := mem[f := Junk(head)], [f] + free;
    forall k | 0 <= k < |free1|
      ensures Link(mem1, free1, k)
    {
      if k > 0 {
        assert Link(mem, free, k - 1) && free[k - 1] in free;
      }
    }
    assert f !in free;
  }

  lemma {:induction false} KallocAccounted(mem: Memory, owner: Owners, f: nat)
    requires Accounted(mem, owner) && f in owner && owner[f] == Free
    ensures Accounted(mem, owner[f := Other])
  {
    var owner1 := owner[f := Other];
    forall g | g in owner1
      ensures FrameOk(mem, owner1, g)
    {
      assert FrameOk(mem, owner, g);
      if owner1[g] == Dir {
        assert forall i :: 0 <= i < ENTRIES ==> EntryOk(mem, owner, g, i) ==> EntryOk(mem, owner1, g, i);
        assert forall p :: 0 <= p < USER_PAGES ==> PageOk(mem, owner, g, p) ==> PageOk(mem, owner1, g, p);
      }
    }
  }

  // --- Changes to the page tables -----------------------------------------------------------

  ghost predicate IsDir(owner: Owners, d: nat) { d in owner && owner[d] == Dir }

  /** The frame of the table that holds page p's entry. */
  lemma {:induction false} TableOf(mem: Memory, owner: Owners, d: nat, p: nat)
    requires Accounted(mem, owner) && IsDir(owner, d) && p < PAGES && Present(mem[d][Hi(p)])
    ensures var t := Frame(mem[d][Hi(p)]);
            t in mem && t in owner && owner[t] == Table(d, Hi(p)) && t != d && Pte(mem, d, p) == mem[t][Lo(p)]
  {
    assert FrameOk(mem, owner, d) && EntryOk(mem, owner, d, Hi(p));
  }

  /** The entries of the directory restrict nothing: the flat view tells what user code may do. */
  lemma {:induction false} TablesPermit(mem: Memory, owner: Owners, d: nat, p: nat)
    requires Accounted(mem, owner) && IsDir(owner, d)
    ensures UserMayRead(mem, d, p) <==> ForUser(View(mem, d, p))
    ensures UserMayWrite(mem, d, p) <==> ForUser(View(mem, d, p)) && Writable(View(mem, d, p))
  {
    if p < PAGES && Present(mem[d][Hi(p)]) {
      TableOf(mem, owner, d, p);
      assert FrameOk(mem, owner, d) && EntryOk(mem, owner, d, Hi(p));
      FlagBits(mem[d][Hi(p)]);
    }
  }

  /** The three low bits of an entry. */
  lemma {:induction false} FlagBits(w: Word)
    ensures Flags(w) == PTE_P + PTE_W + PTE_U ==> Present(w) && Writable(w) && ForUser(w)
    ensures Flags(w) == PTE_P || Flags(w) == PTE_P + PTE_W ==> !ForUser(w)
    ensures Flags(w) == PTE_P + PTE_W ==> Writable(w)
    ensures Flags(w) == PTE_P ==> !Writable(w)
  {
  }

  lemma {:induction false} SameBits(v: Word, w: Word)
    requires Flags(v) == Flags(w)
    ensures ForUser(v) == ForUser(w) && Writable(v) == Writable(w)
  {
    BitsInFlags(v);
    BitsInFlags(w);
  }

  lemma {:induction false} BitsInFlags(w: Word)
    ensures ForUser(w) <==> Flags(w) / PTE_U % 2 == 1
    ensures Writable(w) <==> Flags(w) / PTE_W % 2 == 1
  {
    var q, r := w / PGSIZE, Flags(w);
    assert w == q * PGSIZE + r;
    assert w / PTE_U == q * 1024 + r / PTE_U;
    assert w / PTE_W == q * 2048 + r / PTE_W;
  }

  /** A write to frame f changes no page table entry of d if f is neither d nor a table of d. */
  lemma {:induction false} PteKept(mem: Memory, owner: Owners, f: nat, content: Page, d: nat, p: nat)
    requires Accounted(mem, owner) && IsDir(owner, d) && f in owner && f != d && !(owner[f].Table? && owner[f].dir == d)
    ensures Pte(mem[f := content], d, p) == Pte(mem, d, p)
  {
    if p < PAGES && Present(mem[d][Hi(p)]) {
      TableOf(mem, owner, d, p);
    }
  }

  /** Frames in other use may be written, and freed, at will. */
  lemma {:induction false} OtherWritten(mem: Memory, owner: Owners, f: nat, content: Page, use: Use)
    requires Accounted(mem, owner) && f in owner && owner[f] == Other && (use == Other || use == Free)
    ensures Accounted(mem[f := content], owner[f := use])
    ensures forall d, p: nat :: IsDir(owner, d) ==> Pte(mem[f := content], d, p) == Pte(mem, d, p)
  {
    var mem1, owner1 := mem[f := content], owner[f := use];
    forall d, p: nat | IsDir(owner, d)
      ensures Pte(mem1, d, p) == Pte(mem, d, p)
    {
      PteKept(mem, owner, f, content, d, p);
    }
    forall g | g in owner1
      ensures FrameOk(mem1, owner1, g)
    {
      assert FrameOk(mem, owner, g);
      if owner1[g] == Dir {
        assert forall i :: 0 <= i < ENTRIES ==> EntryOk(mem, owner, g, i) ==> EntryOk(mem1, owner1, g, i);
        assert forall p :: 0 <= p < USER_PAGES ==> PageOk(mem, owner, g, p) ==> PageOk(mem1, owner1, g, p);
      }
    }
  }

  /** walkpgdir puts a zeroed table into an absent directory entry: no view changes. */
  lemma {:induction false} TableAdded(mem: Memory, owner: Owners, d: nat, i: nat, t: nat)
    requires Accounted(mem, owner) && IsDir(owner, d) && i < ENTRIES && !Present(mem[d][i])
    requires t in owner && owner[t] == Other
    ensures var mem1 := mem[t := Filled(0)][d := mem[d][i := Entry(t, 7)]];
            && Accounted(mem1, owner[t := Table(d, i)])
            && forall e, p: nat :: IsDir(owner, e) ==> Pte(mem1, e, p) == Pte(mem, e, p)
  {
    var mem1 := mem[t := Filled(0)][d := mem[d][i := Entry(t, 7)]];
    var owner1 := owner[t := Table(d, i)];
    forall e, p: nat | IsDir(owner, e)
      ensures Pte(mem1, e, p) == Pte(mem, e, p)
    {
      if p < PAGES && Present(mem[e][Hi(p)]) {
        TableOf(mem, owner, e, p);
      }
    }
    forall g | g in owner1
      ensures FrameOk(mem1, owner1, g)
    {
      assert FrameOk(mem, owner, g);
      if owner1[g] == Dir {
        assert forall j :: 0 <= j < ENTRIES ==> EntryOk(mem, owner, g, j) ==> EntryOk(mem1, owner1, g, j);
        assert forall p :: 0 <= p < USER_PAGES ==> PageOk(mem, owner, g, p) ==> PageOk(mem1, owner1, g, p);
      }
    }
  }

  /** A fresh page of user memory: zeroed, and user code may read and write it. */
  predicate NewPage(mem: Memory, d: nat, p: nat) {
    var w := View(mem, d, p);
    && UserMayWrite(mem, d, p) && Flags(w) == PTE_P + PTE_W + PTE_U
    && Frame(w) in mem && forall i :: 0 <= i < ENTRIES ==> mem[Frame(w)][i] == 0
  }

  /** The write of page p's entry. */
  function Written(mem: Memory, d: nat, p: nat, w: Word): Memory
    requires d in mem && p < PAGES && Frame(mem[d][Hi(p)]) in mem
  {
    var t := Frame(mem[d][Hi(p)]);
    mem[t := mem[t][Lo(p) := w]]
  }

  lemma {:induction false} WrittenPte(mem: Memory, owner: Owners, d: nat, p: nat, w: Word)
    requires Accounted(mem, owner) && IsDir(owner, d) && p < PAGES && Present(mem[d][Hi(p)])
    ensures Frame(mem[d][Hi(p)]) in mem
    ensures forall e, q: nat :: IsDir(owner, e) ==>
              Pte(Written(mem, d, p, w), e, q) == if e == d && q == p then w else Pte(mem, e, q)
  {
    TableOf(mem, owner, d, p);
    forall e, q: nat | IsDir(owner, e)
      ensures Pte(Written(mem, d, p, w), e, q) == if e == d && q == p then w else Pte(mem, e, q)
    {
      if q < PAGES && Present(mem[e][Hi(q)]) {
        TableOf(mem, owner, e, q);
        if e == d && q != p {
          assert Hi(q) != Hi(p) || Lo(q) != Lo(p);
        }
      }
    }
  }

  /** A change of one entry together with the account of the frames it concerns. */
  lemma {:induction false} EntryWritten(mem: Memory, owner: Owners, d: nat, p: nat, w: Word, owner1: Owners)
    requires Accounted(mem, owner) && IsDir(owner, d) && p < PAGES && Present(mem[d][Hi(p)])
    requires owner1.Keys == owner.Keys
    requires forall f :: f in owner && owner1[f] != owner[f] ==>
               (owner1[f] == User(d, p) || owner1[f] == Other) && (owner[f] == User(d, p) || owner[f] == Other)
    requires forall f :: f in owner && owner1[f] == User(d, p) ==> Present(w) && Frame(w) == f && p < USER_PAGES
    requires p < USER_PAGES && Present(w) ==> Frame(w) in owner1 && owner1[Frame(w)] == User(d, p)
    ensures Frame(mem[d][Hi(p)]) in mem
    ensures Accounted(Written(mem, d, p, w), owner1)
  {
    WrittenPte(mem, owner, d, p, w);
    TableOf(mem, owner, d, p);
    var mem1 := Written(mem, d, p, w);
    forall g | g in owner1
      ensures FrameOk(mem1, owner1, g)
    {
      assert FrameOk(mem, owner, g);
      if owner1[g] == Dir {
        assert forall j :: 0 <= j < ENTRIES ==> EntryOk(mem, owner, g, j) ==> EntryOk(mem1, owner1, g, j);
        assert forall q :: 0 <= q < USER_PAGES ==> PageOk(mem, owner, g, q) ==> PageOk(mem1, owner1, g, q);
      }
    }
  }

  // --- Taking a directory down ---------------------------------------------------------------

  /** Directory d and its tables given up. */
  function Dismantled(owner: Owners, d: nat): Owners {
    map f | f in owner :: if f == d || (owner[f].Table? && owner[f].dir == d) then Other else owner[f]
  }

  lemma {:induction false} DismantledAccounted(mem: Memory, owner: Owners, d: nat)
    requires Accounted(mem, owner) && IsDir(owner, d)
    requires forall f :: f in owner && owner[f].User? ==> owner[f].dir != d
    ensures Accounted(mem, Dismantled(owner, d))
  {
    var owner1 := Dismantled(owner, d);
    forall g | g in owner1
      ensures FrameOk(mem, owner1, g)
    {
      assert FrameOk(mem, owner, g);
      if owner1[g] == Dir {
        assert forall j :: 0 <= j < ENTRIES ==> EntryOk(mem, owner, g, j) ==> EntryOk(mem, owner1, g, j);
        assert forall q :: 0 <= q < USER_PAGES ==> PageOk(mem, owner, g, q) ==> PageOk(mem, owner1, g, q);
      }
    }
  }

  // --- Consequences -------------------------------------------------------------------------

  /** No frame is mapped at two user pages, of one process or of two; and a mapped
      frame is never on the free list. */
  lemma {:induction false} NoSharing(mem: Memory, owner: Owners, free: seq<nat>, head: nat, d: nat, p: nat, e: nat,
                                     q: nat)
    requires Inv(mem, owner, free, head) && IsDir(owner, d) && IsDir(owner, e) && p < USER_PAGES && q < USER_PAGES
    requires View(mem, d, p) != 0 && View(mem, e, q) != 0
    ensures Frame(View(mem, d, p)) == Frame(View(mem, e, q)) ==> d == e && p == q
    ensures Frame(View(mem, d, p)) !in free
  {
    assert FrameOk(mem, owner, d) && PageOk(mem, owner, d, p);
    assert FrameOk(mem, owner, e) && PageOk(mem, owner, e, q);
  }

  /** A frame charged to a user page really is mapped there, so freeing the page gets it back. */
  lemma {:induction false} NothingLost(mem: Memory, owner: Owners, f: nat)
    requires Accounted(mem, owner) && f in owner && owner[f].User?
    ensures var u := owner[f]; IsDir(owner, u.dir) && u.page < USER_PAGES && Frame(View(mem, u.dir, u.page)) == f
  {
    assert FrameOk(mem, owner, f);
  }

  /** Where there is no table, no page of its 4 megabytes is present. */
  lemma {:induction false} NoTableNoPage(mem: Memory, d: nat, p: nat, q: nat)
    requires d in mem && p < PAGES && q < PAGES && !Present(mem[d][Hi(p)]) && Hi(q) == Hi(p)
    ensures View(mem, d, q) == 0
  {
  }

  /** A directory's entries depend only on the directory and its own tables. */
  lemma {:induction false} ViewKept(mem: Memory, mem1: Memory, owner: Owners, d: nat)
    requires Accounted(mem, owner) && IsDir(owner, d) && mem1.Keys == mem.Keys && mem1[d] == mem[d]
    requires forall t :: t in owner && owner[t].Table? && owner[t].dir == d ==> mem1[t] == mem[t]
    ensures forall p: nat :: Pte(mem1, d, p) == Pte(mem, d, p)
  {
    forall p: nat
      ensures Pte(mem1, d, p) == Pte(mem, d, p)
    {
      if p < PAGES && Present(mem[d][Hi(p)]) {
        TableOf(mem, owner, d, p);
      }
    }
  }

  /** The free list survives writes to frames that are not free. */
  lemma {:induction false} FreeListKept(mem: Memory, owner: Owners, free: seq<nat>, head: nat, f: nat, content: Page)
    requires FreeList(mem, owner, free, head) && f in owner && owner[f] != Free
    ensures FreeList(mem[f := content], owner, free, head)
  {
    var mem1 := mem[f := content];
    forall k | 0 <= k < |free|
      ensures Link(mem1, free, k)
    {
      assert Link(mem, free, k) && free[k] in free;
    }
  }

  lemma {:induction false} FreeListSame(mem: Memory, owner: Owners, owner1: Owners, free: seq<nat>, head: nat)
    requires FreeList(mem, owner, free, head) && owner1.Keys == owner.Keys
    requires forall f :: f in owner ==> (owner1[f] == Free <==> owner[f] == Free)
    ensures FreeList(mem, owner1, free, head)
  {
  }
}
