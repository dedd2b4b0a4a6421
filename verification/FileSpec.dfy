/** Files as byte sequences: what mapping a block, writing bytes and truncating do to
    the contents of this file and of all others, and how many blocks a write logs. */
module FileSpec {
  import opened Words
  import opened FsSpec

  /** Blocks that n bytes take. */
  function Blocks(n: nat): (b: nat)
    ensures b * BSIZE >= n && (n > 0 ==> (b - 1) * BSIZE < n) && (n == 0 ==> b == 0)
  {
    (n + BSIZE - 1) / BSIZE
  }

  /** Inodes per block. */
  const IPB := 8

  function Max(a: nat, b: nat): nat { if a > b then a else b }

  function Min(a: nat, b: nat): nat { if a < b then a else b }

  /** The disk is full. */
  ghost predicate NoneFree(s: Fs) {
    forall b :: b in s.owner ==> s.owner[b] != Free
  }

  /** Between operations every map covers exactly the file's size. */
  ghost predicate AtRest(s: Fs) {
    forall ino {:trigger s.ext[ino]} :: ino in s.inodes && ino in s.ext ==> s.ext[ino] == Blocks(s.inodes[ino].size)
  }

  /** The file: its first size bytes. */
  function File(s: Fs, ino: nat): (f: seq<Byte>)
    requires ino in s.inodes
    ensures |f| == s.inodes[ino].size && forall k :: 0 <= k < |f| ==> f[k] == ByteAt(s, ino, k)
  {
    seq(s.inodes[ino].size, k requires 0 <= k => ByteAt(s, ino, k))
  }

  /** The file with src put in from off on. */
  function Spliced(f: seq<Byte>, off: nat, src: seq<Byte>): seq<Byte>
    requires off <= |f|
  {
    f[..off] + src + if off + |src| < |f| then f[off + |src|..] else []
  }

  // --- Mapping a block -------------------------------------------------------------------

  predicate OwnerStep(s: Fs, s1: Fs, ino: nat, b: nat) {
    b in s.owner && b in s1.owner
    && (s1.owner[b] == s.owner[b]
        || (s.owner[b] == Free && (s1.owner[b] == Indirect(ino) || (s1.owner[b].Data? && s1.owner[b].ino == ino))))
  }

  predicate DataKept(s: Fs, s1: Fs, b: nat) {
    b in s.owner && (s.owner[b].Data? ==> b in s.disk && b in s1.disk && s1.disk[b] == s.disk[b])
  }

  /** Blocks are given out to ino only, from the free ones; no data block is written. */
  ghost predicate Given(s: Fs, s1: Fs, ino: nat) {
    && s1.owner.Keys == s.owner.Keys
    && (forall b {:trigger OwnerStep(s, s1, ino, b)} :: b in s.owner ==> OwnerStep(s, s1, ino, b))
    && (forall b {:trigger DataKept(s, s1, b)} :: b in s.owner ==> DataKept(s, s1, b))
  }

  /** Other files, and all sizes, are untouched. */
  ghost predicate OthersKept(s: Fs, s1: Fs, ino: nat) {
    && s1.inodes.Keys == s.inodes.Keys && s1.ext.Keys == s.ext.Keys
    && (forall e {:trigger s1.inodes[e]} :: e in s.inodes ==> s1.inodes[e].size == s.inodes[e].size)
    && (forall e {:trigger s1.ext[e]} :: e in s.ext && e != ino ==> s1.ext[e] == s.ext[e])
    && (forall e: nat, bn: nat {:trigger Addr(s1, e, bn)} :: e != ino ==> Addr(s1, e, bn) == Addr(s, e, bn))
  }

  /** Block bn of ino is mapped, to a zeroed block if it was not before. */
  ghost predicate Mapped(s: Fs, s1: Fs, ino: nat, bn: nat) {
    && Given(s, s1, ino) && OthersKept(s, s1, ino)
    && ino in s.ext && ino in s1.ext && s1.ext[ino] == Max(s.ext[ino], bn + 1)
    && (forall j: nat {:trigger Addr(s1, ino, j)} :: j < s.ext[ino] ==> Addr(s1, ino, j) == Addr(s, ino, j))
    && (bn >= s.ext[ino] ==> Addr(s1, ino, bn) in s1.disk && s1.disk[Addr(s1, ino, bn)] == Zeros())
  }

  lemma {:induction false} OwnersJoin(s: Fs, s1: Fs, s2: Fs, ino: nat)
    requires s1.owner.Keys == s.owner.Keys && s2.owner.Keys == s.owner.Keys
    requires forall b {:trigger OwnerStep(s, s1, ino, b)} :: b in s.owner ==> OwnerStep(s, s1, ino, b)
    requires forall b {:trigger OwnerStep(s1, s2, ino, b)} :: b in s1.owner ==> OwnerStep(s1, s2, ino, b)
    ensures forall b {:trigger OwnerStep(s, s2, ino, b)} :: b in s.owner ==> OwnerStep(s, s2, ino, b)
  {
    forall b | b in s.owner
      ensures OwnerStep(s, s2, ino, b)
    {
      assert OwnerStep(s, s1, ino, b) && OwnerStep(s1, s2, ino, b);
    }
  }

  lemma {:induction false} DataJoin(s: Fs, s1: Fs, s2: Fs, ino: nat)
    requires s1.owner.Keys == s.owner.Keys && Given(s, s1, ino)
    requires forall b {:trigger DataKept(s1, s2, b)} :: b in s1.owner ==> DataKept(s1, s2, b)
    ensures forall b {:trigger DataKept(s, s2, b)} :: b in s.owner ==> DataKept(s, s2, b)
  {
    forall b | b in s.owner
      ensures DataKept(s, s2, b)
    {
      assert DataKept(s, s1, b) && OwnerStep(s, s1, ino, b) && DataKept(s1, s2, b);
    }
  }

  /** The indirect block is there: nothing else has changed. */
  ghost predicate Prepared(s: Fs, s1: Fs, ino: nat) {
    && Given(s, s1, ino) && OthersKept(s, s1, ino) && s1.ext == s.ext
    && forall j: nat {:trigger Addr(s1, ino, j)} :: Addr(s1, ino, j) == Addr(s, ino, j)
  }

  lemma {:induction false} AlreadyPrepared(s: Fs, ino: nat)
    requires s.disk.Keys == s.owner.Keys
    ensures Prepared(s, s, ino)
  {
  }

  lemma {:induction false} DirectMapped(s: Fs, sb: Super, ino: nat, b: Word)
    requires Accounted(s, sb) && ino in s.inodes && s.ext[ino] < NDIRECT && b < sb.size && s.owner[b] == Free
    ensures BitmapBlock(sb, b) in s.disk && |s.inodes[ino].addrs| == NDIRECT + 1
    ensures var s2 := WithDirect(Taken(s, sb, b), ino, b);
            Accounted(s2, sb) && Mapped(s, s2, ino, s.ext[ino]) && Addr(s2, ino, s.ext[ino]) == b
  {
    TakenKeeps(s, sb, b);
    var s1 := Taken(s, sb, b);
    WithDirectKeeps(s1, sb, ino, b);
    var s2 := WithDirect(s1, ino, b);
    BitmapInRange(s, sb, b);
    forall c | c in s.owner
      ensures OwnerStep(s, s2, ino, c) && DataKept(s, s2, c)
    {
    }
  }

  lemma {:induction false} IndirectMade(s: Fs, sb: Super, ino: nat, b: Word)
    requires Accounted(s, sb) && ino in s.inodes && s.ext[ino] >= NDIRECT && b < sb.size && s.owner[b] == Free
    requires |s.inodes[ino].addrs| == NDIRECT + 1 && s.inodes[ino].addrs[NDIRECT] == 0
    ensures BitmapBlock(sb, b) in s.disk
    ensures var s2 := WithIndirect(Taken(s, sb, b), ino, b);
            Accounted(s2, sb) && Prepared(s, s2, ino)
  {
    TakenKeeps(s, sb, b);
    var s1 := Taken(s, sb, b);
    WithIndirectKeeps(s1, sb, ino, b);
    var s2 := WithIndirect(s1, ino, b);
    BitmapInRange(s, sb, b);
    forall c | c in s.owner
      ensures OwnerStep(s, s2, ino, c) && DataKept(s, s2, c)
    {
    }
  }

  lemma {:induction false} EntryMapped(s: Fs, s1: Fs, sb: Super, ino: nat, b: Word)
    requires Prepared(s, s1, ino) && Accounted(s1, sb) && ino in s1.inodes && NDIRECT <= s1.ext[ino] < MAXFILE
    requires b < sb.size && s1.owner[b] == Free
    requires |s1.inodes[ino].addrs| == NDIRECT + 1 && s1.inodes[ino].addrs[NDIRECT] != 0
    ensures BitmapBlock(sb, b) in s1.disk && s1.inodes[ino].addrs[NDIRECT] in s1.disk
    ensures Taken(s1, sb, b).inodes[ino].addrs[NDIRECT] in Taken(s1, sb, b).disk
    ensures var s3 := WithEntry(Taken(s1, sb, b), ino, b);
            Accounted(s3, sb) && Mapped(s, s3, ino, s.ext[ino]) && Addr(s3, ino, s.ext[ino]) == b
  {
    hide BlockOk;
    TakenKeeps(s1, sb, b);
    var s2 := Taken(s1, sb, b);
    WithEntryKeeps(s2, sb, ino, b);
    var s3 := WithEntry(s2, ino, b);
    BitmapInRange(s1, sb, b);
    assert FileOk(s1, ino);
    forall c | c in s1.owner
      ensures OwnerStep(s1, s3, ino, c) && DataKept(s1, s3, c)
    {
    }
    OwnersJoin(s, s1, s3, ino);
    DataJoin(s, s1, s3, ino);
  }

  // --- Bytes ------------------------------------------------------------------------------

  function SpliceBlock(b: Block, at: nat, bytes: seq<Byte>): (r: Block)
    requires at + |bytes| <= BSIZE
    ensures forall j :: 0 <= j < BSIZE ==> r[j] == if at <= j < at + |bytes| then bytes[j - at] else b[j]
  {
    b[..at] + bytes + b[at + |bytes|..]
  }

  /** writei's loop after tot bytes of src. */
  ghost predicate Writing(s: Fs, s1: Fs, sb: Super, ino: nat, off: nat, src: seq<Byte>, tot: nat) {
    && Accounted(s1, sb) && ino in s.inodes && ino in s.ext && ino in s1.ext && tot <= |src|
    && OthersKept(s, s1, ino)
    && s1.ext[ino] == (if tot == 0 then s.ext[ino] else Max(s.ext[ino], Blocks(off + tot)))
    && s1.owner.Keys == s.owner.Keys
    && (forall b {:trigger OwnerStep(s, s1, ino, b)} :: b in s.owner ==> OwnerStep(s, s1, ino, b))
    && (forall e: nat, k: nat {:trigger ByteAt(s1, e, k)} :: e != ino && e in s.ext && k < s.ext[e] * BSIZE ==>
          ByteAt(s1, e, k) == ByteAt(s, e, k))
    && (forall k: nat {:trigger ByteAt(s1, ino, k)} :: k < s.ext[ino] * BSIZE || off <= k < off + tot ==>
          ByteAt(s1, ino, k) == if off <= k < off + tot then src[k - off] else ByteAt(s, ino, k))
  }

  lemma {:induction false} BytesMapped(s: Fs, s1: Fs, sb: Super, ino: nat, bn: nat, e: nat, k: nat)
    requires Accounted(s, sb) && Accounted(s1, sb) && Mapped(s, s1, ino, bn) && e in s.ext && k / BSIZE < s.ext[e]
    ensures ByteAt(s1, e, k) == ByteAt(s, e, k)
  {
    var a := Addr(s, e, k / BSIZE);
    assert FileOk(s, e) && MapOk(s, e, k / BSIZE);
    assert DataKept(s, s1, a);
    assert Addr(s1, e, k / BSIZE) == a;
  }

  lemma {:induction false} ByteWritten(s: Fs, sb: Super, ino: nat, bn: nat, content: Block, e: nat, k: nat)
    requires Accounted(s, sb) && ino in s.inodes && bn < s.ext[ino]
    ensures var a := Addr(s, ino, bn);
            a in s.owner && s.owner[a] == Data(ino, bn)
            && ByteAt(s.(disk := s.disk[a := content]), e, k)
               == if e == ino && k / BSIZE == bn then content[k % BSIZE] else ByteAt(s, e, k)
  {
    var a := Addr(s, ino, bn);
    assert FileOk(s, ino) && MapOk(s, ino, bn);
    DataWritten(s, sb, a, content);
    if e in s.inodes && Addr(s, e, k / BSIZE) == a {
      assert FileOk(s, e) && MapOk(s, e, k / BSIZE);
    }
  }

  /** How far one iteration of the loop of writei or readi gets. */
  function Chunk(n: nat, off: nat, tot: nat): (m: nat)
    requires tot < n
    ensures 0 < m <= n - tot && (off + tot) % BSIZE + m <= BSIZE
    ensures (off + tot + m) == (off + tot) / BSIZE * BSIZE + (off + tot) % BSIZE + m
    ensures Blocks(off + tot + m) == (off + tot) / BSIZE + 1
  {
    var room := BSIZE - (off + tot) % BSIZE;
    if n - tot < room then n - tot else room
  }

  /** The position of byte k within its block. */
  lemma {:induction false} Position(k: nat, bn: nat)
    ensures bn * BSIZE <= k < (bn + 1) * BSIZE <==> k / BSIZE == bn
    ensures k / BSIZE == bn ==> k % BSIZE == k - bn * BSIZE
  {
  }

  function StepBlock(s: Fs, ino: nat, off: nat, src: seq<Byte>, tot: nat): Fs
    requires tot < |src| && Addr(s, ino, (off + tot) / BSIZE) in s.disk
  {
    var a, m := Addr(s, ino, (off + tot) / BSIZE), Chunk(|src|, off, tot);
    s.(disk := s.disk[a := SpliceBlock(s.disk[a], (off + tot) % BSIZE, src[tot..tot + m])])
  }

  lemma {:induction false} BlockToMap(s: Fs, s1: Fs, sb: Super, ino: nat, off: nat, src: seq<Byte>, tot: nat)
    requires Writing(s, s1, sb, ino, off, src, tot) && tot < |src| && off <= s.ext[ino] * BSIZE
             && off + |src| <= MAXFILE * BSIZE
    ensures (off + tot) / BSIZE <= s1.ext[ino] && (off + tot) / BSIZE < MAXFILE
    ensures Accounted(s1, sb) && ino in s1.inodes
  {
    if tot > 0 {
      assert Blocks(off + tot) * BSIZE >= off + tot;
    }
  }

  /** The byte at k after one iteration. */
  lemma {:induction false} ByteAfterStep(s: Fs, s1: Fs, sb: Super, ino: nat, off: nat, src: seq<Byte>, tot: nat,
                                         e: nat, k: nat)
    requires Accounted(s, sb) && Accounted(s1, sb) && tot < |src| && ino in s.inodes && ino in s1.inodes && e in s.ext
    requires Mapped(s, s1, ino, (off + tot) / BSIZE)
    ensures Addr(s1, ino, (off + tot) / BSIZE) in s1.disk
    ensures var m := Chunk(|src|, off, tot);
            var s2 := StepBlock(s1, ino, off, src, tot);
            && (e != ino && k / BSIZE < s.ext[e] ==> ByteAt(s2, e, k) == ByteAt(s, e, k))
            && (e == ino && off + tot <= k < off + tot + m ==> ByteAt(s2, e, k) == src[k - off])
            && (e == ino && !(off + tot <= k < off + tot + m) && k / BSIZE < s.ext[ino] ==>
                  ByteAt(s2, e, k) == ByteAt(s, e, k))
  {
    hide BlockOk, SuperOk;
    var bn, m := (off + tot) / BSIZE, Chunk(|src|, off, tot);
    assert FileOk(s1, ino) && MapOk(s1, ino, bn);
    var a := Addr(s1, ino, bn);
    var content := SpliceBlock(s1.disk[a], (off + tot) % BSIZE, src[tot..tot + m]);
    assert StepBlock(s1, ino, off, src, tot) == s1.(disk := s1.disk[a := content]);
    hide StepBlock, SpliceBlock, Mapped, FileOk, MapOk;
    ByteWritten(s1, sb, ino, bn, content, e, k);
    if k / BSIZE < s.ext[e] {
      BytesMapped(s, s1, sb, ino, bn, e, k);
    }
    Position(k, bn);
    Position(off + tot, bn);
  }

  lemma {:induction false} WritingEnds(s: Fs, s1: Fs, sb: Super, ino: nat, off: nat, src: seq<Byte>)
    requires Writing(s, s1, sb, ino, off, src, |src|) && src != []
    ensures ino in s1.inodes && s1.inodes[ino].size == s.inodes[ino].size
    ensures s1.ext[ino] == Max(s.ext[ino], Blocks(off + |src|))
  {
  }

  lemma {:induction false} WriteStep(s: Fs, s1: Fs, s2: Fs, sb: Super, ino: nat, off: nat, src: seq<Byte>, tot: nat)
    requires Accounted(s, sb) && Writing(s, s1, sb, ino, off, src, tot) && tot < |src|
    requires Accounted(s2, sb) && Mapped(s1, s2, ino, (off + tot) / BSIZE)
    ensures Addr(s2, ino, (off + tot) / BSIZE) in s2.disk
    ensures Writing(s, StepBlock(s2, ino, off, src, tot), sb, ino, off, src, tot + Chunk(|src|, off, tot))
  {
    hide BlockOk;
    var bn := (off + tot) / BSIZE;
    assert FileOk(s2, ino) && MapOk(s2, ino, bn);
    var s3 := StepBlock(s2, ino, off, src, tot);
    DataWritten(s2, sb, Addr(s2, ino, bn), s3.disk[Addr(s2, ino, bn)]);
    WriteStepFrame(s, s1, s2, sb, ino, off, src, tot);
    WriteStepBytes(s, s1, s2, sb, ino, off, src, tot);
  }

  lemma {:induction false} WriteStepFrame(s: Fs, s1: Fs, s2: Fs, sb: Super, ino: nat, off: nat, src: seq<Byte>,
                                          tot: nat)
    requires Writing(s, s1, sb, ino, off, src, tot) && tot < |src| && Mapped(s1, s2, ino, (off + tot) / BSIZE)
    requires Addr(s2, ino, (off + tot) / BSIZE) in s2.disk
    requires var s3 := StepBlock(s2, ino, off, src, tot);
             forall e: nat, j: nat :: Addr(s3, e, j) == Addr(s2, e, j)
    ensures var s3 := StepBlock(s2, ino, off, src, tot);
            && OthersKept(s, s3, ino)
            && (forall b {:trigger OwnerStep(s, s3, ino, b)} :: b in s.owner ==> OwnerStep(s, s3, ino, b))
  {
    hide Accounted;
    var s3 := StepBlock(s2, ino, off, src, tot);
    OwnersJoin(s, s1, s2, ino);
    forall b | b in s.owner
      ensures OwnerStep(s, s3, ino, b)
    {
      assert OwnerStep(s, s2, ino, b);
    }
    forall e: nat, j: nat | e != ino
      ensures Addr(s3, e, j) == Addr(s, e, j)
    {
      assert Addr(s2, e, j) == Addr(s1, e, j);
    }
  }

  lemma {:induction false} WriteStepBytes(s: Fs, s1: Fs, s2: Fs, sb: Super, ino: nat, off: nat, src: seq<Byte>,
                                          tot: nat)
    requires Accounted(s, sb) && Writing(s, s1, sb, ino, off, src, tot) && tot < |src|
    requires Accounted(s2, sb) && Mapped(s1, s2, ino, (off + tot) / BSIZE) && ino in s2.inodes
    requires Addr(s2, ino, (off + tot) / BSIZE) in s2.disk
    ensures var s3, done := StepBlock(s2, ino, off, src, tot), tot + Chunk(|src|, off, tot);
            && (forall e: nat, k: nat {:trigger ByteAt(s3, e, k)} :: e != ino && e in s.ext && k < s.ext[e] * BSIZE ==>
                  ByteAt(s3, e, k) == ByteAt(s, e, k))
            && (forall k: nat {:trigger ByteAt(s3, ino, k)} :: k < s.ext[ino] * BSIZE || off <= k < off + done ==>
                  ByteAt(s3, ino, k) == if off <= k < off + done then src[k - off] else ByteAt(s, ino, k))
  {
    hide Accounted, Mapped, StepBlock;
    var s3, done := StepBlock(s2, ino, off, src, tot), tot + Chunk(|src|, off, tot);
    forall e: nat, k: nat | e != ino && e in s.ext && k < s.ext[e] * BSIZE
      ensures ByteAt(s3, e, k) == ByteAt(s, e, k)
    {
      ByteAfterStep(s1, s2, sb, ino, off, src, tot, e, k);
    }
    forall k: nat | k < s.ext[ino] * BSIZE || off <= k < off + done
      ensures ByteAt(s3, ino, k) == if off <= k < off + done then src[k - off] else ByteAt(s, ino, k)
    {
      ByteAfterStep(s1, s2, sb, ino, off, src, tot, ino, k);
      WithinMap(s.ext[ino], s1.ext[ino], off, tot, k);
    }
  }

  lemma {:induction false} WithinMap(ext: nat, ext1: nat, off: nat, tot: nat, k: nat)
    requires ext1 == (if tot == 0 then ext else Max(ext, Blocks(off + tot)))
    ensures k < ext * BSIZE || off <= k < off + tot ==> k / BSIZE < ext1
  {
  }

  /** writei's last step: the size grows if the write went past it. */
  function Resized(s: Fs, ino: nat, size: nat): Fs
    requires ino in s.inodes
  {
    s.(inodes := s.inodes[ino := s.inodes[ino].(size := Max(s.inodes[ino].size, size))])
  }

  lemma {:induction false} ResizedAddr(s: Fs, ino: nat, size: nat)
    requires ino in s.inodes
    ensures forall e: nat, bn: nat :: Addr(Resized(s, ino, size), e, bn) == Addr(s, e, bn)
    ensures forall e: nat, k: nat :: ByteAt(Resized(s, ino, size), e, k) == ByteAt(s, e, k)
  {
    var s1 := Resized(s, ino, size);
    forall e: nat, bn: nat
      ensures Addr(s1, e, bn) == Addr(s, e, bn)
    {
    }
  }

  lemma {:induction false} ResizedKeeps(s: Fs, sb: Super, ino: nat, size: nat)
    requires Accounted(s, sb) && ino in s.inodes
    ensures Accounted(Resized(s, ino, size), sb)
  {
    var s1 := Resized(s, ino, size);
    ResizedAddr(s, ino, size);
    forall c | 0 <= c < sb.size
      ensures BlockOk(s1, sb, c)
    {
      assert BlockOk(s, sb, c);
    }
    forall e | e in s1.inodes
      ensures FileOk(s1, e)
    {
      assert FileOk(s, e);
      forall bn | 0 <= bn < MAXFILE
        ensures MapOk(s1, e, bn)
      {
        assert MapOk(s, e, bn);
      }
    }
  }

  /** The whole write: exactly the bytes from off on are replaced, and the file extended
      if need be; every other file is what it was. */
  ghost predicate Written(s: Fs, s1: Fs, ino: nat, off: nat, src: seq<Byte>) {
    && ino in s.inodes && s1.inodes.Keys == s.inodes.Keys && off <= s.inodes[ino].size
    && File(s1, ino) == Spliced(File(s, ino), off, src)
    && forall e {:trigger File(s1, e)} :: e in s.inodes && e != ino ==> File(s1, e) == File(s, e)
  }

  /** Writing a and then b right behind it is writing both. */
  lemma {:induction false} SplicedTwice(f: seq<Byte>, off: nat, a: seq<Byte>, b: seq<Byte>)
    requires off <= |f|
    ensures off + |a| <= |Spliced(f, off, a)|
    ensures Spliced(Spliced(f, off, a), off + |a|, b) == Spliced(f, off, a + b)
  {
    var f1 := Spliced(f, off, a);
    var f2, g := Spliced(f1, off + |a|, b), Spliced(f, off, a + b);
    assert |f2| == |g|;
    forall k | 0 <= k < |g|
      ensures f2[k] == g[k]
    {
    }
  }

  lemma {:induction false} WrittenTwice(s: Fs, s1: Fs, s2: Fs, ino: nat, off: nat, a: seq<Byte>, b: seq<Byte>)
    requires Written(s, s1, ino, off, a) && Written(s1, s2, ino, off + |a|, b)
    ensures Written(s, s2, ino, off, a + b)
  {
    SplicedTwice(File(s, ino), off, a, b);
  }

  lemma {:induction false} BytesInMap(size: nat, k: nat)
    requires k < size
    ensures k < Blocks(size) * BSIZE
  {
  }

  lemma {:induction false} OwnFile(s: Fs, s1: Fs, sb: Super, ino: nat, off: nat, src: seq<Byte>)
    requires ino in s.inodes && ino in s.ext && s.ext[ino] == Blocks(s.inodes[ino].size)
    requires Writing(s, s1, sb, ino, off, src, |src|) && off <= s.inodes[ino].size && src != []
    ensures File(Resized(s1, ino, off + |src|), ino) == Spliced(File(s, ino), off, src)
  {
    var s2 := Resized(s1, ino, off + |src|);
    ResizedAddr(s1, ino, off + |src|);
    assert s1.inodes[ino].size == s.inodes[ino].size;
    var f, f2 := Spliced(File(s, ino), off, src), File(s2, ino);
    assert |f| == |f2|;
    forall k | 0 <= k < |f2|
      ensures f2[k] == f[k]
    {
      assert ByteAt(s2, ino, k) == ByteAt(s1, ino, k);
      if k < s.inodes[ino].size {
        BytesInMap(s.inodes[ino].size, k);
      }
    }
  }

  lemma {:induction false} OtherFile(s: Fs, s1: Fs, sb: Super, ino: nat, off: nat, src: seq<Byte>, e: nat)
    requires e in s.inodes && e in s.ext && s.ext[e] == Blocks(s.inodes[e].size) && e != ino
    requires Writing(s, s1, sb, ino, off, src, |src|)
    ensures File(Resized(s1, ino, off + |src|), e) == File(s, e)
  {
    var s2 := Resized(s1, ino, off + |src|);
    ResizedAddr(s1, ino, off + |src|);
    assert s2.inodes[e] == s1.inodes[e] && s1.inodes[e].size == s.inodes[e].size;
    forall k | 0 <= k < s.inodes[e].size
      ensures File(s2, e)[k] == File(s, e)[k]
    {
      BytesInMap(s.inodes[e].size, k);
      assert ByteAt(s2, e, k) == ByteAt(s1, e, k);
    }
  }

  lemma {:induction false} StillAtRest(s: Fs, s1: Fs, sb: Super, ino: nat, off: nat, src: seq<Byte>)
    requires AtRest(s) && s.inodes.Keys == s.ext.Keys && src != [] && Writing(s, s1, sb, ino, off, src, |src|)
    ensures AtRest(Resized(s1, ino, off + |src|))
  {
    var s2 := Resized(s1, ino, off + |src|);
    assert s.ext[ino] == Blocks(s.inodes[ino].size) && s1.inodes[ino].size == s.inodes[ino].size;
    forall e | e in s2.inodes && e in s2.ext
      ensures s2.ext[e] == Blocks(s2.inodes[e].size)
    {
      assert s.ext[e] == Blocks(s.inodes[e].size) && s1.inodes[e].size == s.inodes[e].size;
      assert e != ino ==> s1.ext[e] == s.ext[e];
    }
  }

  lemma {:induction false} WriteDone(s: Fs, s1: Fs, sb: Super, ino: nat, off: nat, src: seq<Byte>)
    requires Accounted(s, sb) && AtRest(s) && src != []
    requires Writing(s, s1, sb, ino, off, src, |src|) && off <= s.inodes[ino].size
    ensures var s2 := Resized(s1, ino, off + |src|);
            Accounted(s2, sb) && AtRest(s2) && Written(s, s2, ino, off, src)
  {
    hide BlockOk, FileOk, SuperOk, File, Spliced, Blocks;
    var s2 := Resized(s1, ino, off + |src|);
    ResizedKeeps(s1, sb, ino, off + |src|);
    assert s.ext[ino] == Blocks(s.inodes[ino].size);
    StillAtRest(s, s1, sb, ino, off, src);
    OwnFile(s, s1, sb, ino, off, src);
    forall e | e in s.inodes && e != ino
      ensures File(s2, e) == File(s, e)
    {
      assert s.ext[e] == Blocks(s.inodes[e].size);
      OtherFile(s, s1, sb, ino, off, src, e);
    }
  }

  // --- What must be in the log -----------------------------------------------------------

  /** Every block that changed is in the log, which only grows. */
  ghost predicate Journaled(d: Disk, d1: Disk, before: set<nat>, logged: set<nat>) {
    && before <= logged && d1.Keys == d.Keys
    && forall b {:trigger d1[b]} :: b in d1 && d1[b] != d[b] ==> b in logged
  }

  /** At most the one inode changed. */
  ghost predicate OnlyInode(m: map<nat, Inode>, m1: map<nat, Inode>, ino: nat) {
    m1.Keys == m.Keys && forall e {:trigger m1[e]} :: e in m && e != ino ==> m1[e] == m[e]
  }

  /** Inodes take 64 bytes, one behind the other; none lies across two blocks. */
  lemma {:induction false} InodePlace(ino: nat)
    ensures ino / IPB * BSIZE <= 64 * ino && 64 * ino + 64 <= (ino / IPB + 1) * BSIZE
  {
  }

  /** Every inode that changed has its block in the log. */
  ghost predicate InodesJournaled(m: map<nat, Inode>, m1: map<nat, Inode>, sb: Super, logged: set<nat>) {
    m1.Keys == m.Keys && forall e {:trigger m1[e]} :: e in m1 && m1[e] != m[e] ==> e / IPB + sb.inodestart in logged
  }

  /** Every change is in one of the transactions. */
  ghost predicate InTransactions(s: Fs, s1: Fs, sb: Super, txs: seq<set<nat>>) {
    && s1.disk.Keys == s.disk.Keys && s1.inodes.Keys == s.inodes.Keys
    && (forall b {:trigger s1.disk[b]} :: b in s1.disk && s1.disk[b] != s.disk[b] ==> InSome(txs, b))
    && forall e {:trigger s1.inodes[e]} :: e in s1.inodes && s1.inodes[e] != s.inodes[e] ==>
      InSome(txs, e / IPB + sb.inodestart)
  }

  ghost predicate InSome(txs: seq<set<nat>>, b: nat) {
    exists k :: 0 <= k < |txs| && b in txs[k]
  }

  lemma {:induction false} OneMoreTransaction(s: Fs, s1: Fs, s2: Fs, sb: Super, txs: seq<set<nat>>, tx: set<nat>)
    requires InTransactions(s, s1, sb, txs)
    requires Journaled(s1.disk, s2.disk, {}, tx) && InodesJournaled(s1.inodes, s2.inodes, sb, tx)
    ensures InTransactions(s, s2, sb, txs + [tx])
  {
    var txs2 := txs + [tx];
    assert txs2[|txs|] == tx;
    forall b | InSome(txs, b) || b in tx
      ensures InSome(txs2, b)
    {
      if InSome(txs, b) {
        var k :| 0 <= k < |txs| && b in txs[k];
        assert b in txs2[k];
      }
    }
    forall b | b in s2.disk && s2.disk[b] != s.disk[b]
      ensures InSome(txs2, b)
    {
      assert s1.disk[b] == s.disk[b] || InSome(txs, b);
    }
    forall e | e in s2.inodes && s2.inodes[e] != s.inodes[e]
      ensures InSome(txs2, e / IPB + sb.inodestart)
    {
      assert s1.inodes[e] == s.inodes[e] || InSome(txs, e / IPB + sb.inodestart);
    }
  }

  lemma {:induction false} JournaledOn(d: Disk, d1: Disk, d2: Disk, a: set<nat>, b: set<nat>, c: set<nat>)
    requires Journaled(d, d1, a, b) && Journaled(d1, d2, b, c)
    ensures Journaled(d, d2, a, c)
  {
    forall x | x in d2 && d2[x] != d[x]
      ensures x in c
    {
      assert d1[x] == d[x] || x in b;
    }
  }

  lemma {:induction false} JournaledWrite(d: Disk, b: nat, content: Block, before: set<nat>)
    requires b in d
    ensures Journaled(d, d[b := content], before, before + {b})
  {
  }

  /** balloc's two writes. */
  lemma {:induction false} TakenJournaled(s: Fs, sb: Super, b: nat, before: set<nat>)
    requires BitmapBlock(sb, b) in s.disk && b in s.disk
    ensures Journaled(s.disk, Taken(s, sb, b).disk, before, before + {BitmapBlock(sb, b), b})
  {
  }

  lemma {:induction false} NothingJournaled(d: Disk, m: map<nat, Inode>, logged: set<nat>, ino: nat)
    ensures Journaled(d, d, logged, logged) && OnlyInode(m, m, ino)
  {
  }

  lemma {:induction false} OneInode(m: map<nat, Inode>, ino: nat, ip: Inode)
    requires ino in m
    ensures OnlyInode(m, m[ino := ip], ino)
  {
  }

  /** iupdate, at the end. */
  lemma {:induction false} InodeJournaled(d: Disk, d1: Disk, m: map<nat, Inode>, m1: map<nat, Inode>, sb: Super,
                                          ino: nat, ip: Inode, before: set<nat>, logged: set<nat>)
    requires Journaled(d, d1, before, logged) && OnlyInode(m, m1, ino) && ino in m
    ensures Journaled(d, d1, before, logged + {ino / IPB + sb.inodestart})
    ensures InodesJournaled(m, m1[ino := ip], sb, logged + {ino / IPB + sb.inodestart})
  {
  }

  lemma {:induction false} MappedExt(s: Fs, s1: Fs, ino: nat, bn: nat)
    requires Mapped(s, s1, ino, bn)
    ensures ino in s.ext && ino in s1.ext && s1.ext[ino] == Max(s.ext[ino], bn + 1)
  {
  }

  /** writei's loop so far: the changed blocks are logged, and the inode is the old one
      unless the file grew. */
  ghost predicate JournalInv(s: Fs, s1: Fs, ino: nat, before: set<nat>, logged: set<nat>) {
    && Journaled(s.disk, s1.disk, before, logged) && OnlyInode(s.inodes, s1.inodes, ino)
    && ino in s.ext && ino in s1.ext && s.ext[ino] <= s1.ext[ino]
    && (s1.ext[ino] == s.ext[ino] ==> s1.inodes == s.inodes)
  }

  lemma {:induction false} JournalStep(s: Fs, s1: Fs, s2: Fs, ino: nat, before: set<nat>, logged1: set<nat>,
                                       logged2: set<nat>, addr: nat, content: Block)
    requires JournalInv(s, s1, ino, before, logged1) && Journaled(s1.disk, s2.disk, logged1, logged2)
    requires OnlyInode(s1.inodes, s2.inodes, ino) && ino in s2.ext && s1.ext[ino] <= s2.ext[ino]
    requires s2.ext[ino] == s1.ext[ino] ==> s2.inodes == s1.inodes
    requires addr in s2.disk
    ensures JournalInv(s, s2.(disk := s2.disk[addr := content]), ino, before, logged2 + {addr})
  {
    JournaledWrite(s2.disk, addr, content, logged2);
    JournaledOn(s.disk, s1.disk, s2.disk, before, logged1, logged2);
    JournaledOn(s.disk, s2.disk, s2.disk[addr := content], before, logged2, logged2 + {addr});
  }

  /** The size did not grow, so no block was mapped and the inode is as it was. */
  lemma {:induction false} SameInode(s: Fs, s1: Fs, ino: nat, before: set<nat>, logged: set<nat>, end: nat)
    requires JournalInv(s, s1, ino, before, logged) && ino in s.inodes && AtRest(s)
    requires s1.ext[ino] == Max(s.ext[ino], Blocks(end)) && end <= s.inodes[ino].size
    ensures s1.inodes == s.inodes
  {
    assert s.ext[ino] == Blocks(s.inodes[ino].size);
  }

  // --- What a write logs -------------------------------------------------------------------

  function IndirectOf(s: Fs, ino: nat): nat {
    if ino in s.inodes && |s.inodes[ino].addrs| == NDIRECT + 1 then s.inodes[ino].addrs[NDIRECT] else 0
  }

  function IndirectSet(s: Fs, ino: nat): (r: set<nat>)
    ensures |r| <= 1
  {
    if IndirectOf(s, ino) == 0 then {} else {IndirectOf(s, ino)}
  }

  /** 1 if the file got its indirect block in between. */
  function NewIndirect(s: Fs, s1: Fs, ino: nat): nat {
    if IndirectOf(s, ino) == 0 && IndirectOf(s1, ino) != 0 then 1 else 0
  }

  /** Blocks of a file that bytes off .. off + n touch. */
  function Touched(off: nat, n: nat): nat {
    if n == 0 then 0 else (off + n - 1) / BSIZE - off / BSIZE + 1
  }

  lemma {:induction false} TouchedStep(n: nat, off: nat, tot: nat)
    requires tot < n && (tot == 0 || (off + tot) % BSIZE == 0)
    ensures var m := Chunk(n, off, tot);
            && Touched(off, tot + m) == Touched(off, tot) + 1
            && (tot + m == n || (off + tot + m) % BSIZE == 0)
  {
    var k := off + tot;
    Position(k, k / BSIZE);
    Position(k + Chunk(n, off, tot) - 1, k / BSIZE);
    if tot > 0 {
      Position(k - 1, k / BSIZE - 1);
    }
  }

  /** The blocks logged are bitmap blocks, one for every block allocated, data blocks, one
      for every block touched, and the indirect block. */
  ghost predicate LoggedSoFar(s: Fs, s1: Fs, ino: nat, before: set<nat>, logged: set<nat>, maps: set<nat>,
                              datas: set<nat>,
                              touched: nat) {
    && ino in s.ext && ino in s1.ext && s.ext[ino] <= s1.ext[ino]
    && logged <= before + maps + datas + IndirectSet(s1, ino)
    && |maps| <= s1.ext[ino] - s.ext[ino] + NewIndirect(s, s1, ino)
    && |datas| <= touched
    && (IndirectOf(s, ino) != 0 ==> IndirectOf(s1, ino) == IndirectOf(s, ino))
  }

  /** What one call of bmap adds. */
  ghost predicate BmapLogged(s: Fs, s1: Fs, ino: nat, before: set<nat>, logged: set<nat>, maps: set<nat>, addr: nat) {
    && ino in s.ext && ino in s1.ext && s.ext[ino] <= s1.ext[ino]
    && logged <= before + maps + {addr} + IndirectSet(s1, ino)
    && |maps| <= s1.ext[ino] - s.ext[ino] + NewIndirect(s, s1, ino)
    && (IndirectOf(s, ino) != 0 ==> IndirectOf(s1, ino) == IndirectOf(s, ino))
  }

  lemma {:induction false} AlreadyMapped(s: Fs, sb: Super, ino: nat, bn: nat)
    requires Accounted(s, sb) && ino in s.inodes && bn <= s.ext[ino]
    ensures bn < s.ext[ino] ==> Mapped(s, s, ino, bn)
  {
  }

  /** One more iteration of writei. */
  lemma {:induction false} LogStep(s: Fs, s1: Fs, s2: Fs, ino: nat, before: set<nat>, logged1: set<nat>,
                                   logged2: set<nat>, maps: set<nat>,
                datas: set<nat>, maps1: set<nat>, addr: nat, touched: nat)
    requires LoggedSoFar(s, s1, ino, before, logged1, maps, datas, touched)
    requires BmapLogged(s1, s2, ino, logged1, logged2, maps1, addr)
    ensures LoggedSoFar(s, s2, ino, before, logged2 + {addr}, maps + maps1, datas + {addr}, touched + 1)
  {
    UnionBound(maps, maps1);
    UnionBound(datas, {addr});
    assert IndirectSet(s1, ino) <= IndirectSet(s2, ino);
  }

  /** Writing data changes nothing that the account of the log speaks of. */
  lemma {:induction false} LoggedSame(s: Fs, s1: Fs, s2: Fs, ino: nat, before: set<nat>, logged: set<nat>,
                                      maps: set<nat>,
                                      datas: set<nat>, touched: nat)
    requires LoggedSoFar(s, s1, ino, before, logged, maps, datas, touched) && s2.inodes == s1.inodes && s2.ext == s1.ext
    ensures LoggedSoFar(s, s2, ino, before, logged, maps, datas, touched)
  {
  }

  /** The state of writei's loop before byte tot. */
  ghost predicate WriteInv(s: Fs, s1: Fs, sb: Super, ino: nat, off: nat, src: seq<Byte>, tot: nat, before: set<nat>,
                           logged: set<nat>, maps: set<nat>, datas: set<nat>) {
    && Writing(s, s1, sb, ino, off, src, tot)
    && (tot == |src| || tot == 0 || (off + tot) % BSIZE == 0)
    && LoggedSoFar(s, s1, ino, before, logged, maps, datas, Touched(off, tot))
    && (tot == 0 ==> s1 == s && logged == before)
  }

  lemma {:induction false} WriteInvStart(s: Fs, sb: Super, ino: nat, off: nat, src: seq<Byte>, logged: set<nat>)
    requires Accounted(s, sb) && ino in s.inodes
    ensures ino in s.ext && WriteInv(s, s, sb, ino, off, src, 0, logged, logged, {}, {})
  {
  }

  lemma {:induction false} WriteInvStep(s: Fs, s1: Fs, s2: Fs, sb: Super, ino: nat, off: nat, src: seq<Byte>,
                                        tot: nat, before: set<nat>,
                     logged1: set<nat>, logged2: set<nat>, maps: set<nat>, datas: set<nat>, maps1: set<nat>, addr: nat)
    requires Accounted(s, sb) && WriteInv(s, s1, sb, ino, off, src, tot, before, logged1, maps, datas) && tot < |src|
    requires Accounted(s2, sb) && Mapped(s1, s2, ino, (off + tot) / BSIZE) && addr == Addr(s2, ino, (off + tot) / BSIZE)
    requires BmapLogged(s1, s2, ino, logged1, logged2, maps1, addr)
    ensures addr in s2.disk
    ensures WriteInv(s, StepBlock(s2, ino, off, src, tot), sb, ino, off, src, tot + Chunk(|src|, off, tot), before,
                     logged2 + {addr}, maps + maps1, datas + {addr})
  {
    hide BlockOk, FileOk, SuperOk, Writing, Mapped, Addr, Chunk, LoggedSoFar, BmapLogged, Touched;
    WriteStep(s, s1, s2, sb, ino, off, src, tot);
    LogStep(s, s1, s2, ino, before, logged1, logged2, maps, datas, maps1, addr, Touched(off, tot));
    TouchedStep(|src|, off, tot);
    LoggedSame(s, s2, StepBlock(s2, ino, off, src, tot), ino, before, logged2 + {addr}, maps + maps1, datas + {addr},
               Touched(off, tot) + 1);
  }

  lemma {:induction false} UnionBound(a: set<nat>, b: set<nat>)
    ensures |a + b| <= |a| + |b|
  {
  }

  lemma {:induction false} SubsetBound(a: set<nat>, b: set<nat>)
    requires a <= b
    ensures |a| <= |b|
  {
    assert b == a + (b - a);
  }

  /** The transaction of one chunk: 1536 bytes at any alignment log at most ten blocks.
      The first of four blocks touched exists already, so with the indirect block at
      most four are allocated. */
  lemma {:induction false} ChunkFitsTransaction(s: Fs, s1: Fs, ino: nat, off: nat, n: nat, logged: set<nat>,
                                                maps: set<nat>, datas: set<nat>,
                             inodeBlock: nat)
    requires ino in s.inodes && ino in s.ext && s.ext[ino] == Blocks(s.inodes[ino].size) && off <= s.inodes[ino].size
    requires 0 < n <= 3 * BSIZE && ino in s1.ext && s1.ext[ino] == Max(s.ext[ino], Blocks(off + n))
    requires LoggedSoFar(s, s1, ino, {}, logged, maps, datas, Touched(off, n))
    ensures |logged| <= |logged + {inodeBlock}| <= 10
  {
    var rest := IndirectSet(s1, ino);
    UnionBound(maps, datas);
    UnionBound(maps + datas, rest);
    SubsetBound(logged, {} + maps + datas + rest);
    assert {} + maps + datas + rest == maps + datas + rest;
    UnionBound(logged, {inodeBlock});
    SubsetBound(logged, logged + {inodeBlock});
    TouchedAndNew(s.inodes[ino].size, off, n);
  }

  lemma {:induction false} TouchedAndNew(size: nat, off: nat, n: nat)
    requires off <= size && 0 < n <= 3 * BSIZE
    ensures Touched(off, n) + Max(Blocks(size), Blocks(off + n)) - Blocks(size) <= 7
  {
    var first := off / BSIZE;
    assert (off + n - 1) / BSIZE <= first + 3;
    assert Blocks(off + n) == (off + n - 1) / BSIZE + 1;
    assert off % BSIZE != 0 ==> Blocks(size) >= first + 1;
    assert Blocks(size) >= first;
    assert off % BSIZE == 0 ==> (off + n - 1) / BSIZE <= first + 2;
  }

  // --- Reading --------------------------------------------------------------------------------

  /** The bytes of one block of a file that a read takes. */
  lemma {:induction false} ReadStep(s: Fs, sb: Super, ino: nat, off: nat, n: nat, tot: nat)
    requires Accounted(s, sb) && ino in s.inodes && s.ext[ino] == Blocks(s.inodes[ino].size)
    requires off + n <= s.inodes[ino].size && tot < n
    ensures var bn, m := (off + tot) / BSIZE, Chunk(n, off, tot);
            && bn < s.ext[ino] && bn < MAXFILE
            && var a := Addr(s, ino, bn);
               a in s.disk && File(s, ino)[off + tot..off + tot
                   + m] == s.disk[a][(off + tot) % BSIZE..(off + tot) % BSIZE + m]
  {
    var bn, m := (off + tot) / BSIZE, Chunk(n, off, tot);
    assert FileOk(s, ino);
    BytesInMap(s.inodes[ino].size, off + tot);
    assert MapOk(s, ino, bn);
    var a := Addr(s, ino, bn);
    Position(off + tot, bn);
    var from := off + tot;
    var part, block := File(s, ino)[from..from + m], s.disk[a][from % BSIZE..from % BSIZE + m];
    forall j | 0 <= j < m
      ensures part[j] == block[j]
    {
      assert part[j] == ByteAt(s, ino, from + j);
      Position(from + j, bn);
    }
  }

  // --- Truncating ----------------------------------------------------------------------------

  predicate OfFile(u: Use, ino: nat) { (u.Data? || u.Indirect?) && u.ino == ino }

  /** The file system without ino; its blocks are in hand. */
  function Detached(s: Fs, ino: nat): Fs {
    Fs(s.disk, s.inodes - {ino}, map b | b in s.owner :: if OfFile(s.owner[b], ino) then Other
        else s.owner[b], s.ext - {ino})
  }

  lemma {:induction false} DetachedKeeps(s: Fs, sb: Super, ino: nat)
    requires Accounted(s, sb) && ino in s.inodes
    ensures Accounted(Detached(s, ino), sb)
  {
    var s1 := Detached(s, ino);
    forall c | 0 <= c < sb.size
      ensures BlockOk(s1, sb, c)
    {
      assert BlockOk(s, sb, c);
      if OfFile(s.owner[c], ino) {
        assert FileOk(s, ino);
        assert s.owner[c].Data? ==> MapOk(s, ino, s.owner[c].bn);
      }
    }
    forall e | e in s1.inodes
      ensures FileOk(s1, e)
    {
      assert FileOk(s, e);
      forall bn | 0 <= bn < MAXFILE
        ensures MapOk(s1, e, bn)
      {
        assert MapOk(s, e, bn);
      }
    }
  }

  function Freed(s: Fs, sb: Super, b: nat): Fs
    requires BitmapBlock(sb, b) in s.disk
  {
    s.(disk := WithBit(s.disk, sb, b), owner := s.owner[b := Free])
  }

  lemma {:induction false} FreedKeeps(s: Fs, sb: Super, b: nat)
    requires Accounted(s, sb) && b in s.owner && s.owner[b] == Other
    ensures BitmapBlock(sb, b) in s.disk && s.owner[BitmapBlock(sb, b)] == Meta && InUse(s.disk, sb, b)
    ensures Accounted(Freed(s, sb, b), sb)
  {
    assert BlockOk(s, sb, b);
    var s1 := Freed(s, sb, b);
    forall e: nat, bn: nat
      ensures Addr(s1, e, bn) == Addr(s, e, bn)
    {
      AddrKept(s, sb, BitmapBlock(sb, b), s1.disk[BitmapBlock(sb, b)], e, bn);
    }
    forall c | 0 <= c < sb.size
      ensures BlockOk(s1, sb, c)
    {
      assert BlockOk(s, sb, c);
      BitChanged(s.disk, sb, b, c);
    }
    forall e | e in s1.inodes
      ensures FileOk(s1, e)
    {
      assert FileOk(s, e);
      forall bn | 0 <= bn < MAXFILE
        ensures MapOk(s1, e, bn)
      {
        assert MapOk(s, e, bn);
      }
    }
  }

  function NoAddrs(): (a: seq<Word>)
    ensures |a| == NDIRECT + 1 && forall i :: 0 <= i <= NDIRECT ==> a[i] == 0
  {
    [0, 0, 0, 0, 0, 0, 0, 0, 0, 0, 0, 0, 0]
  }

  /** The emptied inode put back. */
  function Emptied(s: Fs, ino: nat): Fs {
    s.(inodes := s.inodes[ino := Inode(0, NoAddrs())], ext := s.ext[ino := 0])
  }

  lemma {:induction false} EmptiedKeeps(s: Fs, sb: Super, ino: nat)
    requires Accounted(s, sb) && ino !in s.inodes
    ensures Accounted(Emptied(s, ino), sb)
  {
    var s1 := Emptied(s, ino);
    forall c | 0 <= c < sb.size
      ensures BlockOk(s1, sb, c)
    {
      assert BlockOk(s, sb, c);
    }
    forall e | e in s1.inodes
      ensures FileOk(s1, e)
    {
      if e != ino {
        assert FileOk(s, e);
      }
      forall bn | 0 <= bn < MAXFILE
        ensures MapOk(s1, e, bn)
      {
        if e != ino {
          assert MapOk(s, e, bn);
        }
      }
    }
  }

  /** What itrunc has given back: ino's blocks below bn, and the indirect block if whole. */
  predicate TruncatedAt(s: Fs, t: Fs, ino: nat, bn: nat, whole: bool, b: nat) {
    && b in s.owner && b in t.owner
    && t.owner[b] == (if s.owner[b] == Indirect(ino) then (if whole then Free else Other)
                      else if s.owner[b].Data? && s.owner[b].ino == ino
                          then (if s.owner[b].bn < bn then Free else Other)
                      else s.owner[b])
    && (s.owner[b] != Meta ==> b in s.disk && b in t.disk && t.disk[b] == s.disk[b])
  }

  /** itrunc under way: t is the file system without ino. */
  ghost predicate Truncating(s: Fs, t: Fs, sb: Super, ino: nat, bn: nat, whole: bool) {
    && Accounted(t, sb) && t.inodes == s.inodes - {ino} && t.ext == s.ext - {ino} && t.owner.Keys == s.owner.Keys
    && forall b {:trigger TruncatedAt(s, t, ino, bn, whole, b)} :: b in s.owner ==> TruncatedAt(s, t, ino, bn, whole, b)
  }

  lemma {:induction false} TruncateStarts(s: Fs, sb: Super, ino: nat)
    requires Accounted(s, sb) && ino in s.inodes
    ensures Truncating(s, Detached(s, ino), sb, ino, 0, false)
  {
    DetachedKeeps(s, sb, ino);
    var t := Detached(s, ino);
    forall b | b in s.owner
      ensures TruncatedAt(s, t, ino, 0, false, b)
    {
    }
  }

  /** Block bn's turn. */
  lemma {:induction false} TruncateStep(s: Fs, t: Fs, sb: Super, ino: nat, bn: nat)
    requires Accounted(s, sb) && ino in s.inodes && Truncating(s, t, sb, ino, bn, false) && bn < MAXFILE
    ensures var a := Addr(s, ino, bn);
            if a == 0 then Truncating(s, t, sb, ino, bn + 1, false)
            else && BitmapBlock(sb, a) in t.disk && InUse(t.disk, sb, a)
                 && Truncating(s, Freed(t, sb, a), sb, ino, bn + 1, false)
  {
    var a, next := Addr(s, ino, bn), bn + 1;
    assert FileOk(s, ino) && MapOk(s, ino, bn);
    forall b | b in s.owner && s.owner[b] == Data(ino, bn)
      ensures b == a && a != 0
    {
      assert BlockOk(s, sb, b);
    }
    if a == 0 {
      forall b | b in s.owner
        ensures TruncatedAt(s, t, ino, next, false, b)
      {
        assert TruncatedAt(s, t, ino, bn, false, b);
      }
    } else {
      assert TruncatedAt(s, t, ino, bn, false, a);
      FreedKeeps(t, sb, a);
      var t1 := Freed(t, sb, a);
      var bm := BitmapBlock(sb, a);
      assert TruncatedAt(s, t, ino, bn, false, bm);
      forall b | b in s.owner
        ensures TruncatedAt(s, t1, ino, next, false, b)
      {
        assert TruncatedAt(s, t, ino, bn, false, b);
      }
    }
  }

  /** Without an indirect block there is nothing beyond the direct ones. */
  lemma {:induction false} NothingIndirect(s: Fs, t: Fs, sb: Super, ino: nat, bn: nat)
    requires Accounted(s, sb) && ino in s.inodes && IndirectOf(s, ino) == 0 && NDIRECT <= bn <= MAXFILE
    requires Truncating(s, t, sb, ino, bn, false)
    ensures Truncating(s, t, sb, ino, MAXFILE, false)
    decreases MAXFILE - bn
  {
    if bn < MAXFILE {
      assert FileOk(s, ino);
      TruncateStep(s, t, sb, ino, bn);
      NothingIndirect(s, t, sb, ino, bn + 1);
    }
  }

  lemma {:induction false} TruncateIndirect(s: Fs, t: Fs, sb: Super, ino: nat)
    requires Accounted(s, sb) && ino in s.inodes && Truncating(s, t, sb, ino, MAXFILE, false)
    ensures |s.inodes[ino].addrs| == NDIRECT + 1
    ensures var a := s.inodes[ino].addrs[NDIRECT];
            if a == 0 then Truncating(s, t, sb, ino, MAXFILE, true)
            else && BitmapBlock(sb, a) in t.disk && InUse(t.disk, sb, a)
                 && Truncating(s, Freed(t, sb, a), sb, ino, MAXFILE, true)
  {
    assert FileOk(s, ino);
    var a := s.inodes[ino].addrs[NDIRECT];
    forall b | b in s.owner && s.owner[b] == Indirect(ino)
      ensures b == a && a != 0
    {
      assert BlockOk(s, sb, b);
    }
    if a == 0 {
      forall b | b in s.owner
        ensures TruncatedAt(s, t, ino, MAXFILE, true, b)
      {
        assert TruncatedAt(s, t, ino, MAXFILE, false, b);
      }
    } else {
      assert TruncatedAt(s, t, ino, MAXFILE, false, a);
      FreedKeeps(t, sb, a);
      var t1 := Freed(t, sb, a);
      assert TruncatedAt(s, t, ino, MAXFILE, false, BitmapBlock(sb, a));
      forall b | b in s.owner
        ensures TruncatedAt(s, t1, ino, MAXFILE, true, b)
      {
        assert TruncatedAt(s, t, ino, MAXFILE, false, b);
      }
    }
  }

  predicate FreedOf(s: Fs, s1: Fs, ino: nat, b: nat) {
    b in s.owner && b in s1.owner && s1.owner[b] == if OfFile(s.owner[b], ino) then Free else s.owner[b]
  }

  /** The file is empty; exactly its blocks are free; every other file is what it was. */
  ghost predicate Truncated(s: Fs, s1: Fs, ino: nat) {
    && ino in s.inodes && s1.inodes == s.inodes[ino := Inode(0, NoAddrs())] && s1.owner.Keys == s.owner.Keys
    && (forall b {:trigger FreedOf(s, s1, ino, b)} :: b in s.owner ==> FreedOf(s, s1, ino, b))
    && forall e {:trigger File(s1, e)} :: e in s.inodes && e != ino ==> File(s1, e) == File(s, e)
  }

  lemma {:induction false} TruncateDone(s: Fs, t: Fs, sb: Super, ino: nat)
    requires Accounted(s, sb) && AtRest(s) && ino in s.inodes && Truncating(s, t, sb, ino, MAXFILE, true)
    ensures Accounted(Emptied(t, ino), sb) && AtRest(Emptied(t, ino)) && Truncated(s, Emptied(t, ino), ino)
  {
    var s1 := Emptied(t, ino);
    EmptiedKeeps(t, sb, ino);
    assert s1.inodes == s.inodes[ino := Inode(0, NoAddrs())];
    forall b | b in s.owner
      ensures FreedOf(s, s1, ino, b)
    {
      assert TruncatedAt(s, t, ino, MAXFILE, true, b) && BlockOk(s, sb, b);
    }
    forall e | e in s.inodes && e != ino
      ensures File(s1, e) == File(s, e)
    {
      forall k | 0 <= k < s.inodes[e].size
        ensures File(s1, e)[k] == File(s, e)[k]
      {
        assert s.ext[e] == Blocks(s.inodes[e].size);
        BytesInMap(s.inodes[e].size, k);
        SameByte(s, t, sb, ino, e, k);
      }
    }
    forall e | e in s1.inodes && e in s1.ext
      ensures s1.ext[e] == Blocks(s1.inodes[e].size)
    {
      assert e != ino ==> s.ext[e] == Blocks(s.inodes[e].size);
    }
  }

  lemma {:induction false} SameByte(s: Fs, t: Fs, sb: Super, ino: nat, e: nat, k: nat)
    requires Accounted(s, sb) && Truncating(s, t, sb, ino, MAXFILE, true) && e != ino && e in s.inodes
             && k < s.ext[e] * BSIZE
    ensures ByteAt(Emptied(t, ino), e, k) == ByteAt(s, e, k)
  {
    var bn := k / BSIZE;
    assert FileOk(s, e) && MapOk(s, e, bn);
    assert TruncatedAt(s, t, ino, MAXFILE, true, Addr(s, e, bn));
    var ind := s.inodes[e].addrs[NDIRECT];
    if ind != 0 {
      assert TruncatedAt(s, t, ino, MAXFILE, true, ind);
    }
    assert Addr(Emptied(t, ino), e, bn) == Addr(s, e, bn);
  }
}
