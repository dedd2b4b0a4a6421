/** Files in place: the bitmap allocator, block maps, reading, writing and truncating
    through the buffer cache, and what a transaction logs.  A block's contents are those
    that bread returns; writing one through log_write enters its number in the log. */
module Files {
  import opened Words
  import opened FsSpec
  import opened FileSpec

  const MAXOPBLOCKS := 10
  datatype WriteResult = Count(n: nat) | Refused | Panic
  datatype ReadResult = Got(bytes: seq<Byte>) | ReadRefused

  class FileSystem {
    const sb: Super
    var disk: Disk
    /** The inode cache, for regular files. */
    var inodes: map<nat, Inode>
    /** The distinct blocks that the running transaction has logged. */
    var logged: set<nat>
    ghost var owner: map<nat, Use>
    ghost var ext: map<nat, nat>

    ghost function Now(): Fs
      reads this
    {
      Fs(disk, inodes, owner, ext)
    }

    ghost predicate Valid()
      reads this
    {
      Accounted(Now(), sb)
    }

    constructor (sb: Super, disk: Disk, inodes: map<nat, Inode>, ghost owner: map<nat, Use>, ghost ext: map<nat, nat>)
      requires Accounted(Fs(disk, inodes, owner, ext), sb)
      ensures Valid() && Now() == Fs(disk, inodes, owner, ext) && this.sb == sb && logged == {}
    {
      this.sb, this.disk, this.inodes, this.owner, this.ext := sb, disk, inodes, owner, ext;
      logged := {};
    }

    /** Allocates the first free block, zeroed; 0 where the kernel panics for lack of one. */
    method Balloc() returns (b: Word)
      requires Valid()
      modifies this`disk, this`logged, this`owner
      ensures Valid()
      ensures b == 0 ==> Now() == old(Now()) && logged == old(logged) && NoneFree(Now())
      ensures b != 0 ==> b < sb.size && old(owner)[b] == Free && BitmapBlock(sb, b) in old(disk)
                         && Now() == Taken(old(Now()), sb, b) && logged == old(logged) + {BitmapBlock(sb, b), b}
                         && forall c: nat :: c < b ==> old(owner)[c] != Free
      ensures Journaled(old(disk), disk, old(logged), logged)
    {
      hide FileOk;
      var base := 0;
      while base < sb.size
        invariant base % BPB == 0
        invariant Now() == old(Now()) && logged == old(logged)
        invariant forall c: nat :: c < base && c < sb.size ==> owner[c] != Free
      {
        var bm := BitmapBlock(sb, base);
        var bi := 0;
        while bi < BPB && base + bi < sb.size
          invariant 0 <= bi <= BPB && base % BPB == 0 && bm == BitmapBlock(sb, base)
          invariant Now() == old(Now()) && logged == old(logged)
          invariant forall c: nat :: c < base + bi && c < sb.size ==> owner[c] != Free
        {
          var c := base + bi;
          InSameBlock(base, bi);
          BitmapInRange(Now(), sb, c);
          assert BlockOk(Now(), sb, c);
          if !BitOf(disk[bm][bi / 8], bi % 8) {
            Take(c);
            return c;
          }
          bi := bi + 1;
        }
        base := base + BPB;
      }
      b := 0;
    }

    /** Marks a free block in use and zeroes it. */
    method Take(c: nat)
      requires Valid() && c < sb.size && owner[c] == Free
      modifies this`disk, this`logged, this`owner
      ensures Valid() && BitmapBlock(sb, c) in old(disk) && Now() == Taken(old(Now()), sb, c)
      ensures logged == old(logged) + {BitmapBlock(sb, c), c}
      ensures Journaled(old(disk), disk, old(logged), logged)
    {
      hide BlockOk, FileOk, SuperOk, Accounted, BitOf;
      hide Journaled;
      TakenKeeps(Now(), sb, c);
      TakenJournaled(Now(), sb, c, logged);
      var bm, bi := BitmapBlock(sb, c), c % BPB;
      assert bi % 8 == c % 8;
      disk := disk[bm := disk[bm][bi / 8 := FlipByte(disk[bm][bi / 8], bi % 8)]];
      logged := logged + {bm};
      // bzero
      disk := disk[c := Zeros()];
      logged := logged + {c};
      owner := owner[c := Other];
    }

    /** Frees block b; false where the kernel panics because it is free already. */
    method Bfree(b: nat) returns (ok: bool)
      requires BitmapBlock(sb, b) in disk
      modifies this`disk, this`logged
      ensures ok == InUse(old(disk), sb, b)
      ensures ok ==> disk == WithBit(old(disk), sb, b) && logged == old(logged) + {BitmapBlock(sb, b)}
      ensures Journaled(old(disk), disk, old(logged), logged)
    {
      var bm, bi := BitmapBlock(sb, b), b % BPB;
      if !BitOf(disk[bm][bi / 8], bi % 8) {
        return false;
      }
      assert bi % 8 == b % 8;
      disk := disk[bm := disk[bm][bi / 8 := FlipByte(disk[bm][bi / 8], bi % 8)]];
      logged := logged + {bm};
      ok := true;
    }

    method Iupdate(ino: nat)
      modifies this`logged
      ensures logged == old(logged) + {ino / IPB + sb.inodestart}
    {
      logged := logged + {ino / IPB + sb.inodestart};
    }

    /** The block that holds block bn of the file, allocated if it is the next one; 0
        where balloc panics.  maps are the bitmap blocks logged. */
    method Bmap(ino: nat, bn: nat) returns (addr: Word, ghost maps: set<nat>)
      requires Valid() && ino in inodes && bn < MAXFILE && bn <= ext[ino]
      modifies this
      ensures Valid() && ino in inodes
      ensures bn < old(ext)[ino] ==> Now() == old(Now()) && logged == old(logged) && addr != 0
      ensures addr == 0 ==> NoneFree(Now())
      ensures addr != 0 ==> Mapped(old(Now()), Now(), ino, bn) && addr == Addr(Now(), ino, bn)
      ensures addr != 0 ==> BmapLogged(old(Now()), Now(), ino, old(logged), logged, maps, addr)
      ensures Journaled(old(disk), disk, old(logged), logged) && OnlyInode(old(inodes), inodes, ino)
    {
      if bn < NDIRECT {
        addr, maps := BmapDirect(ino, bn);
      } else {
        addr, maps := BmapIndirect(ino, bn);
      }
    }

    method BmapDirect(ino: nat, bn: nat) returns (addr: Word, ghost maps: set<nat>)
      requires Valid() && ino in inodes && bn < NDIRECT && bn <= ext[ino]
      modifies this
      ensures Valid() && ino in inodes
      ensures bn < old(ext)[ino] ==> Now() == old(Now()) && logged == old(logged) && addr != 0
      ensures addr == 0 ==> NoneFree(Now())
      ensures addr != 0 ==> Mapped(old(Now()), Now(), ino, bn) && addr == Addr(Now(), ino, bn)
      ensures addr != 0 ==> BmapLogged(old(Now()), Now(), ino, old(logged), logged, maps, addr)
      ensures Journaled(old(disk), disk, old(logged), logged) && OnlyInode(old(inodes), inodes, ino)
    {
      hide BlockOk, SuperOk, Mapped, Journaled, OnlyInode, Taken;
      maps := {};
      NothingJournaled(disk, inodes, logged, ino);
      ghost var s := Now();
      assert FileOk(s, ino) && MapOk(s, ino, bn);
      AlreadyMapped(s, sb, ino, bn);
      addr := inodes[ino].addrs[bn];
      if addr == 0 {
        addr := Balloc();
        if addr == 0 {
          return;
        }
        DirectMapped(s, sb, ino, addr);
        maps := {BitmapBlock(sb, addr)};
        OneInode(inodes, ino, inodes[ino].(addrs := inodes[ino].addrs[bn := addr]));
        inodes := inodes[ino := inodes[ino].(addrs := inodes[ino].addrs[bn := addr])];
        owner, ext := owner[addr := Data(ino, bn)], ext[ino := bn + 1];
        assert Now() == WithDirect(Taken(s, sb, addr), ino, addr);
      }
    }

    /** The indirect block, allocated if there is none. */
    method IndirectBlock(ino: nat) returns (ind: Word, ghost maps: set<nat>)
      requires Valid() && ino in inodes && ext[ino] >= NDIRECT
      modifies this
      ensures Valid() && ino in inodes
      ensures ind == 0 ==> NoneFree(Now())
      ensures IndirectOf(old(Now()), ino) != 0 ==>
                ind != 0 && Now() == old(Now()) && logged == old(logged) && maps == {}
      ensures ind != 0 ==> ind == IndirectOf(Now(), ino) && Prepared(old(Now()), Now(), ino)
      ensures ind != 0 ==> logged <= old(logged) + maps + {ind} && |maps| <= NewIndirect(old(Now()), Now(), ino)
      ensures Journaled(old(disk), disk, old(logged), logged) && OnlyInode(old(inodes), inodes, ino)
    {
      maps := {};
      ghost var s := Now();
      assert FileOk(s, ino);
      AlreadyPrepared(s, ino);
      ind := inodes[ino].addrs[NDIRECT];
      if ind == 0 {
        ind := Balloc();
        if ind == 0 {
          return;
        }
        IndirectMade(s, sb, ino, ind);
        maps := {BitmapBlock(sb, ind)};
        inodes := inodes[ino := inodes[ino].(addrs := inodes[ino].addrs[NDIRECT := ind])];
        owner := owner[ind := Indirect(ino)];
        assert Now() == WithIndirect(Taken(s, sb, ind), ino, ind);
      }
    }

    method BmapIndirect(ino: nat, bn: nat) returns (addr: Word, ghost maps: set<nat>)
      requires Valid() && ino in inodes && NDIRECT <= bn < MAXFILE && bn <= ext[ino]
      modifies this
      ensures Valid() && ino in inodes
      ensures bn < old(ext)[ino] ==> Now() == old(Now()) && logged == old(logged) && addr != 0
      ensures addr == 0 ==> NoneFree(Now())
      ensures addr != 0 ==> Mapped(old(Now()), Now(), ino, bn) && addr == Addr(Now(), ino, bn)
      ensures addr != 0 ==> BmapLogged(old(Now()), Now(), ino, old(logged), logged, maps, addr)
      ensures Journaled(old(disk), disk, old(logged), logged) && OnlyInode(old(inodes), inodes, ino)
    {
      hide BlockOk, SuperOk, Mapped, Prepared, Journaled, OnlyInode;
      ghost var s, l := Now(), logged;
      assert FileOk(s, ino) && MapOk(s, ino, bn);
      AlreadyMapped(s, sb, ino, bn);
      var ind;
      ghost var maps1;
      ind, maps1 := IndirectBlock(ino);
      maps := maps1;
      if ind == 0 {
        return 0, maps;
      }
      ghost var s1, l1 := Now(), logged;
      assert FileOk(s1, ino) && MapOk(s1, ino, bn);
      addr := WordAt(disk[ind], bn - NDIRECT);
      if addr == 0 {
        addr := NewEntry(ino, bn, ind);
        JournaledOn(s.disk, s1.disk, disk, l, l1, logged);
        if addr != 0 {
          EntryMapped(s, s1, sb, ino, addr);
          maps := maps1 + {BitmapBlock(sb, addr)};
          assert logged <= old(logged) + maps + {addr} + {ind};
        }
      }
    }

    /** A new block entered in the indirect block. */
    method NewEntry(ino: nat, bn: nat, ind: Word) returns (addr: Word)
      requires Valid() && ino in inodes && NDIRECT <= bn < MAXFILE && bn == ext[ino]
      requires ind != 0 && ind == IndirectOf(Now(), ino)
      modifies this
      ensures addr == 0 ==> Now() == old(Now()) && NoneFree(Now())
      ensures addr != 0 ==> addr < sb.size && old(owner)[addr] == Free && BitmapBlock(sb, addr) in old(disk)
      ensures addr != 0 ==> ind in Taken(old(Now()), sb, addr).disk
                            && Now() == WithEntry(Taken(old(Now()), sb, addr), ino, addr)
                            && logged == old(logged) + {BitmapBlock(sb, addr), addr} + {ind}
      ensures Journaled(old(disk), disk, old(logged), logged)
    {
      ghost var s := Now();
      assert FileOk(s, ino);
      addr := Balloc();
      if addr == 0 {
        return;
      }
      disk := disk[ind := WithWord(disk[ind], bn - NDIRECT, addr)];
      logged := logged + {ind};
      owner, ext := owner[addr := Data(ino, bn)], ext[ino := bn + 1];
      assert Now() == WithEntry(Taken(s, sb, addr), ino, addr);
    }

    /** One iteration of readi. */
    method ReadBlock(ino: nat, off: nat, n: nat, tot: nat) returns (bytes: seq<Byte>)
      requires Valid() && AtRest(Now()) && ino in inodes && tot < n && off + n <= inodes[ino].size
      modifies this
      ensures Now() == old(Now()) && logged == old(logged)
      ensures bytes == File(Now(), ino)[off + tot..off + tot + Chunk(n, off, tot)]
    {
      RestingExt(Now(), ino);
      ReadStep(Now(), sb, ino, off, n, tot);
      AlreadyMapped(Now(), sb, ino, (off + tot) / BSIZE);
      assert FileOk(Now(), ino) && MapOk(Now(), ino, (off + tot) / BSIZE);
      var addr;
      ghost var maps;
      addr, maps := Bmap(ino, (off + tot) / BSIZE);
      bytes := disk[addr][(off + tot) % BSIZE..(off + tot) % BSIZE + Chunk(n, off, tot)];
    }

    /** Reads up to n bytes from off on; changes nothing, since the map of a file has no holes. */
    method Readi(ino: nat, off: Word, n: Word) returns (r: ReadResult)
      requires Valid() && AtRest(Now()) && ino in inodes
      modifies this
      ensures Now() == old(Now()) && logged == old(logged)
      ensures r == ReadRefused <==> off > inodes[ino].size || off + n >= TWO32
      ensures r.Got? ==> off <= inodes[ino].size
                         && r.bytes == File(Now(), ino)[off..if off + n < inodes[ino].size then off + n
                             else inodes[ino].size]
    {
      hide BlockOk, FileOk, SuperOk, File, AtRest;
      if off > inodes[ino].size || (off + n) % TWO32 < off {
        return ReadRefused;
      }
      var count := if off + n > inodes[ino].size then inodes[ino].size - off else n;
      var dst: seq<Byte> := [];
      var tot := 0;
      ghost var s := Now();
      while tot < count
        invariant tot <= count && Now() == s && logged == old(logged)
        invariant dst == File(s, ino)[off..off + tot]
      {
        var bytes := ReadBlock(ino, off, count, tot);
        AppendSlice(File(s, ino), off, tot, Chunk(count, off, tot));
        dst := dst + bytes;
        tot := tot + Chunk(count, off, tot);
      }
      r := Got(dst);
    }

    /** One iteration of writei; 0 where balloc panics. */
    method WriteBlock(ino: nat, src: seq<Byte>, off: nat, tot: nat, ghost s: Fs, ghost before: set<nat>,
                      ghost maps: set<nat>,
                      ghost datas: set<nat>)
      returns (m: nat, ghost maps1: set<nat>, ghost datas1: set<nat>)
      requires Accounted(s, sb) && ino in s.inodes && ino in s.ext && tot < |src|
      requires off <= s.ext[ino] * BSIZE && off + |src| <= MAXFILE * BSIZE
      requires WriteInv(s, Now(), sb, ino, off, src, tot, before, logged, maps, datas)
      requires JournalInv(s, Now(), ino, before, logged)
      modifies this
      ensures m == 0 ==> NoneFree(Now())
      ensures m != 0 ==> m == Chunk(|src|, off, tot)
                         && WriteInv(s, Now(), sb, ino, off, src, tot + m, before, logged, maps1, datas1)
                         && JournalInv(s, Now(), ino, before, logged)
    {
      hide BlockOk, FileOk, SuperOk, Writing, LoggedSoFar, BmapLogged, Mapped, AtRest, Addr, JournalInv, Journaled,
          OnlyInode;
      ghost var s1, logged1 := Now(), logged;
      maps1, datas1 := maps, datas;
      BlockToMap(s, s1, sb, ino, off, src, tot);
      var addr;
      ghost var new_maps;
      addr, new_maps := Bmap(ino, (off + tot) / BSIZE);
      if addr == 0 {
        return 0, maps1, datas1;
      }
      m := Chunk(|src|, off, tot);
      ghost var s2 := Now();
      WriteInvStep(s, s1, s2, sb, ino, off, src, tot, before, logged1, logged, maps, datas, new_maps, addr);
      var content := SpliceBlock(disk[addr], (off + tot) % BSIZE, src[tot..tot + m]);
      MappedExt(s1, s2, ino, (off + tot) / BSIZE);
      JournalStep(s, s1, s2, ino, before, logged1, logged, addr, content);
      disk := disk[addr := content];
      logged := logged + {addr};
      maps1, datas1 := maps + new_maps, datas + {addr};
      assert Now() == StepBlock(s2, ino, off, src, tot);
    }

    /** writei's last lines: the new size, if the write went past the old one. */
    method FinishWrite(ino: nat, src: seq<Byte>, off: nat, ghost s: Fs, ghost before: set<nat>, ghost maps: set<nat>,
                       ghost datas: set<nat>)
      requires Accounted(s, sb) && AtRest(s) && ino in s.inodes && off <= s.inodes[ino].size && src != []
      requires WriteInv(s, Now(), sb, ino, off, src, |src|, before, logged, maps, datas)
      requires JournalInv(s, Now(), ino, before, logged)
      modifies this`inodes, this`logged
      ensures Journaled(s.disk, disk, before, logged) && InodesJournaled(s.inodes, inodes, sb, logged)
      ensures Valid() && AtRest(Now()) && Written(s, Now(), ino, off, src)
      ensures |src| <= 3 * BSIZE && before == {} ==> |logged| <= MAXOPBLOCKS
    {
      hide BlockOk, FileOk, SuperOk, Writing, LoggedSoFar, Written, File, Journaled, AtRest, Accounted;
      ghost var s1 := Now();
      WritingEnds(s, s1, sb, ino, off, src);
      WriteDone(s, s1, sb, ino, off, src);
      if |src| <= 3 * BSIZE && before == {} {
        RestingExt(s, ino);
        ChunkFitsTransaction(s, s1, ino, off, |src|, logged, maps, datas, ino / IPB + sb.inodestart);
      }
      if off + |src| > inodes[ino].size {
        InodeJournaled(s.disk, disk, s.inodes, inodes, sb, ino, inodes[ino].(size := off + |src|), before, logged);
        inodes := inodes[ino := inodes[ino].(size := off + |src|)];
        Iupdate(ino);
      } else {
        SameInode(s, s1, ino, before, logged, off + |src|);
        SameSize(s1, ino, off + |src|);
      }
    }

    /** writei's loop; false where balloc panics. */
    method WriteBlocks(ino: nat, src: seq<Byte>, off: nat)
      returns (ok: bool, ghost maps: set<nat>, ghost datas: set<nat>)
      requires Valid() && ino in inodes && off <= ext[ino] * BSIZE && off + |src| <= MAXFILE * BSIZE
      modifies this
      ensures !ok ==> NoneFree(Now()) && src != []
      ensures ok ==> WriteInv(old(Now()), Now(), sb, ino, off, src, |src|, old(logged), logged, maps, datas)
      ensures ok ==> JournalInv(old(Now()), Now(), ino, old(logged), logged)
    {
      hide BlockOk, FileOk, SuperOk, Writing, LoggedSoFar;
      maps, datas := {}, {};
      var tot := 0;
      ghost var s := Now();
      WriteInvStart(s, sb, ino, off, src, logged);
      while tot < |src|
        invariant tot <= |src| && Accounted(s, sb) && ino in s.inodes && ino in s.ext
        invariant WriteInv(s, Now(), sb, ino, off, src, tot, old(logged), logged, maps, datas)
        invariant JournalInv(s, Now(), ino, old(logged), logged)
      {
        var m;
        m, maps, datas := WriteBlock(ino, src, off, tot, s, old(logged), maps, datas);
        if m == 0 {
          return false, maps, datas;
        }
        tot := tot + m;
      }
      ok := true;
    }

    /** Writes src at off, in one transaction. */
    method Writei(ino: nat, src: seq<Byte>, off: Word) returns (r: WriteResult)
      requires Valid() && AtRest(Now()) && ino in inodes && |src| < TWO32
      modifies this
      ensures r == Refused <==> off > old(inodes)[ino].size || off + |src| > MAXFILE * BSIZE
      ensures r == Refused || src == [] ==> Now() == old(Now()) && logged == old(logged)
      ensures r.Count? ==> r.n == |src| && Valid() && AtRest(Now()) && Written(old(Now()), Now(), ino, off, src)
      // Everything that changed is in the log, and that is not much:
      ensures r != Panic ==>
                Journaled(old(disk), disk, old(logged), logged) && InodesJournaled(old(inodes), inodes, sb, logged)
      ensures r.Count? && |src| <= 3 * BSIZE && old(logged) == {} ==> |logged| <= MAXOPBLOCKS
      ensures r == Panic ==> NoneFree(Now())
    {
      if off > inodes[ino].size || (off + |src|) % TWO32 < off {
        return Refused;
      }
      if off + |src| > MAXFILE * BSIZE {
        return Refused;
      }
      ghost var s := Now();
      var ok;
      ghost var maps, datas;
      ok, maps, datas := WriteBlocks(ino, src, off);
      if !ok {
        return Panic;
      }
      if |src| > 0 {
        FinishWrite(ino, src, off, s, old(logged), maps, datas);
      }
      r := Count(|src|);
    }

    /** Frees the file's blocks, each once, and empties the file.  bfree never finds a
        block that is free already. */
    method Itrunc(ino: nat)
      requires Valid() && AtRest(Now()) && ino in inodes
      modifies this
      ensures Valid() && AtRest(Now()) && Truncated(old(Now()), Now(), ino)
      ensures Journaled(old(disk), disk, old(logged), logged) && InodesJournaled(old(inodes), inodes, sb, logged)
    {
      hide BlockOk, SuperOk, Truncating, Truncated, AtRest, File, MapOk, Journaled, InodesJournaled;
      ghost var s, t, logs := Now(), Detached(Now(), ino), logged;
      TruncateStarts(s, sb, ino);
      assert FileOk(s, ino);
      t := FreeDirect(ino, s, t);
      var ind := inodes[ino].addrs[NDIRECT];
      ghost var d1, l1 := disk, logged;
      t := FreeIndirect(ino, ind, s, t);
      JournaledOn(s.disk, d1, disk, logs, l1, logged);
      InodeJournaled(s.disk, disk, s.inodes, inodes, sb, ino, Inode(0, inodes[ino].addrs[NDIRECT := 0]), logs, logged);
      inodes := inodes[ino := Inode(0, inodes[ino].addrs[NDIRECT := 0])];
      ZeroAddrs(inodes[ino].addrs);
      Iupdate(ino);
      TruncateDone(s, t, sb, ino);
      PutBack(s, t, sb, ino);
      assert inodes == s.inodes[ino := Inode(0, NoAddrs())];
      owner, ext := t.owner, t.ext[ino := 0];
    }

    /** The first half of itrunc: the direct blocks. */
    method FreeDirect(ino: nat, ghost s: Fs, ghost t0: Fs) returns (ghost t: Fs)
      requires Accounted(s, sb) && ino in s.inodes && inodes == s.inodes
      requires disk == t0.disk && Truncating(s, t0, sb, ino, 0, false)
      modifies this`disk, this`logged, this`inodes
      ensures Journaled(old(disk), disk, old(logged), logged)
      ensures disk == t.disk && Truncating(s, t, sb, ino, NDIRECT, false)
      ensures ino in inodes && inodes == s.inodes[ino := inodes[ino]] && |inodes[ino].addrs| == NDIRECT + 1
      ensures forall j :: 0 <= j <= NDIRECT ==> inodes[ino].addrs[j] == if j < NDIRECT then 0 else IndirectOf(s, ino)
    {
      hide BlockOk, SuperOk, Truncating;
      t := t0;
      assert FileOk(s, ino);
      assert s.inodes == s.inodes[ino := s.inodes[ino]];
      var i := 0;
      while i < NDIRECT
        invariant 0 <= i <= NDIRECT && ino in inodes && inodes == s.inodes[ino := inodes[ino]]
        invariant disk == t.disk && Truncating(s, t, sb, ino, i, false)
        invariant Journaled(old(disk), disk, old(logged), logged)
        invariant |inodes[ino].addrs| == NDIRECT + 1 && inodes[ino].size == s.inodes[ino].size
        invariant forall j :: 0 <= j <= NDIRECT ==> inodes[ino].addrs[j] == if j < i then 0 else s.inodes[ino].addrs[j]
      {
        TruncateStep(s, t, sb, ino, i);
        if inodes[ino].addrs[i] != 0 {
          t := Freed(t, sb, inodes[ino].addrs[i]);
          ghost var d1, l1 := disk, logged;
          var ok := Bfree(inodes[ino].addrs[i]);
          JournaledOn(old(disk), d1, disk, old(logged), l1, logged);
          inodes := inodes[ino := inodes[ino].(addrs := inodes[ino].addrs[i := 0])];
        }
        i := i + 1;
      }
    }

    /** The second half of itrunc: the blocks listed in the indirect block, then itself. */
    method FreeIndirect(ino: nat, ind: Word, ghost s: Fs, ghost t: Fs) returns (ghost t1: Fs)
      requires Accounted(s, sb) && ino in s.inodes && ind == IndirectOf(s, ino)
      requires disk == t.disk && Truncating(s, t, sb, ino, NDIRECT, false)
      modifies this`disk, this`logged
      ensures disk == t1.disk && Truncating(s, t1, sb, ino, MAXFILE, true)
      ensures Journaled(old(disk), disk, old(logged), logged)
    {
      hide BlockOk, FileOk, SuperOk, Truncating;
      t1 := t;
      assert FileOk(s, ino);
      if ind == 0 {
        NothingIndirect(s, t, sb, ino, NDIRECT);
        TruncateIndirect(s, t, sb, ino);
        return;
      }
      var a := IndirectContents(s, t1, sb, ino, ind);
      var j := 0;
      while j < NINDIRECT
        invariant 0 <= j <= NINDIRECT && disk == t1.disk && Truncating(s, t1, sb, ino, NDIRECT + j, false)
        invariant Journaled(old(disk), disk, old(logged), logged)
      {
        TruncateStep(s, t1, sb, ino, NDIRECT + j);
        var b := WordAt(a, j);
        if b != 0 {
          t1 := Freed(t1, sb, b);
          ghost var d1, l1 := disk, logged;
          var ok := Bfree(b);
          JournaledOn(old(disk), d1, disk, old(logged), l1, logged);
        }
        j := j + 1;
      }
      TruncateIndirect(s, t1, sb, ino);
      t1 := Freed(t1, sb, ind);
      ghost var d1, l1 := disk, logged;
      var ok := Bfree(ind);
      JournaledOn(old(disk), d1, disk, old(logged), l1, logged);
    }

    /** bread of the indirect block, before its blocks are freed. */
    method IndirectContents(ghost s: Fs, ghost t: Fs, ghost sb0: Super, ino: nat, ind: Word) returns (a: Block)
      requires Accounted(s, sb0) && ino in s.inodes && ind == IndirectOf(s, ino) != 0
      requires disk == t.disk && Truncating(s, t, sb0, ino, NDIRECT, false)
      ensures forall j :: 0 <= j < NINDIRECT ==> WordAt(a, j) == Addr(s, ino, NDIRECT + j)
    {
      assert FileOk(s, ino) && TruncatedAt(s, t, ino, NDIRECT, false, ind);
      a := disk[ind];
    }
  }

  /** What filewrite may send in one transaction. */
  const MAX_CHUNK: nat := (MAXOPBLOCKS - 1 - 1 - 2) / 2 * 512

  /** An open file. */
  class OpenFile {
    const fs: FileSystem
    const ino: nat
    const readable: bool
    const writable: bool
    var off: nat

    constructor (fs: FileSystem, ino: nat, readable: bool, writable: bool)
      ensures this.fs == fs && this.ino == ino && this.readable == readable && this.writable == writable && off == 0
    {
      this.fs, this.ino, this.readable, this.writable, off := fs, ino, readable, writable, 0;
    }

    /** The next n bytes; -1 as None. */
    method Fileread(n: Word) returns (r: ReadResult)
      requires fs.Valid() && AtRest(fs.Now()) && ino in fs.inodes && off < TWO32
      modifies this, fs
      ensures fs.Now() == old(fs.Now())
      ensures r.ReadRefused? ==> off == old(off)
      ensures r.ReadRefused? <==> !readable || old(off) > fs.inodes[ino].size || old(off) + n >= TWO32
      ensures r.Got? ==> off == old(off) + |r.bytes| <= fs.inodes[ino].size
                         && r.bytes == File(fs.Now(), ino)[old(off)..off]
                         && |r.bytes| == if old(off) + n < fs.inodes[ino].size then n
                             else fs.inodes[ino].size - old(off)
    {
      if !readable {
        return ReadRefused;
      }
      r := fs.Readi(ino, off, n);
      if r.Got? {
        off := off + |r.bytes|;
      }
    }

    /** One transaction of filewrite: begin_op, writei, the new offset, end_op. */
    method WriteChunk(part: seq<Byte>) returns (w: WriteResult, ghost tx: set<nat>)
      requires fs.Valid() && AtRest(fs.Now()) && ino in fs.inodes && 0 < |part| <= MAX_CHUNK && off + |part| < TWO32
      modifies this, fs
      ensures w == Refused <==> old(off) > old(fs.inodes)[ino].size || old(off) + |part| > MAXFILE * BSIZE
      ensures w == Refused ==> fs.Now() == old(fs.Now()) && off == old(off)
      ensures w.Count? ==> off == old(off) + |part|
      ensures w.Count? ==> fs.Valid() && AtRest(fs.Now()) && Written(old(fs.Now()), fs.Now(), ino, old(off), part)
      ensures w == Panic ==> NoneFree(fs.Now())
      // What changed is in the transaction, which fits the reservation.
      ensures tx == fs.logged
      ensures w != Panic ==>
                && |tx| <= MAXOPBLOCKS && Journaled(old(fs.disk), fs.disk, {}, tx)
                && InodesJournaled(old(fs.inodes), fs.inodes, fs.sb, tx)
    {
      fs.logged := {};
      w := fs.Writei(ino, part, off);
      tx := fs.logged;
      if w.Count? {
        off := off + |part|;
      }
    }

    /** filewrite's loop; i bytes are written. */
    method WriteChunks(src: seq<Byte>) returns (i: nat, ghost txs: seq<set<nat>>, panicked: bool)
      requires fs.Valid() && AtRest(fs.Now()) && ino in fs.inodes && off + |src| < TWO32
      modifies this, fs
      ensures i <= |src| && forall k :: 0 <= k < |txs| ==> |txs[k]| <= MAXOPBLOCKS
      ensures panicked ==> NoneFree(fs.Now())
      ensures !panicked ==> Progress(old(fs.Now()), fs.Now(), fs.sb, ino, old(off), src, i) && off == old(off) + i
      ensures !panicked ==> InTransactions(old(fs.Now()), fs.Now(), fs.sb, txs)
      ensures !panicked ==> |txs| == Chunks(i) + if i < |src| then 1 else 0
      ensures !panicked && i < |src| ==>
                || old(off) > old(fs.inodes)[ino].size
                || old(off) + i + Min(|src| - i, MAX_CHUNK) > MAXFILE * BSIZE
    {
      hide BlockOk, FileOk, SuperOk, Written, AtRest, Accounted, InTransactions, Journaled, InodesJournaled;
      i, txs, panicked := 0, [], false;
      ghost var s, off0 := fs.Now(), off;
      NoTransactions(s, fs.sb);
      while i < |src|
        invariant i <= |src| && off == off0 + i && forall k :: 0 <= k < |txs| ==> |txs[k]| <= MAXOPBLOCKS
        invariant |txs| == Chunks(i) && (i < |src| ==> i % MAX_CHUNK == 0)
        invariant Progress(s, fs.Now(), fs.sb, ino, off0, src, i) && InTransactions(s, fs.Now(), fs.sb, txs)
      {
        ghost var s1 := fs.Now();
        SizeSoFar(s, s1, fs.sb, ino, off0, src, i);
        var n1 := Min(|src| - i, MAX_CHUNK);
        var w;
        ghost var tx;
        w, tx := WriteChunk(src[i..i + n1]);
        if w == Panic {
          panicked := true;
          return;
        }
        OneMoreTransaction(s, s1, fs.Now(), fs.sb, txs, tx);
        txs := txs + [tx];
        if w == Refused {
          return;
        }
        Extended(s, s1, fs.Now(), fs.sb, ino, off0, src, i, n1);
        ChunksStep(i, n1, |src|);
        i := i + n1;
      }
    }

    /** Writes src at the file's offset, a few blocks per transaction.  done is how much of
        it was written, txs are the blocks that each transaction logged. */
    method Filewrite(src: seq<Byte>) returns (r: int, ghost done: nat, ghost txs: seq<set<nat>>, panicked: bool)
      requires fs.Valid() && AtRest(fs.Now()) && ino in fs.inodes && off + |src| < TWO32
      modifies this, fs
      ensures done <= |src| && forall k :: 0 <= k < |txs| ==> |txs[k]| <= MAXOPBLOCKS
      ensures !writable ==> r == -1 && done == 0 && txs == [] && !panicked
      ensures panicked ==> NoneFree(fs.Now())
      ensures !panicked ==> Progress(old(fs.Now()), fs.Now(), fs.sb, ino, old(off), src, done) && off == old(off) + done
      ensures !panicked ==> r == if writable && done == |src| then |src| else -1
      // Whatever changed was logged, three blocks of data to a transaction.
      ensures !panicked ==> InTransactions(old(fs.Now()), fs.Now(), fs.sb, txs)
      ensures !panicked && writable ==> |txs| == (done + 1535) / 1536 + if done < |src| then 1 else 0
      // It stops short only where the next chunk would pass the largest size, or starts beyond the end.
      ensures !panicked && writable && done < |src| ==>
                || old(off) > old(fs.inodes)[ino].size
                || old(off) + done + Min(|src| - done, MAX_CHUNK) > MAXFILE * BSIZE
    {
      r, done, txs, panicked := -1, 0, [], false;
      if !writable {
        return;
      }
      var i;
      i, txs, panicked := WriteChunks(src);
      done := i;
      if i == |src| {
        r := |src|;
      }
    }
  }

  /** How many chunks n bytes take. */
  function Chunks(n: nat): (c: nat)
    ensures c * MAX_CHUNK >= n && (n > 0 ==> (c - 1) * MAX_CHUNK < n) && (n == 0 ==> c == 0)
  {
    (n + MAX_CHUNK - 1) / MAX_CHUNK
  }

  lemma {:induction false} ChunksStep(i: nat, n: nat, total: nat)
    requires i % MAX_CHUNK == 0 && i < total && n == Min(total - i, MAX_CHUNK)
    ensures Chunks(i + n) == Chunks(i) + 1 && (i + n < total ==> (i + n) % MAX_CHUNK == 0)
  {
    assert MAX_CHUNK == 1536;
    var q := i / 1536;
    assert i == 1536 * q;
    assert Chunks(i) == q && 1536 * (q + 1) <= i + n + 1535 < 1536 * (q + 2);
    if n == 1536 {
      assert i + n == 1536 * (q + 1);
    }
  }

  lemma {:induction false} NoTransactions(s: Fs, sb: Super)
    ensures InTransactions(s, s, sb, [])
  {
  }

  /** The first i bytes of src are written, the file system is in order. */
  ghost predicate Progress(s: Fs, s1: Fs, sb: Super, ino: nat, off: nat, src: seq<Byte>, i: nat) {
    && i <= |src| && Accounted(s1, sb) && AtRest(s1) && ino in s1.inodes
    && if i == 0 then s1 == s else Written(s, s1, ino, off, src[..i])
  }

  lemma {:induction false} Extended(s: Fs, s1: Fs, s2: Fs, sb: Super, ino: nat, off: nat, src: seq<Byte>, i: nat,
                                    n: nat)
    requires 0 < n && i + n <= |src| && Progress(s, s1, sb, ino, off, src, i)
    requires Accounted(s2, sb) && AtRest(s2) && Written(s1, s2, ino, off + i, src[i..i + n])
    ensures Progress(s, s2, sb, ino, off, src, i + n)
  {
    hide Accounted, AtRest;
    assert src[..i] + src[i..i + n] == src[..i + n];
    if i > 0 {
      WrittenTwice(s, s1, s2, ino, off, src[..i], src[i..i + n]);
    }
  }

  /** How large the file is by then. */
  lemma {:induction false} SizeSoFar(s: Fs, s1: Fs, sb: Super, ino: nat, off: nat, src: seq<Byte>, i: nat)
    requires ino in s.inodes && Progress(s, s1, sb, ino, off, src, i)
    ensures i > 0 ==> off + i <= s1.inodes[ino].size
  {
    if i > 0 {
      assert |File(s1, ino)| == |Spliced(File(s, ino), off, src[..i])|;
    }
  }

  lemma {:induction false} RestingExt(s: Fs, ino: nat)
    requires AtRest(s) && ino in s.inodes && ino in s.ext
    ensures s.ext[ino] == Blocks(s.inodes[ino].size)
  {
  }

  /** The emptied inode among the others, which itrunc did not touch. */
  lemma {:induction false} PutBack(s: Fs, t: Fs, sb: Super, ino: nat)
    requires Truncating(s, t, sb, ino, MAXFILE, true)
    ensures Emptied(t, ino) == Fs(t.disk, s.inodes[ino := Inode(0, NoAddrs())], t.owner, t.ext[ino := 0])
  {
  }

  lemma {:induction false} ZeroAddrs(a: seq<Word>)
    requires |a| == NDIRECT + 1 && forall i :: 0 <= i <= NDIRECT ==> a[i] == 0
    ensures a == NoAddrs()
  {
  }

  lemma {:induction false} SameSize(s: Fs, ino: nat, size: nat)
    requires ino in s.inodes && size <= s.inodes[ino].size
    ensures Resized(s, ino, size) == s
  {
    assert s.inodes[ino := s.inodes[ino]] == s.inodes;
  }

  lemma {:induction false} AppendSlice(f: seq<Byte>, off: nat, tot: nat, m: nat)
    requires off + tot + m <= |f|
    ensures f[off..off + tot] + f[off + tot..off + tot + m] == f[off..off + tot + m]
  {
  }

  lemma {:induction false} InSameBlock(base: nat, bi: nat)
    requires base % BPB == 0 && bi < BPB
    ensures (base + bi) / BPB == base / BPB && (base + bi) % BPB == bi && (base + bi) % 8 == bi % 8
  {
  }
}
