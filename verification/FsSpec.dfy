/** Blocks, the free bitmap and block maps on values, with an account of what every
    block is in use for.  A file is the byte sequence its block map spells. */
module FsSpec {
  import opened Words

  const BSIZE := 512
  const NDIRECT := 12
  const NINDIRECT := 128
  const MAXFILE := 140
  /** Bits of the free map per block. */
  const BPB := 4096

  function Zeros(): (s: seq<Byte>)
    ensures |s| == BSIZE && forall i :: 0 <= i < BSIZE ==> s[i] == 0
  {
    seq(BSIZE, i => 0)
  }

  type Block = s: seq<Byte> | |s| == BSIZE witness Zeros()
  type Disk = map<nat, Block>

  // --- Words and bits in blocks --------------------------------------------------------

  /** The j-th uint of a block, little-endian. */
  function WordAt(b: Block, j: nat): (w: Word)
    requires j < NINDIRECT
  {
    Placed(b[4 * j], 0) + Placed(b[4 * j + 1], 1) + Placed(b[4 * j + 2], 2) + Placed(b[4 * j + 3], 3)
  }

  function WithWord(b: Block, j: nat, w: Word): (r: Block)
    requires j < NINDIRECT
  {
    b[4 * j := w % 0x100][4 * j + 1 := w / 0x100 % 0x100][4 * j + 2 := w / 0x1_0000 % 0x100]
        [4 * j + 3 := w / 0x100_0000]
  }

  /** A word is made up of its four bytes. */
  lemma {:induction false} FourBytes(w: Word)
    ensures Placed(w % 0x100, 0) + Placed(w / 0x100 % 0x100, 1) + Placed(w / 0x1_0000 % 0x100, 2)
              + Placed(w / 0x100_0000, 3) == w
  {
    var q1 := w / 0x100;
    var q2 := q1 / 0x100;
    var q3 := q2 / 0x100;
    assert q2 == w / 0x1_0000 && q3 == w / 0x100_0000;
    assert w == 0x100 * q1 + w % 0x100 && q1 == 0x100 * q2 + q1 % 0x100 && q2 == 0x100 * q3 + q2 % 0x100;
  }

  lemma {:induction false} WordStored(b: Block, j: nat, w: Word, k: nat)
    requires j < NINDIRECT && k < NINDIRECT
    ensures WordAt(WithWord(b, j, w), k) == if k == j then w else WordAt(b, k)
  {
    var r := WithWord(b, j, w);
    if k == j {
      assert r[4 * j] == w % 0x100 && r[4 * j + 1] == w / 0x100 % 0x100;
      assert r[4 * j + 2] == w / 0x1_0000 % 0x100 && r[4 * j + 3] == w / 0x100_0000;
      FourBytes(w);
    } else {
      assert r[4 * k] == b[4 * k] && r[4 * k + 1] == b[4 * k + 1] && r[4 * k + 2] == b[4 * k + 2]
          && r[4 * k + 3] == b[4 * k + 3];
    }
  }

  /** Words are stored with the least significant byte first. */
  lemma {:induction false} LittleEndian(b: Block, j: nat)
    requires j < NINDIRECT
    ensures WordAt(b, j)
            == b[4 * j] + Pow2(8) * b[4 * j + 1] + Pow2(16) * b[4 * j + 2] + Pow2(24) * b[4 * j + 3]
  {
    PlacedIsProduct(b[4 * j], 0);
    PlacedIsProduct(b[4 * j + 1], 1);
    PlacedIsProduct(b[4 * j + 2], 2);
    PlacedIsProduct(b[4 * j + 3], 3);
  }

  lemma {:induction false} NoWordsInZeros(j: nat)
    requires j < NINDIRECT
    ensures WordAt(Zeros(), j) == 0
  {
  }

  /** x & (1 << k). */
  predicate BitOf(x: nat, k: nat)
    decreases k
  {
    if k == 0 then x % 2 == 1 else BitOf(x / 2, k - 1)
  }

  /** x | (1 << k) where that bit is clear, and x & ~(1 << k) where it is set. */
  function Flip(x: nat, k: nat): nat
    decreases k
  {
    if k == 0 then (if x % 2 == 1 then x - 1 else x + 1) else 2 * Flip(x / 2, k - 1) + x % 2
  }

  /** Bit k is worth 2 to the power of k. */
  lemma {:induction false} BitIsPower(x: nat, k: nat)
    ensures BitOf(x, k) <==> x / Pow2(k) % 2 == 1
    decreases k
  {
    if k > 0 {
      BitIsPower(x / 2, k - 1);
      HalfFirst(x, Pow2(k - 1));
    }
  }

  lemma {:induction false} BitFlipped(x: nat, k: nat, j: nat)
    ensures BitOf(Flip(x, k), j) == if j == k then !BitOf(x, j) else BitOf(x, j)
    decreases k
  {
    if k > 0 && j > 0 {
      assert Flip(x, k) / 2 == Flip(x / 2, k - 1);
      BitFlipped(x / 2, k - 1, j - 1);
    } else if k == 0 && j > 0 {
      assert Flip(x, 0) / 2 == x / 2;
    }
  }

  lemma {:induction false} Doubled(y: nat, p: nat, bit: nat)
    requires y < p && bit < 2
    ensures 2 * y + bit < 2 * p
  {
  }

  lemma {:induction false} FlipFits(x: nat, k: nat, n: nat)
    requires x < Pow2(n) && k < n
    ensures Flip(x, k) < Pow2(n)
    decreases k
  {
    var p := Pow2(n - 1);
    assert Pow2(n) == 2 * p;
    if k > 0 {
      FlipFits(x / 2, k - 1, n - 1);
      Doubled(Flip(x / 2, k - 1), p, x % 2);
    } else {
      Doubled(x / 2, p, 1 - x % 2);
    }
  }

  /** A byte with bit k changed. */
  function FlipByte(x: Byte, k: nat): (r: Byte)
    requires k < 8
    ensures r == Flip(x, k)
  {
    assert Pow2(4) == 16 && Pow2(8) == 256;
    FlipFits(x, k, 8);
    Flip(x, k)
  }

  // --- The file system state --------------------------------------------------------------

  datatype Super = Super(size: nat, bmapstart: nat, inodestart: nat)

  datatype Inode = Inode(size: nat, addrs: seq<Word>)

  /** Meta is everything outside the files; Other a block in hand between balloc and its
      place in a map, or between the map and bfree.  bn counts the blocks of a file, the
      direct ones first. */
  datatype Use = Free | Meta | Other | Data(ino: nat, bn: nat) | Indirect(ino: nat)

  /** ext is the number of blocks in each file's map. */
  datatype Fs = Fs(disk: Disk, inodes: map<nat, Inode>, owner: map<nat, Use>, ext: map<nat, nat>)

  function BitmapBlock(sb: Super, b: nat): nat { b / BPB + sb.bmapstart }

  /** The free map is one array of bits, eight to a byte, over the blocks from bmapstart on. */
  lemma {:induction false} BitmapIsContiguous(sb: Super, b: nat)
    ensures BitmapBlock(sb, b) * BSIZE + b % BPB / 8 == sb.bmapstart * BSIZE + b / 8
  {
    assert b == b / BPB * BPB + b % BPB;
    assert b / 8 == b / BPB * BSIZE + b % BPB / 8;
  }

  predicate InUse(disk: Disk, sb: Super, b: nat) {
    var bm := BitmapBlock(sb, b);
    bm in disk && BitOf(disk[bm][b % BPB / 8], b % 8)
  }

  /** The free map with b's bit changed. */
  function WithBit(disk: Disk, sb: Super, b: nat): (r: Disk)
    requires BitmapBlock(sb, b) in disk
    ensures r.Keys == disk.Keys
  {
    var bm := BitmapBlock(sb, b);
    disk[bm := disk[bm][b % BPB / 8 := FlipByte(disk[bm][b % BPB / 8], b % 8)]]
  }

  lemma {:induction false} BitChanged(disk: Disk, sb: Super, b: nat, c: nat)
    requires BitmapBlock(sb, b) in disk
    ensures InUse(WithBit(disk, sb, b), sb, c) <==> (InUse(disk, sb, c) != (c == b))
  {
    var bm := BitmapBlock(sb, b);
    if BitmapBlock(sb, c) == bm && c % BPB / 8 == b % BPB / 8 {
      BitFlipped(disk[bm][b % BPB / 8], b % 8, c % 8);
      SameBit(b, c);
    }
  }

  lemma {:induction false} SameBit(b: nat, c: nat)
    requires b / BPB == c / BPB && b % BPB / 8 == c % BPB / 8
    ensures b % 8 == c % 8 <==> b == c
  {
  }

  /** The block that the map of an inode gives for block bn; 0 if none. */
  function AddrOf(disk: Disk, ip: Inode, bn: nat): Word {
    if |ip.addrs| != NDIRECT + 1 || bn >= MAXFILE then 0
    else if bn < NDIRECT then ip.addrs[bn]
    else if ip.addrs[NDIRECT] == 0 || ip.addrs[NDIRECT] !in disk then 0
    else WordAt(disk[ip.addrs[NDIRECT]], bn - NDIRECT)
  }

  function Addr(s: Fs, ino: nat, bn: nat): Word {
    if ino in s.inodes then AddrOf(s.disk, s.inodes[ino], bn) else 0
  }

  function ByteAt(s: Fs, ino: nat, k: nat): Byte {
    var a := Addr(s, ino, k / BSIZE);
    if a in s.disk then s.disk[a][k % BSIZE] else 0
  }

  predicate SuperOk(sb: Super) {
    0 < sb.size <= 0x1_0000_0000 && BitmapBlock(sb, sb.size - 1) < sb.size
  }

  predicate MapOk(s: Fs, ino: nat, bn: nat) {
    var a := Addr(s, ino, bn);
    ino in s.ext && if bn < s.ext[ino] then a != 0 && a in s.owner && s.owner[a] == Data(ino, bn) else a == 0
  }

  ghost predicate FileOk(s: Fs, ino: nat) {
    && ino in s.inodes && ino in s.ext && s.ext[ino] <= MAXFILE && |s.inodes[ino].addrs| == NDIRECT + 1
    && (var ind := s.inodes[ino].addrs[NDIRECT];
        if ind == 0 then s.ext[ino] <= NDIRECT
        else s.ext[ino] >= NDIRECT && ind in s.owner && s.owner[ind] == Indirect(ino))
    && forall bn {:trigger MapOk(s, ino, bn)} :: 0 <= bn < MAXFILE ==> MapOk(s, ino, bn)
  }

  predicate UseOk(s: Fs, b: nat) {
    b in s.owner &&
    match s.owner[b]
    case Free => b != 0
    case Meta => true
    case Other => b != 0
    case Data(ino, bn) => ino in s.inodes && ino in s.ext && bn < s.ext[ino] <= MAXFILE && Addr(s, ino, bn) == b
    case Indirect(ino) =>
      && ino in s.inodes && |s.inodes[ino].addrs| == NDIRECT + 1
      && s.inodes[ino].addrs[NDIRECT] == b && b != 0
  }

  predicate BlockOk(s: Fs, sb: Super, b: nat) {
    && UseOk(s, b)
    && (InUse(s.disk, sb, b) <==> s.owner[b] != Free)
    && BitmapBlock(sb, b) in s.owner && s.owner[BitmapBlock(sb, b)] == Meta
  }

  /** Every block has one use; bitmap, block maps and account agree in every direction:
      no block is in two files or twice in one, and none is lost. */
  ghost predicate Accounted(s: Fs, sb: Super) {
    && SuperOk(sb) && s.disk.Keys == s.owner.Keys && s.inodes.Keys == s.ext.Keys
    && (forall b :: b in s.disk <==> 0 <= b < sb.size)
    && (forall b {:trigger BlockOk(s, sb, b)} :: 0 <= b < sb.size ==> BlockOk(s, sb, b))
    && (forall ino {:trigger FileOk(s, ino)} :: ino in s.inodes ==> FileOk(s, ino))
  }

  /** Two places of files never share a block. */
  lemma {:induction false} MapsAreInjective(s: Fs, sb: Super, ino: nat, bn: nat, ino1: nat, bn1: nat)
    requires Accounted(s, sb) && ino in s.inodes && ino1 in s.inodes && bn < MAXFILE && bn1 < MAXFILE
    requires Addr(s, ino, bn) != 0 && Addr(s, ino, bn) == Addr(s, ino1, bn1)
    ensures ino == ino1 && bn == bn1
    ensures InUse(s.disk, sb, Addr(s, ino, bn))
  {
    assert FileOk(s, ino) && FileOk(s, ino1) && MapOk(s, ino, bn) && MapOk(s, ino1, bn1);
    assert BlockOk(s, sb, Addr(s, ino, bn));
  }

  // --- Steps -------------------------------------------------------------------------------

  lemma {:induction false} BitmapInRange(s: Fs, sb: Super, b: nat)
    requires Accounted(s, sb) && b < sb.size
    ensures BitmapBlock(sb, b) in s.disk && s.owner[BitmapBlock(sb, b)] == Meta
  {
    assert BlockOk(s, sb, b);
  }

  /** A write to a block that is neither an indirect block nor a data block of ino leaves ino's view. */
  lemma {:induction false} AddrKept(s: Fs, sb: Super, b: nat, content: Block, ino: nat, bn: nat)
    requires Accounted(s, sb) && b in s.owner && !s.owner[b].Indirect?
    ensures Addr(s.(disk := s.disk[b := content]), ino, bn) == Addr(s, ino, bn)
  {
    if ino in s.inodes {
      assert FileOk(s, ino);
    }
  }

  /** balloc: the bit set, the block zeroed; it is in no map yet. */
  function Taken(s: Fs, sb: Super, b: nat): Fs
    requires BitmapBlock(sb, b) in s.disk
  {
    s.(disk := WithBit(s.disk, sb, b)[b := Zeros()], owner := s.owner[b := Other])
  }

  lemma {:induction false} TakenKeeps(s: Fs, sb: Super, b: nat)
    requires Accounted(s, sb) && b < sb.size && s.owner[b] == Free
    ensures BitmapBlock(sb, b) in s.disk && BitmapBlock(sb, b) != b && b in s.disk
    ensures Accounted(Taken(s, sb, b), sb)
    ensures forall ino: nat, bn: nat :: Addr(Taken(s, sb, b), ino, bn) == Addr(s, ino, bn)
  {
    BitmapInRange(s, sb, b);
    var s1 := Taken(s, sb, b);
    forall ino: nat, bn: nat
      ensures Addr(s1, ino, bn) == Addr(s, ino, bn)
    {
      if ino in s.inodes {
        assert FileOk(s, ino);
      }
    }
    forall c | 0 <= c < sb.size
      ensures BlockOk(s1, sb, c)
    {
      assert BlockOk(s, sb, c);
      BitChanged(s.disk, sb, b, c);
    }
    forall ino | ino in s1.inodes
      ensures FileOk(s1, ino)
    {
      assert FileOk(s, ino);
      forall bn | 0 <= bn < MAXFILE
        ensures MapOk(s1, ino, bn)
      {
        assert MapOk(s, ino, bn);
      }
    }
  }

  /** The block found its place among the direct ones. */
  function WithDirect(s: Fs, ino: nat, b: Word): Fs
    requires ino in s.inodes && ino in s.ext && s.ext[ino] < |s.inodes[ino].addrs|
  {
    var ip, bn := s.inodes[ino], s.ext[ino];
    s.(inodes := s.inodes[ino := ip.(addrs := ip.addrs[bn := b])], owner := s.owner[b := Data(ino, bn)],
        ext := s.ext[ino := bn + 1])
  }

  lemma {:induction false} WithDirectKeeps(s: Fs, sb: Super, ino: nat, b: Word)
    requires Accounted(s, sb) && ino in s.inodes && s.ext[ino] < NDIRECT && b in s.owner && s.owner[b] == Other
    ensures |s.inodes[ino].addrs| == NDIRECT + 1
    ensures Accounted(WithDirect(s, ino, b), sb)
    ensures forall e: nat, bn: nat ::
              Addr(WithDirect(s, ino, b), e, bn) == if e == ino && bn == s.ext[ino] then b else Addr(s, e, bn)
  {
    assert FileOk(s, ino) && BlockOk(s, sb, b);
    var s1 := WithDirect(s, ino, b);
    forall c | 0 <= c < sb.size
      ensures BlockOk(s1, sb, c)
    {
      assert BlockOk(s, sb, c);
    }
    forall e | e in s1.inodes
      ensures FileOk(s1, e)
    {
      assert FileOk(s, e);
      forall bn | 0 <= bn < MAXFILE
        ensures MapOk(s1, e, bn)
      {
        assert MapOk(s, e, bn);
      }
    }
  }

  /** The zeroed block became the indirect block. */
  function WithIndirect(s: Fs, ino: nat, b: Word): Fs
    requires ino in s.inodes && |s.inodes[ino].addrs| == NDIRECT + 1
  {
    var ip := s.inodes[ino];
    s.(inodes := s.inodes[ino := ip.(addrs := ip.addrs[NDIRECT := b])], owner := s.owner[b := Indirect(ino)])
  }

  lemma {:induction false} WithIndirectKeeps(s: Fs, sb: Super, ino: nat, b: Word)
    requires Accounted(s, sb) && ino in s.inodes && s.ext[ino] >= NDIRECT && b in s.owner && s.owner[b] == Other
    requires |s.inodes[ino].addrs| == NDIRECT + 1 && s.inodes[ino].addrs[NDIRECT] == 0 && s.disk[b] == Zeros()
    ensures Accounted(WithIndirect(s, ino, b), sb)
    ensures forall e: nat, bn: nat :: Addr(WithIndirect(s, ino, b), e, bn) == Addr(s, e, bn)
  {
    assert FileOk(s, ino) && BlockOk(s, sb, b);
    var s1 := WithIndirect(s, ino, b);
    forall e: nat, bn: nat
      ensures Addr(s1, e, bn) == Addr(s, e, bn)
    {
      if e == ino && NDIRECT <= bn < MAXFILE {
        NoWordsInZeros(bn - NDIRECT);
      }
    }
    forall c | 0 <= c < sb.size
      ensures BlockOk(s1, sb, c)
    {
      assert BlockOk(s, sb, c);
    }
    forall e | e in s1.inodes
      ensures FileOk(s1, e)
    {
      assert FileOk(s, e);
      forall bn | 0 <= bn < MAXFILE
        ensures MapOk(s1, e, bn)
      {
        assert MapOk(s, e, bn);
      }
    }
  }

  /** The block's number was stored in the indirect block. */
  function WithEntry(s: Fs, ino: nat, b: Word): Fs
    requires ino in s.inodes && |s.inodes[ino].addrs| == NDIRECT + 1 && s.inodes[ino].addrs[NDIRECT] in s.disk
    requires ino in s.ext && NDIRECT <= s.ext[ino] < MAXFILE
  {
    var ind, bn := s.inodes[ino].addrs[NDIRECT], s.ext[ino];
    s.(disk := s.disk[ind := WithWord(s.disk[ind], bn - NDIRECT, b)], owner := s.owner[b := Data(ino, bn)],
        ext := s.ext[ino := bn + 1])
  }

  lemma {:induction false} WithEntryKeeps(s: Fs, sb: Super, ino: nat, b: Word)
    requires Accounted(s, sb) && ino in s.inodes && NDIRECT <= s.ext[ino] < MAXFILE && b in s.owner
             && s.owner[b] == Other
    requires |s.inodes[ino].addrs| == NDIRECT + 1 && s.inodes[ino].addrs[NDIRECT] != 0
    ensures s.inodes[ino].addrs[NDIRECT] in s.disk && s.inodes[ino].addrs[NDIRECT] != b
    ensures Accounted(WithEntry(s, ino, b), sb)
    ensures forall e: nat, bn: nat ::
              Addr(WithEntry(s, ino, b), e, bn) == if e == ino && bn == s.ext[ino] then b else Addr(s, e, bn)
  {
    assert FileOk(s, ino) && BlockOk(s, sb, b);
    var ind := s.inodes[ino].addrs[NDIRECT];
    var s1 := WithEntry(s, ino, b);
    forall e: nat, bn: nat
      ensures Addr(s1, e, bn) == if e == ino && bn == s.ext[ino] then b else Addr(s, e, bn)
    {
      if e in s.inodes {
        assert FileOk(s, e);
        if NDIRECT <= bn < MAXFILE {
          WordStored(s.disk[ind], s.ext[ino] - NDIRECT, b, bn - NDIRECT);
        }
      }
    }
    forall c | 0 <= c < sb.size
      ensures BlockOk(s1, sb, c)
    {
      assert BlockOk(s, sb, c);
    }
    forall e | e in s1.inodes
      ensures FileOk(s1, e)
    {
      assert FileOk(s, e);
      forall bn | 0 <= bn < MAXFILE
        ensures MapOk(s1, e, bn)
      {
        assert MapOk(s, e, bn);
      }
    }
  }

  /** A write to a data block changes no map. */
  lemma {:induction false} DataWritten(s: Fs, sb: Super, a: nat, content: Block)
    requires Accounted(s, sb) && a in s.owner && s.owner[a].Data?
    ensures Accounted(s.(disk := s.disk[a := content]), sb)
    ensures forall e: nat, bn: nat :: Addr(s.(disk := s.disk[a := content]), e, bn) == Addr(s, e, bn)
  {
    var s1 := s.(disk := s.disk[a := content]);
    forall e: nat, bn: nat
      ensures Addr(s1, e, bn) == Addr(s, e, bn)
    {
      AddrKept(s, sb, a, content, e, bn);
    }
    forall c | 0 <= c < sb.size
      ensures BlockOk(s1, sb, c)
    {
      assert BlockOk(s, sb, c);
    }
    forall e | e in s1.inodes
      ensures FileOk(s1, e)
    {
      assert FileOk(s, e);
      forall bn | 0 <= bn < MAXFILE
        ensures MapOk(s1, e, bn)
      {
        assert MapOk(s, e, bn);
      }
    }
  }
}
