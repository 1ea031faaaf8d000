/** How inodes, bits and bytes are laid out in the words of a block, and that the contents of a block can be
    read back from its words. */
module DiskFormat {
  import opened BlockDevice
  import opened FileSystem
  import D = Division

  const BLOCK_WORDS: nat := 4 * SECTOR_WORDS
  /** A stored inode takes 80 bytes. */
  const INODE_WORDS: nat := 20

  /** The inode can be stored: its addresses are words. */
  predicate Storable(ino: Inode) {
    |ino.addrs| == NDIRECT + 1 && forall k :: 0 <= k < |ino.addrs| ==> 0 <= ino.addrs[k] < 0x1_0000_0000
  }

  /** How many of `n` entries lie in the `k`th part of `per` entries. */
  function PartSize(n: nat, per: nat, k: int): (m: nat) {
    if k < 0 || n <= k * per then 0 else if n < (k + 1) * per then n - k * per else per
  }

  /** Contents that block `b` can have in the given layout. */
  predicate Fit(l: Layout, b: int, x: Image) {
    if b < l.bmapstart then
      && x.Inodes? && |x.inodes| == PartSize(l.ninodes, IPB, b - l.inodestart)
      && forall k :: 0 <= k < |x.inodes| ==> Storable(x.inodes[k])
    else if b < l.datastart then
      x.Bits? && |x.bits| == PartSize(l.size, BPB, b - l.bmapstart)
    else
      x.Data? && |x.bytes| == BSIZE
  }

  /** Two different contents of one block are encoded differently. */
  ghost predicate Encodes(l: Layout, enc: Image -> Block) {
    forall b: int, x, y {:trigger Fit(l, b, x), Fit(l, b, y)} ::
      Fit(l, b, x) && Fit(l, b, y) && enc(x) == enc(y) ==> x == y
  }

  // ---------------------------------------------------------------- the words of a block

  /** Word `k` of a stored inode. */
  function InodeWord(ino: Inode, k: nat): (w: int)
    requires Storable(ino)
    ensures 0 <= w < 0x1_0000_0000
  {
    if k == 0 then ino.mode
    else if k == 1 then ino.lmtime
    else if k == 2 then ino.ctime
    else if k == 3 then ino.major as int + 0x1_0000 * ino.minor as int
    else if k == 4 then ino.nlink
    else if k == 5 then ino.size
    else if k < 18 then ino.addrs[k - 6]
    else if k == 18 then ino.uid
    else ino.gid
  }

  /** Bits as a number, the first one lowest. */
  function Packed(bits: seq<bool>): (w: nat)
    ensures w < D.Pow2(|bits|)
  {
    if bits == [] then 0 else (if bits[0] then 1 else 0) + 2 * Packed(bits[1..])
  }

  lemma {:induction false} PowGrows(a: nat, b: nat)
    requires a <= b
    ensures D.Pow2(a) <= D.Pow2(b)
  {
    if a < b {
      PowGrows(a, b - 1);
    }
  }

  /** Word `w` of a block with the given contents. */
  function WordOf(x: Image, w: nat): (r: nat) {
    match x
    case Inodes(inodes) =>
      var k := w / INODE_WORDS;
      if k < |inodes| && Storable(inodes[k]) then InodeWord(inodes[k], w % INODE_WORDS) else 0
    case Bits(bits) => Packed(Part(bits, 32 * w, 32 * w + 32))
    case Data(bytes) => WordAt(bytes, w)
  }

  lemma WordFits(x: Image, w: nat)
    ensures WordOf(x, w) < 0x1_0000_0000
  {
    if x.Data? && |x.bytes| == BSIZE && w < NINDIRECT {
      FourBytes(x.bytes, 4 * w);
    }
    if x.Bits? {
      PowGrows(|Part(x.bits, 32 * w, 32 * w + 32)|, 32);
      assert D.Pow2(8) == 0x100 && D.Pow2(16) == 0x1_0000 && D.Pow2(24) == 0x100_0000;
    }
  }

  function SectorOf(x: Image, first: nat): (s: Sector)
    ensures |s| == SECTOR_WORDS && forall k :: 0 <= k < |s| ==> s[k] == WordOf(x, first + k)
  {
    seq<nat>(SECTOR_WORDS, k requires 0 <= k => WordOf(x, first + k))
  }

  /** The kernel's encoding. */
  function Encode(x: Image): (b: Block) {
    Block(SectorOf(x, 0), SectorOf(x, 128), SectorOf(x, 256), SectorOf(x, 384))
  }

  // ---------------------------------------------------------------- where things are

  /** Word `w` of a block. */
  function BlockWord(b: Block, w: nat): (r: nat) {
    if w < 128 then InSector(b.s0, w)
    else if w < 256 then InSector(b.s1, w - 128)
    else if w < 384 then InSector(b.s2, w - 256)
    else InSector(b.s3, w - 384)
  }

  function InSector(s: Sector, k: nat): (r: nat) {
    if k < |s| then s[k] else 0
  }

  lemma SectorWord(x: Image, first: nat, w: nat)
    requires first <= w < first + SECTOR_WORDS
    ensures InSector(SectorOf(x, first), w - first) == WordOf(x, w)
  {
  }

  lemma EncodedWord(x: Image, w: nat)
    requires w < BLOCK_WORDS
    ensures BlockWord(Encode(x), w) == WordOf(x, w)
  {
    SectorWord(x, if w < 128 then 0 else if w < 256 then 128 else if w < 384 then 256 else 384, w);
  }

  lemma InodeAt(x: seq<Inode>, i: nat, k: nat)
    requires i < |x| <= IPB && Storable(x[i]) && k < INODE_WORDS
    ensures BlockWord(Encode(Inodes(x)), 20 * i + k) == InodeWord(x[i], k)
  {
    var w := 20 * i + k;
    assert w / INODE_WORDS == i && w % INODE_WORDS == k;
    EncodedWord(Inodes(x), w);
  }

  /** The 20 words from word `o` of a block hold the inode as the C structure lays it out: the two device numbers
      share the fourth word, the addresses follow the size. */
  predicate LaidOut(b: Block, o: nat, ino: Inode) {
    && BlockWord(b, o) == ino.mode && BlockWord(b, o + 1) == ino.lmtime && BlockWord(b, o + 2) == ino.ctime
    && BlockWord(b, o + 3) % 0x1_0000 == ino.major && BlockWord(b, o + 3) / 0x1_0000 == ino.minor
    && BlockWord(b, o + 4) == ino.nlink && BlockWord(b, o + 5) == ino.size
    && (forall k :: 0 <= k < |ino.addrs| ==> ino.addrs[k] == BlockWord(b, o + 6 + k))
    && BlockWord(b, o + 18) == ino.uid && BlockWord(b, o + 19) == ino.gid
  }

  lemma FieldsAt(b: Block, o: nat, ino: Inode)
    requires Storable(ino)
    requires forall k: nat :: k < INODE_WORDS ==> InodeWord(ino, k) == BlockWord(b, o + k)
    ensures LaidOut(b, o, ino)
  {
    assert InodeWord(ino, 0) == BlockWord(b, o + 0) && InodeWord(ino, 1) == BlockWord(b, o + 1);
    assert InodeWord(ino, 2) == BlockWord(b, o + 2) && InodeWord(ino, 3) == BlockWord(b, o + 3);
    assert InodeWord(ino, 4) == BlockWord(b, o + 4) && InodeWord(ino, 5) == BlockWord(b, o + 5);
    assert InodeWord(ino, 18) == BlockWord(b, o + 18) && InodeWord(ino, 19) == BlockWord(b, o + 19);
    forall k | 0 <= k <= NDIRECT
      ensures ino.addrs[k] == BlockWord(b, o + 6 + k)
    {
      assert InodeWord(ino, k + 6) == BlockWord(b, o + (k + 6));
    }
  }

  /** Inode `i` of a block is laid out 80 bytes an inode from its start. */
  lemma InodeLayout(x: seq<Inode>, i: nat)
    requires i < |x| <= IPB && Storable(x[i])
    ensures LaidOut(Encode(Inodes(x)), 20 * i, x[i])
  {
    forall k: nat | k < INODE_WORDS
      ensures InodeWord(x[i], k) == BlockWord(Encode(Inodes(x)), 20 * i + k)
    {
      InodeAt(x, i, k);
    }
    FieldsAt(Encode(Inodes(x)), 20 * i, x[i]);
  }

  lemma {:induction false} PackedBit(bits: seq<bool>, k: nat)
    requires k < |bits|
    ensures D.Bit(Packed(bits), k) == if bits[k] then 1 else 0
  {
    if k == 0 {
      assert D.Pow2(0) == 1;
    } else {
      PackedBit(bits[1..], k - 1);
      D.NextBit(Packed(bits), Packed(bits[1..]), k);
    }
  }

  /** The bit of entry `i` of a block is bit `i` of the block, low bits first. */
  lemma BitLayout(x: seq<bool>, i: nat)
    requires i < |x| <= BPB
    ensures D.Bit(BlockWord(Encode(Bits(x)), i / 32), i % 32) == if x[i] then 1 else 0
  {
    var w := i / 32;
    EncodedWord(Bits(x), w);
    PackedBit(Part(x, 32 * w, 32 * w + 32), i % 32);
  }

  // ---------------------------------------------------------------- reading it back

  lemma SameWords(x: Image, y: Image, w: nat)
    requires Encode(x) == Encode(y) && w < BLOCK_WORDS
    ensures WordOf(x, w) == WordOf(y, w)
  {
    var first := if w < 128 then 0 else if w < 256 then 128 else if w < 384 then 256 else 384;
    SameSector(x, y, first, w - first);
  }

  lemma SameSector(x: Image, y: Image, first: nat, k: nat)
    requires SectorOf(x, first) == SectorOf(y, first) && k < SECTOR_WORDS
    ensures WordOf(x, first + k) == WordOf(y, first + k)
  {
    assert SectorOf(x, first)[k] == SectorOf(y, first)[k];
  }

  lemma SameInode(a: Inode, b: Inode)
    requires Storable(a) && Storable(b)
    requires forall k: nat :: k < INODE_WORDS ==> InodeWord(a, k) == InodeWord(b, k)
    ensures a == b
  {
    assert InodeWord(a, 0) == InodeWord(b, 0) && InodeWord(a, 1) == InodeWord(b, 1);
    assert InodeWord(a, 2) == InodeWord(b, 2) && InodeWord(a, 3) == InodeWord(b, 3);
    assert InodeWord(a, 4) == InodeWord(b, 4) && InodeWord(a, 5) == InodeWord(b, 5);
    assert InodeWord(a, 18) == InodeWord(b, 18) && InodeWord(a, 19) == InodeWord(b, 19);
    forall k | 0 <= k <= NDIRECT
      ensures a.addrs[k] == b.addrs[k]
    {
      assert InodeWord(a, k + 6) == InodeWord(b, k + 6);
    }
  }

  lemma {:induction false} SameBits(a: seq<bool>, b: seq<bool>)
    requires |a| == |b| && Packed(a) == Packed(b)
    ensures a == b
  {
    if a != [] {
      SameBits(a[1..], b[1..]);
    }
  }

  lemma InodesReadBack(x: seq<Inode>, y: seq<Inode>)
    requires |x| == |y| <= IPB && Encode(Inodes(x)) == Encode(Inodes(y))
    requires forall k :: 0 <= k < |x| ==> Storable(x[k]) && Storable(y[k])
    ensures x == y
  {
    forall i | 0 <= i < |x|
      ensures x[i] == y[i]
    {
      forall k: nat | k < INODE_WORDS
        ensures InodeWord(x[i], k) == InodeWord(y[i], k)
      {
        var w := INODE_WORDS * i + k;
        assert w / INODE_WORDS == i && w % INODE_WORDS == k;
        SameWords(Inodes(x), Inodes(y), w);
      }
      SameInode(x[i], y[i]);
    }
  }

  lemma BitsReadBack(x: seq<bool>, y: seq<bool>)
    requires |x| == |y| <= BPB && Encode(Bits(x)) == Encode(Bits(y))
    ensures x == y
  {
    forall i | 0 <= i < |x|
      ensures x[i] == y[i]
    {
      var w := i / 32;
      SameWords(Bits(x), Bits(y), w);
      SameBits(Part(x, 32 * w, 32 * w + 32), Part(y, 32 * w, 32 * w + 32));
      assert Part(x, 32 * w, 32 * w + 32)[i - 32 * w] == Part(y, 32 * w, 32 * w + 32)[i - 32 * w];
    }
  }

  lemma SameBytes(x: Bytes, y: Bytes, k: nat)
    requires k + 4 <= |x| && k + 4 <= |y| && Value(x, k, 4) == Value(y, k, 4)
    ensures x[k] == y[k] && x[k + 1] == y[k + 1] && x[k + 2] == y[k + 2] && x[k + 3] == y[k + 3]
  {
    FourBytes(x, k);
    FourBytes(y, k);
    assert x[k + 3] == y[k + 3];
    assert x[k + 2] == y[k + 2];
  }

  lemma BytesReadBack(x: Bytes, y: Bytes)
    requires |x| == |y| == BSIZE && Encode(Data(x)) == Encode(Data(y))
    ensures x == y
  {
    forall p | 0 <= p < |x|
      ensures x[p] == y[p]
    {
      var w := p / 4;
      SameWords(Data(x), Data(y), w);
      SameBytes(x, y, 4 * w);
      assert p - 4 * w in {0, 1, 2, 3};
    }
  }

  /** The kernel's encoding loses nothing, in any layout. */
  lemma KernelEncodes(l: Layout)
    ensures Encodes(l, Encode)
  {
    forall b: int, x, y | Fit(l, b, x) && Fit(l, b, y) && Encode(x) == Encode(y)
      ensures x == y
    {
      match x
      case Inodes(inodes) => InodesReadBack(inodes, y.inodes);
      case Bits(bits) => BitsReadBack(bits, y.bits);
      case Data(bytes) => BytesReadBack(bytes, y.bytes);
    }
  }

  /** A zero block is the encoding of free inodes, of clear bits and of zero bytes alike. */
  lemma ZerosAlike()
    ensures Encode(Inodes([])) == Encode(Bits([])) == Encode(Data(ZeroBlock()))
  {
    forall w: nat
      ensures WordOf(Inodes([]), w) == WordOf(Bits([]), w) == WordOf(Data(ZeroBlock()), w)
    {
      ZeroWords(w);
    }
  }
}
