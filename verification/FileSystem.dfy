/** Files as the block layer stores them: inodes, direct and indirect block addresses, the free
    bit map, and who owns which block. */
module FileSystem {
  import opened Common

  const BSIZE: nat := 2048
  const NDIRECT: nat := 11
  const NINDIRECT: nat := 512
  const MAXFILE: nat := NDIRECT + NINDIRECT
  const BPB: nat := 16384
  const IPB: nat := 25

  type Byte = x: int | 0 <= x < 0x100
  type Short = x: int | 0 <= x < 0x1_0000
  type Word = x: int | 0 <= x < 0x1_0000_0000

  type Bytes = seq<Byte>

  /** Where things are: data blocks start at `datastart`, everything below is metadata. */
  datatype Layout = Layout(size: nat, ninodes: nat, inodestart: nat, bmapstart: nat, datastart: nat) {
    predicate Valid() {
      0 < datastart <= size < 0x1_0000_0000
    }
    /** The block holding the bit of block `b`. */
    function BitBlock(b: int): int {
      b / BPB + bmapstart
    }
    /** The block holding inode `i`. */
    function InodeBlock(i: nat): nat {
      i / IPB + inodestart
    }
  }

  datatype Inode = Inode(mode: Short, nlink: Short, size: Word, addrs: seq<int>, uid: Word, gid: Word,
                         major: Short, minor: Short, lmtime: Word, ctime: Word)

  /** The file system as seen through the buffer and inode caches. */
  datatype Fs = Fs(blocks: seq<Bytes>, bitmap: seq<bool>, inodes: seq<Inode>)

  function ZeroBlock(): (b: Bytes)
    ensures |b| == BSIZE
  {
    seq(BSIZE, _ => 0)
  }

  // ---------------------------------------------------------------- words in an indirect block

  /** The number that `n` bytes from position `k` on make, the first one lowest. */
  function Value(b: Bytes, k: nat, n: nat): (w: nat)
    requires k + n <= |b|
    decreases |b|, n
  {
    if n == 0 then 0 else b[k] as int + 0x100 * Value(b, k + 1, n - 1)
  }

  lemma FourBytes(b: Bytes, k: nat)
    requires k + 4 <= |b|
    ensures Value(b, k, 4)
         == b[k] as int + 0x100 * b[k + 1] as int + 0x1_0000 * b[k + 2] as int + 0x100_0000 * b[k + 3] as int
    ensures Value(b, k, 4) < 0x1_0000_0000
  {
    assert Value(b, k + 4, 0) == 0;
    assert Value(b, k + 3, 1) == b[k + 3] as int;
    assert Value(b, k + 2, 2) == b[k + 2] as int + 0x100 * b[k + 3] as int;
  }

  function WordAt(b: Bytes, j: nat): (w: int) {
    if |b| == BSIZE && j < NINDIRECT then Value(b, 4 * j, 4) else 0
  }

  function SetWord(b: Bytes, j: nat, w: Word): (r: Bytes)
    requires |b| == BSIZE && j < NINDIRECT
    ensures |r| == BSIZE
  {
    b[4 * j := w % 0x100][4 * j + 1 := w / 0x100 % 0x100]
     [4 * j + 2 := w / 0x1_0000 % 0x100][4 * j + 3 := w / 0x100_0000]
  }

  lemma WordOfBytes(w: Word)
    ensures w % 0x100 + 0x100 * (w / 0x100 % 0x100) + 0x1_0000 * (w / 0x1_0000 % 0x100)
              + 0x100_0000 * (w / 0x100_0000) == w
  {
    assert w / 0x1_0000 == w / 0x100 / 0x100 && w / 0x100_0000 == w / 0x1_0000 / 0x100;
  }

  lemma WordRoundTrip(b: Bytes, j: nat, w: Word, k: nat)
    requires |b| == BSIZE && j < NINDIRECT
    ensures WordAt(SetWord(b, j, w), k) == if k == j then w else WordAt(b, k)
  {
    var r := SetWord(b, j, w);
    if k < NINDIRECT {
      FourBytes(r, 4 * k);
      FourBytes(b, 4 * k);
    }
    if k == j {
      WordOfBytes(w);
      assert r[4 * j] == w % 0x100 && r[4 * j + 1] == w / 0x100 % 0x100;
      assert r[4 * j + 2] == w / 0x1_0000 % 0x100 && r[4 * j + 3] == w / 0x100_0000;
    } else if k < NINDIRECT {
      assert r[4 * k] == b[4 * k] && r[4 * k + 1] == b[4 * k + 1] && r[4 * k + 2] == b[4 * k + 2] &&
             r[4 * k + 3] == b[4 * k + 3];
    }
  }

  lemma ZeroWords(j: nat)
    ensures WordAt(ZeroBlock(), j) == 0
  {
    if j < NINDIRECT {
      FourBytes(ZeroBlock(), 4 * j);
    }
  }

  // ---------------------------------------------------------------- addresses

  /** The address in slot `n` of inode `i`: a file block for `n < MAXFILE`, the indirect block for
      `n == MAXFILE`; zero when there is none. */
  function Addr(fs: Fs, i: int, n: int): int {
    if !(0 <= i < |fs.inodes|) || |fs.inodes[i].addrs| != NDIRECT + 1 || !(0 <= n <= MAXFILE) then 0
    else if n < NDIRECT then fs.inodes[i].addrs[n]
    else if n == MAXFILE then fs.inodes[i].addrs[NDIRECT]
    else
      var p := fs.inodes[i].addrs[NDIRECT];
      if 0 < p < |fs.blocks| then WordAt(fs.blocks[p], n - NDIRECT) else 0
  }

  predicate Wf(l: Layout, fs: Fs) {
    && l.Valid()
    && |fs.blocks| == l.size && |fs.bitmap| == l.size && |fs.inodes| == l.ninodes
    && (forall b :: 0 <= b < |fs.blocks| ==> |fs.blocks[b]| == BSIZE)
    && (forall i :: 0 <= i < |fs.inodes| ==> |fs.inodes[i].addrs| == NDIRECT + 1)
  }

  /** Exact ownership: a data block's bit is set exactly when it is in one slot, and `owner` says
      which; metadata blocks are always marked in use. */
  ghost predicate Owned(l: Layout, fs: Fs, owner: map<int, (int, int)>) {
    && Wf(l, fs)
    && (forall i: nat, n: nat :: Addr(fs, i, n) != 0 ==>
          Addr(fs, i, n) in owner && owner[Addr(fs, i, n)] == (i, n))
    && (forall b :: b in owner ==>
          l.datastart <= b < l.size && fs.bitmap[b] && Addr(fs, owner[b].0, owner[b].1) == b)
    && (forall b :: l.datastart <= b < l.size && fs.bitmap[b] ==> b in owner)
    && (forall b :: 0 <= b < l.datastart ==> fs.bitmap[b])
  }

  // ---------------------------------------------------------------- elementary updates

  /** Mark block `b` in use and zero it. */
  function Alloc(fs: Fs, b: nat): (r: Fs)
    requires b < |fs.bitmap| && b < |fs.blocks|
  {
    fs.(bitmap := fs.bitmap[b := true], blocks := fs.blocks[b := ZeroBlock()])
  }

  function SetAddrs(fs: Fs, i: nat, k: nat, b: Word): (r: Fs)
    requires i < |fs.inodes| && k < |fs.inodes[i].addrs|
  {
    fs.(inodes := fs.inodes[i := fs.inodes[i].(addrs := fs.inodes[i].addrs[k := b])])
  }

  /** Put address `b` in slot `n` of inode `i`. */
  function SetAddr(fs: Fs, i: nat, n: nat, b: Word): (r: Fs)
    requires i < |fs.inodes| && |fs.inodes[i].addrs| == NDIRECT + 1 && n <= MAXFILE
    requires NDIRECT <= n < MAXFILE ==>
               0 < Addr(fs, i, MAXFILE) < |fs.blocks| && |fs.blocks[Addr(fs, i, MAXFILE)]| == BSIZE
  {
    if n < NDIRECT then SetAddrs(fs, i, n, b)
    else if n == MAXFILE then SetAddrs(fs, i, NDIRECT, b)
    else
      var p := Addr(fs, i, MAXFILE);
      fs.(blocks := fs.blocks[p := SetWord(fs.blocks[p], n - NDIRECT, b)])
  }

  predicate Slot(fs: Fs, i: nat, n: nat) {
    i < |fs.inodes| && n <= MAXFILE && (NDIRECT <= n < MAXFILE ==> Addr(fs, i, MAXFILE) != 0)
  }

  /** Allocating `b` changes no address: no slot reads a free block. */
  lemma AllocAddr(l: Layout, fs: Fs, owner: map<int, (int, int)>, b: nat, j: nat, m: nat)
    requires Owned(l, fs, owner) && b < l.size && !fs.bitmap[b]
    ensures Addr(Alloc(fs, b), j, m) == Addr(fs, j, m)
  {
    assert Addr(fs, j, MAXFILE) != 0 ==> Addr(fs, j, MAXFILE) in owner;
  }

  /** Setting a slot of a fresh state changes exactly that slot. */
  lemma SetAddrAddr(l: Layout, fs: Fs, owner: map<int, (int, int)>, i: nat, n: nat, b: nat, j: nat, m: nat)
    requires Owned(l, fs, owner) && Slot(fs, i, n) && Addr(fs, i, n) == 0
    requires l.datastart <= b < l.size && !fs.bitmap[b]
    ensures var fs1 := Alloc(fs, b);
            Slot(fs1, i, n) && Addr(fs1, i, MAXFILE) == Addr(fs, i, MAXFILE)
    ensures Addr(fs, i, MAXFILE) < l.size
    ensures Addr(SetAddr(Alloc(fs, b), i, n, b), j, m) == if j == i && m == n then b else Addr(fs, j, m)
  {
    var fs1 := Alloc(fs, b);
    AllocAddr(l, fs, owner, b, i, MAXFILE);
    AllocAddr(l, fs, owner, b, j, m);
    AllocAddr(l, fs, owner, b, j, MAXFILE);
    var p, q := Addr(fs, i, MAXFILE), Addr(fs, j, MAXFILE);
    assert p != 0 ==> p in owner && owner[p] == (i, MAXFILE);
    assert q != 0 ==> q in owner && owner[q] == (j, MAXFILE);
    if NDIRECT <= n < MAXFILE && NDIRECT <= m < MAXFILE {
      WordRoundTrip(fs1.blocks[p], n - NDIRECT, b, m - NDIRECT);
    }
    if n == MAXFILE && NDIRECT <= m < MAXFILE {
      ZeroWords(m - NDIRECT);
    }
  }

  // ---------------------------------------------------------------- contents

  /** The contents of file block `n` of inode `i`; empty when it is not mapped. */
  function BlockOf(fs: Fs, i: nat, n: nat): Bytes {
    if n < MAXFILE && 0 < Addr(fs, i, n) < |fs.blocks| then fs.blocks[Addr(fs, i, n)] else []
  }

  /** Byte `p` of the file behind inode `i`; zero where nothing is mapped. */
  function ByteAt(fs: Fs, i: nat, p: nat): Byte {
    var b := BlockOf(fs, i, p / BSIZE);
    if |b| == BSIZE then b[p % BSIZE] else 0
  }

  /** The file behind inode `i`. */
  function Content(fs: Fs, i: nat): (c: Bytes) {
    if i < |fs.inodes| then seq(fs.inodes[i].size, p requires 0 <= p => ByteAt(fs, i, p)) else []
  }

  /** Every block below the file's size is mapped. */
  ghost predicate Mapped(fs: Fs, i: nat) {
    i < |fs.inodes| && forall n: nat :: n * BSIZE < fs.inodes[i].size ==> n < MAXFILE && Addr(fs, i, n) != 0
  }

  /** Give slot `n` of inode `i` the free block `b`. */
  function AllocAt(fs: Fs, i: nat, n: nat, b: Word): (r: Fs)
    requires b < |fs.bitmap| && b < |fs.blocks|
    requires i < |fs.inodes| && |fs.inodes[i].addrs| == NDIRECT + 1 && n <= MAXFILE
    requires var fs1 := Alloc(fs, b);
             NDIRECT <= n < MAXFILE ==>
               0 < Addr(fs1, i, MAXFILE) < |fs1.blocks| && |fs1.blocks[Addr(fs1, i, MAXFILE)]| == BSIZE
  {
    SetAddr(Alloc(fs, b), i, n, b)
  }

  /** A free block put in an empty slot is owned by that slot, and nobody else's slot changes. */
  lemma AllocAtOwned(l: Layout, fs: Fs, owner: map<int, (int, int)>, i: nat, n: nat, b: nat)
    requires Owned(l, fs, owner) && Slot(fs, i, n) && Addr(fs, i, n) == 0
    requires l.datastart <= b < l.size && !fs.bitmap[b]
    ensures NDIRECT <= n < MAXFILE ==>
               0 < Addr(Alloc(fs, b), i, MAXFILE) < l.size &&
               |Alloc(fs, b).blocks[Addr(Alloc(fs, b), i, MAXFILE)]| == BSIZE
    ensures Owned(l, AllocAt(fs, i, n, b), owner[b := (i, n)])
    ensures forall j: nat, m: nat :: Addr(AllocAt(fs, i, n, b), j, m) == if j == i && m == n then b else Addr(fs, j, m)
  {
    AllocAddr(l, fs, owner, b, i, MAXFILE);
    assert NDIRECT <= n < MAXFILE ==> Addr(fs, i, MAXFILE) in owner;
    var fs' := AllocAt(fs, i, n, b);
    forall j: nat, m: nat
      ensures Addr(fs', j, m) == if j == i && m == n then b else Addr(fs, j, m)
    {
      SetAddrAddr(l, fs, owner, i, n, b, j, m);
    }
    assert b !in owner;
  }

  /** Allocation is invisible in file contents: an unmapped block reads as zeroes, and so does a fresh one. */
  lemma AllocAtBytes(l: Layout, fs: Fs, owner: map<int, (int, int)>, i: nat, n: nat, b: nat)
    requires Owned(l, fs, owner) && Slot(fs, i, n) && Addr(fs, i, n) == 0
    requires l.datastart <= b < l.size && !fs.bitmap[b]
    requires NDIRECT <= n < MAXFILE ==>
               0 < Addr(Alloc(fs, b), i, MAXFILE) < l.size &&
               |Alloc(fs, b).blocks[Addr(Alloc(fs, b), i, MAXFILE)]| == BSIZE
    ensures forall j: nat, p: nat :: ByteAt(AllocAt(fs, i, n, b), j, p) == ByteAt(fs, j, p)
  {
    AllocAtOwned(l, fs, owner, i, n, b);
    var fs' := AllocAt(fs, i, n, b);
    forall j: nat, p: nat
      ensures ByteAt(fs', j, p) == ByteAt(fs, j, p)
    {
      var m := p / BSIZE;
      var d := Addr(fs, j, m);
      assert Addr(fs', j, m) == if j == i && m == n then b else d;
      assert d != 0 ==> d in owner && owner[d] == (j, m);
      var q := Addr(fs, i, MAXFILE);
      assert q != 0 ==> q in owner && owner[q] == (i, MAXFILE);
    }
  }

  /** Overwrite a mapped file block. */
  function WriteBlock(fs: Fs, i: nat, n: nat, data: Bytes): (r: Fs)
    requires 0 < Addr(fs, i, n) < |fs.blocks|
  {
    fs.(blocks := fs.blocks[Addr(fs, i, n) := data])
  }

  /** Writing a file block moves no address. */
  lemma WriteBlockOwned(l: Layout, fs: Fs, owner: map<int, (int, int)>, i: nat, n: nat, data: Bytes)
    requires Owned(l, fs, owner) && n < MAXFILE && Addr(fs, i, n) != 0 && |data| == BSIZE
    ensures 0 < Addr(fs, i, n) < |fs.blocks|
    ensures Owned(l, WriteBlock(fs, i, n, data), owner)
    ensures forall j: nat, m: nat :: Addr(WriteBlock(fs, i, n, data), j, m) == Addr(fs, j, m)
  {
    var d := Addr(fs, i, n);
    assert d in owner && owner[d] == (i, n);
    var fs' := WriteBlock(fs, i, n, data);
    forall j: nat, m: nat
      ensures Addr(fs', j, m) == Addr(fs, j, m)
    {
      var q := Addr(fs, j, MAXFILE);
      assert q != 0 ==> q in owner && owner[q] == (j, MAXFILE);
    }
  }

  lemma WriteBlockBytes(l: Layout, fs: Fs, owner: map<int, (int, int)>, i: nat, n: nat, data: Bytes)
    requires Owned(l, fs, owner) && n < MAXFILE && 0 < Addr(fs, i, n) < |fs.blocks| && |data| == BSIZE
    ensures forall j: nat, p: nat :: ByteAt(WriteBlock(fs, i, n, data), j, p)
                                  == if j == i && p / BSIZE == n then data[p % BSIZE] else ByteAt(fs, j, p)
  {
    WriteBlockOwned(l, fs, owner, i, n, data);
    var fs' := WriteBlock(fs, i, n, data);
    forall j: nat, p: nat
      ensures ByteAt(fs', j, p) == if j == i && p / BSIZE == n then data[p % BSIZE] else ByteAt(fs, j, p)
    {
      var m := p / BSIZE;
      assert Addr(fs', j, m) == Addr(fs, j, m);
      assert Addr(fs, j, m) != 0 ==> owner[Addr(fs, j, m)] == (j, m);
      assert owner[Addr(fs, i, n)] == (i, n);
    }
  }

  // ---------------------------------------------------------------- what blocks store

  /** What a block of the disk has to store: some inodes, some bits, or bytes. */
  datatype Image = Inodes(inodes: seq<Inode>) | Bits(bits: seq<bool>) | Data(bytes: Bytes)

  /** The entries of `s` from `lo` up to `hi`, as far as there are any. */
  function Part<T>(s: seq<T>, lo: int, hi: int): (r: seq<T>)
    ensures 0 <= lo < |s| && lo < hi ==> |r| == (if hi < |s| then hi else |s|) - lo
    ensures 0 <= lo < |s| && lo < hi ==> forall i :: lo <= i < hi && i < |s| ==> r[i - lo] == s[i]
  {
    if 0 <= lo < |s| && lo < hi then s[lo..if hi < |s| then hi else |s|] else []
  }

  /** What block `b` stores: some inodes as on disk, some of the bit map, or a block of data. */
  function ImageOf(l: Layout, fs: Fs, disk: seq<Inode>, b: int): (r: Image) {
    if b < l.bmapstart then Inodes(Part(disk, (b - l.inodestart) * IPB, (b - l.inodestart + 1) * IPB))
    else if b < l.datastart then Bits(Part(fs.bitmap, (b - l.bmapstart) * BPB, (b - l.bmapstart + 1) * BPB))
    else Data(if 0 <= b < |fs.blocks| then fs.blocks[b] else [])
  }

  /** Writing a block changes what that block stores and no other. */
  lemma BlockImage(l: Layout, fs: Fs, disk: seq<Inode>, k: nat, data: Bytes, b: int)
    requires k < |fs.blocks| && b != k
    ensures ImageOf(l, fs.(blocks := fs.blocks[k := data]), disk, b) == ImageOf(l, fs, disk, b)
  {
  }

  lemma BitImage(l: Layout, fs: Fs, disk: seq<Inode>, c: nat, v: bool, b: int)
    requires c < |fs.bitmap| && b != l.BitBlock(c)
    ensures ImageOf(l, fs.(bitmap := fs.bitmap[c := v]), disk, b) == ImageOf(l, fs, disk, b)
  {
    var lo := (b - l.bmapstart) * BPB;
    assert Part(fs.bitmap[c := v], lo, lo + BPB) == Part(fs.bitmap, lo, lo + BPB);
  }

  lemma InodeImage(l: Layout, fs: Fs, disk: seq<Inode>, i: nat, ino: Inode, b: int)
    requires i < |disk| && b != l.InodeBlock(i)
    ensures ImageOf(l, fs, disk[i := ino], b) == ImageOf(l, fs, disk, b)
  {
    var lo := (b - l.inodestart) * IPB;
    assert Part(disk[i := ino], lo, lo + IPB) == Part(disk, lo, lo + IPB);
  }
}
