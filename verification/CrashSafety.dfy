/** The file system on top of the log: an operation that logs every block it changes happens wholly or
    not at all, whenever the power fails. */
module CrashSafety {
  import opened Common
  import opened BlockDevice
  import opened RedoLog
  import opened DiskFormat
  import opened FileSystem
  import opened FileOps
  import Mkfs

  /** The layout and the log agree: boot, super block and log come first, then inodes, bit map and data. */
  predicate Fits(g: Geometry, l: Layout) {
    && g.Valid() && l.Valid() && g.nblocks == l.size && g.start + g.size <= l.inodestart
    && l.inodestart + l.ninodes / IPB < l.bmapstart && l.bmapstart + l.size / BPB < l.datastart
  }

  lemma MkfsFits()
    ensures Fits(Geometry(2, Mkfs.NLOG, FSSIZE), Mkfs.LAYOUT)
  {
  }

  // ---------------------------------------------------------------- what a disk stores

  /** The home blocks of `d` store the file system, encoded by `enc`. */
  ghost predicate Stores(l: Layout, enc: Image -> Block, d: Disk, fs: Fs, disk: seq<Inode>) {
    |d| == l.size && forall b :: l.inodestart <= b < l.size ==> d[b] == enc(ImageOf(l, fs, disk, b))
  }

  /** The file system as the inodes on disk describe it. */
  function OnDisk(fs: Fs, disk: seq<Inode>): Fs {
    fs.(inodes := disk)
  }

  /** The contents of file `j` as the disk has them. */
  function StoredContent(fs: Fs, disk: seq<Inode>, j: nat): Bytes {
    Content(OnDisk(fs, disk), j)
  }

  /** A file system in good order: every address is that of a data block. */
  ghost predicate Good(l: Layout, fs: Fs, disk: seq<Inode>) {
    && Wf(l, OnDisk(fs, disk))
    && forall j: nat, n: nat ::
         Addr(OnDisk(fs, disk), j, n) == 0 || l.datastart <= Addr(OnDisk(fs, disk), j, n) < l.size
  }

  /** Between operations, the copies on disk are the inodes. */
  ghost predicate WrittenThrough(fs: Fs, disk: seq<Inode>) {
    |disk| == |fs.inodes| && forall i :: 0 <= i < |disk| ==> SameOnDisk(fs.inodes[i], disk[i])
  }

  lemma SameAddrs(fs: Fs, disk: seq<Inode>, j: nat, n: nat)
    requires WrittenThrough(fs, disk)
    ensures Addr(OnDisk(fs, disk), j, n) == Addr(fs, j, n)
  {
    if j < |disk| {
      assert SameOnDisk(fs.inodes[j], disk[j]);
      assert disk[j].addrs == fs.inodes[j].addrs;
    }
  }

  /** With inodes written through, files on disk are the files in memory. */
  lemma StoredIsContent(fs: Fs, disk: seq<Inode>, j: nat)
    requires WrittenThrough(fs, disk)
    ensures StoredContent(fs, disk, j) == Content(fs, j)
  {
    if j < |disk| {
      assert SameOnDisk(fs.inodes[j], disk[j]);
      assert disk[j].size == fs.inodes[j].size;
      forall p: nat
        ensures ByteAt(OnDisk(fs, disk), j, p) == ByteAt(fs, j, p)
      {
        SameAddrs(fs, disk, j, p / BSIZE);
      }
    }
  }

  /** Exact ownership between operations is good order on disk. */
  lemma OwnedIsGood(l: Layout, fs: Fs, disk: seq<Inode>, owner: map<int, (int, int)>)
    requires Owned(l, fs, owner) && WrittenThrough(fs, disk)
    ensures Good(l, fs, disk)
  {
    forall i | 0 <= i < |disk|
      ensures |disk[i].addrs| == NDIRECT + 1
    {
      assert SameOnDisk(fs.inodes[i], disk[i]);
      assert disk[i].addrs == fs.inodes[i].addrs;
    }
    forall j: nat, n: nat
      ensures Addr(OnDisk(fs, disk), j, n) == 0 || l.datastart <= Addr(OnDisk(fs, disk), j, n) < l.size
    {
      SameAddrs(fs, disk, j, n);
      assert Addr(fs, j, n) != 0 ==> Addr(fs, j, n) in owner;
    }
  }

  /** What a file system in good order has to store in a block fits there. */
  lemma GoodFits(g: Geometry, l: Layout, fs: Fs, disk: seq<Inode>, b: nat)
    requires Fits(g, l) && Good(l, fs, disk) && l.inodestart <= b < l.size
    ensures Fit(l, b, ImageOf(l, fs, disk, b))
  {
    forall j | 0 <= j < |disk|
      ensures Storable(disk[j])
    {
      forall k | 0 <= k <= NDIRECT
        ensures 0 <= disk[j].addrs[k] < 0x1_0000_0000
      {
        var n: nat := if k < NDIRECT then k else MAXFILE;
        assert Addr(OnDisk(fs, disk), j, n) == disk[j].addrs[k];
      }
    }
  }

  /** One disk does not store two different sets of inodes, nor two different data blocks. */
  lemma StoredOnce(g: Geometry, l: Layout, enc: Image -> Block, d: Disk, fsA: Fs, diskA: seq<Inode>, fsB: Fs,
                   diskB: seq<Inode>)
    requires Fits(g, l) && Encodes(l, enc) && Good(l, fsA, diskA) && Good(l, fsB, diskB)
    requires Stores(l, enc, d, fsA, diskA) && Stores(l, enc, d, fsB, diskB)
    ensures diskA == diskB && forall b :: l.datastart <= b < l.size ==> fsA.blocks[b] == fsB.blocks[b]
  {
    forall b | l.inodestart <= b < l.size
      ensures ImageOf(l, fsA, diskA, b) == ImageOf(l, fsB, diskB, b)
    {
      GoodFits(g, l, fsA, diskA, b);
      GoodFits(g, l, fsB, diskB, b);
      assert d[b] == enc(ImageOf(l, fsA, diskA, b)) == enc(ImageOf(l, fsB, diskB, b));
    }
    forall i | 0 <= i < |diskA|
      ensures diskA[i] == diskB[i]
    {
      var b := l.InodeBlock(i);
      assert l.inodestart <= b < l.bmapstart;
      assert ImageOf(l, fsA, diskA, b) == ImageOf(l, fsB, diskB, b);
      var lo := (b - l.inodestart) * IPB;
      assert Part(diskA, lo, lo + IPB)[i - lo] == Part(diskB, lo, lo + IPB)[i - lo];
    }
    forall b | l.datastart <= b < l.size
      ensures fsA.blocks[b] == fsB.blocks[b]
    {
      assert ImageOf(l, fsA, diskA, b) == ImageOf(l, fsB, diskB, b);
    }
  }

  /** The disk determines the files: whatever file systems in good order it stores, their files are the same. */
  lemma StoredUnique(g: Geometry, l: Layout, enc: Image -> Block, d: Disk, fsA: Fs, diskA: seq<Inode>, fsB: Fs,
                     diskB: seq<Inode>, j: nat)
    requires Fits(g, l) && Encodes(l, enc) && Good(l, fsA, diskA) && Good(l, fsB, diskB)
    requires Stores(l, enc, d, fsA, diskA) && Stores(l, enc, d, fsB, diskB)
    ensures StoredContent(fsA, diskA, j) == StoredContent(fsB, diskB, j)
  {
    StoredOnce(g, l, enc, d, fsA, diskA, fsB, diskB);
    var a, b := OnDisk(fsA, diskA), OnDisk(fsB, diskB);
    forall p: nat
      ensures ByteAt(a, j, p) == ByteAt(b, j, p)
    {
      var n := p / BSIZE;
      assert Addr(a, j, MAXFILE) == 0 || l.datastart <= Addr(a, j, MAXFILE) < l.size;
      assert Addr(a, j, n) == Addr(b, j, n);
      assert Addr(a, j, n) == 0 || l.datastart <= Addr(a, j, n) < l.size;
    }
  }

  // ---------------------------------------------------------------- what an operation commits

  /** The header that the calls of `log_write` build. */
  function Header(calls: seq<Call>): (hd: seq<nat>) {
    if calls == [] then [] else
    var c := calls[|calls|-1];
    if c.bno < 0 then Header(calls[..|calls|-1]) else Absorb(Header(calls[..|calls|-1]), c.bno)
  }

  /** The buffers that the calls of `log_write` pin, with what they hold. */
  function Pins(enc: Image -> Block, calls: seq<Call>): (pinned: map<nat, Block>) {
    if calls == [] then map[] else
    var c := calls[|calls|-1];
    if c.bno < 0 then Pins(enc, calls[..|calls|-1]) else Pins(enc, calls[..|calls|-1])[c.bno := enc(c.image)]
  }

  /** The blocks that a commit after the calls writes, in header order. */
  function Values(enc: Image -> Block, calls: seq<Call>): (vals: seq<Block>) {
    PinnedValues(Header(calls), Pins(enc, calls))
  }

  /** The header names the logged blocks, and each is pinned with its last image. */
  lemma {:induction false} HeaderAndPins(enc: Image -> Block, calls: seq<Call>, b: nat)
    ensures b in Header(calls) <==> LastImage(calls, b).Some?
    ensures LastImage(calls, b).Some? ==> b in Pins(enc, calls) && Pins(enc, calls)[b] == enc(LastImage(calls, b).value)
  {
    if calls != [] {
      HeaderAndPins(enc, calls[..|calls|-1], b);
    }
  }

  /** What is committed is what the logged blocks store after the operation. */
  lemma ValuesAreImages(l: Layout, enc: Image -> Block, fs: Fs, disk: seq<Inode>, calls: seq<Call>, logged: set<int>,
                        i: nat)
    requires Current(l, fs, disk, calls, logged) && i < |Header(calls)|
    ensures Header(calls)[i] in logged && Values(enc, calls)[i] == enc(ImageOf(l, fs, disk, Header(calls)[i]))
  {
    var b := Header(calls)[i];
    assert b in Header(calls);
    HeaderAndPins(enc, calls, b);
    assert LastImage(calls, b) == Some(ImageOf(l, fs, disk, b));
  }

  /** A block that was not logged stores what it stored. */
  lemma UnloggedKept(g: Geometry, l: Layout, fs0: Fs, disk0: seq<Inode>, fs1: Fs, disk1: seq<Inode>, logged: set<int>,
                     b: nat)
    requires Fits(g, l) && Covers(l, fs0, fs1, logged) && CoversInodes(l, disk0, disk1, logged) && b !in logged &&
             l.inodestart <= b
    ensures ImageOf(l, fs1, disk1, b) == ImageOf(l, fs0, disk0, b)
  {
    if b < l.bmapstart {
      var lo := (b - l.inodestart) * IPB;
      forall i | lo <= i < lo + IPB && 0 <= i < |disk0|
        ensures disk1[i] == disk0[i]
      {
        assert l.InodeBlock(i) == b;
      }
      assert Part(disk0, lo, lo + IPB) == Part(disk1, lo, lo + IPB);
    } else if b < l.datastart {
      var lo := (b - l.bmapstart) * BPB;
      forall c | lo <= c < lo + BPB && 0 <= c < |fs0.bitmap|
        ensures fs1.bitmap[c] == fs0.bitmap[c]
      {
        assert l.BitBlock(c) == b;
      }
      assert Part(fs0.bitmap, lo, lo + BPB) == Part(fs1.bitmap, lo, lo + BPB);
    }
  }

  /** An operation from one state to another: every change is covered, and every logged block current. */
  ghost predicate Operation(l: Layout, fs0: Fs, disk0: seq<Inode>, fs1: Fs, disk1: seq<Inode>, calls: seq<Call>,
                            logged: set<int>) {
    Covers(l, fs0, fs1, logged) && CoversInodes(l, disk0, disk1, logged) && Current(l, fs1, disk1, calls, logged)
  }

  /** Committing what the operation logged turns the old file system into the new one. */
  lemma CommitStores(g: Geometry, l: Layout, enc: Image -> Block, h: Disk, fs0: Fs, disk0: seq<Inode>,
                     fs1: Fs, disk1: seq<Inode>, calls: seq<Call>, logged: set<int>)
    requires Fits(g, l) && Stores(l, enc, h, fs0, disk0) && Operation(l, fs0, disk0, fs1, disk1, calls, logged)
    ensures Stores(l, enc, Committed(h, Header(calls), Values(enc, calls)), fs1, disk1)
  {
    var hd := Header(calls);
    forall b | l.inodestart <= b < l.size
      ensures Committed(h, hd, Values(enc, calls))[b] == enc(ImageOf(l, fs1, disk1, b))
    {
      HeaderAndPins(enc, calls, b);
      if b in hd {
        ValuesAreImages(l, enc, fs1, disk1, calls, logged, Position(hd, b));
      } else {
        UnloggedKept(g, l, fs0, disk0, fs1, disk1, logged, b);
      }
    }
  }

  lemma SettledStores(g: Geometry, l: Layout, enc: Image -> Block, d: Disk, h: Disk, fs: Fs, disk: seq<Inode>)
    requires Fits(g, l) && Settled(g, d, h) && Stores(l, enc, h, fs, disk)
    ensures Stores(l, enc, d, fs, disk)
  {
    forall b | l.inodestart <= b < l.size
      ensures d[b] == enc(ImageOf(l, fs, disk, b))
    {
      assert g.Home(b);
    }
  }

  /** The disk that the last of some recoveries leaves, all but the last of them interrupted. */
  function Final(g: Geometry, ds: seq<Disk>): Disk
    requires |ds| > 0 && ValidDisk(g, ds[|ds|-1])
  {
    Apply(ds[|ds|-1], RecoverWrites(g, ds[|ds|-1]))
  }

  /** The commit of the calls' blocks on disk `d` was interrupted after `k` writes, and then some recoveries. */
  ghost predicate Crashed(g: Geometry, enc: Image -> Block, d: Disk, calls: seq<Call>, k: nat, ds: seq<Disk>) {
    && ValidDisk(g, d) && ValidHeader(g, Header(calls)) && Header(calls) != [] && |ds| > 0 && FailedRecoveries(g, ds)
    && k <= |CommitWrites(g, d[g.start], Header(calls), Values(enc, calls))|
    && CrashAt(d, CommitWrites(g, d[g.start], Header(calls), Values(enc, calls)), k, ds[0])
  }

  /** Commit what an operation logged, crash anywhere in that, crash in any number of recoveries, then let
      one finish: the disk stores the file system before the operation or the one after it. */
  lemma OperationIsAtomic(g: Geometry, l: Layout, enc: Image -> Block, d: Disk, fs0: Fs, disk0: seq<Inode>,
                          fs1: Fs, disk1: seq<Inode>, calls: seq<Call>, logged: set<int>, k: nat, ds: seq<Disk>)
    requires Fits(g, l) && Settled(g, d, d) && Stores(l, enc, d, fs0, disk0)
    requires Operation(l, fs0, disk0, fs1, disk1, calls, logged) && Crashed(g, enc, d, calls, k, ds)
    ensures ValidDisk(g, ds[|ds|-1])
    ensures Stores(l, enc, Final(g, ds), fs0, disk0) || Stores(l, enc, Final(g, ds), fs1, disk1)
  {
    var hd, vals := Header(calls), Values(enc, calls);
    CommitIsAtomic(g, d, d, hd, vals, k, ds);
    CommitStores(g, l, enc, d, fs0, disk0, fs1, disk1, calls, logged);
    if Settled(g, Final(g, ds), d) {
      SettledStores(g, l, enc, Final(g, ds), d, fs0, disk0);
    } else {
      SettledStores(g, l, enc, Final(g, ds), Committed(d, hd, vals), fs1, disk1);
    }
  }

  /** The disk stores a file system in good order, and in every one it stores file `i` holds `c` and every
      other file what it holds in `fs`. */
  ghost predicate Determines(l: Layout, enc: Image -> Block, d: Disk, fs: Fs, i: nat, c: Bytes) {
    && (exists fs', disk' :: Good(l, fs', disk') && Stores(l, enc, d, fs', disk'))
    && forall fs', disk', j: nat {:trigger Stores(l, enc, d, fs', disk'), StoredContent(fs', disk', j)} ::
         Good(l, fs', disk') && Stores(l, enc, d, fs', disk') ==>
           StoredContent(fs', disk', j) == if j == i then c else Content(fs, j)
  }

  lemma DeterminesContent(g: Geometry, l: Layout, enc: Image -> Block, d: Disk, fs: Fs, fs1: Fs, disk1: seq<Inode>,
                          i: nat, c: Bytes)
    requires Fits(g, l) && Encodes(l, enc) && Good(l, fs1, disk1) && WrittenThrough(fs1, disk1) &&
             Stores(l, enc, d, fs1, disk1)
    requires Content(fs1, i) == c && forall j: nat :: j != i ==> Content(fs1, j) == Content(fs, j)
    ensures Determines(l, enc, d, fs, i, c)
  {
    forall fs', disk', j: nat | Good(l, fs', disk') && Stores(l, enc, d, fs', disk')
      ensures StoredContent(fs', disk', j) == if j == i then c else Content(fs, j)
    {
      StoredUnique(g, l, enc, d, fs', disk', fs1, disk1, j);
      StoredIsContent(fs1, disk1, j);
    }
  }

  /** Power failure during a chunk of a file write: the disk after recovery determines that the file has
      its old contents or has all of the chunk, and that every other file is untouched. */
  lemma WriteSurvivesCrash(g: Geometry, l: Layout, enc: Image -> Block, d: Disk, fs0: Fs, disk0: seq<Inode>,
                           fs1: Fs, disk1: seq<Inode>, calls: seq<Call>, logged: set<int>, k: nat, ds: seq<Disk>,
                             i: nat, off: nat, src: Bytes)
    requires Fits(g, l) && Encodes(l, enc) && Settled(g, d, d) && Stores(l, enc, d, fs0, disk0)
    requires Good(l, fs0, disk0) && Good(l, fs1, disk1) && WrittenThrough(fs0, disk0) && WrittenThrough(fs1, disk1)
    requires FileWritten(fs0, fs1, i, off, src) && off <= fs0.inodes[i].size
    requires Operation(l, fs0, disk0, fs1, disk1, calls, logged) && Crashed(g, enc, d, calls, k, ds)
    ensures ValidDisk(g, ds[|ds|-1])
    ensures || Determines(l, enc, Final(g, ds), fs0, i, Content(fs0, i))
            || Determines(l, enc, Final(g, ds), fs0, i, Splice(Content(fs0, i), off, src))
  {
    OperationIsAtomic(g, l, enc, d, fs0, disk0, fs1, disk1, calls, logged, k, ds);
    WriteIsSplice(fs0, fs1, i, off, src);
    if Stores(l, enc, Final(g, ds), fs0, disk0) {
      DeterminesContent(g, l, enc, Final(g, ds), fs0, fs0, disk0, i, Content(fs0, i));
    } else {
      DeterminesContent(g, l, enc, Final(g, ds), fs0, fs1, disk1, i, Splice(Content(fs0, i), off, src));
    }
  }
}
