/** The program that builds the first file system image: files are appended block after block
    from one running counter, and the bit map is written once at the end. */
module Mkfs {
  import opened Common
  import opened FileSystem
  import opened FreeBlocks
  import opened FileOps

  const NINODES: nat := 200
  const NLOG: nat := LOGSIZE
  const NBITMAP: nat := FSSIZE / BPB + 1
  const NINODEBLOCKS: nat := NINODES / IPB + 1
  const NMETA: nat := 2 + NLOG + NINODEBLOCKS + NBITMAP

  /** Boot block, super block, log, inode blocks, bit map, then data. */
  const LAYOUT: Layout := Layout(FSSIZE, NINODES, 2 + NLOG, 2 + NLOG + NINODEBLOCKS, NMETA)

  /** The parts of the disk do not overlap: every inode and bit map block lies in its own region
      below the data. */
  lemma LayoutFits(i: nat, b: nat)
    requires i < NINODES && b < FSSIZE
    ensures LAYOUT.Valid()
    ensures 2 + NLOG <= LAYOUT.InodeBlock(i) < LAYOUT.bmapstart
    ensures LAYOUT.bmapstart <= LAYOUT.BitBlock(b) < NMETA == LAYOUT.datastart == 45
  {
  }

  /** The bit map that marks exactly the first `used` blocks. */
  function UsedBits(size: nat, used: nat): (r: seq<bool>) {
    seq(size, b => b < used)
  }

  /** Exactly the blocks below the file's size are mapped. */
  ghost predicate ExactlyMapped(fs: Fs, i: nat) {
    i < |fs.inodes| && fs.inodes[i].size <= MAXFILE * BSIZE
    && forall n: nat :: n < MAXFILE ==> (Addr(fs, i, n) != 0 <==> n * BSIZE < fs.inodes[i].size)
  }

  /** The blocks that mapping file block `n` of inode `i` takes. */
  function Missing(fs: Fs, i: nat, n: nat): (k: nat) {
    (if n >= NDIRECT && Addr(fs, i, MAXFILE) == 0 then 1 else 0) + (if Addr(fs, i, n) == 0 then 1 else 0)
  }

  /** The blocks a file of `size` bytes has. */
  function Blocks(size: nat): (n: nat) {
    (size + BSIZE - 1) / BSIZE
  }

  /** The blocks an append of `n` bytes to inode `i` takes: those it grows by, and the indirect block if it
      needs one and has none. */
  function Needed(fs: Fs, i: nat, n: nat): (k: int)
    requires i < |fs.inodes|
  {
    var size := fs.inodes[i].size;
    Blocks(size + n) - Blocks(size) + if Blocks(size + n) > NDIRECT && Addr(fs, i, MAXFILE) == 0 then 1 else 0
  }

  class Image {
    const l: Layout
    var fs: Fs
    var freeblock: nat
    ghost var owner: map<int, (int, int)>

    /** The image as it will be once the bit map is written. */
    ghost function View(): Fs
      reads this
    {
      fs.(bitmap := UsedBits(l.size, freeblock))
    }

    /** Blocks are handed out in order: those below the counter are metadata or owned by one slot,
        those above it are still zero. */
    ghost predicate Sound()
      reads this
    {
      && l.datastart <= freeblock <= l.size
      && Owned(l, View(), owner)
      && forall b :: freeblock <= b < |fs.blocks| ==> fs.blocks[b] == ZeroBlock()
    }

    ghost predicate Valid()
      reads this
    {
      && Sound()
      && (forall i: nat :: i < l.ninodes ==> ExactlyMapped(View(), i))
      && ZeroTails(View())
    }

    /** A zeroed disk with no files. */
    constructor (l: Layout)
      requires l.Valid()
      ensures this.l == l && Valid() && freeblock == l.datastart
      ensures forall i: nat :: Content(View(), i) == []
    {
      this.l := l;
      fs := Fs(seq(l.size, _ => ZeroBlock()), [],
               seq(l.ninodes, _ => Inode(0, 0, 0, seq(NDIRECT + 1, _ => 0), 0, 0, 0, 0, 0, 0)));
      freeblock := l.datastart;
      owner := map[];
      new;
      forall i: nat, n: nat
        ensures Addr(View(), i, n) == 0
      {
      }
    }

    /** Take the next block for the empty slot `n` of inode `i`. */
    method TakeBlock(i: nat, n: nat) returns (ok: bool)
      requires Sound() && Slot(View(), i, n) && Addr(View(), i, n) == 0
      modifies `fs, `freeblock, `owner
      ensures ok <==> old(freeblock) < l.size
      ensures !ok ==> fs == old(fs) && freeblock == old(freeblock) && owner == old(owner)
      ensures ok ==>
                && Sound() && freeblock == old(freeblock) + 1
                && (forall j: nat, m: nat ::
                     Addr(View(), j, m) == if j == i && m == n then old(freeblock) else Addr(old(View()), j, m))
                && SameBytes(old(View()), View()) && SameInodes(old(View()), View(), i)
    {
      if freeblock == l.size {
        return false;
      }
      var b := freeblock;
      ghost var v := View();
      AllocAtOwned(l, v, owner, i, n, b);
      AllocAtBytes(l, v, owner, i, n, b);
      assert fs.blocks[b := ZeroBlock()] == fs.blocks;
      assert Alloc(v, b) == fs.(bitmap := UsedBits(l.size, b + 1));
      fs := SetAddr(fs, i, n, b);
      owner := owner[b := (i, n)];
      freeblock := freeblock + 1;
      assert View() == AllocAt(v, i, n, b);
      ok := true;
    }

    /** Map file block `n`, taking an indirect block first where one is needed. */
    method MapBlock(i: nat, n: nat) returns (ok: bool)
      requires Sound() && i < l.ninodes && n < MAXFILE
      modifies `fs, `freeblock, `owner
      ensures ok <==> old(freeblock) + Missing(old(View()), i, n) <= l.size
      ensures ok ==> freeblock == old(freeblock) + Missing(old(View()), i, n)
      ensures ok ==> (Addr(View(), i, MAXFILE) != 0 <==> n >= NDIRECT || Addr(old(View()), i, MAXFILE) != 0)
      ensures ok ==>
                && Sound() && Addr(View(), i, n) != 0
                && SameBytes(old(View()), View()) && SameInodes(old(View()), View(), i)
                && (forall j: nat, m: nat ::
                     m < MAXFILE && !(j == i && m == n) ==> Addr(View(), j, m) == Addr(old(View()), j, m))
                && (Addr(old(View()), i, n) != 0 ==> Addr(View(), i, n) == Addr(old(View()), i, n))
    {
      ok := true;
      if n >= NDIRECT && Addr(fs, i, MAXFILE) == 0 {
        ok := TakeBlock(i, MAXFILE);
        if !ok {
          return;
        }
      }
      if Addr(fs, i, n) == 0 {
        ok := TakeBlock(i, n);
      }
    }

    /** One turn of the append loop: `p` goes to position `off`, inside a single file block. */
    method AppendPiece(i: nat, off: nat, p: Bytes) returns (ok: bool)
      requires Sound() && i < l.ninodes && off / BSIZE < MAXFILE && 0 < |p| <= BSIZE - off % BSIZE
      modifies `fs, `freeblock, `owner
      ensures ok <==> old(freeblock) + Missing(old(View()), i, off / BSIZE) <= l.size
      ensures ok ==> freeblock == old(freeblock) + Missing(old(View()), i, off / BSIZE)
      ensures ok ==> (Addr(View(), i, MAXFILE) != 0 <==> off / BSIZE >= NDIRECT || Addr(old(View()), i, MAXFILE) != 0)
      ensures ok ==> Sound() && PieceAppended(old(View()), View(), i, off, p)
    {
      var n := off / BSIZE;
      ok := MapBlock(i, n);
      if !ok {
        return;
      }
      ghost var mid := View();
      var x := Addr(fs, i, n);
      assert x == Addr(mid, i, n) && x in owner;
      var buf := fs.blocks[x];
      buf := buf[..off % BSIZE] + p + buf[off % BSIZE + |p|..];
      WriteBlockOwned(l, mid, owner, i, n, buf);
      WriteBlockBytes(l, mid, owner, i, n, buf);
      fs := fs.(blocks := fs.blocks[x := buf]);
      assert View() == WriteBlock(mid, i, n, buf);
      SpliceBytes(old(View()), mid, View(), i, off, p, buf);
    }

    /** The next piece of an append that has stored `done` bytes already; with it, `next` bytes are stored. */
    method AppendNext(ghost v: Fs, ghost first: nat, i: nat, p: Bytes, done: nat, off: nat)
      returns (ok: bool, next: nat)
      requires Sound() && i < l.ninodes && done < |p|
      requires Appending(v, View(), i, p[..done]) && off == v.inodes[i].size + done &&
               Paid(v, View(), i, done, first, freeblock)
      modifies `fs, `freeblock, `owner
      ensures done < next <= |p|
      ensures ok == Fits(v, i, next, first, l.size)
      ensures ok ==> Sound() && Appending(v, View(), i, p[..next]) && Paid(v, View(), i, next, first, freeblock)
    {
      var n1 := PieceSize(off, |p| - done);
      next := done + n1;
      if off / BSIZE >= MAXFILE {
        return false, next;
      }
      ghost var before := View();
      PayNext(v, before, i, p, done, next, off);
      ok := AppendPiece(i, off, p[done..next]);
      if ok {
        AppendMore(v, before, View(), i, p, done, n1);
      }
    }

    /** The append loop, before the new size is stored. */
    method AppendBytes(i: nat, p: Bytes) returns (ok: bool)
      requires Sound() && i < l.ninodes && ExactlyMapped(View(), i)
      modifies `fs, `freeblock, `owner
      ensures ok == Fits(old(View()), i, |p|, old(freeblock), l.size)
      ensures ok ==> Sound() && Appending(old(View()), View(), i, p)
    {
      var off, done := fs.inodes[i].size, 0;
      ghost var v, first := View(), freeblock;
      IndirectThere(v, i);
      while done < |p|
        invariant 0 <= done <= |p| && off == v.inodes[i].size + done && Fits(v, i, done, first, l.size) == true
        invariant Appending(v, View(), i, p[..done]) && Sound() && Paid(v, View(), i, done, first, freeblock)
      {
        var next;
        ok, next := AppendNext(v, first, i, p, done, off);
        if !ok {
          NeedsMore(v, i, next, |p|, first, l.size);
          return;
        }
        off, done := off + (next - done), next;
      }
      assert p[..done] == p;
      ok := true;
    }

    /** Append `p` to inode `i`; `false` when a file would get too long or the disk is full. */
    method Iappend(i: nat, p: Bytes) returns (ok: bool)
      requires Valid() && i < l.ninodes
      modifies `fs, `freeblock, `owner
      ensures ok <==> Fits(old(View()), i, |p|, old(freeblock), l.size)
      ensures ok ==>
                && Valid()
                && Content(View(), i) == old(Content(View(), i)) + p
                && forall j: nat :: j != i ==> Content(View(), j) == old(Content(View(), j))
    {
      ghost var v := View();
      ok := AppendBytes(i, p);
      if ok {
        ghost var w := View();
        fs := fs.(inodes := fs.inodes[i := fs.inodes[i].(size := fs.inodes[i].size + |p|)]);
        ResizeKeeps(l, w, View(), owner, i);
        AppendDone(v, w, View(), i, p);
      }
    }

    /** Round the root directory up to whole blocks and write the bit map; `false` when it needs more
        than the one bit map block mkfs writes. */
    method Finish(root: nat) returns (ok: bool)
      requires Valid() && root < l.ninodes
      modifies `fs
      ensures ok <==> freeblock < BSIZE * 8
      ensures ok ==>
                && Owned(l, fs, owner)
                && (forall j: nat :: j < l.ninodes && j != root ==> Mapped(fs, j))
                && (Mapped(fs, root) <==> old(fs).inodes[root].size % BSIZE != 0)
                && Rounded(old(View()), fs, root)
    {
      ghost var v := View();
      assert ExactlyMapped(v, root);
      var off := (fs.inodes[root].size / BSIZE + 1) * BSIZE;
      fs := fs.(inodes := fs.inodes[root := fs.inodes[root].(size := off)]);
      ok := freeblock < BSIZE * 8;
      if ok {
        ResizeKeeps(l, v, View(), owner, root);
        fs := fs.(bitmap := UsedBits(l.size, freeblock));
        RootRounding(v, fs, root);
      }
    }
  }

  /** Beyond the end of a file there are only zeros. */
  ghost predicate ZeroTails(fs: Fs) {
    forall j: nat, p: nat :: j < |fs.inodes| && p >= fs.inodes[j].size ==> ByteAt(fs, j, p) == 0
  }

  /** `root` has grown by zeros to the next multiple of the block size, by a whole block if it was at one; no
      other file has changed. */
  ghost predicate Rounded(v: Fs, fs: Fs, root: nat) {
    && root < |v.inodes| && root < |fs.inodes|
    && fs.inodes[root].size % BSIZE == 0 && v.inodes[root].size < fs.inodes[root].size <= v.inodes[root].size + BSIZE
    && (forall p :: 0 <= p < fs.inodes[root].size ==>
          Content(fs, root)[p] == if p < v.inodes[root].size then Content(v, root)[p] else 0)
    && forall j: nat :: j != root ==> Content(fs, j) == Content(v, j)
  }

  /** Part-way through an append: the bytes so far are there and exactly their blocks are mapped. */
  ghost predicate Appending(v: Fs, w: Fs, i: nat, p: Bytes) {
    && i < |v.inodes| && v.inodes[i].size + |p| <= MAXFILE * BSIZE
    && BytesWritten(v, w, i, v.inodes[i].size, p) && SameInodes(v, w, i)
    && (forall j: nat, m: nat :: m < MAXFILE && j != i ==> Addr(w, j, m) == Addr(v, j, m))
    && (forall m: nat :: m < MAXFILE ==> (Addr(w, i, m) != 0 <==> m * BSIZE < v.inodes[i].size + |p|))
  }

  /** The file does not get too long, and the disk has the blocks an append of `n` bytes takes. */
  predicate Fits(v: Fs, i: nat, n: nat, freeblock: nat, size: nat) {
    i < |v.inodes| && v.inodes[i].size + n <= MAXFILE * BSIZE && freeblock + Needed(v, i, n) <= size
  }

  /** The first `n` bytes of an append have taken what they need. */
  predicate Paid(v: Fs, w: Fs, i: nat, n: nat, first: nat, freeblock: nat) {
    && i < |v.inodes| && freeblock == first + Needed(v, i, n)
    && (Addr(w, i, MAXFILE) != 0 <==> Addr(v, i, MAXFILE) != 0 || Blocks(v.inodes[i].size + n) > NDIRECT)
  }

  lemma NeedsMore(v: Fs, i: nat, a: nat, b: nat, freeblock: nat, size: nat)
    requires i < |v.inodes| && a <= b
    ensures Fits(v, i, b, freeblock, size) ==> Fits(v, i, a, freeblock, size)
  {
  }

  /** A piece inside one block costs that block if it is the first in it, and perhaps the indirect block. */
  lemma PayNext(v: Fs, w: Fs, i: nat, p: Bytes, done: nat, next: nat, off: nat)
    requires done < next <= |p| && Appending(v, w, i, p[..done]) && off == v.inodes[i].size + done
    requires off / BSIZE < MAXFILE && next - done <= BSIZE - off % BSIZE
    requires Addr(w, i, MAXFILE) != 0 <==> Addr(v, i, MAXFILE) != 0 || Blocks(v.inodes[i].size + done) > NDIRECT
    ensures Needed(v, i, next) == Needed(v, i, done) + Missing(w, i, off / BSIZE)
    ensures Blocks(v.inodes[i].size + next) > NDIRECT <==> off / BSIZE >= NDIRECT
    ensures v.inodes[i].size + next <= MAXFILE * BSIZE
  {
    var n := off / BSIZE;
    assert v.inodes[i].size + next == off + (next - done);
    BlocksAt(off, next - done);
    assert Addr(w, i, n) != 0 <==> n * BSIZE < off;
  }

  lemma BlocksAt(off: nat, m: nat)
    requires 0 < m <= BSIZE - off % BSIZE
    ensures Blocks(off + m) == off / BSIZE + 1 && Blocks(off) == off / BSIZE + if off % BSIZE == 0 then 0 else 1
    ensures off / BSIZE * BSIZE < off <==> off % BSIZE != 0
  {
  }

  /** A file with more than the direct blocks has its indirect block. */
  lemma IndirectThere(v: Fs, i: nat)
    requires ExactlyMapped(v, i)
    ensures Needed(v, i, 0) == 0 && (Blocks(v.inodes[i].size) > NDIRECT ==> Addr(v, i, MAXFILE) != 0)
  {
    var n := Blocks(v.inodes[i].size) - 1;
    if n >= NDIRECT {
      assert n * BSIZE < v.inodes[i].size && n < MAXFILE;
      assert Addr(v, i, n) != 0;
    }
  }

  /** One piece of an append: its bytes are there, in a mapped block, and no other address moved. */
  ghost predicate PieceAppended(before: Fs, after: Fs, i: nat, off: nat, p: Bytes) {
    && Addr(after, i, off / BSIZE) != 0
    && BytesWritten(before, after, i, off, p) && SameInodes(before, after, i)
    && (forall j: nat, m: nat ::
         m < MAXFILE && !(j == i && m == off / BSIZE) ==> Addr(after, j, m) == Addr(before, j, m))
  }

  lemma AppendMore(v: Fs, before: Fs, after: Fs, i: nat, p: Bytes, done: nat, m: nat)
    requires done + m <= |p| && Appending(v, before, i, p[..done])
    requires var off := v.inodes[i].size + done;
             && off / BSIZE < MAXFILE && 0 < m <= BSIZE - off % BSIZE
             && PieceAppended(before, after, i, off, p[done..done + m])
    ensures Appending(v, after, i, p[..done + m])
  {
    BytesWrittenMore(v, before, after, i, v.inodes[i].size, p, done, m);
  }

  lemma AppendDone(v: Fs, w: Fs, after: Fs, i: nat, p: Bytes)
    requires Appending(v, w, i, p) && forall j: nat :: j < |v.inodes| ==> ExactlyMapped(v, j)
    requires SameBytes(w, after) && forall j: nat, m: nat :: Addr(after, j, m) == Addr(w, j, m)
    requires after.inodes == w.inodes[i := w.inodes[i].(size := v.inodes[i].size + |p|)]
    ensures forall j: nat :: j < |v.inodes| ==> ExactlyMapped(after, j)
    ensures ZeroTails(v) ==> ZeroTails(after)
    ensures Content(after, i) == Content(v, i) + p
    ensures forall j: nat :: j != i ==> Content(after, j) == Content(v, j)
  {
    forall j: nat | j < |v.inodes|
      ensures ExactlyMapped(after, j)
    {
      assert ExactlyMapped(v, j);
    }
    AppendIsWrite(v, w, after, i, p);
    forall j: nat, q: nat | j < |after.inodes| && q >= after.inodes[j].size
      ensures ZeroTails(v) ==> ByteAt(after, j, q) == 0
    {
    }
    WriteIsSplice(v, after, i, v.inodes[i].size, p);
  }

  lemma AppendIsWrite(v: Fs, w: Fs, after: Fs, i: nat, p: Bytes)
    requires Appending(v, w, i, p) && SameBytes(w, after)
    requires after.inodes == w.inodes[i := w.inodes[i].(size := v.inodes[i].size + |p|)]
    ensures FileWritten(v, after, i, v.inodes[i].size, p)
  {
    forall j: nat, q: nat
      ensures ByteAt(after, j, q) == if j == i && v.inodes[i].size <= q < v.inodes[i].size + |p|
                then p[q - v.inodes[i].size] else ByteAt(v, j, q)
    {
      assert ByteAt(after, j, q) == ByteAt(w, j, q);
    }
  }

  /** Rounding the root directory up leaves it fully mapped exactly when it did not already end on a
      block boundary; otherwise its last block is missing and reading it would have to allocate. */
  lemma RootRounding(v: Fs, after: Fs, root: nat)
    requires forall j: nat :: j < |v.inodes| ==> ExactlyMapped(v, j)
    requires root < |v.inodes| && v.inodes[root].size <= MAXFILE * BSIZE
    requires forall j: nat, m: nat :: Addr(after, j, m) == Addr(v, j, m)
    requires after.inodes == v.inodes[root := v.inodes[root].(size := (v.inodes[root].size / BSIZE + 1) * BSIZE)]
    ensures forall j: nat :: j < |v.inodes| && j != root ==> Mapped(after, j)
    ensures Mapped(after, root) <==> v.inodes[root].size % BSIZE != 0
  {
    forall j: nat | j < |v.inodes| && j != root
      ensures Mapped(after, j)
    {
      assert ExactlyMapped(v, j);
    }
    assert ExactlyMapped(v, root);
    var n := v.inodes[root].size / BSIZE;
    if v.inodes[root].size % BSIZE == 0 {
      assert n * BSIZE < after.inodes[root].size;
      assert n < MAXFILE ==> Addr(v, root, n) == 0;
    }
  }

  /** An image whose only file is `root`, empty before its size was rounded up to one block. */
  function RoundedImage(l: Layout, root: nat): (fs: Fs) {
    Fs(seq(l.size, _ => ZeroBlock()), UsedBits(l.size, l.datastart),
       seq(l.ninodes, i => Inode(0, 0, if i == root then BSIZE else 0, seq(NDIRECT + 1, _ => 0), 0, 0, 0, 0, 0, 0)))
  }

  /** Reading the first byte of such a directory allocates a block if there is one, and panics if there is none. */
  lemma RootReadAllocates(l: Layout, root: nat)
    requires l.Valid() && root < l.ninodes
    ensures var fs := RoundedImage(l, root);
            && Owned(l, fs, map[]) && ReadEnd(fs, root, 0, 1) == 1 && !MappedFor(fs, root, 0, 1)
            && (ReadFails(fs, root, 0, 1) <==> l.datastart == l.size)
  {
    var fs := RoundedImage(l, root);
    forall i: nat, n: nat
      ensures Addr(fs, i, n) == 0
    {
    }
    LackingOne(fs, root, 0);
    NoneClear(fs.bitmap);
    assert Addr(fs, root, 0) == 0;
    assert l.datastart < l.size ==> !fs.bitmap[l.datastart];
  }
}
