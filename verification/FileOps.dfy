/** The operations on files: block allocation, the block map, reading, writing and truncating an
    inode, and the chunked write of an open file. */
module FileOps {
  import opened Common
  import opened FileSystem
  import opened FreeBlocks

  /** The bits of an inode that are written through to disk; `iupdate` leaves `ctime` alone. */
  predicate SameOnDisk(mem: Inode, disk: Inode) {
    mem.(ctime := 0) == disk.(ctime := 0)
  }

  datatype Outcome = Written | Refused | OutOfBlocks

  /** The contents `c` with `src` written at `off`, growing the file if needed. */
  function Splice(c: Bytes, off: nat, src: Bytes): (r: Bytes)
    requires off <= |c|
    ensures |r| == if off + |src| > |c| then off + |src| else |c|
  {
    c[..off] + src + if off + |src| < |c| then c[off + |src|..] else []
  }

  /** `a` and `b` hold the same bytes in every file. */
  ghost predicate SameBytes(a: Fs, b: Fs) {
    forall j: nat, p: nat :: ByteAt(b, j, p) == ByteAt(a, j, p)
  }

  /** No address of `a` was lost or moved. */
  ghost predicate KeepsAddrs(a: Fs, b: Fs) {
    forall j: nat, m: nat :: Addr(a, j, m) != 0 ==> Addr(b, j, m) == Addr(a, j, m)
  }

  /** Only addresses of inode `i` were filled in. */
  predicate SameInodes(a: Fs, b: Fs, i: nat) {
    && |a.inodes| == |b.inodes|
    && (forall j :: 0 <= j < |a.inodes| && j != i ==> b.inodes[j] == a.inodes[j])
    && (i < |a.inodes| ==> b.inodes[i].(addrs := []) == a.inodes[i].(addrs := []))
  }

  /** The blocks that mapping and writing file blocks `lo..hi` of inode `i` may log: the file blocks,
      the indirect block, and the bit map blocks of those that had to be allocated. */
  ghost predicate Touched(l: Layout, before: Fs, after: Fs, i: nat, lo: nat, hi: nat, b: int) {
    || BlockTouched(l, before, after, i, MAXFILE, b)
    || exists n: nat :: lo <= n < hi && BlockTouched(l, before, after, i, n, b)
  }

  predicate BlockTouched(l: Layout, before: Fs, after: Fs, i: nat, n: nat, b: int) {
    && Addr(after, i, n) != 0
    && (b == Addr(after, i, n) || (Addr(before, i, n) == 0 && b == l.BitBlock(Addr(after, i, n))))
  }

  /** Everything that changed on the way from `a` to `b` is in a block passed to `log_write`. */
  ghost predicate Covers(l: Layout, a: Fs, b: Fs, logged: set<int>) {
    && |b.blocks| == |a.blocks| && |b.bitmap| == |a.bitmap|
    && (forall k {:trigger a.blocks[k]} {:trigger b.blocks[k]} ::
          0 <= k < |a.blocks| && b.blocks[k] != a.blocks[k] ==> k in logged)
    && (forall c {:trigger a.bitmap[c]} {:trigger b.bitmap[c]} ::
          0 <= c < |a.bitmap| && b.bitmap[c] != a.bitmap[c] ==> l.BitBlock(c) in logged)
  }

  /** The same, with nothing taken back that was logged before. */
  ghost predicate LogsAll(l: Layout, a: Fs, b: Fs, logged0: set<int>, logged: set<int>) {
    logged0 <= logged && Covers(l, a, b, logged)
  }

  /** Every inode whose copy on disk changed is in a block passed to `log_write`. */
  ghost predicate CoversInodes(l: Layout, a: seq<Inode>, b: seq<Inode>, logged: set<int>) {
    |b| == |a| && forall i :: 0 <= i < |a| && b[i] != a[i] ==> l.InodeBlock(i) in logged
  }

  lemma LogsMore(l: Layout, a: Fs, b: Fs, c: Fs, logged0: set<int>, logged1: set<int>, logged2: set<int>)
    requires LogsAll(l, a, b, logged0, logged1) && LogsAll(l, b, c, logged1, logged2)
    ensures LogsAll(l, a, c, logged0, logged2)
  {
    forall k | 0 <= k < |a.blocks| && c.blocks[k] != a.blocks[k]
      ensures k in logged2
    {
      assert b.blocks[k] == a.blocks[k] || k in logged1;
    }
    forall k | 0 <= k < |a.bitmap| && c.bitmap[k] != a.bitmap[k]
      ensures l.BitBlock(k) in logged2
    {
      assert b.bitmap[k] == a.bitmap[k] || l.BitBlock(k) in logged1;
    }
  }

  /** A call of `log_write`: the block, and what it had to store then. */
  datatype Call = Call(bno: int, image: Image)

  /** What block `b` had to store at its last `log_write`. */
  function LastImage(calls: seq<Call>, b: int): Option<Image> {
    if calls == [] then None
    else if calls[|calls|-1].bno == b then Some(calls[|calls|-1].image) else LastImage(calls[..|calls|-1], b)
  }

  /** The logged blocks are those of the calls, and each but `but` was logged with what it stores now. */
  ghost predicate CurrentBut(l: Layout, fs: Fs, disk: seq<Inode>, calls: seq<Call>, logged: set<int>, but: set<int>) {
    && (forall b {:trigger LastImage(calls, b)} :: b in logged <==> LastImage(calls, b).Some?)
    && (forall b {:trigger LastImage(calls, b)} ::
         b in logged && b !in but ==> LastImage(calls, b) == Some(ImageOf(l, fs, disk, b)))
  }

  ghost predicate Current(l: Layout, fs: Fs, disk: seq<Inode>, calls: seq<Call>, logged: set<int>) {
    CurrentBut(l, fs, disk, calls, logged, {})
  }

  lemma CallMore(l: Layout, fs: Fs, disk: seq<Inode>, calls: seq<Call>, logged: set<int>, b: int)
    requires CurrentBut(l, fs, disk, calls, logged, {b})
    ensures Current(l, fs, disk, calls + [Call(b, ImageOf(l, fs, disk, b))], logged + {b})
  {
    var c := Call(b, ImageOf(l, fs, disk, b));
    forall x
      ensures LastImage(calls + [c], x) == if x == b then Some(c.image) else LastImage(calls, x)
    {
      assert (calls + [c])[..|calls|] == calls;
    }
  }

  /** A state with the same images but that of `b` is current but for `b`. */
  lemma CurrentAfter(l: Layout, fs: Fs, disk: seq<Inode>, fs': Fs, disk': seq<Inode>, calls: seq<Call>,
                     logged: set<int>, but: set<int>)
    requires Current(l, fs, disk, calls, logged)
    requires forall c {:trigger ImageOf(l, fs', disk', c)} ::
               c !in but ==> ImageOf(l, fs', disk', c) == ImageOf(l, fs, disk, c)
    ensures CurrentBut(l, fs', disk', calls, logged, but)
  {
  }

  /** Inodes in memory are not what blocks store. */
  lemma CurrentSame(l: Layout, fs: Fs, disk: seq<Inode>, fs': Fs, calls: seq<Call>, logged: set<int>)
    requires Current(l, fs, disk, calls, logged) && fs'.blocks == fs.blocks && fs'.bitmap == fs.bitmap
    ensures Current(l, fs', disk, calls, logged)
  {
    forall c
      ensures ImageOf(l, fs', disk, c) == ImageOf(l, fs, disk, c)
    {
    }
    CurrentAfter(l, fs, disk, fs', disk, calls, logged, {});
  }

  lemma CurrentBlock(l: Layout, fs: Fs, disk: seq<Inode>, calls: seq<Call>, logged: set<int>, k: nat, data: Bytes)
    requires Current(l, fs, disk, calls, logged) && k < |fs.blocks|
    ensures CurrentBut(l, fs.(blocks := fs.blocks[k := data]), disk, calls, logged, {k})
  {
    var fs' := fs.(blocks := fs.blocks[k := data]);
    forall c | c != k
      ensures ImageOf(l, fs', disk, c) == ImageOf(l, fs, disk, c)
    {
      BlockImage(l, fs, disk, k, data, c);
    }
    CurrentAfter(l, fs, disk, fs', disk, calls, logged, {k});
  }

  lemma CurrentBit(l: Layout, fs: Fs, disk: seq<Inode>, calls: seq<Call>, logged: set<int>, k: nat, v: bool)
    requires Current(l, fs, disk, calls, logged) && k < |fs.bitmap|
    ensures CurrentBut(l, fs.(bitmap := fs.bitmap[k := v]), disk, calls, logged, {l.BitBlock(k)})
  {
    var fs' := fs.(bitmap := fs.bitmap[k := v]);
    forall c | c != l.BitBlock(k)
      ensures ImageOf(l, fs', disk, c) == ImageOf(l, fs, disk, c)
    {
      BitImage(l, fs, disk, k, v, c);
    }
    CurrentAfter(l, fs, disk, fs', disk, calls, logged, {l.BitBlock(k)});
  }

  lemma CurrentInode(l: Layout, fs: Fs, disk: seq<Inode>, calls: seq<Call>, logged: set<int>, i: nat, ino: Inode)
    requires Current(l, fs, disk, calls, logged) && i < |disk|
    ensures CurrentBut(l, fs, disk[i := ino], calls, logged, {l.InodeBlock(i)})
  {
    var disk' := disk[i := ino];
    forall c | c != l.InodeBlock(i)
      ensures ImageOf(l, fs, disk', c) == ImageOf(l, fs, disk, c)
    {
      InodeImage(l, fs, disk, i, ino, c);
    }
    CurrentAfter(l, fs, disk, fs, disk', calls, logged, {l.InodeBlock(i)});
  }

  /** The 32-bit overflow test `off + n < off`. */
  predicate Wraps(off: nat, n: nat)
    requires off < 0x1_0000_0000 && n < 0x1_0000_0000
    ensures Wraps(off, n) <==> off + n >= 0x1_0000_0000
  {
    (off + n) % 0x1_0000_0000 < off
  }

  class Volume {
    const l: Layout
    var fs: Fs
    /** The inodes as stored on disk. */
    var disk: seq<Inode>
    /** The distinct blocks passed to `log_write` since the transaction began. */
    var logged: set<int>
    /** Those calls, with what each block had to store. */
    ghost var calls: seq<Call>
    ghost var owner: map<int, (int, int)>

    /** Every logged block was last logged with what it stores now. */
    ghost predicate Pinned()
      reads this
    {
      Current(l, fs, disk, calls, logged)
    }

    /** Ownership is exact and what is logged is current; this holds even in the middle of an operation. */
    ghost predicate Sound()
      reads this
    {
      Owned(l, fs, owner) && |disk| == l.ninodes && Pinned()
    }

    /** Between operations, every file's blocks are mapped and the inode cache is written through. */
    ghost predicate Valid()
      reads this
    {
      && Sound()
      && (forall i: nat :: i < l.ninodes ==> Mapped(fs, i))
      && (forall i :: 0 <= i < l.ninodes ==> SameOnDisk(fs.inodes[i], disk[i]))
    }

    /** Mount a volume in order, with no transaction open. */
    constructor (l: Layout, fs: Fs, ghost owner: map<int, (int, int)>)
      requires Owned(l, fs, owner) && forall i: nat :: i < l.ninodes ==> Mapped(fs, i)
      ensures Valid() && this.l == l && this.fs == fs && this.owner == owner && disk == fs.inodes && logged == {}
    {
      this.l, this.fs, this.owner := l, fs, owner;
      disk, logged, calls := fs.inodes, {}, [];
    }

    /** `log_write`: block `b` has changed, and no other since it was last logged. */
    method LogWrite(b: int)
      requires CurrentBut(l, fs, disk, calls, logged, {b})
      modifies `logged, `calls
      ensures Pinned() && logged == old(logged) + {b}
    {
      CallMore(l, fs, disk, calls, logged, b);
      calls := calls + [Call(b, ImageOf(l, fs, disk, b))];
      logged := logged + {b};
    }

    /** The first clear bit in the bit map block of block `b`; the loop stops at the end of the disk. */
    method FirstClear(b: nat) returns (r: Option<nat>)
      requires Wf(l, fs) && b % BPB == 0
      ensures r.None? ==> forall c :: b <= c < b + BPB && c < l.size ==> fs.bitmap[c]
      ensures r.Some? ==> b <= r.value < l.size && r.value / BPB == b / BPB && !fs.bitmap[r.value]
      ensures r.Some? ==> forall c :: b <= c < r.value ==> fs.bitmap[c]
    {
      var bi := 0;
      while bi < BPB && b + bi < l.size
        invariant 0 <= bi <= BPB
        invariant forall c :: b <= c < b + bi && c < l.size ==> fs.bitmap[c]
      {
        if !fs.bitmap[b + bi] {
          return Some(b + bi);
        }
        bi := bi + 1;
      }
      r := None;
    }

    /** Find a free block, mark it in use and zero it; `None` is the out-of-blocks panic. */
    method Balloc() returns (r: Option<nat>)
      requires Wf(l, fs) && Pinned()
      modifies `fs, `logged, `calls
      ensures r.None? ==> fs == old(fs) && forall c :: 0 <= c < l.size ==> fs.bitmap[c]
      ensures r.Some? ==>
                && r.value < l.size && !old(fs).bitmap[r.value]
                && (forall c :: 0 <= c < r.value ==> old(fs).bitmap[c])
                && fs == Alloc(old(fs), r.value)
                && logged == old(logged) + {l.BitBlock(r.value), r.value} && Pinned()
    {
      var b := 0;
      while b < l.size
        invariant 0 <= b && b % BPB == 0
        invariant fs == old(fs) && logged == old(logged) && calls == old(calls)
        invariant forall c :: 0 <= c < b && c < l.size ==> fs.bitmap[c]
      {
        r := FirstClear(b);
        if r.Some? {
          SetBit(r.value);
          Bzero(r.value);
          return;
        }
        b := b + BPB;
      }
      r := None;
    }

    method SetBit(b: nat)
      requires b < |fs.bitmap| && Pinned()
      modifies `fs, `logged, `calls
      ensures fs == old(fs).(bitmap := old(fs).bitmap[b := true])
      ensures logged == old(logged) + {l.BitBlock(b)} && Pinned()
    {
      CurrentBit(l, fs, disk, calls, logged, b, true);
      fs := fs.(bitmap := fs.bitmap[b := true]);
      LogWrite(l.BitBlock(b));
    }

    method Bzero(b: nat)
      requires b < |fs.blocks| && Pinned()
      modifies `fs, `logged, `calls
      ensures fs == old(fs).(blocks := old(fs).blocks[b := ZeroBlock()])
      ensures logged == old(logged) + {b} && Pinned()
    {
      CurrentBlock(l, fs, disk, calls, logged, b, ZeroBlock());
      fs := fs.(blocks := fs.blocks[b := ZeroBlock()]);
      LogWrite(b);
    }

    /** Free a block; `false` is the "freeing free block" panic. */
    method Bfree(b: nat) returns (ok: bool)
      requires b < |fs.bitmap| && Pinned()
      modifies `fs, `logged, `calls
      ensures ok == old(fs).bitmap[b]
      ensures ok ==> fs == old(fs).(bitmap := old(fs).bitmap[b := false]) && logged == old(logged) + {l.BitBlock(b)}
      ensures !ok ==> fs == old(fs) && logged == old(logged)
      ensures Pinned()
    {
      if !fs.bitmap[b] {
        return false;
      }
      CurrentBit(l, fs, disk, calls, logged, b, false);
      fs := fs.(bitmap := fs.bitmap[b := false]);
      LogWrite(l.BitBlock(b));
      ok := true;
    }

    /** Allocate a block for the empty slot `n` of inode `i`. */
    method FillSlot(i: nat, n: nat) returns (r: Option<nat>)
      requires Sound() && Slot(fs, i, n) && Addr(fs, i, n) == 0
      modifies `fs, `logged, `calls, `owner
      ensures r.None? <==> Clear(old(fs).bitmap) == 0
      ensures r.None? ==> fs == old(fs)
      ensures r.Some? ==> Clear(fs.bitmap) == Clear(old(fs).bitmap) - 1
      ensures r.Some? ==>
                && Sound() && r.value != 0
                && (forall j: nat, m: nat ::
                     Addr(fs, j, m) == if j == i && m == n then r.value else Addr(old(fs), j, m))
                && SameBytes(old(fs), fs)
                && SameInodes(old(fs), fs, i)
                && logged == old(logged) + {l.BitBlock(r.value), r.value}
                             + (if NDIRECT <= n < MAXFILE then {Addr(fs, i, MAXFILE)} else {})
                && LogsAll(l, old(fs), fs, old(logged), logged)
    {
      r := Balloc();
      NoneClear(old(fs).bitmap);
      if r.Some? {
        var b := r.value;
        ClearSet(old(fs).bitmap, b);
        AllocAtOwned(l, old(fs), owner, i, n, b);
        AllocAtBytes(l, old(fs), owner, i, n, b);
        ghost var fs1 := fs;
        fs := SetAddr(fs, i, n, b);
        owner := owner[b := (i, n)];
        if NDIRECT <= n < MAXFILE {
          var p := Addr(fs, i, MAXFILE);
          CurrentBlock(l, fs1, disk, calls, logged, p, fs.blocks[p]);
          assert fs == fs1.(blocks := fs1.blocks[p := fs.blocks[p]]);
          LogWrite(p);
        } else {
          CurrentSame(l, fs1, disk, fs, calls, logged);
        }
      }
    }

    /** The address in slot `n` of inode `i`, with a block allocated for it if it is empty. */
    method EnsureSlot(i: nat, n: nat) returns (r: Option<nat>)
      requires Sound() && Slot(fs, i, n)
      modifies `fs, `logged, `calls, `owner
      ensures r.None? <==> Addr(old(fs), i, n) == 0 && Clear(old(fs).bitmap) == 0
      ensures r.Some? ==> Clear(fs.bitmap) == Clear(old(fs).bitmap) - if Addr(old(fs), i, n) == 0 then 1 else 0
      ensures r.Some? ==>
                && Sound() && 0 < r.value == Addr(fs, i, n)
                && (forall j: nat, m: nat :: j != i || m != n ==> Addr(fs, j, m) == Addr(old(fs), j, m))
                && SameBytes(old(fs), fs) && SameInodes(old(fs), fs, i)
                && (forall b ::
                     b in logged ==>
                       b in old(logged) || BlockTouched(l, old(fs), fs, i, n, b) ||
                       (NDIRECT <= n < MAXFILE && b == Addr(fs, i, MAXFILE)))
                && LogsAll(l, old(fs), fs, old(logged), logged)
      ensures Addr(old(fs), i, n) != 0 ==>
                r.Some? && fs == old(fs) && logged == old(logged) && calls == old(calls) && owner == old(owner)
    {
      if Addr(fs, i, n) == 0 {
        r := FillSlot(i, n);
      } else {
        assert Addr(fs, i, n) in owner;
        r := Some(Addr(fs, i, n));
      }
    }

    /** The address of file block `bn`, allocated (with its indirect block) if there is none;
        `None` is a panic. */
    method Bmap(i: nat, bn: nat) returns (r: Option<nat>)
      requires Sound() && i < l.ninodes
      modifies `fs, `logged, `calls, `owner
      ensures r.None? <==> bn >= MAXFILE || Clear(old(fs).bitmap) < Lacking(ShapeOf(old(fs), i), bn, bn + 1)
      ensures r.Some? ==> bn < MAXFILE && Sound() && 0 < r.value == Addr(fs, i, bn)
      ensures r.Some? ==> BlockMapped(l, old(fs), fs, i, bn, old(logged), logged)
      ensures r.Some? ==> ShapeOf(fs, i) == Fill(ShapeOf(old(fs), i), bn, bn + 1)
      ensures bn < MAXFILE && Addr(old(fs), i, bn) != 0 ==>
                r.Some? && fs == old(fs) && logged == old(logged) && calls == old(calls) && owner == old(owner)
    {
      if bn < NDIRECT {
        LackingOne(fs, i, bn);
        r := EnsureSlot(i, bn);
        if r.Some? {
          FillOne(old(fs), fs, i, bn);
        }
        return;
      }
      if bn < MAXFILE {
        r := BmapIndirect(i, bn);
        return;
      }
      r := None;
    }

    /** The address of file block `bn` behind the indirect block, which comes first. */
    method BmapIndirect(i: nat, bn: nat) returns (r: Option<nat>)
      requires Sound() && i < l.ninodes && NDIRECT <= bn < MAXFILE
      modifies `fs, `logged, `calls, `owner
      ensures r.None? <==> Clear(old(fs).bitmap) < Lacking(ShapeOf(old(fs), i), bn, bn + 1)
      ensures r.Some? ==> Sound() && 0 < r.value == Addr(fs, i, bn)
      ensures r.Some? ==> BlockMapped(l, old(fs), fs, i, bn, old(logged), logged)
      ensures r.Some? ==> ShapeOf(fs, i) == Fill(ShapeOf(old(fs), i), bn, bn + 1)
      ensures Addr(old(fs), i, bn) != 0 ==>
                r.Some? && fs == old(fs) && logged == old(logged) && calls == old(calls) && owner == old(owner)
    {
      LackingOne(fs, i, bn);
      r := EnsureSlot(i, MAXFILE);
      if r.None? {
        return;
      }
      ghost var mid, logged1 := fs, logged;
      r := EnsureSlot(i, bn);
      if r.Some? {
        LogsMore(l, old(fs), mid, fs, old(logged), logged1, logged);
        assert forall b ::
                 BlockTouched(l, old(fs), mid, i, MAXFILE, b) ==> BlockTouched(l, old(fs), fs, i, MAXFILE, b);
        assert forall b :: BlockTouched(l, mid, fs, i, bn, b) ==> BlockTouched(l, old(fs), fs, i, bn, b);
        FillOne(old(fs), fs, i, bn);
      }
    }

    /** One turn of the write loop: `src` goes to position `pos`, inside a single file block. */
    method PutBytes(i: nat, pos: nat, ghost to: nat, src: Bytes) returns (ok: bool)
      requires Sound() && i < l.ninodes && pos / BSIZE < MAXFILE && 0 < |src| <= BSIZE - pos % BSIZE
      requires to == pos + |src|
      modifies `fs, `logged, `calls, `owner
      ensures ok == EnoughFor(old(fs), i, pos, to)
      ensures ok ==> Sound() && PieceWritten(l, old(fs), fs, i, pos, src, old(logged), logged)
      ensures ok ==> FilledFor(old(fs), fs, i, pos, to)
    {
      var n := pos / BSIZE;
      OneBlock(pos, to);
      var a := Bmap(i, n);
      if a.None? {
        return false;
      }
      ghost var mid, logged1 := fs, logged;
      assert a.value in owner;
      var data := fs.blocks[a.value];
      data := data[..pos % BSIZE] + src + data[pos % BSIZE + |src|..];
      PutBlock(i, n, a.value, data);
      SpliceBytes(old(fs), mid, fs, i, pos, src, data);
      PieceDone(l, old(fs), mid, fs, i, pos, src, old(logged), logged1, logged);
      SameShape(mid, fs, i);
      ok := true;
    }

    /** Overwrite and log file block `n` of inode `i`, which is at `a`. */
    method PutBlock(i: nat, n: nat, a: nat, data: Bytes)
      requires Sound() && n < MAXFILE && 0 < a == Addr(fs, i, n) && |data| == BSIZE
      modifies `fs, `logged, `calls
      ensures Sound() && fs.inodes == old(fs).inodes && fs.bitmap == old(fs).bitmap
      ensures logged == old(logged) + {a} && LogsAll(l, old(fs), fs, old(logged), logged)
      ensures forall j: nat, m: nat :: Addr(fs, j, m) == Addr(old(fs), j, m)
      ensures forall j: nat, p: nat ::
                ByteAt(fs, j, p) == if j == i && p / BSIZE == n then data[p % BSIZE] else ByteAt(old(fs), j, p)
    {
      WriteBlockOwned(l, fs, owner, i, n, data);
      WriteBlockBytes(l, fs, owner, i, n, data);
      CurrentBlock(l, fs, disk, calls, logged, a, data);
      fs := fs.(blocks := fs.blocks[a := data]);
      LogWrite(a);
    }

    /** Change fields of inode `i` other than its addresses, in memory and on disk. */
    method SetInode(i: nat, ino: Inode)
      requires Sound() && i < l.ninodes && ino.addrs == fs.inodes[i].addrs
      modifies `fs, `disk, `logged, `calls
      ensures Sound() && fs == old(fs).(inodes := old(fs).inodes[i := ino])
      ensures SameBytes(old(fs), fs) && forall j: nat, m: nat :: Addr(fs, j, m) == Addr(old(fs), j, m)
      ensures |disk| == |old(disk)| && SameOnDisk(ino, disk[i])
      ensures forall j :: 0 <= j < |disk| && j != i ==> disk[j] == old(disk)[j]
      ensures logged == old(logged) + {l.InodeBlock(i)} && LogsAll(l, old(fs), fs, old(logged), logged)
    {
      fs := fs.(inodes := fs.inodes[i := ino]);
      ResizeKeeps(l, old(fs), fs, owner, i);
      CurrentSame(l, old(fs), disk, fs, calls, logged);
      Iupdate(i);
    }

    /** Copy the in-memory inode to its block; the creation time on disk is kept. */
    method Iupdate(i: nat)
      requires i < |fs.inodes| && i < |disk| && Pinned()
      modifies `disk, `logged, `calls
      ensures disk == old(disk)[i := fs.inodes[i].(ctime := old(disk)[i].ctime)]
      ensures SameOnDisk(fs.inodes[i], disk[i])
      ensures logged == old(logged) + {l.InodeBlock(i)} && Pinned()
    {
      var ino := fs.inodes[i].(ctime := disk[i].ctime);
      CurrentInode(l, fs, disk, calls, logged, i, ino);
      disk := disk[i := ino];
      LogWrite(l.InodeBlock(i));
    }

    /** A turn of a loop over positions from `off` on that began with `fs0`; it gets to `to`. */
    method PutCounted(ghost fs0: Fs, ghost off: nat, i: nat, pos: nat, ghost to: nat, src: Bytes) returns (ok: bool)
      requires Sound() && i < l.ninodes && off <= pos && to == pos + |src| <= MAXFILE * BSIZE
      requires 0 < |src| <= BSIZE - pos % BSIZE && FilledFor(fs0, fs, i, off, pos)
      modifies `fs, `logged, `calls, `owner
      ensures ok == EnoughFor(fs0, i, off, to)
      ensures ok ==> Sound() && PieceWritten(l, old(fs), fs, i, pos, src, old(logged), logged)
      ensures ok ==> FilledFor(fs0, fs, i, off, to)
    {
      CountTurn(fs0, fs, i, off, pos, to);
      ok := PutBytes(i, pos, to, src);
    }

    /** The next turn of a write of `src` at `off` that began with `fs0` and has got to `pos`. */
    method WriteNext(ghost fs0: Fs, ghost logged0: set<int>, i: nat, src: Bytes, off: nat, pos: nat)
      returns (ok: bool, to: nat)
      requires Sound() && i < l.ninodes && Mapped(fs0, i) && off <= pos < off + |src| <= MAXFILE * BSIZE
      requires Writing(l, fs0, fs, i, off, pos, src, logged0, logged) && FilledFor(fs0, fs, i, off, pos)
      modifies `fs, `logged, `calls, `owner
      ensures pos < to <= off + |src|
      ensures ok == EnoughFor(fs0, i, off, to)
      ensures ok ==> Sound() && Writing(l, fs0, fs, i, off, to, src, logged0, logged) && FilledFor(fs0, fs, i, off, to)
    {
      to := pos + PieceSize(pos, off + |src| - pos);
      ghost var before, logged1 := fs, logged;
      ok := PutCounted(fs0, off, i, pos, to, src[pos - off..to - off]);
      if ok {
        WriteTurn(l, fs0, before, fs, i, off, src, pos, to, logged0, logged1, logged);
      }
    }

    /** The write loop: block by block, mapping as it goes. */
    method WriteBytes(i: nat, src: Bytes, off: nat) returns (ok: bool)
      requires Sound() && i < l.ninodes && Mapped(fs, i)
      requires off <= fs.inodes[i].size && off + |src| <= MAXFILE * BSIZE
      modifies `fs, `logged, `calls, `owner
      ensures ok == EnoughFor(old(fs), i, off, off + |src|)
      ensures ok ==> Sound() && Writing(l, old(fs), fs, i, off, off + |src|, src, old(logged), logged)
      ensures ok ==> FilledFor(old(fs), fs, i, off, off + |src|)
    {
      ghost var fs0, logged0 := fs, logged;
      var pos, end := off, off + |src|;
      WriteStart(l, fs, i, off, src, logged);
      NothingFilled(fs, i, off);
      while pos < end
        invariant off <= pos <= end && Sound() && FilledFor(fs0, fs, i, off, pos)
        invariant Writing(l, fs0, fs, i, off, pos, src, logged0, logged)
      {
        var to;
        ok, to := WriteNext(fs0, logged0, i, src, off, pos);
        if !ok {
          EnoughLess(fs0, i, off, to, end);
          return;
        }
        pos := to;
      }
      FilledHadEnough(fs0, fs, i, off, pos);
      ok := true;
    }

    /** Write `src` at offset `off` of inode `i`. */
    method WriteI(i: nat, src: Bytes, off: nat, now: Word) returns (o: Outcome)
      requires Valid() && i < l.ninodes && off < 0x1_0000_0000 && |src| < 0x1_0000_0000
      modifies `fs, `disk, `logged, `calls, `owner
      ensures o.Refused? <==> off > old(fs).inodes[i].size || off + |src| > MAXFILE * BSIZE
      ensures o.Refused? ==>
                fs == old(fs) && disk == old(disk) && logged == old(logged) && calls == old(calls) &&
                owner == old(owner)
      ensures o.OutOfBlocks? <==> !o.Refused? && !EnoughFor(old(fs), i, off, off + |src|)
      ensures o.Written? ==> FilledFor(old(fs), fs, i, off, off + |src|)
      ensures o.Written? ==>
                |fs.inodes| == l.ninodes && fs.inodes[i].(addrs := []) ==
                  if off + |src| > old(fs).inodes[i].size
                  then old(fs).inodes[i].(addrs := [], size := off + |src|, ctime := now, lmtime := now)
                  else old(fs).inodes[i].(addrs := [])
      ensures o.Written? ==>
                && Valid()
                && BytesWritten(old(fs), fs, i, off, src)
                && KeepsAddrs(old(fs), fs)
                && Resized(old(fs), fs, i,
                           if off + |src| > old(fs).inodes[i].size then off + |src| else old(fs).inodes[i].size)
                && LoggedBy(l, old(fs), fs, i, off, off + |src|, old(logged) + {l.InodeBlock(i)}, logged)
                && LogsAll(l, old(fs), fs, old(logged), logged) && CoversInodes(l, old(disk), disk, logged)
    {
      if off > fs.inodes[i].size || Wraps(off, |src|) {
        return Refused;
      }
      if off + |src| > MAXFILE * BSIZE {
        return Refused;
      }
      var ok := WriteBytes(i, src, off);
      if !ok {
        return OutOfBlocks;
      }
      ghost var written := fs;
      WriteEnd(l, old(fs), fs, i, off, src, old(logged), logged);
      if |src| > 0 && off + |src| > fs.inodes[i].size {
        SetInode(i, fs.inodes[i].(size := off + |src|, ctime := now, lmtime := now));
      }
      AllStayMapped(old(fs), written, fs, i, off, src);
      SameShape(written, fs, i);
      TouchedMono(l, old(fs), written, fs, i, off / BSIZE, (off + |src| + BSIZE - 1) / BSIZE,
                  off / BSIZE, (off + |src| + BSIZE - 1) / BSIZE);
      o := Written;
    }

    /** One turn of the read loop: positions `pos..to`, inside a single file block; `None` is a panic of the
        block map. */
    method GetBytes(i: nat, pos: nat, to: nat) returns (piece: Option<Bytes>)
      requires Sound() && i < l.ninodes && 0 < to - pos <= BSIZE - pos % BSIZE && to <= fs.inodes[i].size
      modifies `fs, `logged, `calls, `owner
      ensures piece.None? <==> to > MAXFILE * BSIZE || !EnoughFor(old(fs), i, pos, to)
      ensures piece.Some? ==>
                Sound() && Reading(old(View(fs, logged, calls, owner)), View(fs, logged, calls, owner), i, pos, to)
      ensures piece.Some? ==> piece.value == Content(old(fs), i)[pos..to]
    {
      OneBlock(pos, to);
      LackingNothing(fs, i, pos, if to <= MAXFILE * BSIZE then to else 0);
      var a := Bmap(i, pos / BSIZE);
      if a.None? {
        return None;
      }
      ReadPiece(l, old(fs), fs, owner, i, pos, to);
      piece := Some(fs.blocks[a.value][pos % BSIZE..pos % BSIZE + (to - pos)]);
    }

    /** A turn of a loop over positions from `off` on that began in the state `v`. */
    method GetCounted(ghost v: View, ghost off: nat, i: nat, pos: nat, to: nat) returns (piece: Option<Bytes>)
      requires Sound() && i < l.ninodes && off <= pos && 0 < to - pos <= BSIZE - pos % BSIZE && to <= |Content(v.fs, i)|
      requires Reading(v, View(fs, logged, calls, owner), i, off, pos)
      modifies `fs, `logged, `calls, `owner
      ensures piece.None? == ReadFails(v.fs, i, off, to)
      ensures piece.Some? ==> Sound() && Reading(v, View(fs, logged, calls, owner), i, off, to)
      ensures piece.Some? ==> piece.value == Content(v.fs, i)[pos..to]
    {
      ghost var mid := View(fs, logged, calls, owner);
      SameContent(v.fs, fs, i);
      ReadEnough(v, mid, i, off, pos, to);
      piece := GetBytes(i, pos, to);
      if piece.Some? {
        ReadingMore(v, mid, View(fs, logged, calls, owner), i, off, pos, to);
      }
    }

    /** The read loop, over positions `off..end`. */
    method ReadBytes(i: nat, off: nat, end: nat) returns (r: Option<Bytes>)
      requires Sound() && i < l.ninodes && off <= end <= fs.inodes[i].size
      modifies `fs, `logged, `calls, `owner
      ensures r.None? == ReadFails(old(fs), i, off, end)
      ensures r.Some? ==>
                && r.value == Content(old(fs), i)[off..end] && Sound()
                && Reading(old(View(fs, logged, calls, owner)), View(fs, logged, calls, owner), i, off, end)
    {
      var dst, pos := [], off;
      ghost var v := View(fs, logged, calls, owner);
      NothingFilled(fs, i, off);
      while pos < end
        invariant off <= pos <= end && dst == Content(v.fs, i)[off..pos] && ReadFails(v.fs, i, off, pos) == false
        invariant Sound() && Reading(v, View(fs, logged, calls, owner), i, off, pos)
      {
        var to := pos + PieceSize(pos, end - pos);
        r := GetCounted(v, off, i, pos, to);
        if r.None? {
          FailsMore(v.fs, i, off, to, end);
          return;
        }
        SliceMore(Content(v.fs, i), off, pos, to);
        dst, pos := dst + r.value, to;
      }
      r := Some(dst);
    }

    /** Read up to `n` bytes at offset `off` of inode `i`. Blocks of the range that are missing are allocated,
        and read as zeros. */
    method ReadI(i: nat, off: nat, n: nat) returns (r: ReadResult)
      requires Sound() && i < l.ninodes && off < 0x1_0000_0000 && n < 0x1_0000_0000
      modifies `fs, `logged, `calls, `owner
      ensures r.BadOffset? <==> off > old(fs).inodes[i].size || off + n >= 0x1_0000_0000
      ensures r.BadOffset? ==> View(fs, logged, calls, owner) == old(View(fs, logged, calls, owner))
      ensures r.ReadPanic? <==> !r.BadOffset? && ReadFails(old(fs), i, off, ReadEnd(old(fs), i, off, n))
      ensures r.Got? ==>
                && r.bytes == Content(old(fs), i)[off..ReadEnd(old(fs), i, off, n)] && Sound()
                && Reading(old(View(fs, logged, calls, owner)), View(fs, logged, calls, owner), i,
                           off, ReadEnd(old(fs), i, off, n))
                && (fs == old(fs) <==> MappedFor(old(fs), i, off, ReadEnd(old(fs), i, off, n)))
      ensures r.Got? ==>
                && |r.bytes| == (if off + n > old(fs).inodes[i].size then old(fs).inodes[i].size - off else n)
                && BytesAt(old(fs), i, off, r.bytes)
    {
      if off > fs.inodes[i].size || Wraps(off, n) {
        return BadOffset;
      }
      var end := if off + n > fs.inodes[i].size then fs.inodes[i].size else off + n;
      ghost var v := View(fs, logged, calls, owner);
      var bytes := ReadBytes(i, off, end);
      if bytes.None? {
        return ReadPanic;
      }
      UnchangedIff(v, View(fs, logged, calls, owner), i, off, end);
      SliceBytes(old(fs), i, off, end);
      r := Got(bytes.value);
    }

    /** A write, then a read of exactly the range written: it returns what was written, and changes nothing. */
    method WriteThenRead(i: nat, src: Bytes, off: nat, now: Word) returns (o: Outcome, r: ReadResult)
      requires Valid() && i < l.ninodes && off < 0x1_0000_0000 && |src| < 0x1_0000_0000
      modifies `fs, `disk, `logged, `calls, `owner
      ensures o.Written? ==> Valid() && r == Got(src) && BytesWritten(old(fs), fs, i, off, src)
    {
      r := BadOffset;
      o := WriteI(i, src, off, now);
      if o.Written? {
        ghost var written := fs;
        assert Mapped(fs, i);
        MappedRange(fs, i, off, off + |src|);
        r := ReadI(i, off, |src|);
        BytesAre(written, i, off, src, r.bytes);
      }
    }

    /** Free the block in slot `k`, where everything below `k` has been freed already: its bit is
        still set, so the panic of `bfree` is out of reach. */
    method FreeSlot(ghost fs0: Fs, i: nat, k: nat, a: int) returns (ok: bool)
      requires Owned(l, fs0, owner) && Freed(fs0, fs, owner, i, k) && a == Addr(fs0, i, k) != 0 && Pinned()
      modifies `fs, `logged, `calls
      ensures ok && Freed(fs0, fs, owner, i, k + 1) && fs.inodes == old(fs).inodes && Pinned()
      ensures LogsAll(l, old(fs), fs, old(logged), logged)
      ensures forall b :: b in logged ==> b in old(logged) || BitMapBlock(l, b)
    {
      assert a in owner && owner[a] == (i, k);
      ok := Bfree(a);
      FreedNext(l, fs0, owner, i, k);
    }

    /** Free the direct block in slot `k`, if there is one, and zero its address. */
    method FreeNext(ghost fs0: Fs, ghost logged0: set<int>, i: nat, k: nat) returns (ok: bool)
      requires Owned(l, fs0, owner) && i < |fs0.inodes| && k < NDIRECT && Pinned() &&
               Freeing(l, fs0, fs, owner, logged0, logged, i, k)
      modifies `fs, `logged, `calls
      ensures ok && Pinned() && Freeing(l, fs0, fs, owner, logged0, logged, i, k + 1)
    {
      ok := true;
      if fs.inodes[i].addrs[k] != 0 {
        ghost var before, logged1 := fs, logged;
        ok := FreeSlot(fs0, i, k, fs.inodes[i].addrs[k]);
        LogsMore(l, fs0, before, fs, logged0, logged1, logged);
        CurrentSame(l, fs, disk, SetAddrs(fs, i, k, 0), calls, logged);
        fs := SetAddrs(fs, i, k, 0);
      }
      FreedNext(l, fs0, owner, i, k);
    }

    /** Free the direct blocks and zero their addresses. */
    method FreeDirect(i: nat) returns (ok: bool)
      requires Sound() && i < l.ninodes
      modifies `fs, `logged, `calls
      ensures ok && Pinned() && Freeing(l, old(fs), fs, owner, old(logged), logged, i, NDIRECT)
    {
      ok := true;
      var k := 0;
      while k < NDIRECT
        invariant 0 <= k <= NDIRECT && ok && Pinned()
        invariant Freeing(l, old(fs), fs, owner, old(logged), logged, i, k)
      {
        ok := FreeNext(old(fs), old(logged), i, k);
        k := k + 1;
      }
    }

    /** Free the blocks an indirect block names, then the indirect block itself. */
    method FreeIndirect(ghost fs0: Fs, i: nat, ind: nat) returns (ok: bool)
      requires Owned(l, fs0, owner) && Freed(fs0, fs, owner, i, NDIRECT) && ind == Addr(fs0, i, MAXFILE) != 0 &&
               Pinned()
      modifies `fs, `logged, `calls
      ensures ok && Freed(fs0, fs, owner, i, MAXFILE + 1) && fs.inodes == old(fs).inodes && Pinned()
      ensures LogsAll(l, old(fs), fs, old(logged), logged)
      ensures forall b :: b in logged ==> b in old(logged) || BitMapBlock(l, b)
    {
      ok := true;
      assert ind in owner;
      var j := 0;
      while j < NINDIRECT
        invariant 0 <= j <= NINDIRECT && ok && Pinned()
        invariant Freed(fs0, fs, owner, i, NDIRECT + j) && fs.inodes == old(fs).inodes
        invariant LogsAll(l, old(fs), fs, old(logged), logged)
        invariant forall b :: b in logged ==> b in old(logged) || BitMapBlock(l, b)
      {
        var a := WordAt(fs.blocks[ind], j);
        assert a == Addr(fs0, i, NDIRECT + j);
        if a != 0 {
          ghost var before, logged0 := fs, logged;
          ok := FreeSlot(fs0, i, NDIRECT + j, a);
          LogsMore(l, old(fs), before, fs, old(logged), logged0, logged);
        }
        FreedNext(l, fs0, owner, i, NDIRECT + j);
        j := j + 1;
      }
      ghost var before, logged0 := fs, logged;
      ok := FreeSlot(fs0, i, MAXFILE, ind);
      LogsMore(l, old(fs), before, fs, old(logged), logged0, logged);
    }

    /** Discard the contents of inode `i`; `false` would be the "freeing free block" panic. */
    method ITrunc(i: nat) returns (ok: bool)
      requires Sound() && i < l.ninodes
      modifies `fs, `disk, `logged, `calls, `owner
      ensures ok && Sound() && Emptied(old(fs), fs, i)
      ensures disk == old(disk)[i := fs.inodes[i].(ctime := old(disk)[i].ctime)]
      ensures LogsAll(l, old(fs), fs, old(logged), logged) && l.InodeBlock(i) in logged
      ensures old(Valid()) ==> Valid()
      ensures forall b :: b in logged ==> b in old(logged) || b == l.InodeBlock(i) || BitMapBlock(l, b)
      ensures owner == Disown(old(owner), i)
    {
      ok := FreeDirect(i);
      var ind := fs.inodes[i].addrs[NDIRECT];
      assert ind == Addr(old(fs), i, MAXFILE);
      if ind != 0 {
        ghost var before, logged0 := fs, logged;
        ok := FreeIndirect(old(fs), i, ind);
        LogsMore(l, old(fs), before, fs, old(logged), logged0, logged);
        CurrentSame(l, fs, disk, SetAddrs(fs, i, NDIRECT, 0), calls, logged);
        fs := SetAddrs(fs, i, NDIRECT, 0);
      } else {
        NoIndirect(l, old(fs), fs, owner, i);
      }
      ghost var freed := fs;
      fs := fs.(inodes := fs.inodes[i := fs.inodes[i].(size := 0)]);
      TruncOwned(l, old(fs), fs, owner, i);
      owner := Disown(owner, i);
      CurrentSame(l, freed, disk, fs, calls, logged);
      TruncMapped(old(fs), fs, i);
      Iupdate(i);
    }

    /** Drop a reference to inode `i`; the last reference to an unlinked inode, if it is loaded, frees it
        on disk. `ref` and `valid` are those of its entry in the inode cache. */
    method IPut(i: nat, ref: nat, valid: bool) returns (freed: bool)
      requires Valid() && i < l.ninodes && ref >= 1
      modifies `fs, `disk, `logged, `calls, `owner
      ensures Valid()
      ensures freed <==> valid && old(fs).inodes[i].nlink == 0 && ref == 1
      ensures freed ==>
                && Content(fs, i) == [] && fs.inodes[i].mode == 0
                && (forall j: nat, p: nat :: j != i ==> ByteAt(fs, j, p) == ByteAt(old(fs), j, p))
                && (forall j :: 0 <= j < l.ninodes && j != i ==> fs.inodes[j] == old(fs).inodes[j])
      ensures !freed ==>
                fs == old(fs) && disk == old(disk) && logged == old(logged) && calls == old(calls) &&
                owner == old(owner)
      ensures LogsAll(l, old(fs), fs, old(logged), logged) && CoversInodes(l, old(disk), disk, logged)
      ensures forall b :: b in logged ==> b in old(logged) || b == l.InodeBlock(i) || BitMapBlock(l, b)
    {
      freed := valid && fs.inodes[i].nlink == 0 && ref == 1;
      if freed {
        var ok := ITrunc(i);
        ghost var emptied, logged1 := fs, logged;
        SetInode(i, fs.inodes[i].(mode := 0));
        LogsMore(l, old(fs), emptied, fs, old(logged), logged1, logged);
        StillMapped(old(fs), emptied, fs, i);
      }
    }

    /** One transaction of a file write: at most 1536 bytes, so at most two file blocks. */
    method WriteChunk(i: nat, uid: nat, off: nat, src: Bytes, now: Word) returns (o: ChunkOutcome)
      requires Valid() && i < l.ninodes && off < 0x1_0000_0000 && 0 < |src| <= CHUNK
      modifies `fs, `disk, `logged, `calls, `owner
      ensures o.Denied? <==> uid != old(fs).inodes[i].uid
      ensures o.Failed? <==> !o.Denied? && (off > old(fs).inodes[i].size || off + |src| > MAXFILE * BSIZE)
      ensures o.Denied? || o.Failed? ==>
                Valid() && fs == old(fs) && disk == old(disk) && owner == old(owner) && logged == {}
      ensures o.Panicked? <==> !o.Denied? && !o.Failed? && !EnoughFor(old(fs), i, off, off + |src|)
      ensures o.Stored? ==> Valid() && FileWritten(old(fs), fs, i, off, src) && |logged| <= 6
      ensures o.Stored? ==> fs.inodes[i].lmtime == disk[i].lmtime == now
      ensures o.Stored? ==> FilledFor(old(fs), fs, i, off, off + |src|)
      ensures o.Stored? ==> Covers(l, old(fs), fs, logged) && CoversInodes(l, old(disk), disk, logged)
    {
      logged, calls := {}, [];
      if uid != fs.inodes[i].uid {
        return Denied;
      }
      var w := WriteI(i, src, off, now);
      if w.Refused? {
        return Failed;
      }
      if w.OutOfBlocks? {
        return Panicked;
      }
      ghost var written, disk1, logged1 := fs, disk, logged;
      Stamp(i, now);
      Stamped(old(fs), written, fs, i, off, src);
      LogsMore(l, old(fs), written, fs, {}, logged1, logged);
      InodesMore(l, old(disk), disk1, disk, logged1, logged);
      ChunkBound(l, old(fs), written, i, off, src, logged);
      o := Stored;
    }

    /** Note the time of the last change in inode `i`. */
    method Stamp(i: nat, now: Word)
      requires Valid() && i < l.ninodes
      modifies `fs, `disk, `logged, `calls
      ensures Valid() && SameBytes(old(fs), fs) && fs == old(fs).(inodes := fs.inodes)
      ensures fs.inodes == old(fs).inodes[i := old(fs).inodes[i].(lmtime := now)]
      ensures ShapeOf(fs, i) == ShapeOf(old(fs), i)
      ensures logged == old(logged) + {l.InodeBlock(i)}
      ensures LogsAll(l, old(fs), fs, old(logged), logged) && CoversInodes(l, old(disk), disk, logged)
    {
      SetInode(i, fs.inodes[i].(lmtime := now));
      StillMapped(old(fs), old(fs), fs, i);
      SameShape(old(fs), fs, i);
    }

    /** A chunk of a longer write from `off` on that began with `fs0`; it gets to `to`. */
    method ChunkCounted(ghost fs0: Fs, ghost off: nat, i: nat, uid: nat, pos: nat, ghost to: nat, src: Bytes, now: Word)
      returns (o: ChunkOutcome)
      requires Valid() && i < l.ninodes && off <= pos < 0x1_0000_0000 && 0 < |src| <= CHUNK && to == pos + |src|
      requires FilledFor(fs0, fs, i, off, pos)
      modifies `fs, `disk, `logged, `calls, `owner
      ensures o.Denied? || o.Failed? <==> !Writable(old(fs), i, uid, pos, src)
      ensures !o.Denied? && !o.Failed? ==> o.Stored? == EnoughFor(fs0, i, off, to)
      ensures o.Denied? || o.Failed? ==> Valid() && fs == old(fs)
      ensures o.Stored? ==> Valid() && FileWritten(old(fs), fs, i, pos, src) && |logged| <= 6
      ensures o.Stored? ==> fs.inodes[i].lmtime == now
      ensures o.Stored? ==> FilledFor(fs0, fs, i, off, to)
    {
      if to <= MAXFILE * BSIZE {
        CountTurn(fs0, fs, i, off, pos, to);
      }
      o := WriteChunk(i, uid, pos, src, now);
    }

    /** The next chunk of a longer write that has got to `pos`; it gets to `to`. */
    method NextChunk(ghost fs0: Fs, i: nat, uid: nat, off: nat, src: Bytes, pos: nat, now: Word)
      returns (o: ChunkOutcome, to: nat)
      requires Valid() && i < l.ninodes && off < 0x1_0000_0000 && off <= pos < off + |src|
      requires Storing(fs0, fs, i, uid, off, pos, src)
      modifies `fs, `disk, `logged, `calls, `owner
      ensures pos < to <= off + |src|
      ensures o.Denied? || o.Failed? <==> pos == WriteEndAt(fs0, i, uid, off, |src|)
      ensures !o.Denied? && !o.Failed? ==>
                to <= WriteEndAt(fs0, i, uid, off, |src|) && o.Stored? == EnoughFor(fs0, i, off, to)
      ensures o.Denied? || o.Failed? ==> Valid() && fs == old(fs)
      ensures o.Stored? ==> Valid() && Storing(fs0, fs, i, uid, off, to, src) && |logged| <= 6
      ensures o.Stored? ==> fs.inodes[i].lmtime == now
    {
      to := if off + |src| - pos > CHUNK then pos + CHUNK else off + |src|;
      ChunkAttempted(fs0, fs, i, uid, off, src, pos, to);
      o := ChunkCounted(fs0, off, i, uid, pos, to, src[pos - off..to - off], now);
      if o.Stored? {
        StoringMore(fs0, old(fs), fs, i, uid, off, src, pos, to);
      }
    }

    /** The loop over chunks; it ends at `pos`. */
    method WriteChunks(i: nat, uid: nat, off: nat, src: Bytes, now: Word) returns (o: ChunkOutcome, pos: nat)
      requires Valid() && i < l.ninodes && off < 0x1_0000_0000
      modifies `fs, `disk, `logged, `calls, `owner
      ensures o.Panicked? == !EnoughFor(old(fs), i, off, WriteEndAt(old(fs), i, uid, off, |src|))
      ensures !o.Panicked? ==>
                && Valid() && pos == WriteEndAt(old(fs), i, uid, off, |src|)
                && Storing(old(fs), fs, i, uid, off, pos, src) && (o.Stored? <==> pos == off + |src|)
                && (pos > off ==> fs.inodes[i].lmtime == now)
    {
      ghost var fs0, last := fs, WriteEndAt(fs, i, uid, off, |src|);
      NothingFilled(fs, i, off);
      pos, o := off, Stored;
      while pos < off + |src|
        invariant off <= pos <= off + |src| && o.Stored? && Valid() && Storing(fs0, fs, i, uid, off, pos, src)
        invariant pos > off ==> fs.inodes[i].lmtime == now
      {
        var to;
        o, to := NextChunk(fs0, i, uid, off, src, pos, now);
        if o.Panicked? {
          EnoughLess(fs0, i, off, to, last);
          return;
        }
        if !o.Stored? {
          break;
        }
        pos := to;
      }
      StoringHadEnough(fs0, fs, i, uid, off, pos, src);
    }

    /** Write all of `src` at the file's offset, chunk by chunk, each chunk its own transaction.
        `done` bytes reached the file; the offset advanced past them. */
    method FileWrite(i: nat, uid: nat, off: nat, src: Bytes, now: Word) returns (r: WriteResult, ghost done: nat)
      requires Valid() && i < l.ninodes && off < 0x1_0000_0000
      modifies `fs, `disk, `logged, `calls, `owner
      ensures r.Aborted? == !EnoughFor(old(fs), i, off, WriteEndAt(old(fs), i, uid, off, |src|))
      ensures !r.Aborted? ==>
                && Valid() && r.off == WriteEndAt(old(fs), i, uid, off, |src|) == off + done
                && done <= |src| && ChunksWritten(old(fs), fs, i, uid, off, src, done)
                && (done > 0 ==> fs.inodes[i].lmtime == now)
      ensures r.Complete? ==> done == |src| && (src == [] || Writable(old(fs), i, uid, off, src))
      ensures r.Incomplete? ==> done < |src| && !Writable(old(fs), i, uid, off, src)
      ensures r.Incomplete? ==>
                if uid != old(fs).inodes[i].uid || off > old(fs).inodes[i].size then done == 0
                else done % 1536 == 0 && off + done <= MAXFILE * BSIZE < off + done + 1536
    {
      var o, pos := WriteChunks(i, uid, off, src, now);
      if !o.Panicked? && !o.Stored? && uid == old(fs).inodes[i].uid && off <= old(fs).inodes[i].size {
        MappedFits(old(fs), i);
        FittingIs(MAXFILE * BSIZE - off, |src|);
      }
      done := if o.Panicked? then 0 else pos - off;
      r := if o.Panicked? then Aborted else if o.Stored? then Complete(pos) else Incomplete(pos);
    }
  }

  datatype ReadResult = Got(bytes: Bytes) | BadOffset | ReadPanic

  /** All that an operation can change outside inodes on disk. */
  datatype View = View(fs: Fs, logged: set<int>, calls: seq<Call>, owner: map<int, (int, int)>)

  /** Reading positions `off..to` of file `i` has changed no byte and no size, has mapped them, and has changed
      nothing at all if they were mapped. */
  ghost predicate Reading(v: View, v': View, i: nat, off: nat, to: nat) {
    && SameBytes(v.fs, v'.fs) && SameInodes(v.fs, v'.fs, i) && FilledFor(v.fs, v'.fs, i, off, to)
    && (LackingFor(ShapeOf(v.fs, i), off, to) == 0 ==> v' == v)
  }

  /** `bytes` are those of file `i` from position `off` on. */
  predicate BytesAt(fs: Fs, i: nat, off: nat, bytes: Bytes) {
    forall k :: 0 <= k < |bytes| ==> bytes[k] == ByteAt(fs, i, off + k)
  }

  lemma ContentByte(fs: Fs, i: nat, p: nat)
    requires i < |fs.inodes| && p < fs.inodes[i].size
    ensures Content(fs, i)[p] == ByteAt(fs, i, p)
  {
  }

  lemma SliceBytes(fs: Fs, i: nat, off: nat, to: nat)
    requires i < |fs.inodes| && off <= to <= fs.inodes[i].size
    ensures BytesAt(fs, i, off, Content(fs, i)[off..to])
  {
    forall k | 0 <= k < to - off
      ensures Content(fs, i)[off..to][k] == ByteAt(fs, i, off + k)
    {
      ContentByte(fs, i, off + k);
    }
  }

  /** Two sequences that are the bytes from `off` on are the same, if they are as long. */
  lemma BytesAre(fs: Fs, i: nat, off: nat, a: Bytes, b: Bytes)
    requires BytesAt(fs, i, off, a) && BytesAt(fs, i, off, b) && |a| == |b|
    ensures a == b
  {
  }

  /** Where a read of `n` bytes at `off` of file `i` ends. */
  function ReadEnd(fs: Fs, i: nat, off: nat, n: nat): (to: nat) {
    if i < |fs.inodes| && off <= fs.inodes[i].size < off + n then fs.inodes[i].size else off + n
  }

  /** A read of positions `off..to` of file `i` needs a block beyond the largest file, or more blocks than
      are free. */
  predicate ReadFails(fs: Fs, i: nat, off: nat, to: nat) {
    off < to && (to > MAXFILE * BSIZE || !EnoughFor(fs, i, off, to))
  }

  lemma ReadEnough(v: View, v': View, i: nat, off: nat, pos: nat, to: nat)
    requires Reading(v, v', i, off, pos) && off <= pos < to
    ensures ReadFails(v.fs, i, off, to) <==> to > MAXFILE * BSIZE || !EnoughFor(v'.fs, i, pos, to)
  {
    if to <= MAXFILE * BSIZE {
      CountTurn(v.fs, v'.fs, i, off, pos, to);
    }
  }

  lemma ReadingMore(v: View, mid: View, v': View, i: nat, off: nat, pos: nat, to: nat)
    requires Reading(v, mid, i, off, pos) && Reading(mid, v', i, pos, to) && off <= pos < to <= MAXFILE * BSIZE
    ensures Reading(v, v', i, off, to)
  {
    CountTurn(v.fs, mid.fs, i, off, pos, to);
    FillForMore(ShapeOf(v.fs, i), off, pos, to);
    forall j: nat, p: nat
      ensures ByteAt(v'.fs, j, p) == ByteAt(v.fs, j, p)
    {
      assert ByteAt(v'.fs, j, p) == ByteAt(mid.fs, j, p);
    }
  }

  /** A range inside a mapped file is mapped, and can be read whatever is free. */
  lemma MappedRange(fs: Fs, i: nat, off: nat, to: nat)
    requires Mapped(fs, i) && off <= to <= fs.inodes[i].size && to <= MAXFILE * BSIZE
    ensures MappedFor(fs, i, off, to) && !ReadFails(fs, i, off, to)
  {
    forall n: nat | off / BSIZE <= n < EndBlock(off, to)
      ensures Addr(fs, i, n) != 0
    {
      assert n * BSIZE < fs.inodes[i].size;
    }
    LackingNothing(fs, i, off, to);
  }

  lemma FailsMore(fs: Fs, i: nat, off: nat, mid: nat, to: nat)
    requires ReadFails(fs, i, off, mid) && mid <= to
    ensures ReadFails(fs, i, off, to)
  {
    EnoughLess(fs, i, off, mid, to);
  }

  /** A read that succeeds leaves everything as it was if and only if the blocks it reads were mapped. */
  lemma UnchangedIff(v: View, v': View, i: nat, off: nat, to: nat)
    requires Reading(v, v', i, off, to) && off <= to && !ReadFails(v.fs, i, off, to)
    ensures v'.fs == v.fs <==> MappedFor(v.fs, i, off, to)
  {
    if off < to {
      LackingNothing(v.fs, i, off, to);
      EndBlockNext(off, off, to);
      FillCost(ShapeOf(v.fs, i), off / BSIZE, EndBlock(off, to));
    }
  }

  /** With the same bytes and sizes, files have the same contents. */
  lemma SameContent(fs: Fs, fs': Fs, i: nat)
    requires SameBytes(fs, fs') && SameInodes(fs, fs', i)
    ensures Content(fs', i) == Content(fs, i)
  {
  }

  lemma SliceMore(c: Bytes, off: nat, pos: nat, to: nat)
    requires off <= pos <= to <= |c|
    ensures c[off..pos] + c[pos..to] == c[off..to]
  {
  }

  lemma SameSlice(a: Bytes, b: Bytes, i: nat, pos: nat, to: nat)
    requires pos <= to <= |b| && i + (to - pos) <= |a| && forall p :: pos <= p < to ==> a[p - pos + i] == b[p]
    ensures a[i..i + (to - pos)] == b[pos..to]
  {
  }

  /** The file may be written by `uid`, and `src` at `off` leaves no hole and fits. */
  predicate Writable(fs: Fs, i: nat, uid: nat, off: nat, src: Bytes) {
    i < |fs.inodes| && uid == fs.inodes[i].uid && off <= fs.inodes[i].size && off + |src| <= MAXFILE * BSIZE
  }

  /** How many of `n` bytes go where there is room for `room`, in whole chunks unless all do. */
  function Fitting(room: int, n: nat): (k: nat)
    ensures k <= n
  {
    if n <= room then n else if room < 0 then 0 else room / CHUNK * CHUNK
  }

  /** Where a write of `n` bytes at `off` ends if there are blocks for it: where it starts if it may not be
      written or would get a hole, else after as many bytes as fit in the largest file. */
  function WriteEndAt(fs: Fs, i: nat, uid: nat, off: nat, n: nat): (to: nat)
    ensures off <= to <= off + n
  {
    if i >= |fs.inodes| || uid != fs.inodes[i].uid || off > fs.inodes[i].size then off
    else off + Fitting(MAXFILE * BSIZE - off, n)
  }

  lemma MappedFits(fs: Fs, i: nat)
    requires Mapped(fs, i)
    ensures fs.inodes[i].size <= MAXFILE * BSIZE
  {
    assert !(MAXFILE * BSIZE < fs.inodes[i].size);
  }

  lemma FittingIs(room: int, n: nat)
    requires 0 <= room < n
    ensures var k := Fitting(room, n); k % 1536 == 0 && k <= room < k + 1536
  {
    var q := room / 1536;
    assert Fitting(room, n) == 1536 * q;
  }

  lemma FittingNext(room: int, n: nat, k: nat, n1: nat)
    requires k < n && k % CHUNK == 0 && k <= Fitting(room, n) && n1 == if n - k > CHUNK then CHUNK else n - k
    ensures (k + n1) % CHUNK == 0 || k + n1 == n
    ensures k + n1 <= room <==> k < Fitting(room, n)
    ensures k < Fitting(room, n) ==> k + n1 <= Fitting(room, n)
  {
    assert CHUNK == 1536;
    var j, q := k / 1536, room / 1536;
    assert k == 1536 * j && (k + 1536) % 1536 == 0;
    assert n > room >= 0 ==> Fitting(room, n) == 1536 * q;
  }

  /** A write from `fs0` has got to `pos` in whole chunks, and taken the blocks for it. */
  ghost predicate Storing(fs0: Fs, fs: Fs, i: nat, uid: nat, off: nat, pos: nat, src: Bytes) {
    && i < |fs0.inodes| && off <= pos <= WriteEndAt(fs0, i, uid, off, |src|)
    && ((pos - off) % CHUNK == 0 || pos == off + |src|)
    && ChunksWritten(fs0, fs, i, uid, off, src, pos - off) && FilledFor(fs0, fs, i, off, pos)
  }

  /** The next chunk may be written, and fits, exactly if the write does not end before it. */
  lemma ChunkAttempted(fs0: Fs, fs: Fs, i: nat, uid: nat, off: nat, src: Bytes, pos: nat, to: nat)
    requires i < |fs0.inodes| && off <= pos <= WriteEndAt(fs0, i, uid, off, |src|) && pos < off + |src|
    requires (pos - off) % CHUNK == 0 && ChunksWritten(fs0, fs, i, uid, off, src, pos - off)
    requires to == if off + |src| - pos > CHUNK then pos + CHUNK else off + |src|
    ensures pos <= MAXFILE * BSIZE || pos == off
    ensures i < |fs.inodes| && ((to - off) % CHUNK == 0 || to == off + |src|)
    ensures Writable(fs, i, uid, pos, src[pos - off..to - off]) == (pos < WriteEndAt(fs0, i, uid, off, |src|))
    ensures pos < WriteEndAt(fs0, i, uid, off, |src|) ==> to <= WriteEndAt(fs0, i, uid, off, |src|)
  {
    var k, n1 := pos - off, to - pos;
    assert to - off == k + n1 && |src[pos - off..to - off]| == n1;
    ChunkInode(fs0, fs, i, uid, off, src, pos);
    if uid == fs0.inodes[i].uid && off <= fs0.inodes[i].size {
      FittingNext(MAXFILE * BSIZE - off, |src|, k, n1);
    } else {
      assert k == 0;
    }
  }

  lemma ChunkInode(fs0: Fs, fs: Fs, i: nat, uid: nat, off: nat, src: Bytes, pos: nat)
    requires i < |fs0.inodes| && off <= pos <= off + |src| && ChunksWritten(fs0, fs, i, uid, off, src, pos - off)
    ensures i < |fs.inodes| && fs.inodes[i].uid == fs0.inodes[i].uid
    ensures pos <= fs.inodes[i].size <==> off <= fs0.inodes[i].size
    ensures pos <= MAXFILE * BSIZE || pos == off
  {
  }

  lemma StoringMore(fs0: Fs, before: Fs, after: Fs, i: nat, uid: nat, off: nat, src: Bytes, pos: nat, to: nat)
    requires Storing(fs0, before, i, uid, off, pos, src) && pos < off + |src|
    requires to == if off + |src| - pos > CHUNK then pos + CHUNK else off + |src|
    requires Writable(before, i, uid, pos, src[pos - off..to - off])
    requires FileWritten(before, after, i, pos, src[pos - off..to - off]) && FilledFor(fs0, after, i, off, to)
    ensures Storing(fs0, after, i, uid, off, to, src)
  {
    ChunkAttempted(fs0, before, i, uid, off, src, pos, to);
    ChunksWrittenMore(fs0, before, after, i, uid, off, src, pos - off, to - pos);
  }

  lemma StoringHadEnough(fs0: Fs, fs: Fs, i: nat, uid: nat, off: nat, pos: nat, src: Bytes)
    requires Storing(fs0, fs, i, uid, off, pos, src)
    ensures EnoughFor(fs0, i, off, pos)
  {
    FilledHadEnough(fs0, fs, i, off, pos);
  }

  datatype WriteResult = Complete(off: nat) | Incomplete(off: nat) | Aborted

  /** The chunks so far amount to one write of the first `k` bytes. */
  ghost predicate ChunksWritten(before: Fs, after: Fs, i: nat, uid: nat, off: nat, src: Bytes, k: nat) {
    if k == 0 then after == before
    else k <= |src| && Writable(before, i, uid, off, src[..k]) && FileWritten(before, after, i, off, src[..k])
  }

  /** A change of time after a write leaves it a write. */
  lemma Stamped(before: Fs, written: Fs, after: Fs, i: nat, off: nat, src: Bytes)
    requires FileWritten(before, written, i, off, src) && SameBytes(written, after) && i < |written.inodes|
    requires Resized(written, after, i, written.inodes[i].size)
    ensures FileWritten(before, after, i, off, src)
  {
    forall j: nat, p: nat
      ensures ByteAt(after, j, p) == if j == i && off <= p < off + |src| then src[p - off] else ByteAt(before, j, p)
    {
      assert ByteAt(after, j, p) == ByteAt(written, j, p);
    }
  }

  lemma InodesMore(l: Layout, a: seq<Inode>, b: seq<Inode>, c: seq<Inode>, logged1: set<int>, logged2: set<int>)
    requires CoversInodes(l, a, b, logged1) && CoversInodes(l, b, c, logged2) && logged1 <= logged2
    ensures CoversInodes(l, a, c, logged2)
  {
    forall i | 0 <= i < |a| && c[i] != a[i]
      ensures l.InodeBlock(i) in logged2
    {
      assert b[i] == a[i] || l.InodeBlock(i) in logged1;
    }
  }

  lemma ChunksWrittenMore(before: Fs, mid: Fs, after: Fs, i: nat, uid: nat, off: nat, src: Bytes, k: nat, m: nat)
    requires 0 < m && k + m <= |src|
    requires ChunksWritten(before, mid, i, uid, off, src, k)
    requires Writable(mid, i, uid, off + k, src[k..k + m]) && FileWritten(mid, after, i, off + k, src[k..k + m])
    ensures ChunksWritten(before, after, i, uid, off, src, k + m)
  {
    if k == 0 {
      assert src[..m] == src[0..m];
    } else {
      BytesWrittenMore(before, mid, after, i, off, src, k, m);
    }
  }

  /** What a write means for whole files: the written one is spliced, every other one is untouched. */
  lemma WriteIsSplice(before: Fs, after: Fs, i: nat, off: nat, src: Bytes)
    requires FileWritten(before, after, i, off, src) && off <= before.inodes[i].size
    ensures Content(after, i) == Splice(Content(before, i), off, src)
    ensures forall j: nat :: j != i ==> Content(after, j) == Content(before, j)
  {
    var c, c' := Content(before, i), Content(after, i);
    var want := Splice(c, off, src);
    forall p | 0 <= p < |c'|
      ensures c'[p] == want[p]
    {
      assert ByteAt(after, i, p) == if off <= p < off + |src| then src[p - off] else ByteAt(before, i, p);
    }
    forall j: nat | j != i
      ensures Content(after, j) == Content(before, j)
    {
      if j < |before.inodes| {
        forall p: nat | p < |Content(before, j)|
          ensures Content(after, j)[p] == Content(before, j)[p]
        {
          assert ByteAt(after, j, p) == ByteAt(before, j, p);
        }
      }
    }
  }

  /** Truncation empties one file and touches no other. */
  lemma TruncIsEmpty(before: Fs, after: Fs, i: nat)
    requires Emptied(before, after, i) && i < |before.inodes|
    ensures Content(after, i) == []
    ensures forall j: nat :: j != i ==> Content(after, j) == Content(before, j)
  {
    forall j: nat | j != i && j < |before.inodes|
      ensures Content(after, j) == Content(before, j)
    {
      forall p: nat | p < |Content(before, j)|
        ensures Content(after, j)[p] == Content(before, j)[p]
      {
        assert ByteAt(after, j, p) == ByteAt(before, j, p);
      }
    }
  }

  /** Reading back what was just written returns it, at any offset and length. */
  lemma ReadAfterWrite(before: Fs, after: Fs, i: nat, off: nat, src: Bytes)
    requires FileWritten(before, after, i, off, src) && off <= before.inodes[i].size
    ensures off + |src| <= |Content(after, i)| && Content(after, i)[off..off + |src|] == src
  {
    WriteIsSplice(before, after, i, off, src);
  }

  lemma {:induction false} IntervalSize(lo: int, hi: int)
    requires lo <= hi
    ensures |set b {:trigger InInterval(lo, hi, b)} | lo <= b < hi && InInterval(lo, hi, b)| == hi - lo
    decreases hi - lo
  {
    var s := set b {:trigger InInterval(lo, hi, b)} | lo <= b < hi && InInterval(lo, hi, b);
    if lo == hi {
      assert s == {};
    } else {
      IntervalSize(lo, hi - 1);
      var t := set b {:trigger InInterval(lo, hi - 1, b)} | lo <= b < hi - 1 && InInterval(lo, hi - 1, b);
      assert s == t + {hi - 1};
    }
  }

  predicate InInterval(lo: int, hi: int, b: int) {
    lo <= b < hi
  }

  /** Truncating or freeing an inode logs at most every bit map block and the inode's block: five
      blocks on the 50000-block disk of mkfs. */
  lemma TruncBound(l: Layout, i: nat, logged: set<int>)
    requires forall b :: b in logged ==> b == l.InodeBlock(i) || BitMapBlock(l, b)
    ensures |logged| <= l.size / BPB + 2
    ensures l.size == 50000 ==> |logged| <= 5
  {
    var lo, hi := l.bmapstart, l.bmapstart + l.size / BPB + 1;
    var bits := set b {:trigger InInterval(lo, hi, b)} | lo <= b < hi && InInterval(lo, hi, b);
    IntervalSize(lo, hi);
    assert logged <= bits + {l.InodeBlock(i)};
    SubsetSize(logged, bits + {l.InodeBlock(i)});
  }

  /** The most that one transaction of a write takes: what MAXOPBLOCKS leaves after the inode, the indirect
      block and two blocks of slop, halved for the bit map, in sectors. */
  const CHUNK: nat := 1536

  lemma ChunkSize()
    ensures CHUNK == (MAXOPBLOCKS - 1 - 1 - 2) / 2 * 512
  {
  }

  datatype ChunkOutcome = Stored | Denied | Failed | Panicked

  /** A completed write of `src` at `off`: exactly those bytes, and the size that follows. */
  ghost predicate FileWritten(before: Fs, after: Fs, i: nat, off: nat, src: Bytes) {
    && BytesWritten(before, after, i, off, src)
    && i < |before.inodes|
    && Resized(before, after, i, if off + |src| > before.inodes[i].size then off + |src| else before.inodes[i].size)
  }

  /** Files whose addresses stay stay mapped, unless they grow. */
  lemma StillMapped(before: Fs, mid: Fs, after: Fs, i: nat)
    requires forall j: nat :: j < |before.inodes| ==> Mapped(before, j)
    requires |mid.inodes| == |before.inodes| == |after.inodes|
    requires forall j: nat, m: nat :: Addr(after, j, m) == Addr(mid, j, m)
    requires forall j: nat, m: nat :: j != i ==> Addr(mid, j, m) == Addr(before, j, m)
    requires forall j :: 0 <= j < |before.inodes| && j != i ==> after.inodes[j].size == before.inodes[j].size
    requires i < |before.inodes|
    requires after.inodes[i].size == 0 || (after.inodes[i].size == before.inodes[i].size &&
               forall m: nat :: Addr(mid, i, m) == Addr(before, i, m))
    ensures forall j: nat :: j < |before.inodes| ==> Mapped(after, j)
  {
    forall j: nat | j < |before.inodes|
      ensures Mapped(after, j)
    {
      assert Mapped(before, j);
    }
  }

  lemma SixAtMost(a: int, b: int, c: int, d: int, e: int, f: int)
    ensures |{a, b, c, d, e, f}| <= 6
  {
    assert {a, b, c, d, e, f} == {a} + {b} + {c} + {d} + {e} + {f};
  }

  /** A chunk logs the inode, at most two file blocks, the indirect block and two bit map blocks: a
      chunk that spans two blocks starts inside a block the file already has. */
  lemma ChunkBound(l: Layout, before: Fs, after: Fs, i: nat, off: nat, src: Bytes, logged: set<int>)
    requires Mapped(before, i) && off <= before.inodes[i].size && 0 < |src| <= CHUNK
    requires KeepsAddrs(before, after)
    requires LoggedBy(l, before, after, i, off, off + |src|, {l.InodeBlock(i)}, logged)
    ensures |logged| <= 6
  {
    var lo, hi := off / BSIZE, (off + |src| + BSIZE - 1) / BSIZE;
    var ind := Addr(after, i, MAXFILE);
    var d1, d2, d3 := Addr(after, i, lo), Addr(after, i, lo + 1), Addr(after, i, hi - 1);
    assert hi <= lo + 2;
    var all := {l.InodeBlock(i), ind, l.BitBlock(ind), d1, d2, l.BitBlock(d3)};
    forall b | b in logged
      ensures b in all
    {
      if b != l.InodeBlock(i) && !BlockTouched(l, before, after, i, MAXFILE, b) {
        var n: nat :| lo <= n < hi && BlockTouched(l, before, after, i, n, b);
        if n < hi - 1 {
          assert n == lo && lo * BSIZE < off;
          assert Addr(before, i, lo) != 0;
        }
      }
    }
    SubsetSize(logged, all);
    SixAtMost(l.InodeBlock(i), ind, l.BitBlock(ind), d1, d2, l.BitBlock(d3));
  }

  lemma TruncMapped(before: Fs, after: Fs, i: nat)
    requires i < |before.inodes| == |after.inodes| && after.inodes[i].size == 0
    requires forall j :: 0 <= j < |before.inodes| && j != i ==> after.inodes[j] == before.inodes[j]
    requires forall j: nat, m: nat :: j != i ==> Addr(after, j, m) == Addr(before, j, m)
    ensures forall j: nat :: j < |before.inodes| && Mapped(before, j) ==> Mapped(after, j)
  {
    forall j: nat | j < |before.inodes| && Mapped(before, j)
      ensures Mapped(after, j)
    {
    }
  }

  /** The ownership left when inode `i` gives up all its blocks. */
  function Disown(owner: map<int, (int, int)>, i: nat): (r: map<int, (int, int)>) {
    map b | b in owner && owner[b].0 != i :: owner[b]
  }

  /** Without an indirect block there is nothing to free behind it. */
  lemma NoIndirect(l: Layout, fs0: Fs, fs: Fs, owner: map<int, (int, int)>, i: nat)
    requires Owned(l, fs0, owner)
    requires Freed(fs0, fs, owner, i, NDIRECT) && Addr(fs0, i, MAXFILE) == 0
    ensures Freed(fs0, fs, owner, i, MAXFILE + 1)
  {
    forall b | b in owner && owner[b].0 == i
      ensures owner[b].1 < NDIRECT
    {
      assert Addr(fs0, i, owner[b].1) == b;
    }
  }

  /** With every block of inode `i` freed and its addresses cleared, ownership is exact again. */
  lemma TruncOwned(l: Layout, fs0: Fs, fs: Fs, owner: map<int, (int, int)>, i: nat)
    requires Owned(l, fs0, owner) && i < l.ninodes && Freed(fs0, fs, owner, i, MAXFILE + 1)
    requires |fs.inodes| == |fs0.inodes| && forall j :: 0 <= j < |fs.inodes| && j != i ==> fs.inodes[j] == fs0.inodes[j]
    requires |fs.inodes[i].addrs| == NDIRECT + 1 && forall m :: 0 <= m <= NDIRECT ==> fs.inodes[i].addrs[m] == 0
    ensures Owned(l, fs, Disown(owner, i))
    ensures forall j: nat, m: nat :: Addr(fs, j, m) == if j == i then 0 else Addr(fs0, j, m)
    ensures forall j: nat, p: nat :: ByteAt(fs, j, p) == if j == i then 0 else ByteAt(fs0, j, p)
  {
    forall j: nat, m: nat
      ensures Addr(fs, j, m) == if j == i then 0 else Addr(fs0, j, m)
    {
    }
    forall b | b in owner && owner[b].0 == i
      ensures owner[b].1 <= MAXFILE
    {
      assert Addr(fs0, owner[b].0, owner[b].1) == b;
    }
    forall j: nat, p: nat
      ensures ByteAt(fs, j, p) == if j == i then 0 else ByteAt(fs0, j, p)
    {
      assert Addr(fs, j, p / BSIZE) == if j == i then 0 else Addr(fs0, j, p / BSIZE);
    }
  }

  /** Some block of the free bit map. */
  predicate BitMapBlock(l: Layout, b: int) {
    l.bmapstart <= b <= l.bmapstart + l.size / BPB
  }

  /** The bit of every block in a slot of inode `i` below `k` has been cleared, and no other bit. */
  ghost predicate Freed(fs0: Fs, fs: Fs, owner: map<int, (int, int)>, i: nat, k: nat) {
    && fs.blocks == fs0.blocks && |fs.bitmap| == |fs0.bitmap|
    && forall b :: 0 <= b < |fs.bitmap| ==>
         fs.bitmap[b] == (fs0.bitmap[b] && !(b in owner && owner[b].0 == i && owner[b].1 < k))
  }

  /** The first `k` direct addresses of inode `i` are zero, and nothing else in any inode changed. */
  predicate AddrsCleared(fs0: Fs, fs: Fs, i: nat, k: nat) {
    && |fs.inodes| == |fs0.inodes|
    && (forall j :: 0 <= j < |fs.inodes| && j != i ==> fs.inodes[j] == fs0.inodes[j])
    && (i < |fs.inodes| ==>
         && fs.inodes[i].(addrs := []) == fs0.inodes[i].(addrs := [])
         && |fs.inodes[i].addrs| == |fs0.inodes[i].addrs|
         && forall m ::
              0 <= m < |fs.inodes[i].addrs| ==> fs.inodes[i].addrs[m] == if m < k then 0 else fs0.inodes[i].addrs[m])
  }

  /** The blocks in the first `k` direct slots of inode `i` are freed, their addresses zero, and all of it logged. */
  ghost predicate Freeing(l: Layout, fs0: Fs, fs: Fs, owner: map<int, (int, int)>, logged0: set<int>, logged: set<int>,
                          i: nat, k: nat) {
    && Freed(fs0, fs, owner, i, k) && AddrsCleared(fs0, fs, i, k) && LogsAll(l, fs0, fs, logged0, logged)
    && forall b :: b in logged ==> b in logged0 || BitMapBlock(l, b)
  }

  /** Clearing the block of slot `k` is clearing what slots up to `k + 1` own beyond slots up to `k`. */
  lemma FreedNext(l: Layout, fs0: Fs, owner: map<int, (int, int)>, i: nat, k: nat)
    requires Owned(l, fs0, owner)
    ensures forall b :: b in owner && owner[b] == (i, k) ==> b == Addr(fs0, i, k)
  {
  }

  /** Inode `i` is empty and no other file changed. */
  ghost predicate Emptied(fs0: Fs, fs: Fs, i: nat) {
    && |fs.inodes| == |fs0.inodes|
    && (forall j :: 0 <= j < |fs.inodes| && j != i ==> fs.inodes[j] == fs0.inodes[j])
    && (i < |fs.inodes| ==> fs.inodes[i].(addrs := []) == fs0.inodes[i].(addrs := [], size := 0))
    && (forall j: nat, m: nat :: Addr(fs, j, m) == if j == i then 0 else Addr(fs0, j, m))
    && (forall j: nat, p: nat :: ByteAt(fs, j, p) == if j == i then 0 else ByteAt(fs0, j, p))
  }

  /** Below a file's size, the bytes of its blocks are the bytes of the file, also if the block had to be
      allocated first. */
  lemma ReadPiece(l: Layout, fs0: Fs, fs: Fs, owner: map<int, (int, int)>, i: nat, pos: nat, to: nat)
    requires Owned(l, fs, owner) && SameBytes(fs0, fs) && i < |fs0.inodes| && Addr(fs, i, pos / BSIZE) != 0 &&
             pos / BSIZE < MAXFILE
    requires 0 < to - pos <= BSIZE - pos % BSIZE && to <= fs0.inodes[i].size
    ensures 0 < Addr(fs, i, pos / BSIZE) < |fs.blocks| && |fs.blocks[Addr(fs, i, pos / BSIZE)]| == BSIZE
    ensures fs.blocks[Addr(fs, i, pos / BSIZE)][pos % BSIZE..pos % BSIZE + (to - pos)] == Content(fs0, i)[pos..to]
  {
    var n := pos / BSIZE;
    assert Addr(fs, i, n) in owner;
    var data, c := fs.blocks[Addr(fs, i, n)], Content(fs0, i);
    forall p | pos <= p < to
      ensures data[p - pos + pos % BSIZE] == c[p]
    {
      SameBlock(pos, p, to - pos);
      assert ByteAt(fs, i, p) == ByteAt(fs0, i, p);
    }
    SameSlice(data, c, pos % BSIZE, pos, to);
  }

  /** `after` is `before` with `src` at position `pos` of inode `i`, and no other byte changed. */
  ghost predicate BytesWritten(before: Fs, after: Fs, i: nat, pos: nat, src: Bytes) {
    forall j: nat, p: nat ::
      ByteAt(after, j, p) == if j == i && pos <= p < pos + |src| then src[p - pos] else ByteAt(before, j, p)
  }

  /** What an earlier part of a write touched stays accounted for, and so does what a later part adds. */
  lemma TouchedMono(l: Layout, before: Fs, mid: Fs, after: Fs, i: nat, lo: nat, hi: nat, lo': nat, hi': nat)
    requires KeepsAddrs(before, mid) && KeepsAddrs(mid, after)
    requires lo <= lo' && hi <= hi'
    ensures forall b :: Touched(l, before, mid, i, lo, hi, b) ==> Touched(l, before, after, i, lo, hi', b)
    ensures forall b :: Touched(l, mid, after, i, lo', hi', b) ==> Touched(l, before, after, i, lo, hi', b)
  {
    forall b, n: nat | BlockTouched(l, before, mid, i, n, b) || BlockTouched(l, mid, after, i, n, b)
      ensures BlockTouched(l, before, after, i, n, b)
    {
    }
    forall b | Touched(l, before, mid, i, lo, hi, b)
      ensures Touched(l, before, after, i, lo, hi', b)
    {
      if n: nat :| lo <= n < hi && BlockTouched(l, before, mid, i, n, b) {
        assert BlockTouched(l, before, after, i, n, b);
      }
    }
    forall b | Touched(l, mid, after, i, lo', hi', b)
      ensures Touched(l, before, after, i, lo, hi', b)
    {
      if n: nat :| lo' <= n < hi' && BlockTouched(l, mid, after, i, n, b) {
        assert BlockTouched(l, before, after, i, n, b);
      }
    }
  }

  lemma SpliceBytes(before: Fs, mid: Fs, after: Fs, i: nat, pos: nat, src: Bytes, data: Bytes)
    requires SameBytes(before, mid) && 0 < |src| <= BSIZE - pos % BSIZE
    requires |BlockOf(mid, i, pos / BSIZE)| == BSIZE
    requires data == BlockOf(mid, i, pos / BSIZE)[..pos % BSIZE] + src
                     + BlockOf(mid, i, pos / BSIZE)[pos % BSIZE + |src|..]
    requires forall j: nat, p: nat :: ByteAt(after, j, p)
                                  == if j == i && p / BSIZE == pos / BSIZE then data[p % BSIZE] else ByteAt(mid, j, p)
    ensures BytesWritten(before, after, i, pos, src)
  {
    forall j: nat, p: nat
      ensures ByteAt(after, j, p) == if j == i && pos <= p < pos + |src| then src[p - pos] else ByteAt(before, j, p)
    {
      assert ByteAt(mid, j, p) == ByteAt(before, j, p);
      if j == i {
        if pos <= p < pos + |src| {
          SameBlock(pos, p, |src|);
        } else if p / BSIZE == pos / BSIZE {
          assert p - p % BSIZE == pos - pos % BSIZE;
        }
      }
    }
  }

  /** Positions that fit in one block have one block number. */
  lemma SameBlock(pos: nat, p: nat, n: nat)
    requires pos <= p < pos + n && n <= BSIZE - pos % BSIZE
    ensures p / BSIZE == pos / BSIZE && p % BSIZE == pos % BSIZE + (p - pos)
  {
  }

  /** Every file block from the one holding `from` up to position `to` is mapped. */
  ghost predicate MappedBetween(fs: Fs, i: nat, from: nat, to: nat) {
    forall n: nat :: from / BSIZE <= n && n * BSIZE < to ==> n < MAXFILE && Addr(fs, i, n) != 0
  }

  /** Inode `i` of `after` has the given size; otherwise only its addresses and times may differ. */
  predicate Resized(before: Fs, after: Fs, i: nat, size: nat) {
    && |after.inodes| == |before.inodes|
    && (forall j :: 0 <= j < |before.inodes| && j != i ==> after.inodes[j] == before.inodes[j])
    && (i < |before.inodes| ==>
         && after.inodes[i].size == size
         && after.inodes[i].(addrs := [], size := 0, lmtime := 0, ctime := 0) ==
              before.inodes[i].(addrs := [], size := 0, lmtime := 0, ctime := 0))
  }

  /** Everything logged beyond `logged0` is a block that writing positions `from..to` may touch. */
  ghost predicate LoggedBy(l: Layout, before: Fs, after: Fs, i: nat, from: nat, to: nat, logged0: set<int>,
                           logged: set<int>) {
    forall b :: b in logged ==> b in logged0 || Touched(l, before, after, i, from / BSIZE, (to + BSIZE - 1) / BSIZE, b)
  }

  lemma LoggedMore(l: Layout, before: Fs, mid: Fs, after: Fs, i: nat, off: nat, pos: nat, m: nat,
                   logged0: set<int>, logged1: set<int>, logged2: set<int>)
    requires off <= pos && 0 < m <= BSIZE - pos % BSIZE
    requires KeepsAddrs(before, mid) && KeepsAddrs(mid, after)
    requires LoggedBy(l, before, mid, i, off, pos, logged0, logged1)
    requires forall b :: b in logged2 ==> b in logged1 || Touched(l, mid, after, i, pos / BSIZE, pos / BSIZE + 1, b)
    ensures LoggedBy(l, before, after, i, off, pos + m, logged0, logged2)
  {
    assert (pos + m + BSIZE - 1) / BSIZE == pos / BSIZE + 1;
    TouchedMono(l, before, mid, after, i, off / BSIZE, (pos + BSIZE - 1) / BSIZE, pos / BSIZE, pos / BSIZE + 1);
  }

  /** The write loop has put `done` at `off`: its bytes are there, its blocks are mapped, and an
      overwrite within the file changed no inode. */
  ghost predicate WrittenSoFar(before: Fs, after: Fs, i: nat, off: nat, done: Bytes) {
    && BytesWritten(before, after, i, off, done)
    && KeepsAddrs(before, after) && SameInodes(before, after, i)
    && (i < |before.inodes| && off + |done| <= before.inodes[i].size ==> after.inodes == before.inodes)
    && MappedBetween(after, i, off, off + |done|)
  }

  /** Mapping file block `bn` of inode `i` moved no byte and no address, and logged what it changed. */
  ghost predicate BlockMapped(l: Layout, fs0: Fs, fs: Fs, i: nat, bn: nat, logged0: set<int>, logged: set<int>) {
    && SameBytes(fs0, fs) && KeepsAddrs(fs0, fs) && SameInodes(fs0, fs, i)
    && (forall b :: b in logged ==> b in logged0 || Touched(l, fs0, fs, i, bn, bn + 1, b))
    && LogsAll(l, fs0, fs, logged0, logged)
  }

  /** One turn of a write: `src` is at `pos`, in one file block that is mapped now. */
  ghost predicate PieceWritten(l: Layout, fs0: Fs, fs: Fs, i: nat, pos: nat, src: Bytes, logged0: set<int>,
                               logged: set<int>) {
    && BytesWritten(fs0, fs, i, pos, src)
    && KeepsAddrs(fs0, fs) && SameInodes(fs0, fs, i) && Addr(fs, i, pos / BSIZE) != 0
    && (Addr(fs0, i, pos / BSIZE) != 0 ==> fs.inodes == fs0.inodes)
    && (forall b :: b in logged ==> b in logged0 || Touched(l, fs0, fs, i, pos / BSIZE, pos / BSIZE + 1, b))
    && LogsAll(l, fs0, fs, logged0, logged)
  }

  lemma PieceDone(l: Layout, before: Fs, mid: Fs, after: Fs, i: nat, pos: nat, src: Bytes, logged0: set<int>,
                  logged1: set<int>, logged2: set<int>)
    requires BlockMapped(l, before, mid, i, pos / BSIZE, logged0, logged1) && BytesWritten(before, after, i, pos, src)
    requires Addr(before, i, pos / BSIZE) != 0 ==> mid == before
    requires after.inodes == mid.inodes && after.bitmap == mid.bitmap && Addr(mid, i, pos / BSIZE) != 0
    requires forall j: nat, m: nat :: Addr(after, j, m) == Addr(mid, j, m)
    requires logged2 == logged1 + {Addr(mid, i, pos / BSIZE)} && LogsAll(l, mid, after, logged1, logged2)
    ensures PieceWritten(l, before, after, i, pos, src, logged0, logged2)
  {
    var n := pos / BSIZE;
    LogsMore(l, before, mid, after, logged0, logged1, logged2);
    assert BlockTouched(l, before, after, i, n, Addr(mid, i, n));
    TouchedMono(l, before, mid, after, i, n, n + 1, n, n + 1);
  }

  /** A write of `src` at `off` has got to `pos`, and logged what it changed. */
  ghost predicate Writing(l: Layout, fs0: Fs, fs: Fs, i: nat, off: nat, pos: nat, src: Bytes, logged0: set<int>,
                          logged: set<int>) {
    && off <= pos <= off + |src|
    && WrittenSoFar(fs0, fs, i, off, src[..pos - off])
    && LoggedBy(l, fs0, fs, i, off, pos, logged0, logged)
    && LogsAll(l, fs0, fs, logged0, logged)
  }

  lemma WriteTurn(l: Layout, fs0: Fs, before: Fs, after: Fs, i: nat, off: nat, src: Bytes, pos: nat, to: nat,
                  logged0: set<int>, logged1: set<int>, logged2: set<int>)
    requires Mapped(fs0, i) && off <= pos < to <= off + |src| <= MAXFILE * BSIZE && to - pos <= BSIZE - pos % BSIZE
    requires Writing(l, fs0, before, i, off, pos, src, logged0, logged1)
    requires PieceWritten(l, before, after, i, pos, src[pos - off..to - off], logged1, logged2)
    ensures Writing(l, fs0, after, i, off, to, src, logged0, logged2)
  {
    WriteMore(fs0, before, after, i, off, src, pos - off, to - pos);
    LoggedMore(l, fs0, before, after, i, off, pos, to - pos, logged0, logged1, logged2);
    LogsMore(l, fs0, before, after, logged0, logged1, logged2);
  }

  lemma WriteStart(l: Layout, fs: Fs, i: nat, off: nat, src: Bytes, logged: set<int>)
    requires Mapped(fs, i) && off <= fs.inodes[i].size
    ensures Writing(l, fs, fs, i, off, off, src, logged, logged)
  {
  }

  lemma WriteEnd(l: Layout, fs0: Fs, fs: Fs, i: nat, off: nat, src: Bytes, logged0: set<int>, logged: set<int>)
    requires Writing(l, fs0, fs, i, off, off + |src|, src, logged0, logged)
    ensures WrittenSoFar(fs0, fs, i, off, src)
  {
    assert src[..off + |src| - off] == src;
  }

  lemma WriteMore(before: Fs, mid: Fs, after: Fs, i: nat, off: nat, src: Bytes, tot: nat, m: nat)
    requires Mapped(before, i) && off + |src| <= MAXFILE * BSIZE
    requires tot + m <= |src| && 0 < m <= BSIZE - (off + tot) % BSIZE
    requires WrittenSoFar(before, mid, i, off, src[..tot])
    requires BytesWritten(mid, after, i, off + tot, src[tot..tot + m])
    requires KeepsAddrs(mid, after) && SameInodes(mid, after, i) && Addr(after, i, (off + tot) / BSIZE) != 0
    requires Addr(mid, i, (off + tot) / BSIZE) != 0 ==> after.inodes == mid.inodes
    ensures WrittenSoFar(before, after, i, off, src[..tot + m])
  {
    var pos := off + tot;
    BytesWrittenMore(before, mid, after, i, off, src, tot, m);
    if pos + m <= before.inodes[i].size {
      assert pos / BSIZE * BSIZE < before.inodes[i].size;
      assert Addr(before, i, pos / BSIZE) != 0;
    }
    forall n: nat | off / BSIZE <= n && n * BSIZE < pos + m
      ensures n < MAXFILE && Addr(after, i, n) != 0
    {
      if n * BSIZE >= pos {
        assert n == pos / BSIZE;
      }
    }
  }

  /** After a write, every file is still mapped below its size. */
  lemma AllStayMapped(before: Fs, written: Fs, after: Fs, i: nat, off: nat, src: Bytes)
    requires forall j: nat :: j < |before.inodes| ==> Mapped(before, j)
    requires i < |before.inodes| && off <= before.inodes[i].size
    requires WrittenSoFar(before, written, i, off, src)
    requires forall j: nat, m: nat :: Addr(after, j, m) == Addr(written, j, m)
    requires Resized(before, after, i,
                     if off + |src| > before.inodes[i].size then off + |src| else before.inodes[i].size)
    ensures forall j: nat :: j < |before.inodes| ==> Mapped(after, j)
  {
    forall j: nat | j < |before.inodes|
      ensures Mapped(after, j)
    {
      assert Mapped(before, j);
      forall n: nat | n * BSIZE < after.inodes[j].size
        ensures n < MAXFILE && Addr(after, j, n) != 0
      {
        if n * BSIZE < before.inodes[j].size {
          assert Addr(before, j, n) != 0;
        } else {
          assert j == i && off / BSIZE <= n && n * BSIZE < off + |src|;
        }
      }
    }
  }

  lemma BytesWrittenMore(before: Fs, mid: Fs, after: Fs, i: nat, off: nat, src: Bytes, tot: nat, m: nat)
    requires tot + m <= |src|
    requires BytesWritten(before, mid, i, off, src[..tot]) && BytesWritten(mid, after, i, off + tot, src[tot..tot + m])
    ensures BytesWritten(before, after, i, off, src[..tot + m])
  {
  }

  /** A change of size or times moves no address and no byte. */
  lemma ResizeKeeps(l: Layout, before: Fs, after: Fs, owner: map<int, (int, int)>, i: nat)
    requires Owned(l, before, owner) && i < l.ninodes
    requires after.blocks == before.blocks && after.bitmap == before.bitmap && |after.inodes| == |before.inodes|
    requires forall j :: 0 <= j < |before.inodes| ==> after.inodes[j].addrs == before.inodes[j].addrs
    ensures Owned(l, after, owner) && SameBytes(before, after)
    ensures forall j: nat, m: nat :: Addr(after, j, m) == Addr(before, j, m)
  {
    forall j: nat, m: nat
      ensures Addr(after, j, m) == Addr(before, j, m)
    {
    }
    forall j: nat, p: nat
      ensures ByteAt(after, j, p) == ByteAt(before, j, p)
    {
      assert Addr(after, j, p / BSIZE) == Addr(before, j, p / BSIZE);
    }
  }
}
