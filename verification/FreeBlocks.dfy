/** Counting blocks: how many are free, and how many a range of a file still takes. */
module FreeBlocks {
  import opened FileSystem

  /** The number of clear bits. */
  function Clear(bits: seq<bool>): (n: nat) {
    if bits == [] then 0 else Clear(bits[..|bits|-1]) + if bits[|bits|-1] then 0 else 1
  }

  lemma {:induction false} ClearSet(bits: seq<bool>, b: nat)
    requires b < |bits| && !bits[b]
    ensures Clear(bits[b := true]) == Clear(bits) - 1
  {
    var front := bits[..|bits|-1];
    if b == |bits| - 1 {
      assert bits[b := true][..|bits|-1] == front;
    } else {
      ClearSet(front, b);
      assert bits[b := true][..|bits|-1] == front[b := true];
    }
  }

  lemma {:induction false} NoneClear(bits: seq<bool>)
    ensures Clear(bits) == 0 <==> forall b :: 0 <= b < |bits| ==> bits[b]
  {
    if bits != [] {
      NoneClear(bits[..|bits|-1]);
      assert forall b :: 0 <= b < |bits| - 1 ==> bits[..|bits|-1][b] == bits[b];
    }
  }

  // ---------------------------------------------------------------- the blocks of one file

  /** What allocation for one file depends on: the number of free blocks, and which slots of the file are taken. */
  datatype Shape = Shape(clear: int, taken: seq<bool>) {
    predicate Has(n: int) {
      0 <= n < |taken| && taken[n]
    }
  }

  /** Which of the first `n` slots of inode `i` hold an address. */
  function Taken(fs: Fs, i: nat, n: nat): (s: seq<bool>)
    ensures |s| == n
    decreases i, n
  {
    if n == 0 then [] else Taken(fs, i, n - 1) + [Addr(fs, i, n - 1) != 0]
  }

  lemma {:induction false} TakenIs(fs: Fs, i: nat, n: nat)
    ensures forall m :: 0 <= m < n ==> (Taken(fs, i, n)[m] <==> Addr(fs, i, m) != 0)
    decreases n
  {
    if n > 0 {
      TakenIs(fs, i, n - 1);
    }
  }

  function ShapeOf(fs: Fs, i: nat): (sh: Shape)
    ensures |sh.taken| == MAXFILE + 1
  {
    Shape(Clear(fs.bitmap), Taken(fs, i, MAXFILE + 1))
  }

  /** The file blocks among `lo..hi` that the file does not have. */
  function Absent(sh: Shape, lo: nat, hi: nat): (n: nat)
    decreases hi
  {
    if hi <= lo then 0 else Absent(sh, lo, hi - 1) + if sh.Has(hi - 1) then 0 else 1
  }

  /** The blocks that mapping file blocks `lo..hi` takes: those absent, and the indirect block if the range
      needs one and there is none. */
  function Lacking(sh: Shape, lo: nat, hi: nat): (n: nat) {
    Absent(sh, lo, hi) + if lo < hi && hi > NDIRECT && !sh.Has(MAXFILE) then 1 else 0
  }

  function Mark(taken: seq<bool>, n: nat): (r: seq<bool>)
    ensures |r| == |taken|
  {
    if n < |taken| then taken[n := true] else taken
  }

  /** File block `n` is mapped, with the indirect block if it needs one. */
  function FillBlock(sh: Shape, n: nat): (r: Shape) {
    var ind := n >= NDIRECT && !sh.Has(MAXFILE);
    Shape(sh.clear - (if sh.Has(n) then 0 else 1) - (if ind then 1 else 0),
          if ind then Mark(Mark(sh.taken, n), MAXFILE) else Mark(sh.taken, n))
  }

  /** File blocks `lo..hi` are mapped, one after the other. */
  function Fill(sh: Shape, lo: nat, hi: nat): (r: Shape)
    ensures |r.taken| == |sh.taken|
    decreases hi
  {
    if hi <= lo then sh else FillBlock(Fill(sh, lo, hi - 1), hi - 1)
  }

  lemma {:induction false} FillHas(sh: Shape, lo: nat, hi: nat, n: nat)
    requires hi <= MAXFILE && |sh.taken| == MAXFILE + 1
    ensures Fill(sh, lo, hi).Has(n) <==> sh.Has(n) || lo <= n < hi || (n == MAXFILE && lo < hi && hi > NDIRECT)
    decreases hi
  {
    if lo < hi {
      FillHas(sh, lo, hi - 1, n);
      FillHas(sh, lo, hi - 1, MAXFILE);
    }
  }

  /** Mapping a range takes what it lacks. */
  lemma {:induction false} FillCost(sh: Shape, lo: nat, hi: nat)
    requires hi <= MAXFILE && |sh.taken| == MAXFILE + 1
    ensures Fill(sh, lo, hi).clear == sh.clear - Lacking(sh, lo, hi)
    decreases hi
  {
    if lo < hi {
      FillCost(sh, lo, hi - 1);
      FillHas(sh, lo, hi - 1, hi - 1);
      FillHas(sh, lo, hi - 1, MAXFILE);
    }
  }

  lemma {:induction false} FillSplit(sh: Shape, lo: nat, mid: nat, hi: nat)
    requires lo <= mid <= hi
    ensures Fill(sh, lo, hi) == Fill(Fill(sh, lo, mid), mid, hi)
    decreases hi
  {
    if mid < hi {
      FillSplit(sh, lo, mid, hi - 1);
    }
  }

  /** Mapping a range in two goes is mapping it at once; the second go may start in the last block of the first. */
  lemma FillMore(sh: Shape, lo: nat, hi: nat, lo': nat, hi': nat)
    requires lo <= hi && (lo' == hi || (lo < hi && lo' == hi - 1)) && lo' < hi' <= MAXFILE && |sh.taken| == MAXFILE + 1
    ensures Fill(Fill(sh, lo, hi), lo', hi') == Fill(sh, lo, hi')
    ensures Lacking(sh, lo, hi') == Lacking(sh, lo, hi) + Lacking(Fill(sh, lo, hi), lo', hi')
  {
    var mid := Fill(sh, lo, hi);
    FillSplit(sh, lo, hi, hi');
    if lo' == hi - 1 {
      FillSplit(mid, lo', hi, hi');
      assert Fill(mid, lo', lo') == mid;
      assert FillBlock(mid, lo').taken == mid.taken;
    }
    FillCost(sh, lo, hi');
    FillCost(sh, lo, hi);
    FillCost(mid, lo', hi');
  }

  lemma {:induction false} AbsentSplit(sh: Shape, lo: nat, mid: nat, hi: nat)
    requires lo <= mid <= hi
    ensures Absent(sh, lo, hi) == Absent(sh, lo, mid) + Absent(sh, mid, hi)
    decreases hi
  {
    if mid < hi {
      AbsentSplit(sh, lo, mid, hi - 1);
    }
  }

  lemma {:induction false} NoneAbsent(sh: Shape, lo: nat, hi: nat)
    ensures Absent(sh, lo, hi) == 0 <==> forall n: int :: lo <= n < hi ==> sh.Has(n)
    decreases hi
  {
    if lo < hi {
      NoneAbsent(sh, lo, hi - 1);
    }
  }

  lemma LackingGrows(sh: Shape, lo: nat, mid: nat, hi: nat)
    requires lo <= mid <= hi
    ensures Lacking(sh, lo, mid) <= Lacking(sh, lo, hi)
  {
    AbsentSplit(sh, lo, mid, hi);
  }

  /** One block takes itself and perhaps the indirect block, without which it is absent. */
  lemma LackingOne(fs: Fs, i: nat, n: nat)
    requires n < MAXFILE
    ensures Lacking(ShapeOf(fs, i), n, n + 1)
         == (if Addr(fs, i, n) == 0 then 1 else 0) + if n >= NDIRECT && Addr(fs, i, MAXFILE) == 0 then 1 else 0
    ensures n >= NDIRECT && Addr(fs, i, MAXFILE) == 0 ==> Addr(fs, i, n) == 0
  {
    TakenIs(fs, i, MAXFILE + 1);
    assert Absent(ShapeOf(fs, i), n, n) == 0;
  }

  lemma FillOne(fs: Fs, fs': Fs, i: nat, n: nat)
    requires n < MAXFILE && Clear(fs'.bitmap) == Clear(fs.bitmap) - Lacking(ShapeOf(fs, i), n, n + 1)
    requires Addr(fs', i, n) != 0 && forall m: nat :: m < MAXFILE && m != n ==> Addr(fs', i, m) == Addr(fs, i, m)
    requires Addr(fs', i, MAXFILE) != 0 <==> Addr(fs, i, MAXFILE) != 0 || n >= NDIRECT
    ensures ShapeOf(fs', i) == Fill(ShapeOf(fs, i), n, n + 1)
  {
    TakenIs(fs, i, MAXFILE + 1);
    TakenIs(fs', i, MAXFILE + 1);
    FillCost(ShapeOf(fs, i), n, n + 1);
    var sh, sh' := Fill(ShapeOf(fs, i), n, n + 1), ShapeOf(fs', i);
    forall m | 0 <= m <= MAXFILE
      ensures sh'.taken[m] == sh.taken[m]
    {
      FillHas(ShapeOf(fs, i), n, n + 1, m);
      assert sh.Has(m) == sh.taken[m];
    }
  }

  lemma SameShape(fs: Fs, fs': Fs, i: nat)
    requires fs'.bitmap == fs.bitmap && forall m: nat :: Addr(fs', i, m) == Addr(fs, i, m)
    ensures ShapeOf(fs', i) == ShapeOf(fs, i)
  {
    TakenIs(fs, i, MAXFILE + 1);
    TakenIs(fs', i, MAXFILE + 1);
    forall m | 0 <= m <= MAXFILE
      ensures ShapeOf(fs', i).taken[m] == ShapeOf(fs, i).taken[m]
    {
      assert Addr(fs', i, m) == Addr(fs, i, m);
    }
  }

  // ---------------------------------------------------------------- ranges of positions

  /** The first file block after those holding positions `off..to`. */
  function EndBlock(off: nat, to: nat): (n: nat) {
    if to <= off then off / BSIZE else (to - 1) / BSIZE + 1
  }

  /** The blocks that mapping positions `off..to` takes. */
  function LackingFor(sh: Shape, off: nat, to: nat): (n: nat) {
    Lacking(sh, off / BSIZE, EndBlock(off, to))
  }

  /** Positions `off..to` are mapped. */
  function FillFor(sh: Shape, off: nat, to: nat): (r: Shape) {
    Fill(sh, off / BSIZE, EndBlock(off, to))
  }

  /** There are free blocks enough to map positions `off..to` of file `i`. */
  predicate EnoughFor(fs: Fs, i: nat, off: nat, to: nat) {
    LackingFor(ShapeOf(fs, i), off, to) <= Clear(fs.bitmap)
  }

  /** As much of `left` bytes as fits from position `off` to the end of its block. */
  function PieceSize(off: nat, left: nat): (r: nat)
    requires left > 0
    ensures 0 < r <= left && r <= BSIZE - off % BSIZE
    ensures off / BSIZE >= MAXFILE ==> off + r > MAXFILE * BSIZE
  {
    var room := (off / BSIZE + 1) * BSIZE - off;
    if left < room then left else room
  }

  lemma EndBlockNext(off: nat, pos: nat, to: nat)
    requires off <= pos < to
    ensures var lo, hi := off / BSIZE, EndBlock(off, pos);
            && lo <= hi <= EndBlock(off, to) == EndBlock(pos, to) && pos / BSIZE < EndBlock(off, to)
            && (pos / BSIZE == hi || (lo < hi && pos / BSIZE == hi - 1))
    ensures to - pos <= BSIZE - pos % BSIZE ==> EndBlock(off, to) == pos / BSIZE + 1
    ensures to <= MAXFILE * BSIZE <==> EndBlock(off, to) <= MAXFILE
  {
  }

  /** Mapping a range in two goes takes what mapping it at once does. */
  lemma FillForMore(sh: Shape, off: nat, pos: nat, to: nat)
    requires off <= pos < to <= MAXFILE * BSIZE && |sh.taken| == MAXFILE + 1
    ensures LackingFor(sh, off, to) == LackingFor(sh, off, pos) + LackingFor(FillFor(sh, off, pos), pos, to)
    ensures FillFor(FillFor(sh, off, pos), pos, to) == FillFor(sh, off, to)
  {
    EndBlockNext(off, pos, to);
    FillMore(sh, off / BSIZE, EndBlock(off, pos), pos / BSIZE, EndBlock(off, to));
  }

  /** Positions `off..to` of file `i` have been mapped on the way from `fs0` to `fs`. */
  predicate FilledFor(fs0: Fs, fs: Fs, i: nat, off: nat, to: nat) {
    ShapeOf(fs, i) == FillFor(ShapeOf(fs0, i), off, to)
  }

  lemma NothingFilled(fs: Fs, i: nat, off: nat)
    ensures FilledFor(fs, fs, i, off, off)
  {
  }

  /** Blocks enough for a range are enough for its start. */
  lemma EnoughLess(fs: Fs, i: nat, off: nat, mid: nat, to: nat)
    requires off <= mid <= to
    ensures EnoughFor(fs, i, off, to) ==> EnoughFor(fs, i, off, mid)
  {
    LackingGrows(ShapeOf(fs, i), off / BSIZE, EndBlock(off, mid), EndBlock(off, to));
  }

  lemma FilledHadEnough(fs0: Fs, fs: Fs, i: nat, off: nat, to: nat)
    requires FilledFor(fs0, fs, i, off, to) && off <= to && (off < to ==> to <= MAXFILE * BSIZE)
    ensures EnoughFor(fs0, i, off, to)
  {
    if off < to {
      EndBlockNext(off, off, to);
      FillCost(ShapeOf(fs0, i), off / BSIZE, EndBlock(off, to));
    }
  }

  /** With positions `off..pos` of `fs0` mapped in `fs`, there is enough for the rest if there was for all. */
  lemma CountTurn(fs0: Fs, fs: Fs, i: nat, off: nat, pos: nat, to: nat)
    requires off <= pos < to <= MAXFILE * BSIZE && FilledFor(fs0, fs, i, off, pos)
    ensures EnoughFor(fs, i, pos, to) == EnoughFor(fs0, i, off, to)
    ensures FillFor(ShapeOf(fs, i), pos, to) == FillFor(ShapeOf(fs0, i), off, to)
  {
    FillForMore(ShapeOf(fs0, i), off, pos, to);
    if off < pos {
      EndBlockNext(off, off, pos);
      FillCost(ShapeOf(fs0, i), off / BSIZE, EndBlock(off, pos));
    }
  }

  /** A piece inside one block. */
  lemma OneBlock(pos: nat, to: nat)
    requires 0 < to - pos <= BSIZE - pos % BSIZE
    ensures EndBlock(pos, to) == pos / BSIZE + 1
  {
    EndBlockNext(pos, pos, to);
  }

  /** Every block that holds one of positions `off..to` is mapped. */
  ghost predicate MappedFor(fs: Fs, i: nat, off: nat, to: nat) {
    forall n: nat :: off / BSIZE <= n < EndBlock(off, to) ==> Addr(fs, i, n) != 0
  }

  /** A range lacks nothing if and only if all its blocks are mapped. */
  lemma LackingNothing(fs: Fs, i: nat, off: nat, to: nat)
    requires to <= MAXFILE * BSIZE
    ensures LackingFor(ShapeOf(fs, i), off, to) == 0 <==> MappedFor(fs, i, off, to)
  {
    var sh, lo, hi := ShapeOf(fs, i), off / BSIZE, EndBlock(off, to);
    NoneAbsent(sh, lo, hi);
    TakenIs(fs, i, MAXFILE + 1);
    if lo < hi {
      EndBlockNext(off, off, to);
      assert forall n: nat :: n < MAXFILE ==> (sh.Has(n) <==> Addr(fs, i, n) != 0);
      assert hi - 1 >= NDIRECT && Addr(fs, i, MAXFILE) == 0 ==> Addr(fs, i, hi - 1) == 0;
    }
  }
}
