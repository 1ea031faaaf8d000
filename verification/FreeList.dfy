/** The heap of the user-level allocator as its memory holds it: headers linked in a circle, blocks
    free and live, and the memory they partition. Addresses count header-sized units. */
module FreeList {

  /** One unit of memory: as a header, the next free block and this block's size in units; as part
      of a live block, eight bytes of data. */
  datatype Unit = Unit(ptr: int, size: int)

  type Mem = map<int, Unit>

  function At(mem: Mem, a: int): Unit {
    if a in mem then mem[a] else Unit(0, 0)
  }

  /** The heap: `free` are the addresses on the free list, the empty block at the base among them;
      `live` maps each live block to its size; `cell` maps each unit obtained from the system to the
      block it is in. */
  datatype Heap = Heap(mem: Mem, free: set<int>, live: map<int, int>, cell: map<int, int>)

  /** `n` is the next free block after `b`, or the base after the last one. */
  predicate Next(free: set<int>, base: int, b: int, n: int) {
    && n in free
    && if n > b then forall c :: c in free && c > b ==> c >= n
       else n == base && forall c :: c in free ==> c <= b
  }

  /** The header of `b` points to the next free block. */
  predicate Follows(base: int, h: Heap, b: int) {
    Next(h.free, base, b, At(h.mem, b).ptr)
  }

  /** The list is circular and in address order, with one wrap from the last block to the base. */
  predicate Linked(base: int, h: Heap) {
    forall b {:trigger Follows(base, h, b)} :: b in h.free ==> Follows(base, h, b)
  }

  /** Free blocks do not overlap, and do not touch except for those in `ks`. */
  predicate ApartBut(h: Heap, ks: set<int>) {
    forall b, c :: b in h.free && c in h.free && b < c ==>
      b + At(h.mem, b).size < c || (b in ks && b + At(h.mem, b).size == c)
  }

  predicate IsBlock(base: int, h: Heap, b: int) {
    b in h.live || (b in h.free && b != base)
  }

  /** Unit `u` is in the block at `b`. */
  predicate Inside(mem: Mem, b: int, u: int) {
    b <= u < b + At(mem, b).size
  }

  /** Free and live blocks together are exactly the memory obtained, and no unit is in two blocks. */
  ghost predicate Partition(base: int, h: Heap) {
    && (forall u :: u in h.cell ==> IsBlock(base, h, h.cell[u]) && Inside(h.mem, h.cell[u], u))
    && (forall b, u {:trigger IsBlock(base, h, b), Inside(h.mem, b, u)} ::
          IsBlock(base, h, b) && Inside(h.mem, b, u) ==> u in h.cell && h.cell[u] == b)
  }

  ghost predicate Sound(base: int, h: Heap, ks: set<int>) {
    && base in h.free && At(h.mem, base).size == 0
    && Linked(base, h) && ApartBut(h, ks)
    && (forall b :: IsBlock(base, h, b) ==> b > base && At(h.mem, b).size >= 1)
    && (forall b :: b in h.live ==> b !in h.free && At(h.mem, b).size == h.live[b])
    && Partition(base, h)
  }

  /** The allocator's invariant: circular, sorted, coalesced, and a partition. */
  ghost predicate Inv(base: int, h: Heap) {
    Sound(base, h, {})
  }

  /** The cells of `[lo, hi)` now belong to block `b`. */
  function Recell(cell: map<int, int>, lo: int, hi: int, b: int): (r: map<int, int>) {
    map u | u in cell :: if lo <= u < hi then b else cell[u]
  }

  /** The contents of every live block of `h` other than `b` are where and what they were. */
  ghost predicate LiveKept(h: Heap, h': Heap, b: int) {
    forall c, u {:trigger LiveUnit(h.live, c, u)} :: LiveUnit(h.live, c, u) && c != b ==> At(h'.mem, u) == At(h.mem, u)
  }

  /** Unit `u` is in the live block `c`. */
  predicate LiveUnit(live: map<int, int>, c: int, u: int) {
    c in live && c <= u < c + live[c]
  }

  // ---------------------------------------------------------------- freeing

  /** Block `bp` belongs on the list right after `p`. */
  predicate Gap(h: Heap, p: int, bp: int) {
    p in h.free && p < bp && forall c :: c in h.free ==> c <= p || c > bp
  }

  /** Put the live block `bp` on the list after `p`. */
  function Insert(h: Heap, p: int, bp: int): (r: Heap)
    requires bp in h.live
  {
    Heap(h.mem[bp := Unit(At(h.mem, p).ptr, h.live[bp])][p := At(h.mem, p).(ptr := bp)], h.free + {bp}, h.live - {bp},
         h.cell)
  }

  /** Two blocks of a partition do not overlap. */
  lemma BlocksApart(base: int, h: Heap, b: int, c: int)
    requires Partition(base, h) && IsBlock(base, h, b) && IsBlock(base, h, c) && b < c
    requires At(h.mem, b).size >= 1 && At(h.mem, c).size >= 1
    ensures b + At(h.mem, b).size <= c
  {
    assert Inside(h.mem, c, c) && c in h.cell && h.cell[c] == c;
    assert !Inside(h.mem, b, c);
  }

  /** Headers of free blocks lie outside the live blocks. */
  lemma HeaderNotLive(base: int, h: Heap, ks: set<int>, p: int, c: int, u: int)
    requires Sound(base, h, ks) && p in h.free && c in h.live && c <= u < c + h.live[c]
    ensures u != p
  {
    assert IsBlock(base, h, c) && Inside(h.mem, c, u) && u in h.cell && h.cell[u] == c;
    if p != base {
      assert IsBlock(base, h, p) && Inside(h.mem, p, p) && p in h.cell && h.cell[p] == p;
    }
  }

  lemma InsertLinked(base: int, h: Heap, p: int, bp: int)
    requires Linked(base, h) && base in h.free && bp in h.live && bp !in h.free && Gap(h, p, bp)
    ensures Linked(base, Insert(h, p, bp))
  {
    var h' := Insert(h, p, bp);
    assert Follows(base, h, p);
    forall b | b in h'.free
      ensures Follows(base, h', b)
    {
      assert b in h.free ==> Follows(base, h, b);
    }
  }

  lemma InsertApart(base: int, h: Heap, p: int, bp: int)
    requires ApartBut(h, {}) && bp in h.live && bp !in h.free && Gap(h, p, bp) && At(h.mem, bp).size == h.live[bp]
    requires forall c :: c in h.free && c > bp ==> bp + h.live[bp] <= c
    requires p + At(h.mem, p).size <= bp
    ensures ApartBut(Insert(h, p, bp), {p, bp})
  {
    var h' := Insert(h, p, bp);
    forall b, c | b in h'.free && c in h'.free && b < c
      ensures b + At(h'.mem, b).size < c || (b in {p, bp} && b + At(h'.mem, b).size == c)
    {
      assert At(h'.mem, b).size == At(h.mem, b).size;
      if c == bp && b != p {
        assert b + At(h.mem, b).size < p;
      }
    }
  }

  /** The blocks and their sizes are as before; only their roles changed. */
  lemma SameBlocks(base: int, h: Heap, h': Heap)
    requires Partition(base, h) && h'.cell == h.cell
    requires forall b :: IsBlock(base, h', b) <==> IsBlock(base, h, b)
    requires forall b :: IsBlock(base, h, b) ==> At(h'.mem, b).size == At(h.mem, b).size
    ensures Partition(base, h')
  {
    forall b, u | IsBlock(base, h', b) && Inside(h'.mem, b, u)
      ensures u in h'.cell && h'.cell[u] == b
    {
      assert IsBlock(base, h, b) && Inside(h.mem, b, u);
    }
  }

  lemma InsertLive(base: int, h: Heap, p: int, bp: int)
    requires Inv(base, h) && bp in h.live && Gap(h, p, bp)
    ensures LiveKept(h, Insert(h, p, bp), bp)
  {
    var h' := Insert(h, p, bp);
    forall c, u | LiveUnit(h.live, c, u) && c != bp
      ensures At(h'.mem, u) == At(h.mem, u)
    {
      HeaderNotLive(base, h, {}, p, c, u);
      assert IsBlock(base, h, c) && Inside(h.mem, c, u) && h.cell[u] == c;
      assert IsBlock(base, h, bp) && Inside(h.mem, bp, bp) && bp in h.cell && h.cell[bp] == bp;
    }
  }

  lemma InsertSound(base: int, h: Heap, p: int, bp: int)
    requires Inv(base, h) && bp in h.live && Gap(h, p, bp)
    ensures Sound(base, Insert(h, p, bp), {p, bp})
  {
    var h' := Insert(h, p, bp);
    assert IsBlock(base, h, bp);
    InsertLinked(base, h, p, bp);
    forall c | c in h.free && c > bp
      ensures bp + h.live[bp] <= c
    {
      assert IsBlock(base, h, c);
      BlocksApart(base, h, bp, c);
    }
    if p != base {
      assert IsBlock(base, h, p);
      BlocksApart(base, h, p, bp);
    }
    InsertApart(base, h, p, bp);
    SameBlocks(base, h, h');
  }

  /** Merge the free block `b` with its successor, which it touches. */
  function Merge(h: Heap, b: int): (r: Heap) {
    var n := At(h.mem, b).ptr;
    var size := At(h.mem, b).size + At(h.mem, n).size;
    Heap(h.mem[b := Unit(At(h.mem, n).ptr, size)], h.free - {n}, h.live, Recell(h.cell, n, n + At(h.mem, n).size, b))
  }

  /** `b` touches the next free block above it. */
  predicate Touches(h: Heap, b: int) {
    At(h.mem, b).ptr > b && b + At(h.mem, b).size == At(h.mem, b).ptr
  }

  lemma MergeLinked(base: int, h: Heap, b: int)
    requires Linked(base, h) && base in h.free && b in h.free && Touches(h, b) && (forall c :: c in h.free ==>
               c >= base)
    ensures Linked(base, Merge(h, b)) && At(h.mem, b).ptr in h.free
  {
    var h' := Merge(h, b);
    var n := At(h.mem, b).ptr;
    assert Follows(base, h, b) && Follows(base, h, n);
    forall c | c in h'.free
      ensures Follows(base, h', c)
    {
      assert Follows(base, h, c);
    }
  }

  lemma MergeApart(base: int, h: Heap, ks: set<int>, b: int)
    requires ApartBut(h, ks) && b in h.free && At(h.mem, b).ptr in h.free && Touches(h, b) && At(h.mem, b).ptr !in ks
    requires Follows(base, h, b)
    ensures ApartBut(Merge(h, b), ks - {b})
  {
  }

  lemma MergePartition(base: int, h: Heap, b: int)
    requires Partition(base, h) && b in h.free && b != base && At(h.mem, b).ptr in h.free && At(h.mem, b).ptr != base &&
             Touches(h, b)
    requires At(h.mem, b).size >= 1 && At(h.mem, At(h.mem, b).ptr).size >= 1
    requires forall c :: c in h.live ==> c !in h.free
    ensures Partition(base, Merge(h, b))
  {
    var h' := Merge(h, b);
    var n := At(h.mem, b).ptr;
    assert IsBlock(base, h, b) && IsBlock(base, h, n);
    forall c
      ensures IsBlock(base, h', c) <==> IsBlock(base, h, c) && c != n
      ensures c != b ==> At(h'.mem, c) == At(h.mem, c)
    {
    }
    forall u | u in h'.cell
      ensures IsBlock(base, h', h'.cell[u]) && Inside(h'.mem, h'.cell[u], u)
    {
      assert IsBlock(base, h, h.cell[u]) && Inside(h.mem, h.cell[u], u);
      assert Inside(h.mem, n, u) ==> h.cell[u] == n;
    }
    forall c, u | IsBlock(base, h', c) && Inside(h'.mem, c, u)
      ensures u in h'.cell && h'.cell[u] == c
    {
      assert Inside(h.mem, n, u) ==> u in h.cell && h.cell[u] == n;
      assert Inside(h.mem, c, u) ==> u in h.cell && h.cell[u] == c;
    }
  }

  lemma MergeLive(base: int, h: Heap, ks: set<int>, b: int)
    requires Sound(base, h, ks) && b in h.free
    ensures LiveKept(h, Merge(h, b), b)
  {
    var h' := Merge(h, b);
    forall c, u | LiveUnit(h.live, c, u) && c != b
      ensures At(h'.mem, u) == At(h.mem, u)
    {
      HeaderNotLive(base, h, ks, b, c, u);
    }
  }

  /** Sizes stay positive and live headers stay as they are. */
  lemma MergeSizes(base: int, h: Heap, b: int)
    requires b in h.free && b !in h.live && b != base && b > base && Touches(h, b) && At(h.mem, b).ptr != base
    requires At(h.mem, base).size == 0
    requires forall c :: IsBlock(base, h, c) ==> c > base && At(h.mem, c).size >= 1
    requires At(h.mem, b).ptr in h.free
    requires forall c :: c in h.live ==> c !in h.free && At(h.mem, c).size == h.live[c]
    ensures var h' := Merge(h, b);
            && At(h'.mem, base).size == 0
            && (forall c :: IsBlock(base, h', c) ==> c > base && At(h'.mem, c).size >= 1)
            && (forall c :: c in h'.live ==> c !in h'.free && At(h'.mem, c).size == h'.live[c])
  {
    var h' := Merge(h, b);
    assert IsBlock(base, h, b) && IsBlock(base, h, At(h.mem, b).ptr);
    forall c | IsBlock(base, h', c)
      ensures c > base && At(h'.mem, c).size >= 1
    {
      assert IsBlock(base, h, c);
    }
  }

  lemma MergeSound(base: int, h: Heap, ks: set<int>, b: int)
    requires Sound(base, h, ks) && b in h.free && b != base && Touches(h, b) && At(h.mem, b).ptr !in ks
    ensures Sound(base, Merge(h, b), ks - {b})
  {
    assert IsBlock(base, h, b) && Follows(base, h, b);
    forall c | c in h.free
      ensures c >= base
    {
      assert c == base || IsBlock(base, h, c);
    }
    MergeLinked(base, h, b);
    MergeApart(base, h, ks, b);
    MergePartition(base, h, b);
    MergeSizes(base, h, b);
  }

  /** A block that does not touch its successor touches nothing above it. */
  lemma NoTouch(base: int, h: Heap, ks: set<int>, b: int)
    requires Sound(base, h, ks) && b in h.free && !Touches(h, b)
    ensures Sound(base, h, ks - {b})
  {
    assert Follows(base, h, b);
    assert ApartBut(h, ks - {b}) by {
      ApartDrop(base, h, ks, b);
    }
  }

  lemma ApartDrop(base: int, h: Heap, ks: set<int>, b: int)
    requires ApartBut(h, ks) && b in h.free && !Touches(h, b) && Follows(base, h, b)
    ensures ApartBut(h, ks - {b})
  {
  }

  function MergeIfTouching(h: Heap, b: int): Heap {
    if Touches(h, b) then Merge(h, b) else h
  }

  /** Free the live block `bp`, which goes after `p`: link it in, then merge it with the block above
      and the block below where they touch. */
  function FreeBlock(h: Heap, p: int, bp: int): (r: Heap)
    requires bp in h.live
  {
    MergeIfTouching(MergeIfTouching(Insert(h, p, bp), bp), p)
  }

  lemma MergeStep(base: int, h: Heap, ks: set<int>, b: int)
    requires Sound(base, h, ks) && b in h.free && (Touches(h, b) ==> b != base && At(h.mem, b).ptr !in ks)
    ensures Sound(base, MergeIfTouching(h, b), ks - {b})
    ensures LiveKept(h, MergeIfTouching(h, b), b)
    ensures MergeIfTouching(h, b).live == h.live && MergeIfTouching(h, b).cell.Keys == h.cell.Keys
    ensures b in MergeIfTouching(h, b).free
  {
    if Touches(h, b) {
      MergeSound(base, h, ks, b);
      MergeLive(base, h, ks, b);
    } else {
      NoTouch(base, h, ks, b);
    }
  }

  /** Freeing keeps the invariant: the list stays sorted and coalesced, the memory partitioned, and
      every other live block keeps its contents. */
  lemma FreeKeepsInv(base: int, h: Heap, p: int, bp: int)
    requires Inv(base, h) && bp in h.live && Gap(h, p, bp)
    ensures var h' := FreeBlock(h, p, bp);
            && Inv(base, h') && LiveKept(h, h', bp) && p in h'.free
            && h'.live == h.live - {bp} && h'.cell.Keys == h.cell.Keys
    ensures HasFree(FreeBlock(h, p, bp), h.live[bp])
  {
    var h1 := Insert(h, p, bp);
    InsertSound(base, h, p, bp);
    InsertLive(base, h, p, bp);
    assert At(h1.mem, p).ptr == bp && bp !in h.free && IsBlock(base, h, bp);
    assert Follows(base, h1, bp);
    MergeStep(base, h1, {p, bp}, bp);
    assert {p, bp} - {bp} == {p};
    var h2 := MergeIfTouching(h1, bp);
    assert At(h2.mem, p).ptr == bp && bp != p;
    assert {p} - {p} == {};
    MergeStep(base, h2, {p}, p);
    var h3 := MergeIfTouching(h2, p);
    assert IsBlock(base, h1, bp) && IsBlock(base, h2, bp);
    assert Touches(h1, bp) ==> At(h1.mem, At(h1.mem, bp).ptr).size >= 0 by {
      AboveBase(base, h1, {p, bp});
      assert Follows(base, h1, bp);
      var n := At(h1.mem, bp).ptr;
      assert n == base || IsBlock(base, h1, n);
    }
    assert At(h2.mem, bp).size >= h.live[bp];
    assert At(h2.mem, p).size >= 0 by {
      assert p == base || IsBlock(base, h2, p);
    }
    KeptThrough(h, h1, h2, h3, bp, p);
    var c := if Touches(h2, p) then p else bp;
    assert c in h3.free && At(h3.mem, c).size >= h.live[bp];
  }

  lemma KeptThrough(h: Heap, h1: Heap, h2: Heap, h3: Heap, bp: int, p: int)
    requires LiveKept(h, h1, bp) && LiveKept(h1, h2, bp) && LiveKept(h2, h3, p)
    requires h1.live == h.live - {bp} && h2.live == h1.live && p !in h.live
    ensures LiveKept(h, h3, bp)
  {
    forall c, u | LiveUnit(h.live, c, u) && c != bp
      ensures At(h3.mem, u) == At(h.mem, u)
    {
      assert LiveUnit(h1.live, c, u) && LiveUnit(h2.live, c, u);
    }
  }

  /** Some free block has at least `n` units. */
  ghost predicate HasFree(h: Heap, n: int) {
    exists b :: b in h.free && At(h.mem, b).size >= n
  }

  // ---------------------------------------------------------------- allocating

  /** Take the free block `p` whole; `prev` is the block that points to it. */
  function TakeWhole(h: Heap, prev: int, p: int): (r: Heap) {
    Heap(h.mem[prev := At(h.mem, prev).(ptr := At(h.mem, p).ptr)], h.free - {p}, h.live[p := At(h.mem, p).size], h.cell)
  }

  /** Take the last `n` units of the larger free block `p`. */
  function TakeTail(h: Heap, p: int, n: int): (r: Heap) {
    var q := p + At(h.mem, p).size - n;
    Heap(h.mem[p := At(h.mem, p).(size := q - p)][q := At(h.mem, q).(size := n)], h.free, h.live[q := n],
         Recell(h.cell, q, q + n, q))
  }

  predicate InRegion(a: int, n: int, u: int) {
    a <= u < a + n
  }

  /** A region of `n` fresh units from the system, as one live block. */
  function AddRegion(h: Heap, a: int, n: int): (r: Heap) {
    Heap(h.mem[a := At(h.mem, a).(size := n)], h.free, h.live[a := n],
         h.cell + map u {:trigger InRegion(a, n, u)} | a <= u < a + n && InRegion(a, n, u) :: a)
  }

  lemma TakeWholeLinked(base: int, h: Heap, prev: int, p: int)
    requires Linked(base, h) && base in h.free && prev in h.free && p in h.free && p > base && At(h.mem, prev).ptr == p
    requires forall c :: c in h.free ==> c >= base
    ensures Linked(base, TakeWhole(h, prev, p)) && prev < p
  {
    var h' := TakeWhole(h, prev, p);
    assert Follows(base, h, prev) && Follows(base, h, p);
    forall b | b in h'.free
      ensures Follows(base, h', b)
    {
      assert Follows(base, h, b);
    }
  }

  lemma AboveBase(base: int, h: Heap, ks: set<int>)
    requires Sound(base, h, ks)
    ensures forall c :: c in h.free ==> c >= base
  {
    forall c | c in h.free
      ensures c >= base
    {
      assert c == base || IsBlock(base, h, c);
    }
  }

  lemma TakeWholeLive(base: int, h: Heap, prev: int, p: int)
    requires Inv(base, h) && prev in h.free
    ensures LiveKept(h, TakeWhole(h, prev, p), p)
  {
    var h' := TakeWhole(h, prev, p);
    forall c, u | LiveUnit(h.live, c, u) && c != p
      ensures At(h'.mem, u) == At(h.mem, u)
    {
      HeaderNotLive(base, h, {}, prev, c, u);
    }
  }

  /** Taking a whole block keeps the invariant. */
  lemma TakeWholeInv(base: int, h: Heap, prev: int, p: int)
    requires Inv(base, h) && prev in h.free && p in h.free && p != base && At(h.mem, prev).ptr == p
    ensures Inv(base, TakeWhole(h, prev, p)) && LiveKept(h, TakeWhole(h, prev, p), p)
    ensures p !in h.live
  {
    var h' := TakeWhole(h, prev, p);
    assert IsBlock(base, h, p);
    AboveBase(base, h, {});
    TakeWholeLinked(base, h, prev, p);
    TakeWholeLive(base, h, prev, p);
    forall b
      ensures At(h'.mem, b).size == At(h.mem, b).size
      ensures IsBlock(base, h', b) <==> IsBlock(base, h, b)
    {
    }
    SameBlocks(base, h, h');
  }

  lemma TailIsNew(base: int, h: Heap, p: int, q: int)
    requires Partition(base, h) && IsBlock(base, h, p) && p < q < p + At(h.mem, p).size
    requires forall c :: IsBlock(base, h, c) ==> At(h.mem, c).size >= 1
    ensures !IsBlock(base, h, q)
  {
    assert Inside(h.mem, p, q) && q in h.cell && h.cell[q] == p;
    assert IsBlock(base, h, q) ==> Inside(h.mem, q, q);
  }

  lemma TakeTailPartition(base: int, h: Heap, p: int, n: int)
    requires Partition(base, h) && p in h.free && p != base && 1 <= n < At(h.mem, p).size
    requires !IsBlock(base, h, p + At(h.mem, p).size - n)
    ensures Partition(base, TakeTail(h, p, n))
  {
    var h' := TakeTail(h, p, n);
    var q := p + At(h.mem, p).size - n;
    assert IsBlock(base, h, p);
    forall u | u in h'.cell
      ensures IsBlock(base, h', h'.cell[u]) && Inside(h'.mem, h'.cell[u], u)
    {
      assert IsBlock(base, h, h.cell[u]) && Inside(h.mem, h.cell[u], u);
      assert Inside(h.mem, p, u) ==> h.cell[u] == p;
    }
    forall b, u | IsBlock(base, h', b) && Inside(h'.mem, b, u)
      ensures u in h'.cell && h'.cell[u] == b
    {
      assert Inside(h.mem, p, u) ==> u in h.cell && h.cell[u] == p;
      if b != q {
        assert IsBlock(base, h, b) && Inside(h.mem, b, u);
      }
    }
  }

  lemma TakeTailLive(base: int, h: Heap, p: int, n: int)
    requires Inv(base, h) && p in h.free && p != base && 1 <= n < At(h.mem, p).size
    ensures var q := p + At(h.mem, p).size - n; q !in h.live && LiveKept(h, TakeTail(h, p, n), q)
  {
    var h' := TakeTail(h, p, n);
    var q := p + At(h.mem, p).size - n;
    assert IsBlock(base, h, p) && Inside(h.mem, p, q) && q in h.cell && h.cell[q] == p;
    assert q in h.live ==> IsBlock(base, h, q) && Inside(h.mem, q, q);
    forall c, u | LiveUnit(h.live, c, u) && c != q
      ensures At(h'.mem, u) == At(h.mem, u)
    {
      HeaderNotLive(base, h, {}, p, c, u);
      assert IsBlock(base, h, c) && Inside(h.mem, c, u) && u in h.cell && h.cell[u] == c;
    }
  }

  /** The list depends only on the pointers of its members. */
  lemma SameLinks(base: int, h: Heap, h': Heap)
    requires Linked(base, h) && h'.free == h.free && forall b :: b in h.free ==> At(h'.mem, b).ptr == At(h.mem, b).ptr
    ensures Linked(base, h')
  {
    forall b | b in h'.free
      ensures Follows(base, h', b)
    {
      assert Follows(base, h, b);
    }
  }

  lemma SmallerApart(h: Heap, h': Heap, ks: set<int>)
    requires ApartBut(h, ks) && h'.free == h.free && forall b :: b in h.free ==> At(h'.mem, b).size <= At(h.mem, b).size
    requires ks == {}
    ensures ApartBut(h', ks)
  {
  }

  /** Taking the tail of a block keeps the invariant. */
  lemma TakeTailInv(base: int, h: Heap, p: int, n: int)
    requires Inv(base, h) && p in h.free && p != base && 1 <= n < At(h.mem, p).size
    ensures Inv(base, TakeTail(h, p, n))
    ensures TakeTail(h, p, n).cell.Keys == h.cell.Keys
  {
    var h' := TakeTail(h, p, n);
    var q := p + At(h.mem, p).size - n;
    assert IsBlock(base, h, p);
    TailIsNew(base, h, p, q);
    TakeTailPartition(base, h, p, n);
    SameLinks(base, h, h');
    SmallerApart(h, h', {});
    forall b | IsBlock(base, h', b)
      ensures b > base && At(h'.mem, b).size >= 1
    {
      assert b == q || IsBlock(base, h, b);
    }
    forall b | b in h'.live
      ensures b !in h'.free && At(h'.mem, b).size == h'.live[b]
    {
      assert b == q || b in h.live;
    }
  }

  /** The system's region is fresh: above the base and outside everything obtained so far. */
  predicate Fresh(base: int, h: Heap, a: int, n: int) {
    1 <= n && base < a && forall u :: a <= u < a + n ==> u !in h.cell
  }

  lemma RegionCells(h: Heap, a: int, n: int)
    ensures forall u :: u in AddRegion(h, a, n).cell <==> u in h.cell || a <= u < a + n
    ensures forall u ::
              u in AddRegion(h, a, n).cell ==> AddRegion(h, a, n).cell[u] == if a <= u < a + n then a else h.cell[u]
  {
    forall u
      ensures u in AddRegion(h, a, n).cell <==> u in h.cell || a <= u < a + n
      ensures u in AddRegion(h, a, n).cell ==> AddRegion(h, a, n).cell[u] == if a <= u < a + n then a else h.cell[u]
    {
      assert InRegion(a, n, u) <==> a <= u < a + n;
    }
  }

  /** A new block over new cells extends the partition. */
  lemma GrowPartition(base: int, h: Heap, h': Heap, a: int, n: int)
    requires Partition(base, h) && !IsBlock(base, h, a) && 1 <= n && a != base
    requires h'.free == h.free && h'.live == h.live[a := n] && a !in h.free
    requires At(h'.mem, a).size == n && forall b :: b != a ==> At(h'.mem, b) == At(h.mem, b)
    requires forall u :: u in h'.cell <==> u in h.cell || a <= u < a + n
    requires forall u :: u in h'.cell ==> h'.cell[u] == if a <= u < a + n then a else h.cell[u]
    requires forall u :: a <= u < a + n ==> u !in h.cell
    ensures Partition(base, h')
  {
    forall u | u in h'.cell
      ensures IsBlock(base, h', h'.cell[u]) && Inside(h'.mem, h'.cell[u], u)
    {
      if !(a <= u < a + n) {
        assert IsBlock(base, h, h.cell[u]) && Inside(h.mem, h.cell[u], u);
      }
    }
    forall b, u | IsBlock(base, h', b) && Inside(h'.mem, b, u)
      ensures u in h'.cell && h'.cell[u] == b
    {
      if b != a {
        assert IsBlock(base, h, b) && Inside(h.mem, b, u) && u in h.cell && h.cell[u] == b;
      }
    }
  }

  lemma AddRegionLive(base: int, h: Heap, a: int, n: int)
    requires Inv(base, h) && Fresh(base, h, a, n)
    ensures LiveKept(h, AddRegion(h, a, n), a)
  {
    var h' := AddRegion(h, a, n);
    assert a !in h.cell;
    forall c, u | LiveUnit(h.live, c, u) && c != a
      ensures At(h'.mem, u) == At(h.mem, u)
    {
      assert IsBlock(base, h, c) && Inside(h.mem, c, u) && u in h.cell;
    }
  }

  /** A fresh region can be taken in as a live block. */
  lemma AddRegionInv(base: int, h: Heap, a: int, n: int)
    requires Inv(base, h) && Fresh(base, h, a, n)
    ensures Inv(base, AddRegion(h, a, n)) && a !in h.live
  {
    var h' := AddRegion(h, a, n);
    assert a !in h.cell;
    assert IsBlock(base, h, a) ==> Inside(h.mem, a, a);
    assert !IsBlock(base, h, a);
    assert a !in h.live && a !in h.free;
    RegionCells(h, a, n);
    GrowPartition(base, h, h', a, n);
    SameLinks(base, h, h');
    SmallerApart(h, h', {});
    forall b | IsBlock(base, h', b)
      ensures b > base && At(h'.mem, b).size >= 1
    {
      assert b == a || IsBlock(base, h, b);
    }
  }
}
