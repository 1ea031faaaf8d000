/** malloc, free and realloc over the circular free list. */
module Malloc {
  import opened Common
  import opened FreeList

  const UNIT_BYTES: nat := 8
  const WORD: nat := 0x1_0000_0000

  /** Units for `nbytes` of payload and a header, in 32-bit unsigned arithmetic. */
  function NUnits(nbytes: nat): (n: nat)
    ensures n >= 1
  {
    (nbytes + UNIT_BYTES - 1) % WORD / UNIT_BYTES + 1
  }

  /** The block is large enough exactly when the rounding does not wrap; the last seven sizes below
      4 GB ask for a header alone. */
  lemma NUnitsFits(nbytes: nat)
    requires nbytes < WORD
    ensures (NUnits(nbytes) - 1) * UNIT_BYTES >= nbytes <==> nbytes <= WORD - UNIT_BYTES
    ensures nbytes > WORD - UNIT_BYTES ==> NUnits(nbytes) == 1
  {
  }

  /** How much `morecore` means to ask the system for. */
  function Ask(nunits: nat): (n: nat) {
    if nunits < 4096 then 4096 else nunits
  }

  /** The bytes the system is really asked for: the product is 32 bits wide, and `sbrk` takes an `int`. */
  function AskedBytes(nunits: nat): (n: int) {
    var product := Ask(nunits) * UNIT_BYTES % WORD;
    if product < WORD / 2 then product else product - WORD
  }

  /** The region granted has all the units its header will claim. */
  predicate Backed(nunits: nat) {
    AskedBytes(nunits) == Ask(nunits) * UNIT_BYTES
  }

  /** What the header claims is granted exactly below 2^28 units; from there on the argument is negative, and
      for 2^29 units, the largest number there is, it is zero. */
  lemma BackedIff(nunits: nat)
    requires nunits <= WORD / UNIT_BYTES
    ensures Backed(nunits) <==> nunits < 0x1000_0000
    ensures !Backed(nunits) ==> AskedBytes(nunits) <= 0
    ensures AskedBytes(WORD / UNIT_BYTES) == 0
  {
  }

  /** A request that has to be met from the system gets a block that is large enough and is memory, if and
      only if it is for at most 2^31 - 16 bytes. */
  lemma ServedIff(nbytes: nat)
    requires nbytes < WORD
    ensures Backed(NUnits(nbytes)) && (NUnits(nbytes) - 1) * UNIT_BYTES >= nbytes <==> nbytes <= 0x7FFF_FFF0
  {
    BackedIff(NUnits(nbytes));
    NUnitsFits(nbytes);
  }

  /** Two requests that are not: eight bytes below 4 GB, for which the system is asked for nothing and the header
      claims 2^29 units; and the first one for which the system is asked to take memory back. */
  lemma NotServed()
    ensures NUnits(0xFFFF_FFF8) == 0x2000_0000 && AskedBytes(NUnits(0xFFFF_FFF8)) == 0
    ensures NUnits(0x7FFF_FFF1) == 0x1000_0000 && AskedBytes(NUnits(0x7FFF_FFF1)) == -0x8000_0000
  {
  }

  /** What the system promises when it grants a request: as much fresh memory as it was asked for. */
  ghost predicate Grants(base: int, h: Heap, a: int, nunits: nat) {
    AskedBytes(nunits) > 0 ==> Fresh(base, h, a, AskedBytes(nunits) / UNIT_BYTES)
  }

  /** A null pointer, a block's payload, or a header that claims memory which was not granted; what the
      code does after that is outside the model. */
  datatype Answer = Null | Block(ap: int) | Overrun

  /** The number of free blocks above `p`. */
  ghost function Above(free: set<int>, p: int): (n: nat) {
    |set c | c in free && c > p|
  }

  lemma AboveShrinks(free: set<int>, p: int, q: int)
    requires p < q && q in free
    ensures Above(free, q) < Above(free, p)
  {
    var a, b := set c | c in free && c > p, set c | c in free && c > q;
    assert b <= a - {q} && q in a;
    assert a == b + (a - b);
    assert |a| == |b| + |a - b| && q in a - b;
  }

  /** The block `n` links on from `b`. */
  ghost function Walk(mem: Mem, b: int, n: nat): int
    decreases n
  {
    if n == 0 then b else Walk(mem, At(mem, b).ptr, n - 1)
  }

  lemma {:induction false} WalkOn(mem: Mem, b: int, m: nat, n: nat)
    ensures Walk(mem, b, m + n) == Walk(mem, Walk(mem, b, m), n)
    decreases m
  {
    if m > 0 {
      WalkOn(mem, At(mem, b).ptr, m - 1, n);
    }
  }

  lemma {:induction false} WalkUp(base: int, h: Heap, b: int, c: int) returns (n: nat)
    requires Linked(base, h) && b in h.free && c in h.free && b <= c
    ensures Walk(h.mem, b, n) == c
    decreases Above(h.free, b)
  {
    if b == c {
      return 0;
    }
    assert Follows(base, h, b);
    var q := At(h.mem, b).ptr;
    AboveShrinks(h.free, b, q);
    n := WalkUp(base, h, q, c);
    n := n + 1;
  }

  lemma {:induction false} WalkToBase(base: int, h: Heap, b: int) returns (n: nat)
    requires Linked(base, h) && b in h.free
    ensures Walk(h.mem, b, n) == base
    decreases Above(h.free, b)
  {
    assert Follows(base, h, b);
    var q := At(h.mem, b).ptr;
    if q <= b {
      assert Walk(h.mem, b, 1) == Walk(h.mem, q, 0);
      return 1;
    }
    AboveShrinks(h.free, b, q);
    n := WalkToBase(base, h, q);
    n := n + 1;
  }

  /** The free list is one circle: from any free block its links lead to any other. */
  lemma OneCircle(base: int, h: Heap, b: int, c: int)
    requires Inv(base, h) && b in h.free && c in h.free
    ensures exists n: nat :: Walk(h.mem, b, n) == c
  {
    AboveBase(base, h, {});
    var m := WalkToBase(base, h, b);
    var n := WalkUp(base, h, base, c);
    WalkOn(h.mem, b, m, n);
  }

  class Allocator {
    const base: int
    var mem: Mem
    /** Where the next search starts; 0 before the first call. */
    var freep: int
    ghost var free: set<int>
    ghost var live: map<int, int>
    ghost var cell: map<int, int>

    ghost function H(): Heap
      reads this
    {
      Heap(mem, free, live, cell)
    }

    ghost predicate Ready()
      reads this
    {
      base > 0 && freep in free && Inv(base, H())
    }

    ghost predicate Valid()
      reads this
    {
      if freep == 0 then base > 0 && free == {} && live == map[] && cell == map[] else Ready()
    }

    /** Before the first call: `base` is the address of the static header. */
    constructor (base: int)
      requires base > 0
      ensures Valid() && this.base == base && live == map[] && cell == map[]
    {
      this.base, freep, mem := base, 0, map[];
      free, live, cell := {}, map[], map[];
    }

    /** Where the block at `bp` belongs: the search of `free`, once around the circle at most. */
    method Search(bp: int) returns (p: int)
      requires Ready() && bp in live
      ensures Gap(H(), p, bp)
    {
      p := freep;
      while !(bp > p && bp < At(mem, p).ptr)
        invariant p in free
        decreases p > bp, Above(free, p)
      {
        var n := At(mem, p).ptr;
        assert Follows(base, H(), p);
        if p >= n && (bp > p || bp < n) {
          assert IsBlock(base, H(), bp);
          AboveBase(base, H(), {});
          return;
        }
        if n > p {
          AboveShrinks(free, p, n);
        } else {
          assert IsBlock(base, H(), bp);
        }
        p := n;
      }
      assert Follows(base, H(), p);
    }

    /** Free the block whose payload starts at `ap`. */
    method Free(ap: int)
      requires Ready() && ap - 1 in live
      modifies `mem, `freep, `free, `live, `cell
      ensures Ready() && live == old(live) - {ap - 1} && cell.Keys == old(cell).Keys
      ensures LiveKept(old(H()), H(), ap - 1)
      ensures HasFree(H(), old(live)[ap - 1]) && Gap(old(H()), freep, ap - 1)
    {
      var bp := ap - 1;
      var p := Search(bp);
      ghost var h0 := H();
      ghost var h := FreeBlock(h0, p, bp);
      FreeKeepsInv(base, h0, p, bp);
      CodeIsFreeBlock(base, h0, p, bp);
      var m := mem;
      var q := At(m, p).ptr;
      var b := At(m, bp);
      if bp + b.size == q {
        m := m[bp := Unit(At(m, q).ptr, b.size + At(m, q).size)];
      } else {
        m := m[bp := b.(ptr := q)];
      }
      if p + At(m, p).size == bp {
        m := m[p := Unit(At(m, bp).ptr, At(m, p).size + At(m, bp).size)];
      } else {
        m := m[p := At(m, p).(ptr := bp)];
      }
      assert m == h.mem;
      mem := m;
      freep := p;
      free, live, cell := h.free, h.live, h.cell;
    }

    /** Get memory from the system and put it on the free list. */
    method Morecore(nu: nat, grant: Option<int>) returns (r: Answer)
      requires Ready() && nu >= 1 && (grant.Some? ==> Grants(base, H(), grant.value, nu))
      modifies `mem, `freep, `free, `live, `cell
      ensures Ready() && live == old(live) && LiveKept(old(H()), H(), 0)
      ensures r.Null? <==> grant.None?
      ensures r.Overrun? <==> grant.Some? && !Backed(nu)
      ensures !r.Block? ==> H() == old(H()) && freep == old(freep)
      ensures r.Block? ==> r.ap == freep && HasFree(H(), nu) && Grown(old(cell), cell, grant.value, Ask(nu))
    {
      if grant.None? {
        return Null;
      }
      if AskedBytes(nu) != Ask(nu) * UNIT_BYTES {
        return Overrun;
      }
      assert Fresh(base, H(), grant.value, Ask(nu));
      AddMemory(grant.value, Ask(nu));
      r := Block(freep);
    }

    /** Free a fresh region of `n` units at `hp`. */
    method AddMemory(hp: int, n: nat)
      requires Ready() && Fresh(base, H(), hp, n)
      modifies `mem, `freep, `free, `live, `cell
      ensures Ready() && live == old(live) && LiveKept(old(H()), H(), 0)
      ensures HasFree(H(), n) && Grown(old(cell), cell, hp, n)
    {
      Claim(hp, n);
      ghost var h1 := H();
      Free(hp + 1);
      LiveKeptTwice(old(H()), h1, H(), hp);
      assert live == old(live);
    }

    /** Write the header of a fresh region, which makes it a live block. */
    method Claim(hp: int, n: nat)
      requires Ready() && Fresh(base, H(), hp, n)
      modifies `mem, `live, `cell
      ensures Ready() && hp !in old(live) && live == old(live)[hp := n]
      ensures LiveKept(old(H()), H(), hp) && Grown(old(cell), cell, hp, n)
    {
      AddRegionInv(base, H(), hp, n);
      AddRegionLive(base, H(), hp, n);
      RegionCells(H(), hp, n);
      ghost var h := AddRegion(H(), hp, n);
      mem := mem[hp := At(mem, hp).(size := n)];
      live, cell := h.live, h.cell;
    }

    /** Hand out the whole free block `p`, which `prevp` points to. */
    method Unlink(prevp: int, p: int)
      requires Ready() && prevp in free && At(mem, prevp).ptr == p && p in free && p != base
      modifies `mem, `free, `live, `cell
      ensures Inv(base, H()) && p !in old(live) && live == old(live)[p := old(At(mem, p).size)] &&
              cell.Keys == old(cell).Keys
      ensures LiveKept(old(H()), H(), p) && prevp in free
    {
      TakeWholeInv(base, H(), prevp, p);
      WholePrev(base, H(), prevp, p);
      ghost var h := TakeWhole(H(), prevp, p);
      mem := mem[prevp := At(mem, prevp).(ptr := At(mem, p).ptr)];
      free, live, cell := h.free, h.live, h.cell;
    }

    /** Hand out the last `nunits` of the larger free block `p`. */
    method Split(p: int, nunits: nat) returns (q: int)
      requires Ready() && p in free && nunits >= 1 && At(mem, p).size > nunits
      modifies `mem, `free, `live, `cell
      ensures Inv(base, H()) && q !in old(live) && live == old(live)[q := nunits] && cell.Keys == old(cell).Keys
      ensures LiveKept(old(H()), H(), q) && free == old(free) && q == p + old(At(mem, p).size) - nunits
    {
      TakeTailInv(base, H(), p, nunits);
      TakeTailLive(base, H(), p, nunits);
      ghost var h := TakeTail(H(), p, nunits);
      var m, left := mem, At(mem, p).size - nunits;
      m := m[p := At(m, p).(size := left)];
      q := p + left;
      mem := m[q := At(m, q).(size := nunits)];
      free, live, cell := h.free, h.live, h.cell;
    }

    /** Take `nunits` from the free block `p`, which has at least that many; `prevp` points to `p`. */
    method Take(prevp: int, p: int, nunits: nat) returns (q: int)
      requires Ready() && prevp in free && At(mem, prevp).ptr == p && p in free && nunits >= 1 &&
               At(mem, p).size >= nunits
      modifies `mem, `freep, `free, `live, `cell
      ensures Ready() && q !in old(live) && live == old(live)[q := nunits] && cell.Keys == old(cell).Keys
      ensures LiveKept(old(H()), H(), q) && q == p + old(At(mem, p).size) - nunits && freep == prevp
    {
      if At(mem, p).size == nunits {
        Unlink(prevp, p);
        q := p;
      } else {
        q := Split(p, nunits);
      }
      freep := prevp;
    }

    /** Take `nunits` from the block `p` after `prevp`, where all blocks passed since `freep` were too small. */
    method TakeFirst(prevp: int, p: int, nunits: nat) returns (q: int)
      requires Ready() && prevp in free && At(mem, prevp).ptr == p && p in free && nunits >= 1 &&
               At(mem, p).size >= nunits && AllSmall(H(), freep, prevp, nunits)
      modifies `mem, `freep, `free, `live, `cell
      ensures Ready() && q > base && q !in old(live) && live == old(live)[q := nunits] && cell.Keys == old(cell).Keys
      ensures LiveKept(old(H()), H(), q) && HasFree(old(H()), nunits)
      ensures TakenFrom(old(H()), old(freep), freep, q, nunits)
    {
      FitIsFree(base, H(), p, nunits);
      FitIsFirst(base, H(), freep, prevp, nunits);
      q := Take(prevp, p, nunits);
      NewAbove(base, H(), q);
    }

    /** First fit from `freep` on; `grant` is what the system would answer if asked for more memory. The
        search goes around the list at most once before, and once after, asking. */
    method FirstFit(nunits: nat, grant: Option<int>) returns (r: Answer)
      requires Ready() && nunits >= 1 && (grant.Some? ==> Grants(base, H(), grant.value, nunits))
      modifies `mem, `freep, `free, `live, `cell
      ensures Ready()
      ensures r.Null? <==> grant.None? && !HasFree(old(H()), nunits)
      ensures r.Overrun? <==> grant.Some? && !Backed(nunits) && !HasFree(old(H()), nunits)
      ensures !r.Block? ==> H() == old(H())
      ensures r.Block? ==> r.ap != 0 && Served(old(H()), old(freep), H(), freep, r.ap - 1, nunits, grant)
    {
      ghost var h0 := H();
      LiveAboveBase(base, h0);
      var prevp := freep;
      var p := At(mem, prevp).ptr;
      ghost var asked := false;
      while true
        invariant Ready() && prevp in free && p == At(mem, prevp).ptr
        invariant live == h0.live && LiveKept(h0, H(), 0)
        invariant !asked ==> H() == h0 && freep == old(freep)
        invariant asked ==> Asked(h0, H(), nunits, grant)
        invariant AllSmall(H(), freep, prevp, nunits)
        decreases !asked, prevp >= freep, Above(free, prevp)
      {
        assert Follows(base, H(), prevp);
        if At(mem, p).size >= nunits {
          ghost var h1 := H();
          var q := TakeFirst(prevp, p, nunits);
          ServedNow(h0, old(freep), h1, H(), freep, q, nunits, grant, asked);
          return Block(q + 1);
        }
        SmallNext(base, H(), freep, prevp, nunits);
        if p == freep {
          r := Morecore(nunits, grant);
          if !r.Block? {
            return;
          }
          p := r.ap;
          asked := true;
        } else if p > prevp {
          AboveShrinks(free, prevp, p);
        }
        prevp := p;
        p := At(mem, prevp).ptr;
      }
    }

    /** Allocate `nbytes`. */
    method Malloc(nbytes: nat, grant: Option<int>) returns (r: Answer)
      requires Valid() && nbytes < WORD
      requires grant.Some? ==> Grants(base, H(), grant.value, NUnits(nbytes))
      modifies `mem, `freep, `free, `live, `cell
      ensures Ready()
      ensures r.Null? <==> grant.None? && !HasFree(old(H()), NUnits(nbytes))
      ensures r.Overrun? <==>
                grant.Some? && !HasFree(old(H()), NUnits(nbytes)) && 0x7FFF_FFF0 < nbytes <= WORD - UNIT_BYTES
      ensures !r.Block? ==> live == old(live) && cell == old(cell) && LiveKept(old(H()), H(), 0)
      ensures r.Block? ==> r.ap != 0 && Served(old(H()), old(freep), H(), freep, r.ap - 1, NUnits(nbytes), grant)
      ensures r.Block? ==> ((live[r.ap - 1] - 1) * UNIT_BYTES >= nbytes <==> nbytes <= WORD - UNIT_BYTES)
    {
      if freep == 0 {
        mem := mem[base := Unit(base, 0)];
        freep := base;
        free := {base};
        FirstHeap(base, mem);
      }
      ServedIff(nbytes);
      BackedIff(NUnits(nbytes));
      NUnitsFits(nbytes);
      r := FirstFit(NUnits(nbytes), grant);
    }

    /** Copy the `n` units at `src` to `dst`, the payload of a live block. */
    method Copy(dst: int, src: int, n: nat)
      requires Ready() && dst - 1 in live && n < live[dst - 1] && (src + n <= dst || dst + n <= src)
      modifies `mem
      ensures Ready() && LiveKept(old(H()), H(), dst - 1)
      ensures forall u :: dst <= u < dst + n ==> At(mem, u) == At(old(mem), u - dst + src)
      ensures forall a :: !InRegion(dst, n, a) ==> At(mem, a) == old(At(mem, a))
    {
      var m, i := mem, 0;
      while i < n
        modifies {}
        invariant 0 <= i <= n
        invariant forall u :: dst <= u < dst + i ==> At(m, u) == At(mem, u - dst + src)
        invariant forall u :: !InRegion(dst, n, u) ==> At(m, u) == At(mem, u)
      {
        var x := At(m, src + i);
        assert !InRegion(dst, n, src + i) && x == At(mem, dst + i - dst + src);
        CopyOne(mem, m, m[dst + i := x], dst, src, i, x);
        m := m[dst + i := x];
        i := i + 1;
      }
      PayloadWrite(base, H(), H().(mem := m), dst - 1);
      mem := m;
    }

    /** Grow the block whose payload starts at `ap` to `nbytes`, moving it if it must. */
    method Realloc(ap: int, nbytes: nat, grant: Option<int>) returns (r: Answer)
      requires Valid() && nbytes < WORD && (ap != 0 ==> ap - 1 in live)
      requires grant.Some? ==> Grants(base, H(), grant.value, NUnits(nbytes))
      modifies `mem, `freep, `free, `live, `cell
      ensures Ready() && LiveKept(old(H()), H(), ap - 1)
      ensures ap == 0 && r.Block? ==> r.ap - 1 !in old(live) && live == old(live)[r.ap - 1 := NUnits(nbytes)]
      ensures ap != 0 && nbytes == 0 ==> r.Null? && live == old(live) - {ap - 1}
      ensures ap != 0 && nbytes != 0 && old(live)[ap - 1] >= NUnits(nbytes) ==>
                r == Block(ap) && H() == old(H())
      ensures ap != 0 && nbytes != 0 && old(live)[ap - 1] < NUnits(nbytes) && r.Block? ==>
                r.ap - 1 !in old(live) && r.ap - 1 in live && live[r.ap - 1] == NUnits(nbytes)
      ensures !r.Block? && !(ap != 0 && nbytes == 0) ==>
                && live == old(live) && !HasFree(old(H()), NUnits(nbytes)) && LiveKept(old(H()), H(), 0)
                && (r.Null? <==> grant.None?) && (r.Overrun? ==> nbytes > 0x7FFF_FFF0)
      ensures ap != 0 && r.Block? ==>
                && r.ap - 1 in live && live[r.ap - 1] >= NUnits(nbytes) && live - {r.ap - 1} == old(live) - {ap - 1}
                && (forall u :: r.ap <= u < r.ap + old(live)[ap - 1] - 1 ==> At(mem, u) == At(old(mem), u - r.ap + ap))
                && (nbytes <= WORD - UNIT_BYTES ==> (live[r.ap - 1] - 1) * UNIT_BYTES >= nbytes)
    {
      if ap == 0 {
        r := Malloc(nbytes, grant);
        return;
      }
      if nbytes == 0 {
        Free(ap);
        return Null;
      }
      NUnitsFits(nbytes);
      var oldsize := At(mem, ap - 1).size;
      if oldsize >= NUnits(nbytes) {
        return Block(ap);
      }
      r := Relocate(ap, nbytes, grant);
    }

    /** The block at `ap` is too small: find a new one and move its contents there. */
    method Relocate(ap: int, nbytes: nat, grant: Option<int>) returns (r: Answer)
      requires Ready() && freep != 0 && nbytes < WORD && ap - 1 in live && live[ap - 1] < NUnits(nbytes)
      requires grant.Some? ==> Grants(base, H(), grant.value, NUnits(nbytes))
      modifies `mem, `freep, `free, `live, `cell
      ensures Ready() && LiveKept(old(H()), H(), ap - 1)
      ensures !r.Block? ==>
                && live == old(live) && !HasFree(old(H()), NUnits(nbytes)) && LiveKept(old(H()), H(), 0)
                && (r.Null? <==> grant.None?) && (r.Overrun? ==> nbytes > 0x7FFF_FFF0)
      ensures r.Block? ==>
                && r.ap - 1 in live && live[r.ap - 1] == NUnits(nbytes) && live - {r.ap - 1} == old(live) - {ap - 1}
                && r.ap - 1 !in old(live)
                && (forall u :: r.ap <= u < r.ap + old(live)[ap - 1] - 1 ==> At(mem, u) == At(old(mem), u - r.ap + ap))
    {
      ghost var h0 := H();
      r := Malloc(nbytes, grant);
      if r.Block? {
        PayloadKept(h0, H(), r.ap - 1, ap, h0.live[ap - 1] - 1);
        ghost var h1 := H();
        Move(ap, r.ap);
        MovedKept(h0, h1, H(), ap - 1, r.ap - 1);
      }
    }

    /** The end of `realloc`: copy the payload of the old block to the new and larger one, and free the old. */
    method Move(ap: int, np: int)
      requires Ready() && ap - 1 in live && np - 1 in live && ap != np && live[ap - 1] < live[np - 1]
      modifies `mem, `freep, `free, `live, `cell
      ensures Ready() && live == old(live) - {ap - 1}
      ensures forall u :: np <= u < np + old(live)[ap - 1] - 1 ==> At(mem, u) == At(old(mem), u - np + ap)
      ensures KeptBut(old(H()), H(), ap - 1, np - 1)
    {
      var n := At(mem, ap - 1).size - 1;
      LiveApart(base, H(), ap - 1, np - 1);
      Copy(np, ap, n);
      ghost var h := H();
      Free(ap);
      PayloadKept(h, H(), ap - 1, np, n);
    }
  }

  /** The memory obtained is as before, or has grown by what the system was asked for because nothing fitted. */
  ghost predicate Obtained(h: Heap, h': Heap, nunits: nat, grant: Option<int>) {
    if HasFree(h, nunits) then h'.cell.Keys == h.cell.Keys
    else grant.Some? && Grown(h.cell, h'.cell, grant.value, if nunits < 4096 then 4096 else nunits)
  }

  /** `q` is a new live block of `n` units and the contents of the others are kept. It comes from the first block
      that was large enough, and the memory obtained is as before; or there was none, and it has grown. */
  ghost predicate Served(h: Heap, start: int, h': Heap, start': int, q: int, n: nat, grant: Option<int>) {
    && q !in h.live && h'.live == h.live[q := n] && LiveKept(h, h', q)
    && Obtained(h, h', n, grant) && (HasFree(h, n) ==> TakenFrom(h, start, start', q, n))
  }

  lemma ServedNow(h0: Heap, start: int, h1: Heap, h2: Heap, start': int, q: int, n: nat, grant: Option<int>,
                  asked: bool)
    requires h1.live == h0.live && LiveKept(h0, h1, 0) && 0 !in h0.live && HasFree(h1, n)
    requires if asked then Asked(h0, h1, n, grant) else h1 == h0 && TakenFrom(h0, start, start', q, n)
    requires q !in h1.live && h2.live == h1.live[q := n] && h2.cell.Keys == h1.cell.Keys && LiveKept(h1, h2, q)
    ensures Served(h0, start, h2, start', q, n, grant)
  {
    KeptTake(h0, h1, h2, q);
    assert forall u :: u in h2.cell <==> u in h2.cell.Keys;
    assert forall u :: u in h1.cell <==> u in h1.cell.Keys;
  }

  /** Nothing fitted, and the memory obtained since makes up for it. */
  ghost predicate Asked(h: Heap, h': Heap, nunits: nat, grant: Option<int>) {
    && grant.Some? && Backed(nunits) && !HasFree(h, nunits) && HasFree(h', nunits)
    && Grown(h.cell, h'.cell, grant.value, Ask(nunits))
  }

  ghost predicate Grown(cell: map<int, int>, cell': map<int, int>, a: int, n: int) {
    forall u :: u in cell' <==> u in cell || InRegion(a, n, u)
  }

  /** Every block the search has passed is smaller than `n`. */
  ghost predicate AllSmall(h: Heap, start: int, prevp: int, n: int) {
    forall b :: b in h.free && Passed(start, prevp, b) ==> At(h.mem, b).size < n
  }

  /** The search that started after `start` and has reached `prevp` has looked at block `b`. */
  predicate Passed(start: int, prevp: int, b: int) {
    if prevp == start then false
    else if prevp > start then start < b <= prevp
    else b > start || b <= prevp
  }

  /** One more block seen: either the search goes on, or it is back at the start and has seen them all. */
  lemma SmallNext(base: int, h: Heap, start: int, prevp: int, n: int)
    requires Inv(base, h) && start in h.free && prevp in h.free && AllSmall(h, start, prevp, n)
    requires At(h.mem, At(h.mem, prevp).ptr).size < n
    ensures var p := At(h.mem, prevp).ptr; if p == start then !HasFree(h, n) else AllSmall(h, start, p, n)
  {
    assert Follows(base, h, prevp);
    AboveBase(base, h, {});
  }

  /** Going around the list from `start`, block `p` comes before block `b`. */
  predicate Sooner(start: int, p: int, b: int) {
    if p > start then b > p || b <= start else p < b <= start
  }

  /** First fit, from the block after `start` on: the tail of the first block that is large enough is taken, and
      the next search starts at the block that points to it. */
  ghost predicate TakenFrom(h: Heap, start: int, start': int, q: int, n: int) {
    var p := At(h.mem, start').ptr;
    && p in h.free && At(h.mem, p).size >= n && q == p + At(h.mem, p).size - n
    && forall b :: b in h.free && At(h.mem, b).size >= n && b != p ==> Sooner(start, p, b)
  }

  lemma FitIsFirst(base: int, h: Heap, start: int, prevp: int, n: int)
    requires Inv(base, h) && start in h.free && prevp in h.free && AllSmall(h, start, prevp, n)
    requires At(h.mem, At(h.mem, prevp).ptr).size >= n
    ensures var p := At(h.mem, prevp).ptr; TakenFrom(h, start, prevp, p + At(h.mem, p).size - n, n)
  {
    assert Follows(base, h, prevp);
    AboveBase(base, h, {});
  }

  lemma FitIsFree(base: int, h: Heap, p: int, n: int)
    requires Inv(base, h) && p in h.free && At(h.mem, p).size >= n >= 1
    ensures HasFree(h, n)
  {
  }

  lemma LiveAboveBase(base: int, h: Heap)
    requires Inv(base, h) && base > 0
    ensures 0 !in h.live
  {
    assert 0 in h.live ==> IsBlock(base, h, 0);
  }

  lemma NewAbove(base: int, h: Heap, q: int)
    requires Inv(base, h) && q in h.live
    ensures q > base
  {
    assert IsBlock(base, h, q);
  }

  lemma LiveApart(base: int, h: Heap, b: int, c: int)
    requires Inv(base, h) && b in h.live && c in h.live && b != c
    ensures b + h.live[b] <= c || c + h.live[c] <= b
  {
    assert IsBlock(base, h, b) && IsBlock(base, h, c);
    if b < c {
      BlocksApart(base, h, b, c);
    } else {
      BlocksApart(base, h, c, b);
    }
  }

  lemma CopyOne(mem: Mem, m: Mem, m': Mem, dst: int, src: int, i: nat, x: Unit)
    requires x == At(mem, dst + i - dst + src) && forall u :: dst <= u < dst + i ==> At(m, u) == At(mem, u - dst + src)
    requires m' == m[dst + i := x]
    ensures forall u :: dst <= u < dst + (i + 1) ==> At(m', u) == At(mem, u - dst + src)
  {
    forall u | dst <= u < dst + (i + 1)
      ensures At(m', u) == At(mem, u - dst + src)
    {
      assert u < dst + i ==> At(m, u) == At(mem, u - dst + src);
    }
  }

  lemma PayloadKept(h: Heap, h': Heap, b: int, p: int, n: int)
    requires LiveKept(h, h', b) && p - 1 in h.live && p - 1 != b && n < h.live[p - 1]
    ensures forall u :: p <= u < p + n ==> At(h'.mem, u) == At(h.mem, u)
  {
    forall u | p <= u < p + n
      ensures At(h'.mem, u) == At(h.mem, u)
    {
      assert LiveUnit(h.live, p - 1, u);
    }
  }

  lemma MovedKept(h0: Heap, h1: Heap, h2: Heap, b: int, q: int)
    requires q !in h0.live && h1.live.Keys == h0.live.Keys + {q} && (forall c :: c in h0.live ==>
               h1.live[c] == h0.live[c])
    requires LiveKept(h0, h1, q) && KeptBut(h1, h2, b, q)
    ensures LiveKept(h0, h2, b)
  {
    forall c, u | LiveUnit(h0.live, c, u) && c != b
      ensures At(h2.mem, u) == At(h0.mem, u)
    {
      assert LiveUnit(h1.live, c, u);
    }
  }

  /** The contents of every live block other than `b` and `q` are what they were. */
  ghost predicate KeptBut(h: Heap, h': Heap, b: int, q: int) {
    forall c, u {:trigger LiveUnit(h.live, c, u)} ::
      LiveUnit(h.live, c, u) && c != b && c != q ==> At(h'.mem, u) == At(h.mem, u)
  }

  /** Writing inside a live block, past its header, changes nothing the allocator looks at. */
  lemma PayloadWrite(base: int, h: Heap, h': Heap, b: int)
    requires Inv(base, h) && b in h.live && h' == h.(mem := h'.mem)
    requires forall u :: !InRegion(b + 1, h.live[b] - 1, u) ==> At(h'.mem, u) == At(h.mem, u)
    ensures Inv(base, h') && LiveKept(h, h', b)
  {
    forall c | c in h.free || c in h.live
      ensures At(h'.mem, c) == At(h.mem, c)
    {
      HeaderApart(base, h, b, c);
    }
    SameHeaders(base, h, h');
    forall c, u | LiveUnit(h.live, c, u) && c != b
      ensures At(h'.mem, u) == At(h.mem, u)
    {
      LiveApart(base, h, b, c);
    }
  }

  /** No header lies inside the payload of a live block. */
  lemma HeaderApart(base: int, h: Heap, b: int, c: int)
    requires Inv(base, h) && b in h.live && (c in h.free || c in h.live)
    ensures !(b < c < b + h.live[b])
  {
    if c in h.free {
      if b < c < b + h.live[b] {
        HeaderNotLive(base, h, {}, c, b, c);
      }
    } else if c != b {
      LiveApart(base, h, b, c);
      assert IsBlock(base, h, c);
    }
  }

  /** The invariant looks at headers only. */
  lemma SameHeaders(base: int, h: Heap, h': Heap)
    requires Inv(base, h) && h' == h.(mem := h'.mem)
    requires forall c :: c in h.free || c in h.live ==> At(h'.mem, c) == At(h.mem, c)
    ensures Inv(base, h')
  {
    forall c | c in h.free
      ensures Follows(base, h', c)
    {
      assert Follows(base, h, c);
    }
    forall c
      ensures IsBlock(base, h', c) <==> IsBlock(base, h, c)
    {
    }
    SameBlocks(base, h, h');
    assert forall c :: IsBlock(base, h', c) ==> IsBlock(base, h, c);
  }

  /** The first heap: only the empty base block, pointing to itself. */
  lemma FirstHeap(base: int, mem: Mem)
    requires At(mem, base) == Unit(base, 0)
    ensures Inv(base, Heap(mem, {base}, map[], map[]))
  {
  }

  lemma WholePrev(base: int, h: Heap, prev: int, p: int)
    requires Inv(base, h) && prev in h.free && p in h.free && p != base && At(h.mem, prev).ptr == p
    ensures prev != p
  {
    assert Follows(base, h, prev);
    assert IsBlock(base, h, p);
  }

  lemma KeptTake(h0: Heap, h1: Heap, h2: Heap, q: int)
    requires LiveKept(h0, h1, 0) && h1.live == h0.live && LiveKept(h1, h2, q) && 0 !in h0.live
    ensures LiveKept(h0, h2, q)
  {
    forall c, u | LiveUnit(h0.live, c, u) && c != q
      ensures At(h2.mem, u) == At(h0.mem, u)
    {
      assert LiveUnit(h1.live, c, u);
    }
  }

  lemma LiveKeptTwice(h0: Heap, h1: Heap, h2: Heap, a: int)
    requires LiveKept(h0, h1, a) && LiveKept(h1, h2, a) && a !in h0.live
    requires forall c :: c in h0.live ==> c in h1.live && h1.live[c] == h0.live[c]
    ensures LiveKept(h0, h2, 0)
  {
    forall c, u | LiveUnit(h0.live, c, u) && c != 0
      ensures At(h2.mem, u) == At(h0.mem, u)
    {
      assert LiveUnit(h1.live, c, u);
    }
  }

  /** The assignments of `free` compute the same memory as linking in and merging. */
  lemma CodeIsFreeBlock(base: int, h: Heap, p: int, bp: int)
    requires Inv(base, h) && bp in h.live && Gap(h, p, bp)
    ensures var q := At(h.mem, p).ptr;
            var b := At(h.mem, bp);
            var m1 := if bp + b.size == q then h.mem[bp := Unit(At(h.mem, q).ptr, b.size + At(h.mem, q).size)]
                      else h.mem[bp := b.(ptr := q)];
            var m2 := if p + At(m1, p).size == bp then m1[p := Unit(At(m1, bp).ptr, At(m1, p).size + At(m1, bp).size)]
                      else m1[p := At(m1, p).(ptr := bp)];
            m2 == FreeBlock(h, p, bp).mem
  {
    assert IsBlock(base, h, bp) && bp !in h.free && Follows(base, h, p);
    AboveBase(base, h, {});
  }
}
