/** The virtual memory operations: building, growing, shrinking, copying and freeing address spaces
    over the page allocator. */
module AddressSpace {
  import opened Common
  import opened PageTables

  datatype MapResult = Mapped | NoMemory | Remap

  /** Every mapping of every address space is the same. */
  ghost predicate SameMaps(spaces: set<int>, m: Memory, m': Memory) {
    forall q, v: int {:trigger Maps(m', q, v)} :: q in spaces ==> Maps(m', q, v) == Maps(m, q, v)
  }

  /** Every directory is the same. */
  ghost predicate SameDirs(spaces: set<int>, m: Memory, m': Memory) {
    forall q, x: int {:trigger Entry(m', q, x)} :: q in spaces ==> Entry(m', q, x) == Entry(m, q, x)
  }

  /** Every mapping is the same, except that page `v` of `pd` now has entry `e`. */
  ghost predicate MapsChanged(spaces: set<int>, m: Memory, m': Memory, pd: int, v: int, e: Pte) {
    forall q, w: int {:trigger Maps(m', q, w)} ::
      q in spaces ==> Maps(m', q, w) == if q == pd && w == v then e else Maps(m, q, w)
  }

  /** Nothing was given back, and all that was taken are tables of `pd`. */
  predicate TablesAdded(owner: map<int, Use>, owner': map<int, Use>, pd: int) {
    && (forall p :: p in owner ==> p in owner' && owner'[p] == owner[p])
    && (forall p :: p in owner' && p !in owner ==> owner'[p].Table? && owner'[p].pd == pd)
  }

  class Machine {
    ghost const all: set<int>
    var m: Memory
    ghost var spaces: set<int>
    ghost var owner: map<int, Use>

    /** Page conservation. */
    ghost predicate Valid()
      reads this
    {
      Owned(all, m, spaces, owner)
    }

    /** At boot: the whole pages between two addresses go on the free list, and no page is in use. */
    constructor (vstart: nat, vend: nat)
      ensures Valid() && spaces == {} && owner == map[]
      ensures forall p: int :: p in all <==> vstart <= p * PGSIZE && (p + 1) * PGSIZE <= vend
    {
      var lo := PagesIn(vstart);
      var p: int, free: seq<int> := lo, [];
      while (p + 1) * PGSIZE <= vend
        invariant lo <= p && Distinct(free)
        invariant forall q :: q in free <==> lo <= q < p
        invariant p == lo || p * PGSIZE <= vend
        decreases vend - p * PGSIZE
      {
        DistinctConcat([p], free);
        free := [p] + free;
        p := p + 1;
      }
      m := Memory(free, map[], map[]);
      all := set q | q in free;
      spaces, owner := {}, map[];
    }

    /** Take a page; it comes off the head of the free list. */
    method Kalloc() returns (p: Option<int>)
      requires Valid()
      modifies `m, `owner
      ensures p.None? <==> old(m).free == []
      ensures p.None? ==> m == old(m) && owner == old(owner)
      ensures p.Some? ==>
                p.value == old(m).free[0] && p.value !in old(owner) && m == Pop(old(m)) &&
                owner == old(owner)[p.value := Other] && Valid()
    {
      if m.free == [] {
        return None;
      }
      TakeOther(all, m, spaces, owner);
      PopFree(all, m, spaces, owner);
      p := Some(m.free[0]);
      m := m.(free := m.free[1..]);
      owner := owner[p.value := Other];
    }

    /** Give a page back. */
    method Kfree(p: int)
      modifies `m
      ensures m == Release(old(m), p) && m.free == [p] + old(m).free
    {
      m := Memory([p] + m.free, m.tables - {p}, m.data - {p});
    }

    /** The table holding the entry of page `v`, created if `alloc` says so. */
    method WalkPgDir(pd: int, v: nat, alloc: bool) returns (t: Option<int>)
      requires Valid() && pd in spaces && v < ALL_PAGES
      modifies `m, `owner
      ensures t.None? <==> !Entry(old(m), pd, v / NENTRIES).present && (!alloc || old(m).free == [])
      ensures t.None? || Entry(old(m), pd, v / NENTRIES).present ==> m == old(m) && owner == old(owner)
      ensures Valid() && SameMaps(spaces, old(m), m) && TablesAdded(old(owner), owner, pd) && m.data == old(m).data
      ensures t.Some? ==> Entry(m, pd, v / NENTRIES).present && t.value == Entry(m, pd, v / NENTRIES).ppn
      ensures forall q, x: int ::
                q in spaces && (q != pd || x != v / NENTRIES) ==> Entry(m, q, x) == Entry(old(m), q, x)
      ensures t.Some? ==> Walked(old(m), m, pd, v, 0)
    {
      var x := v / NENTRIES;
      var d := Entry(m, pd, x);
      if d.present {
        return Some(d.ppn);
      }
      if !alloc || m.free == [] {
        return None;
      }
      AddTableOwned(all, m, spaces, owner, pd, x);
      PopFree(all, m, spaces, owner);
      var p := m.free[0];
      m := AddTable(Pop(m), pd, x, p);
      owner := owner[p := Table(pd, x)];
      t := Some(p);
    }

    /** One turn of `mappages`: user pages get a page taken for them, kernel pages any physical page. */
    method MapOne(pd: int, v: nat, ppn: int, perm: int) returns (r: MapResult)
      requires Valid() && pd in spaces && v < ALL_PAGES && MayBind(m, owner, v, ppn)
      modifies `m, `owner
      ensures r.Remap? <==> Maps(old(m), pd, v).present
      ensures r.NoMemory? <==> |old(m).free| < TableFor(old(m), pd, v)
      ensures r.Remap? || r.NoMemory? ==> m == old(m) && owner == old(owner)
      ensures r.Mapped? ==> Walked(old(m), m, pd, v, 0)
      ensures Valid() && m.data == old(m).data
      ensures r.Mapped? ==> MapsChanged(spaces, old(m), m, pd, v, Pte(true, ppn, perm))
      ensures r.Mapped? ==> TablesAdded(Bind(old(owner), pd, v, ppn), owner, pd)
    {
      var t := WalkPgDir(pd, v, true);
      if t.None? {
        return NoMemory;
      }
      assert Maps(m, pd, v) == Entry(m, t.value, v % NENTRIES);
      if Entry(m, t.value, v % NENTRIES).present {
        return Remap;
      }
      BindOwned(all, m, spaces, owner, pd, v, ppn, perm);
      owner := Bind(owner, pd, v, ppn);
      m := SetPte(m, pd, v, Pte(true, ppn, perm));
      r := Mapped;
    }

    /** The next page of a range: `r` decides about the range as soon as it is not `Mapped`. */
    method MapNext(ghost m0: Memory, ghost owner0: map<int, Use>, pd: int, ghost first: nat, a: nat, ghost last: nat,
                   ghost ppn: int, p: int, perm: int) returns (r: MapResult)
      requires Valid() && pd in spaces && first <= a <= last < ALL_PAGES && p == ppn + (a - first)
      requires first < USER_PAGES ==> first == last && MayBind(m, owner, first, ppn)
      requires MapsSoFar(spaces, m0, m, owner0, owner, pd, first, a, ppn, perm)
      modifies `m, `owner
      ensures Valid()
      ensures if r.Mapped? && a < last then MapsSoFar(spaces, m0, m, owner0, owner, pd, first, a + 1, ppn, perm)
              else RangeTried(spaces, m0, m, owner0, owner, pd, first, last, ppn, perm, r)
    {
      r := MapOne(pd, a, p, perm);
      if r.Mapped? {
        MapGoesOn(spaces, m0, old(m), m, owner0, old(owner), owner, pd, first, a, ppn, perm);
      }
      MapDecides(m0, old(m), pd, first, a, last, r);
    }

    /** Map the pages of `[va, va + size)` to consecutive physical pages from `pa`. */
    method MapPages(pd: int, va: nat, size: nat, pa: int, perm: int) returns (r: MapResult)
      requires Valid() && pd in spaces && 0 < size && va + size <= ALL_PAGES * PGSIZE
      requires va / PGSIZE < USER_PAGES ==>
                 va / PGSIZE == (va + size - 1) / PGSIZE && MayBind(m, owner, va / PGSIZE, pa / PGSIZE)
      modifies `m, `owner
      ensures Valid()
      ensures RangeTried(spaces, old(m), m, old(owner), owner, pd, va / PGSIZE, (va + size - 1) / PGSIZE, pa / PGSIZE,
                         perm, r)
    {
      r := MapRange(pd, va / PGSIZE, (va + size - 1) / PGSIZE, pa / PGSIZE, perm);
    }

    /** The loop of `mappages`, on page numbers. */
    method MapRange(pd: int, first: nat, last: nat, ppn: int, perm: int) returns (r: MapResult)
      requires Valid() && pd in spaces && first <= last < ALL_PAGES
      requires first < USER_PAGES ==> first == last && MayBind(m, owner, first, ppn)
      modifies `m, `owner
      ensures Valid() && RangeTried(spaces, old(m), m, old(owner), owner, pd, first, last, ppn, perm, r)
    {
      var a, p := first, ppn;
      r := Mapped;
      while true
        invariant first <= a <= last && p == ppn + (a - first) && Valid() && r.Mapped?
        invariant r.Mapped? == MapsSoFar(spaces, old(m), m, old(owner), owner, pd, first, a, ppn, perm)
        decreases last - a
      {
        r := MapNext(old(m), old(owner), pd, first, a, last, ppn, p, perm);
        if !r.Mapped? || a == last {
          return;
        }
        a, p := a + 1, p + 1;
      }
    }

    /** Unmap user page `v`, which is mapped, and free its frame. */
    method DropPage(pd: int, v: nat)
      requires Valid() && pd in spaces && v < USER_PAGES && Maps(m, pd, v).present
      modifies `m, `owner
      ensures Valid() && MapsChanged(spaces, old(m), m, pd, v, NONE)
      ensures FramesDropped(old(owner), owner, pd, v, v + 1)
      ensures FramesKept(old(m), m, owner) && SameDirs(spaces, old(m), m)
    {
      DropFrameOwned(all, m, spaces, owner, pd, v);
      var f := Maps(m, pd, v).ppn;
      Kfree(f);
      m := SetPte(m, pd, v, NONE);
      owner := owner - {f};
      forall p | p in old(owner) && InFrames(old(owner)[p], pd, v, v + 1)
        ensures p == f
      {
        assert UseHolds(old(m), spaces, old(owner), p);
      }
    }

    /** One turn of `deallocuvm` at page `a`: drop it, or skip to the next directory entry. */
    method DeallocNext(ghost m0: Memory, ghost owner0: map<int, Use>, pd: int, ghost lo: nat, a: nat, ghost hi: nat)
      returns (next: int)
      requires Valid() && pd in spaces && lo <= a < hi <= USER_PAGES && Shrunk(spaces, m0, m, owner0, owner, pd, lo, a)
      modifies `m, `owner
      ensures Valid() && next > a && Shrunk(spaces, m0, m, owner0, owner, pd, lo, if next < hi then next else hi)
    {
      var d := Entry(m, pd, a / NENTRIES);
      if !d.present {
        SkipTable(all, m, spaces, owner, pd, a);
        next := (a / NENTRIES + 1) * NENTRIES - 1;
      } else {
        if Entry(m, d.ppn, a % NENTRIES).present {
          DropPage(pd, a);
        } else {
          NoFrame(all, m, spaces, owner, pd, a);
        }
        next := a;
      }
      next := next + 1;
    }

    /** Unmap and free the user pages from size `newsz` up to size `oldsz`; whole directory entries
        without a table are skipped. */
    method DeallocUvm(pd: int, oldsz: nat, newsz: nat) returns (sz: nat)
      requires Valid() && pd in spaces && oldsz <= USER_PAGES * PGSIZE
      modifies `m, `owner
      ensures Valid()
      ensures sz == if newsz >= oldsz then oldsz else newsz
      ensures Shrunk(spaces, old(m), m, old(owner), owner, pd, PagesIn(newsz), PagesIn(oldsz))
    {
      if newsz >= oldsz {
        return oldsz;
      }
      var a := PagesIn(newsz);
      ghost var lo, hi := a, PagesIn(oldsz);
      while a * PGSIZE < oldsz
        invariant lo <= a && lo <= hi
        invariant Valid()
        invariant Shrunk(spaces, old(m), m, old(owner), owner, pd, lo, if a < hi then a else hi)
        decreases hi - a
      {
        a := DeallocNext(old(m), old(owner), pd, lo, a, hi);
      }
      sz := newsz;
    }

    /** Free the table under entry `i` of `pd`, if there is one. */
    method FreeTable(ghost m0: Memory, pd: int, i: nat, ghost ps: seq<int>) returns (ghost ps': seq<int>)
      requires Owned(all, m0, spaces, owner) && pd in spaces
      requires m == ReleaseAll(m0, ps) && TablesOf(owner, pd, i, ps)
      modifies `m
      ensures m == ReleaseAll(m0, ps') && TablesOf(owner, pd, i + 1, ps')
    {
      var d := Entry(m, pd, i);
      assert pd !in ps;
      assert d == Entry(m0, pd, i);
      NextTable(all, m0, spaces, owner, pd, i);
      ps' := ps;
      if d.present {
        Kfree(d.ppn);
        ps' := [d.ppn] + ps;
        assert d.ppn !in ps;
        DistinctConcat([d.ppn], ps);
      }
    }

    /** Free the tables of a directory whose user pages are gone, then the directory. */
    method FreeTables(pd: int) returns (ghost ps: seq<int>)
      requires Valid() && pd in spaces && forall p :: p in owner && owner[p].Frame? ==> owner[p].pd != pd
      modifies `m
      ensures PagesOf(owner, pd, ps) && m == ReleaseAll(old(m), ps)
    {
      ps := [];
      var i := 0;
      while i < NENTRIES
        invariant 0 <= i <= NENTRIES
        invariant m == ReleaseAll(old(m), ps) && TablesOf(owner, pd, i, ps)
      {
        ps := FreeTable(old(m), pd, i, ps);
        i := i + 1;
      }
      LastTable(all, old(m), spaces, owner, pd);
      Kfree(pd);
      DistinctConcat([pd], ps);
      ps := [pd] + ps;
    }

    /** Free an address space: every page it holds goes back, and nothing else does. */
    method FreeVm(pd: int)
      requires Valid() && pd in spaces
      modifies this
      ensures Valid() && spaces == old(spaces) - {pd} && owner == Forget(old(owner), pd)
      ensures SameMaps(spaces, old(m), m) && FramesKept(old(m), m, owner)
    {
      var sz := DeallocUvm(pd, USER_PAGES * PGSIZE, 0);
      assert PagesIn(0) == 0 && PagesIn(USER_PAGES * PGSIZE) == USER_PAGES;
      ghost var m1 := m;
      forall p | p in owner && owner[p].Frame?
        ensures owner[p].pd != pd
      {
        assert UseHolds(m, spaces, owner, p);
      }
      ghost var ps := FreeTables(pd);
      DropSpaceOwned(all, m1, spaces, owner, pd, ps);
      assert Forget(owner, pd) == Forget(old(owner), pd) by {
        ForgetRest(all, old(m), spaces, old(owner), owner, pd);
      }
      owner := Forget(owner, pd);
      spaces := spaces - {pd};
    }

    /** An empty directory, or `None` when no page is left. */
    method NewDir() returns (pd: Option<int>)
      requires Valid()
      modifies this
      ensures Valid() && SameMaps(old(spaces), old(m), m) && m.data == old(m).data
      ensures pd.None? <==> old(m).free == []
      ensures pd.None? ==> m == old(m) && owner == old(owner) && spaces == old(spaces)
      ensures pd.Some? ==>
                && pd.value !in old(owner) && pd.value !in old(spaces)
                && spaces == old(spaces) + {pd.value} && owner == old(owner)[pd.value := Dir]
                && (forall v: int :: Maps(m, pd.value, v) == NONE)
                && |m.free| == |old(m).free| - 1 && forall x: int :: Entry(m, pd.value, x) == NONE
    {
      pd := Kalloc();
      if pd.Some? {
        SameTables(old(m), m);
        AddDirOwned(all, m, spaces, owner, pd.value);
        m := m.(tables := m.tables[pd.value := EmptyTable()]);
        owner := owner[pd.value := Dir];
        spaces := spaces + {pd.value};
      }
    }

    /** Map the `k`th region of the kernel into a directory that has the ones before it. */
    method MapRegion(ghost base: Memory, ghost owner0: map<int, Use>, pd: int, data: nat, top: nat, k: nat)
      returns (ok: bool)
      requires Valid() && KernelFits(data, top) && k < 4 && pd in spaces
      requires KernelSoFar(spaces, base, m, owner0, owner, pd, data, top, k)
      modifies `m, `owner
      ensures Valid()
      ensures ok <==> KernelTables(data, top, k + 1) <= |base.free|
      ensures ok ==> KernelSoFar(spaces, base, m, owner0, owner, pd, data, top, k + 1)
      ensures KernelPart(spaces, base, m, owner0, owner, pd)
    {
      RegionsApart(data, top, k);
      var r := KernelMap(data, top)[k];
      var o := MapPages(pd, r.virt, r.Size(), r.start, r.perm);
      RegionTried(spaces, base, old(m), m, owner0, old(owner), owner, pd, data, top, k, o);
      ok := o.Mapped?;
    }

    /** A directory with the kernel's mappings, or `None` with every page given back. */
    method SetupKvm(data: nat, top: nat) returns (pd: Option<int>)
      requires Valid() && KernelFits(data, top)
      modifies this
      ensures Valid() && SameMaps(old(spaces), old(m), m) && FramesKept(old(m), m, old(owner))
      ensures pd.None? <==> |old(m).free| < 1 + KernelTables(data, top, 4)
      ensures pd.None? ==> SameUses(old(owner), owner) && spaces == old(spaces)
      ensures pd.Some? ==>
                |m.free| == |old(m).free| - 1 - KernelTables(data, top, 4) && KernelEntries(m, pd.value, data, top, 4)
      ensures pd.Some? ==>
                && pd.value !in old(owner) && pd.value !in old(spaces)
                && spaces == old(spaces) + {pd.value} && TablesAdded(old(owner)[pd.value := Dir], owner, pd.value)
                && (forall v: nat :: v < USER_PAGES ==> !Maps(m, pd.value, v).present)
                && KernelMapped(m, pd.value, data, top) && KernelHidden(m, pd.value)
    {
      RegionEntries(data, top, 0);
      pd := NewDir();
      if pd.None? {
        return;
      }
      var ok := MapKernel(pd.value, data, top);
      if !ok {
        Abandon(old(m), old(spaces), old(owner), pd.value);
        pd := None;
        return;
      }
      RegionsAreKernel(m, pd.value, data, top);
    }

    /** The loop of `setupkvm`: the regions one after another into an empty directory. */
    method MapKernel(pd: int, data: nat, top: nat) returns (ok: bool)
      requires Valid() && KernelFits(data, top) && pd in spaces && forall x: int :: Entry(m, pd, x) == NONE
      modifies `m, `owner
      ensures Valid() && (ok <==> KernelTables(data, top, 4) <= |old(m).free|)
      ensures KernelPart(spaces, old(m), m, old(owner), owner, pd)
      ensures ok ==> KernelSoFar(spaces, old(m), m, old(owner), owner, pd, data, top, 4)
    {
      var k := 0;
      ok := true;
      while k < 4
        invariant 0 <= k <= 4 && Valid() && ok && KernelTables(data, top, k) <= |old(m).free|
        invariant ok == KernelSoFar(spaces, old(m), m, old(owner), owner, pd, data, top, k)
      {
        RegionEntries(data, top, k);
        ok := MapRegion(old(m), old(owner), pd, data, top, k);
        if !ok {
          return;
        }
        k := k + 1;
      }
    }

    /** Take a page and fill it. */
    method TakeFilled(bytes: Bytes) returns (p: Option<int>)
      requires Valid() && |bytes| == PGSIZE
      modifies `m, `owner
      ensures Valid() && SameMaps(spaces, old(m), m)
      ensures p.None? <==> old(m).free == []
      ensures p.None? ==> m == old(m) && owner == old(owner)
      ensures p.Some? ==>
                p.value !in old(owner) && owner == old(owner)[p.value := Other] &&
                m.data == old(m).data[p.value := bytes]
      ensures p.Some? ==> |m.free| == |old(m).free| - 1 && m.tables == old(m).tables
    {
      p := Kalloc();
      if p.Some? {
        SameTables(old(m), m.(data := m.data[p.value := bytes]));
        FillOwned(all, m, spaces, owner, p.value, bytes);
        m := m.(data := m.data[p.value := bytes]);
      }
    }

    /** Give a page that was taken but not used back. */
    method GiveBack(p: int)
      requires Valid() && p in owner && owner[p] == Other
      modifies `m, `owner
      ensures Valid() && SameMaps(spaces, old(m), m) && owner == old(owner) - {p} && m.data == old(m).data - {p}
      ensures |m.free| == |old(m).free| + 1 && SameDirs(spaces, old(m), m)
    {
      DropOther(all, m, spaces, owner, p);
      Kfree(p);
      owner := owner - {p};
    }

    /** Map user page `v` of `pd` to a page taken for it. */
    method MapUser(pd: int, v: nat, ppn: int, flags: int) returns (ok: bool)
      requires Valid() && pd in spaces && v < USER_PAGES && MayBind(m, owner, v, ppn) && !Maps(m, pd, v).present
      modifies `m, `owner
      ensures Valid() && m.data == old(m).data
      ensures ok <==> TableFor(old(m), pd, v) <= |old(m).free|
      ensures !ok ==> m == old(m) && owner == old(owner)
      ensures ok ==> Walked(old(m), m, pd, v, 0)
      ensures ok ==> MapsOnlyIn(spaces, old(m), m, pd, v, v) && Maps(m, pd, v) == Pte(true, ppn, flags)
      ensures ok ==> TablesAdded(old(owner)[ppn := Frame(pd, v)], owner, pd)
    {
      assert v * PGSIZE / PGSIZE == v && (v * PGSIZE + PGSIZE - 1) / PGSIZE == v && ppn * PGSIZE / PGSIZE == ppn;
      OneTable(m, pd, v);
      var r := MapPages(pd, v * PGSIZE, PGSIZE, ppn * PGSIZE, flags);
      ok := r.Mapped?;
    }

    /** Give user page `v` of `pd` a new frame with the given bytes and flags; on failure the page
        taken for it has been given back. */
    method AddPage(pd: int, v: nat, bytes: Bytes, flags: int) returns (ok: bool)
      requires Valid() && pd in spaces && v < USER_PAGES && |bytes| == PGSIZE && !Maps(m, pd, v).present
      modifies `m, `owner
      ensures Valid() && FramesKept(old(m), m, old(owner))
      ensures ok <==> 1 + TableFor(old(m), pd, v) <= |old(m).free|
      ensures !ok ==> SameMaps(spaces, old(m), m) && owner == old(owner)
      ensures !ok ==> |m.free| == |old(m).free| && forall x: int :: Entry(m, pd, x) == Entry(old(m), pd, x)
      ensures ok ==> Walked(old(m), m, pd, v, 1)
      ensures ok ==> MapsOnlyIn(spaces, old(m), m, pd, v, v) && PageHolds(m, pd, v, bytes, flags)
      ensures ok ==> Taken(old(owner), owner, pd, v, v + 1)
    {
      var p := TakeFilled(bytes);
      if p.None? {
        return false;
      }
      SameTables(old(m), m);
      ok := MapUser(pd, v, p.value, flags);
      if !ok {
        GiveBack(p.value);
        assert owner == old(owner);
      }
    }

    /** One turn of `allocuvm`. */
    method GrowNext(ghost m0: Memory, ghost owner0: map<int, Use>, pd: int, ghost lo: nat, a: nat) returns (ok: bool)
      requires Valid() && pd in spaces && lo <= a < USER_PAGES && !Maps(m0, pd, a).present
      requires Growing(spaces, m0, m, owner0, owner, pd, lo, a)
      modifies `m, `owner
      ensures ok <==> Affords(m0, pd, lo, a + 1)
      ensures Valid() && Growing(spaces, m0, m, owner0, owner, pd, lo, if ok then a + 1 else a)
    {
      ghost var m1, owner1 := m, owner;
      ok := AddPage(pd, a, ZeroPage(), USER_RW);
      TableOnce(m0, m1, pd, lo, a, a - lo);
      if ok {
        SpentMore(m0, m1, m, pd, lo, a, a - lo, 1);
        GrownMore(all, spaces, m0, m1, m, owner0, owner1, owner, pd, lo, a);
      } else {
        GrownSame(all, spaces, m0, m1, m, owner0, owner, pd, lo, a);
      }
    }

    /** Grow an address space from `oldsz` to `newsz` with zeroed pages; 0 on failure, with every
        mapping as before and only page tables kept. */
    method AllocUvm(pd: int, oldsz: nat, newsz: nat) returns (sz: nat)
      requires Valid() && pd in spaces && newsz <= USER_PAGES * PGSIZE
      requires forall v: int :: PagesIn(oldsz) <= v < PagesIn(newsz) ==> !Maps(m, pd, v).present
      modifies `m, `owner
      ensures Valid()
      ensures newsz < oldsz ==> sz == oldsz && m == old(m) && owner == old(owner)
      ensures newsz >= oldsz ==> sz == 0 || sz == newsz
      ensures newsz >= oldsz && sz == newsz ==>
                Grown(spaces, old(m), m, old(owner), owner, pd, PagesIn(oldsz), PagesIn(newsz))
      ensures newsz >= oldsz && sz == newsz ==>
                forall addr: nat :: (oldsz + PGSIZE - 1) / PGSIZE * PGSIZE <= addr < newsz ==> ZeroedAt(m, pd, addr)
      ensures newsz >= oldsz ==> (sz == newsz <==> Affords(old(m), pd, PagesIn(oldsz), PagesIn(newsz)))
      ensures newsz >= oldsz && sz != newsz ==>
                GrowthFailed(spaces, old(m), m, old(owner), owner, pd, PagesIn(oldsz), PagesIn(newsz))
    {
      if newsz < oldsz {
        return oldsz;
      }
      ghost var lo, hi := PagesIn(oldsz), PagesIn(newsz);
      NoFrames(all, m, spaces, owner, pd, lo, hi);
      var ok; ghost var a;
      ok, a := GrowAll(pd, PagesIn(oldsz), PagesIn(newsz));
      if !ok {
        ghost var m1, owner1 := m, owner;
        sz := DeallocUvm(pd, newsz, oldsz);
        Retreated(all, spaces, old(m), m1, m, old(owner), owner1, owner, pd, lo, a, hi);
        return 0;
      }
      forall addr: nat | (oldsz + PGSIZE - 1) / PGSIZE * PGSIZE <= addr < newsz
        ensures ZeroedAt(m, pd, addr)
      {
        ZeroedBytes(m, pd, lo, hi, addr);
      }
      sz := newsz;
    }

    /** The loop of `allocuvm`, on page numbers: pages from `lo` to `a` were added. */
    method GrowAll(pd: int, lo: nat, hi: nat) returns (ok: bool, ghost a: nat)
      requires Valid() && pd in spaces && lo <= hi <= USER_PAGES
      requires forall v: int :: lo <= v < hi ==> !Maps(m, pd, v).present
      modifies `m, `owner
      ensures Valid() && lo <= a <= hi && Growing(spaces, old(m), m, old(owner), owner, pd, lo, a)
      ensures if ok then a == hi else a < hi && !Affords(old(m), pd, lo, a + 1)
    {
      var p := lo;
      while p < hi
        invariant lo <= p <= hi && Valid()
        invariant Growing(spaces, old(m), m, old(owner), owner, pd, lo, p)
      {
        ok := GrowNext(old(m), old(owner), pd, lo, p);
        if !ok {
          return false, p;
        }
        p := p + 1;
      }
      return true, p;
    }

    /** One turn of `copyuvm`: page `a` of the parent `pd`, which is mapped, is copied to the child `d`. */
    method CopyNext(ghost m0: Memory, ghost spaces0: set<int>, ghost owner0: map<int, Use>, ghost m1: Memory, pd: int,
                    d: int, a: nat)
      returns (ok: bool)
      requires Valid() && CopySoFar(all, m0, spaces0, owner0, m1, m, spaces, owner, pd, d, a)
      requires a < USER_PAGES && Maps(m, pd, a).present
      modifies `m, `owner
      ensures ok <==> Affords(m1, d, 0, a + 1)
      ensures Valid() && CopySoFar(all, m0, spaces0, owner0, m1, m, spaces, owner, pd, d, if ok then a + 1 else a)
    {
      var e := Maps(m, pd, a);
      assert owner[e.ppn] == Frame(pd, a) && UseHolds(m, spaces, owner, e.ppn);
      ghost var m2, owner2 := m, owner;
      ok := AddPage(d, a, m.data[e.ppn], e.flags);
      TableOnce(m1, m2, d, 0, a, a);
      if ok {
        SpentMore(m1, m2, m, d, 0, a, a, 1);
        CopyMore(all, m0, spaces0, owner0, m2, owner2, m, owner, spaces, pd, d, a);
      } else {
        CopySame(all, m0, spaces0, owner0, m2, m, owner, spaces, pd, d, a);
      }
    }

    /** The loop of `copyuvm`, on page numbers: pages up to `a` were copied. */
    method CopyAll(ghost m0: Memory, ghost spaces0: set<int>, ghost owner0: map<int, Use>, pd: int, d: int, n: nat)
      returns (r: CopyResult, ghost a: nat)
      requires Valid() && CopySoFar(all, m0, spaces0, owner0, m, m, spaces, owner, pd, d, 0) && n <= USER_PAGES
      modifies `m, `owner
      ensures Valid() && a <= n && CopySoFar(all, m0, spaces0, owner0, old(m), m, spaces, owner, pd, d, a)
      ensures match r
              case Copied(q) => q == d && a == n
              case Panicked => a < n && !Maps(m0, pd, a).present
              case OutOfMemory => a < n && Maps(m0, pd, a).present && !Affords(old(m), d, 0, a + 1)
    {
      var p := 0;
      while p < n
        invariant 0 <= p <= n && Valid()
        invariant CopySoFar(all, m0, spaces0, owner0, old(m), m, spaces, owner, pd, d, p)
      {
        if !Maps(m, pd, p).present {
          return Panicked, p;
        }
        var ok := CopyNext(m0, spaces0, owner0, old(m), pd, d, p);
        if !ok {
          return OutOfMemory, p;
        }
        p := p + 1;
      }
      return Copied(d), p;
    }

    /** Copy the user part of an address space for a new process. */
    method CopyUvm(pd: int, sz: nat, data: nat, top: nat) returns (r: CopyResult)
      requires Valid() && pd in spaces && sz <= USER_PAGES * PGSIZE && KernelFits(data, top)
      modifies this
      ensures r.Panicked? <==> CopyPanics(old(m), pd, PagesIn(sz), data, top)
      ensures r.Copied? <==> CopyFits(old(m), pd, PagesIn(sz), data, top)
      ensures !r.Panicked? ==> Valid() && SameMaps(old(spaces), old(m), m) && FramesKept(old(m), m, old(owner))
      ensures r.OutOfMemory? ==> SameUses(old(owner), owner) && spaces == old(spaces)
      ensures r.Copied? ==>
                && r.pd !in old(spaces) && spaces == old(spaces) + {r.pd}
                && TakenBy(old(owner), owner, r.pd)
                && (forall v: nat :: v < PagesIn(sz) ==> PageCopied(old(m), m, pd, r.pd, v))
                && (forall v: nat :: PagesIn(sz) <= v < USER_PAGES ==> !Maps(m, r.pd, v).present)
                && (forall addr: nat {:trigger UserByte(m, r.pd, addr)} :: addr / PGSIZE < PagesIn(sz) ==>
                      && UserByte(m, r.pd, addr) == UserByte(old(m), pd, addr)
                      && Maps(m, r.pd, addr / PGSIZE).flags == Maps(old(m), pd, addr / PGSIZE).flags)
                && KernelMapped(m, r.pd, data, top) && KernelHidden(m, r.pd)
    {
      var d := SetupKvm(data, top);
      if d.None? {
        TooPoor(old(m), pd, PagesIn(sz), data, top);
        return OutOfMemory;
      }
      CopyStart(all, old(m), old(spaces), old(owner), m, spaces, owner, pd, d.value);
      ghost var m1 := m;
      ghost var a;
      r, a := CopyAll(old(m), old(spaces), old(owner), pd, d.value, PagesIn(sz));
      CopyDecides(all, old(m), old(spaces), old(owner), m1, m, spaces, owner, pd, d.value, PagesIn(sz), data, top,
                  a, r);
      KernelKept(m1, m, d.value, data, top);
      CopiedBytes(old(m), m, pd, d.value, a);
      if r.OutOfMemory? {
        Abandon(old(m), old(spaces), old(owner), d.value);
      }
    }

    /** Free the new address space `d`, with all that it has taken. */
    method Abandon(ghost m0: Memory, ghost spaces0: set<int>, ghost owner0: map<int, Use>, d: int)
      requires Valid() && Owned(all, m0, spaces0, owner0) && d !in spaces0 && spaces == spaces0 + {d}
      requires TakenBy(owner0, owner, d) && SameMaps(spaces0, m0, m) && FramesKept(m0, m, owner0)
      modifies this
      ensures Valid() && spaces == spaces0 && SameUses(owner0, owner)
      ensures SameMaps(spaces0, m0, m) && FramesKept(m0, m, owner0)
    {
      ForgetTaken(all, m0, spaces0, owner0, owner, d);
      FreeVm(d);
      assert spaces0 + {d} - {d} == spaces0;
    }

    /** The frame behind a user-accessible page: `uva2ka`. */
    method UserPage(pd: int, v: nat) returns (r: Lookup)
      requires Valid() && pd in spaces && v < ALL_PAGES
      modifies `m, `owner
      ensures m == old(m) && owner == old(owner)
      ensures r.NoTable? <==> !Entry(m, pd, v / NENTRIES).present
      ensures r.At? <==> UserAccessible(Maps(m, pd, v))
      ensures r.At? ==> r.ppn == Maps(m, pd, v).ppn
    {
      var t := WalkPgDir(pd, v, false);
      if t.None? {
        return NoTable;
      }
      var e := Entry(m, t.value, v % NENTRIES);
      if !e.present || !HasUser(e.flags) {
        return NoPage;
      }
      r := At(e.ppn);
    }

    /** Copy `src` to user address `va` of an address space, page by page. `done` bytes were copied;
        an address without a page table makes the code read through a null pointer. */
    method CopyOut(pd: int, va: nat, src: Bytes) returns (r: CopyOutResult, ghost done: nat)
      requires Valid() && pd in spaces && va + |src| <= ALL_PAGES * PGSIZE && KernelHidden(m, pd)
      modifies `m, `owner
      ensures Valid() && spaces == old(spaces) && owner == old(owner) && SameMaps(spaces, old(m), m)
      ensures done <= |src| && UserWritten(spaces, old(m), m, pd, va, src[..done])
      ensures r.Done? <==> Accessible(old(m), pd, va, |src|)
      ensures r.Done? ==> done == |src|
      ensures !r.Done? ==> Blocked(old(m), pd, va, |src|, done)
      ensures r.NullDeref? <==> exists k: nat :: Blocked(old(m), pd, va, |src|, k) && Unmapped(old(m), pd, va + k)
    {
      var k := 0;
      assert src[..0] == [];
      while k < |src|
        invariant 0 <= k <= |src| && Valid() && owner == old(owner)
        invariant m.tables == old(m).tables && Accessible(old(m), pd, va, k)
        invariant UserWritten(spaces, old(m), m, pd, va, src[..k])
      {
        SameTables(old(m), m);
        var u := UserPage(pd, (va + k) / PGSIZE);
        if !u.At? {
          BlockedOnce(old(m), pd, va, |src|, k);
          return if u.NoTable? then NullDeref else BadAddress, k;
        }
        assert KernelHidden(m, pd);
        var n := PGSIZE - (va + k) % PGSIZE;
        if n > |src| - k {
          n := |src| - k;
        }
        PutUser(old(m), pd, va, src, k, n);
        AccessibleMore(old(m), pd, va, k, n);
        k := k + n;
      }
      assert src[..k] == src;
      SameTables(old(m), m);
      NotBlocked(old(m), pd, va, |src|);
      return Done, k;
    }

    /** One turn of `copyout`: `n` more bytes into a user page that is mapped. */
    method PutUser(ghost m0: Memory, pd: int, va: nat, src: Bytes, k: nat, n: nat)
      requires Valid() && pd in spaces && k + n <= |src| && 0 < n <= PGSIZE - (va + k) % PGSIZE
      requires (va + k) / PGSIZE < USER_PAGES && Maps(m, pd, (va + k) / PGSIZE).present
      requires UserWritten(spaces, m0, m, pd, va, src[..k])
      modifies `m
      ensures Valid() && m.tables == old(m).tables && UserWritten(spaces, m0, m, pd, va, src[..k + n])
    {
      var pos := va + k;
      var f := Maps(m, pd, pos / PGSIZE).ppn;
      assert owner[f] == Frame(pd, pos / PGSIZE) && UseHolds(m, spaces, owner, f);
      var page := m.data[f];
      page := page[..pos % PGSIZE] + src[k..k + n] + page[pos % PGSIZE + n..];
      WriteFrame(all, m, spaces, owner, pd, pos / PGSIZE, page);
      m := m.(data := m.data[f := page]);
      UserWrittenMore(spaces, m0, old(m), m, pd, va, src, k, n, page);
    }
  }

  datatype Lookup = At(ppn: int) | NoPage | NoTable

  datatype CopyOutResult = Done | BadAddress | NullDeref

  predicate HasUser(flags: int) {
    flags / PTE_U % 2 == 1
  }

  predicate UserAccessible(e: Pte) {
    e.present && HasUser(e.flags)
  }

  /** The page of user address `addr` may be accessed by user code. */
  predicate AccessibleAt(m: Memory, pd: int, addr: nat) {
    UserAccessible(Maps(m, pd, addr / PGSIZE))
  }

  /** All of `[va, va + n)` may be accessed by user code. */
  ghost predicate Accessible(m: Memory, pd: int, va: nat, n: nat) {
    forall addr: nat :: va <= addr < va + n ==> AccessibleAt(m, pd, addr)
  }

  /** Byte `k` is the first of `[va, va + n)` that user code may not access. */
  ghost predicate Blocked(m: Memory, pd: int, va: nat, n: nat, k: nat) {
    k < n && Accessible(m, pd, va, k) && !AccessibleAt(m, pd, va + k)
  }

  /** The directory has no table for address `addr`, so that the walk ends in a null pointer. */
  predicate Unmapped(m: Memory, pd: int, addr: nat) {
    !Entry(m, pd, addr / PGSIZE / NENTRIES).present
  }

  lemma AccessibleMore(m: Memory, pd: int, va: nat, k: nat, n: nat)
    requires Accessible(m, pd, va, k) && AccessibleAt(m, pd, va + k) && n <= PGSIZE - (va + k) % PGSIZE
    ensures Accessible(m, pd, va, k + n)
  {
    forall addr: nat | va <= addr < va + k + n
      ensures AccessibleAt(m, pd, addr)
    {
      if addr >= va + k {
        OnePage(va + k, addr, n);
      }
    }
  }

  lemma NotBlocked(m: Memory, pd: int, va: nat, n: nat)
    requires Accessible(m, pd, va, n)
    ensures forall k: nat :: !Blocked(m, pd, va, n, k)
  {
  }

  lemma BlockedOnce(m: Memory, pd: int, va: nat, n: nat, k: nat)
    requires Blocked(m, pd, va, n, k)
    ensures !Accessible(m, pd, va, n) && forall j: nat :: Blocked(m, pd, va, n, j) ==> j == k
  {
    assert !AccessibleAt(m, pd, va + k);
    forall j: nat | Blocked(m, pd, va, n, j)
      ensures j == k
    {
      assert !AccessibleAt(m, pd, va + j);
    }
  }

  /** Such an input: an address space whose directory is empty, and any copy of at least one byte. */
  lemma CopyOutOfEmpty(va: nat, n: nat)
    requires n >= 1
    ensures var m := Memory([], map[0 := EmptyTable()], map[]);
            && Owned({0}, m, {0}, map[0 := Dir]) && KernelHidden(m, 0)
            && Blocked(m, 0, va, n, 0) && Unmapped(m, 0, va)
  {
    var m := Memory([], map[0 := EmptyTable()], map[]);
    assert forall x: int :: Entry(m, 0, x) == NONE;
    assert !AccessibleAt(m, 0, va);
  }

  /** No kernel page of `pd` is accessible to user code. */
  ghost predicate KernelHidden(m: Memory, pd: int) {
    forall v: int :: v >= USER_PAGES ==> !UserAccessible(Maps(m, pd, v))
  }

  /** The byte at user address `addr` of the address space `q`. */
  function UserByte(m: Memory, q: int, addr: nat): int {
    var e := Maps(m, q, addr / PGSIZE);
    if e.present && e.ppn in m.data && |m.data[e.ppn]| == PGSIZE then m.data[e.ppn][addr % PGSIZE] else 0
  }

  /** `src` is at address `va` of `pd`, and every other user byte of every address space is unchanged. */
  ghost predicate UserWritten(spaces: set<int>, m: Memory, m': Memory, pd: int, va: nat, src: Bytes) {
    forall q, addr: nat :: q in spaces && addr / PGSIZE < USER_PAGES ==>
      UserByte(m', q, addr) == if q == pd && va <= addr < va + |src| then src[addr - va] else UserByte(m, q, addr)
  }

  /** A frame belongs to one page of one address space, so writing it is seen nowhere else. */
  lemma WriteFrame(all: set<int>, m: Memory, spaces: set<int>, owner: map<int, Use>, pd: int, v: nat, page: Bytes)
    requires Owned(all, m, spaces, owner) && pd in spaces && v < USER_PAGES && Maps(m, pd, v).present &&
             |page| == PGSIZE
    ensures var m' := m.(data := m.data[Maps(m, pd, v).ppn := page]);
            && Owned(all, m', spaces, owner)
            && forall q, addr: nat :: q in spaces && addr / PGSIZE < USER_PAGES ==>
                 UserByte(m', q, addr) == if q == pd && addr / PGSIZE == v then page[addr % PGSIZE]
                   else UserByte(m, q, addr)
  {
    var m' := m.(data := m.data[Maps(m, pd, v).ppn := page]);
    SameTables(m, m');
    forall p | p in owner
      ensures p in all && UseHolds(m', spaces, owner, p)
    {
      assert UseHolds(m, spaces, owner, p);
    }
    forall q, addr: nat | q in spaces && addr / PGSIZE < USER_PAGES
      ensures UserByte(m', q, addr) == if q == pd && addr / PGSIZE == v then page[addr % PGSIZE]
                else UserByte(m, q, addr)
    {
      var e := Maps(m, q, addr / PGSIZE);
      assert e.present ==> owner[e.ppn] == Frame(q, addr / PGSIZE);
    }
  }

  lemma UserWrittenMore(spaces: set<int>, m0: Memory, m1: Memory, m2: Memory, pd: int, va: nat, src: Bytes, k: nat,
                        n: nat, page: Bytes)
    requires pd in spaces && k + n <= |src| && 0 < n <= PGSIZE - (va + k) % PGSIZE && (va + k) / PGSIZE < USER_PAGES
    requires UserWritten(spaces, m0, m1, pd, va, src[..k])
    requires Maps(m1, pd, (va + k) / PGSIZE).present && Maps(m1, pd, (va + k) / PGSIZE).ppn in m1.data
    requires var old_ := m1.data[Maps(m1, pd, (va + k) / PGSIZE).ppn];
             |old_| == PGSIZE && page == old_[..(va + k) % PGSIZE] + src[k..k + n] + old_[(va + k) % PGSIZE + n..]
    requires forall q, addr: nat :: q in spaces && addr / PGSIZE < USER_PAGES ==>
               UserByte(m2, q, addr) == if q == pd && addr / PGSIZE == (va + k) / PGSIZE then page[addr % PGSIZE]
                 else UserByte(m1, q, addr)
    ensures UserWritten(spaces, m0, m2, pd, va, src[..k + n])
  {
    var pos := va + k;
    forall q, addr: nat | q in spaces && addr / PGSIZE < USER_PAGES
      ensures UserByte(m2, q, addr) == if q == pd && va <= addr < va + (k + n) then src[addr - va]
                else UserByte(m0, q, addr)
    {
      assert UserByte(m1, q, addr) == if q == pd && va <= addr < va + k then src[addr - va] else UserByte(m0, q, addr);
      if q == pd && pos <= addr < pos + n {
        OnePage(pos, addr, n);
        assert page[addr % PGSIZE] == src[k..k + n][addr - pos];
      } else if q == pd && addr / PGSIZE == pos / PGSIZE {
        assert addr - addr % PGSIZE == pos - pos % PGSIZE;
        assert page[addr % PGSIZE] == m1.data[Maps(m1, pd, pos / PGSIZE).ppn][addr % PGSIZE];
      }
    }
  }

  lemma OnePage(pos: nat, addr: nat, n: nat)
    requires pos <= addr < pos + n && n <= PGSIZE - pos % PGSIZE
    ensures addr / PGSIZE == pos / PGSIZE && addr % PGSIZE == pos % PGSIZE + (addr - pos)
  {
  }

  datatype CopyResult = Copied(pd: int) | OutOfMemory | Panicked

  /** Page `v` of the child has the bytes and the flags of page `v` of the parent. */
  ghost predicate PageCopied(m0: Memory, m: Memory, pd: int, d: int, v: int) {
    var e := Maps(m0, pd, v);
    e.present && e.ppn in m0.data && PageHolds(m, d, v, m0.data[e.ppn], e.flags)
  }

  /** Nothing was given back, and all that was taken belongs to the new address space `d`. */
  ghost predicate TakenBy(owner: map<int, Use>, owner': map<int, Use>, d: int) {
    && (forall p :: p in owner ==> p in owner' && owner'[p] == owner[p])
    && (forall p :: p in owner' && p !in owner ==> BelongsTo(owner', p, d))
  }

  /** The child `d` has copies of the first `n` pages of `pd`, and nothing old has changed. */
  ghost predicate CopyInv(all: set<int>, m0: Memory, spaces0: set<int>, owner0: map<int, Use>,
                          m: Memory, spaces: set<int>, owner: map<int, Use>, pd: int, d: int, n: nat) {
    && Owned(all, m0, spaces0, owner0) && pd in spaces0 && d !in spaces0 && d !in owner0
    && spaces == spaces0 + {d}
    && SameMaps(spaces0, m0, m) && FramesKept(m0, m, owner0) && TakenBy(owner0, owner, d)
    && (forall v: nat :: v < n ==> PageCopied(m0, m, pd, d, v))
    && (forall v: int :: n <= v < USER_PAGES ==> !Maps(m, d, v).present)
  }

  lemma CopyStart(all: set<int>, m0: Memory, spaces0: set<int>, owner0: map<int, Use>,
                  m: Memory, spaces: set<int>, owner: map<int, Use>, pd: int, d: int)
    requires Owned(all, m0, spaces0, owner0) && pd in spaces0 && d !in spaces0 && d !in owner0 &&
             spaces == spaces0 + {d}
    requires SameMaps(spaces0, m0, m) && FramesKept(m0, m, owner0) && TablesAdded(owner0[d := Dir], owner, d)
    requires forall v: nat :: v < USER_PAGES ==> !Maps(m, d, v).present
    ensures CopyInv(all, m0, spaces0, owner0, m, spaces, owner, pd, d, 0)
  {
  }

  /** The copying has got to page `n`, at the cost of one page each and the child's tables. */
  ghost predicate CopySoFar(all: set<int>, m0: Memory, spaces0: set<int>, owner0: map<int, Use>, m1: Memory,
                            m: Memory, spaces: set<int>, owner: map<int, Use>, pd: int, d: int, n: nat) {
    && CopyInv(all, m0, spaces0, owner0, m, spaces, owner, pd, d, n)
    && Spent(m1, m, d, 0, n, n) && Affords(m1, d, 0, n) && SameKernel(m1, m, d)
  }

  /** The kernel part of `d` is mapped as it was. */
  ghost predicate SameKernel(m: Memory, m': Memory, d: int) {
    forall v: int {:trigger Maps(m', d, v)} :: v >= USER_PAGES ==> Maps(m', d, v) == Maps(m, d, v)
  }

  lemma CopiedBytes(m0: Memory, m: Memory, pd: int, d: int, n: nat)
    requires forall v: nat :: v < n ==> PageCopied(m0, m, pd, d, v)
    ensures forall addr: nat {:trigger UserByte(m, d, addr)} :: addr / PGSIZE < n ==>
              && UserByte(m, d, addr) == UserByte(m0, pd, addr)
              && Maps(m, d, addr / PGSIZE).flags == Maps(m0, pd, addr / PGSIZE).flags
  {
    forall addr: nat | addr / PGSIZE < n
      ensures UserByte(m, d, addr) == UserByte(m0, pd, addr)
      ensures Maps(m, d, addr / PGSIZE).flags == Maps(m0, pd, addr / PGSIZE).flags
    {
      assert PageCopied(m0, m, pd, d, addr / PGSIZE);
    }
  }

  lemma KernelKept(m: Memory, m': Memory, d: int, data: nat, top: nat)
    requires SameKernel(m, m', d) && KernelHidden(m, d) && KernelMapped(m, d, data, top)
    ensures KernelHidden(m', d) && KernelMapped(m', d, data, top)
  {
  }

  /** The pages it takes to copy `n` user pages: a directory, the kernel's tables, the pages and their tables. */
  function CopyCost(n: nat, data: nat, top: nat): int {
    1 + KernelTables(data, top, 4) + n + (n + NENTRIES - 1) / NENTRIES
  }

  /** Every page to be copied is there, and there are enough free pages. */
  ghost predicate CopyFits(m: Memory, pd: int, n: nat, data: nat, top: nat) {
    CopyCost(n, data, top) <= |m.free| && forall v: nat :: v < n ==> Maps(m, pd, v).present
  }

  /** Page `v` is the first one missing, and there are enough free pages to get to it. */
  ghost predicate Stumbles(m: Memory, pd: int, v: nat, data: nat, top: nat) {
    && !Maps(m, pd, v).present && CopyCost(v, data, top) <= |m.free|
    && forall w: nat :: w < v ==> Maps(m, pd, w).present
  }

  ghost predicate CopyPanics(m: Memory, pd: int, n: nat, data: nat, top: nat) {
    exists v: nat :: v < n && Stumbles(m, pd, v, data, top)
  }

  lemma CostGrows(a: nat, b: nat, data: nat, top: nat)
    requires a <= b
    ensures CopyCost(a, data, top) <= CopyCost(b, data, top)
  {
  }

  lemma TooPoor(m: Memory, pd: int, n: nat, data: nat, top: nat)
    requires |m.free| < 1 + KernelTables(data, top, 4)
    ensures !CopyFits(m, pd, n, data, top) && !CopyPanics(m, pd, n, data, top)
  {
    forall v: nat
      ensures !Stumbles(m, pd, v, data, top)
    {
      CostGrows(0, v, data, top);
    }
    CostGrows(0, n, data, top);
  }

  /** A child that has only the kernel's tables needs one for every 1024 user pages. */
  lemma ChildTables(m1: Memory, d: int, n: nat, data: nat, top: nat)
    requires KernelEntries(m1, d, data, top, 4) && n <= USER_PAGES
    ensures Tables(m1, d, 0, n) == (n + NENTRIES - 1) / NENTRIES
  {
    if n > 0 {
      TablesFrom(m1, d, 0, n, 0);
    }
  }

  /** Where the copying stopped, and why, follows from the state before it. */
  lemma CopyDecides(all: set<int>, m0: Memory, spaces0: set<int>, owner0: map<int, Use>, m1: Memory, m: Memory,
                    spaces: set<int>, owner: map<int, Use>, pd: int, d: int, n: nat, data: nat, top: nat, a: nat,
                    r: CopyResult)
    requires KernelEntries(m1, d, data, top, 4) && |m1.free| == |m0.free| - 1 - KernelTables(data, top, 4)
    requires a <= n <= USER_PAGES && CopySoFar(all, m0, spaces0, owner0, m1, m, spaces, owner, pd, d, a)
    requires match r
             case Copied(_) => a == n
             case Panicked => a < n && !Maps(m0, pd, a).present
             case OutOfMemory => a < n && Maps(m0, pd, a).present && !Affords(m1, d, 0, a + 1)
    ensures r.Panicked? <==> CopyPanics(m0, pd, n, data, top)
    ensures r.Copied? <==> CopyFits(m0, pd, n, data, top)
  {
    forall v: nat | v < a
      ensures Maps(m0, pd, v).present
    {
      assert PageCopied(m0, m, pd, d, v);
    }
    ChildTables(m1, d, a, data, top);
    if a < n {
      ChildTables(m1, d, a + 1, data, top);
      CostGrows(a + 1, n, data, top);
    }
    assert r.Panicked? ==> Stumbles(m0, pd, a, data, top);
    forall v: nat | v < n && Stumbles(m0, pd, v, data, top)
      ensures r.Panicked?
    {
      if v > a {
        CostGrows(a + 1, v, data, top);
      }
    }
  }

  lemma CopyMore(all: set<int>, m0: Memory, spaces0: set<int>, owner0: map<int, Use>, m1: Memory, owner1: map<int, Use>,
                 m2: Memory, owner2: map<int, Use>, spaces: set<int>, pd: int, d: int, a: nat)
    requires Owned(all, m1, spaces, owner1) && CopyInv(all, m0, spaces0, owner0, m1, spaces, owner1, pd, d, a)
    requires a < USER_PAGES && Maps(m1, pd, a).present && Maps(m1, pd, a).ppn in m1.data
    requires FramesKept(m1, m2, owner1) && MapsOnlyIn(spaces, m1, m2, d, a, a) && Taken(owner1, owner2, d, a, a + 1)
    requires PageHolds(m2, d, a, m1.data[Maps(m1, pd, a).ppn], Maps(m1, pd, a).flags)
    ensures CopyInv(all, m0, spaces0, owner0, m2, spaces, owner2, pd, d, a + 1)
  {
    assert owner0[Maps(m0, pd, a).ppn] == Frame(pd, a) && UseHolds(m0, spaces0, owner0, Maps(m0, pd, a).ppn);
    forall v: nat | v < a
      ensures PageCopied(m0, m2, pd, d, v)
    {
      assert PageCopied(m0, m1, pd, d, v);
      assert owner1[Maps(m1, d, v).ppn] == Frame(d, v);
    }
  }

  lemma CopySame(all: set<int>, m0: Memory, spaces0: set<int>, owner0: map<int, Use>, m1: Memory,
                 m2: Memory, owner: map<int, Use>, spaces: set<int>, pd: int, d: int, a: nat)
    requires Owned(all, m1, spaces, owner) && CopyInv(all, m0, spaces0, owner0, m1, spaces, owner, pd, d, a)
    requires a < USER_PAGES && FramesKept(m1, m2, owner) && SameMaps(spaces, m1, m2)
    ensures CopyInv(all, m0, spaces0, owner0, m2, spaces, owner, pd, d, a)
  {
    forall v: nat | v < a
      ensures PageCopied(m0, m2, pd, d, v)
    {
      assert PageCopied(m0, m1, pd, d, v);
      assert owner[Maps(m1, d, v).ppn] == Frame(d, v);
    }
  }

  /** Taking away a new address space takes away all that came with it. */
  lemma ForgetTaken(all: set<int>, m: Memory, spaces: set<int>, owner: map<int, Use>, owner': map<int, Use>, d: int)
    requires Owned(all, m, spaces, owner) && d !in spaces && TakenBy(owner, owner', d)
    ensures SameUses(owner, Forget(owner', d))
  {
    forall p | p in owner
      ensures !BelongsTo(owner, p, d)
    {
      assert UseHolds(m, spaces, owner, p);
    }
  }

  const USER_RW: nat := PTE_W + PTE_U

  /** A failed growth: every mapping is as before, and all that was kept are tables of `pd`. */
  ghost predicate Undone(spaces: set<int>, m: Memory, m': Memory, owner: map<int, Use>, owner': map<int, Use>, pd: int,
                         lo: int, hi: int) {
    && TablesAdded(owner, owner', pd)
    && MapsCleared(spaces, m, m', pd, lo, hi)
    && FramesKept(m, m', owner)
  }

  lemma GrownMore(all: set<int>, spaces: set<int>, m0: Memory, m1: Memory, m2: Memory,
                  owner0: map<int, Use>, owner1: map<int, Use>, owner2: map<int, Use>, pd: int, lo: nat, a: nat)
    requires Owned(all, m1, spaces, owner1) && pd in spaces && lo <= a <= USER_PAGES
    requires Grown(spaces, m0, m1, owner0, owner1, pd, lo, a)
    requires FramesKept(m1, m2, owner1) && MapsOnlyIn(spaces, m1, m2, pd, a, a)
    requires PageHolds(m2, pd, a, ZeroPage(), USER_RW) && Taken(owner1, owner2, pd, a, a + 1)
    ensures Grown(spaces, m0, m2, owner0, owner2, pd, lo, a + 1)
  {
    forall v: int | lo <= v < a
      ensures ZeroedPage(m2, pd, v)
    {
      assert ZeroedPage(m1, pd, v);
      assert owner1[Maps(m1, pd, v).ppn] == Frame(pd, v);
    }
  }

  lemma GrownSame(all: set<int>, spaces: set<int>, m0: Memory, m1: Memory, m2: Memory,
                  owner0: map<int, Use>, owner: map<int, Use>, pd: int, lo: nat, a: nat)
    requires Owned(all, m1, spaces, owner) && pd in spaces && lo <= a <= USER_PAGES
    requires Grown(spaces, m0, m1, owner0, owner, pd, lo, a)
    requires FramesKept(m1, m2, owner) && SameMaps(spaces, m1, m2)
    ensures Grown(spaces, m0, m2, owner0, owner, pd, lo, a)
  {
    forall v: int | lo <= v < a
      ensures ZeroedPage(m2, pd, v)
    {
      assert ZeroedPage(m1, pd, v);
      assert owner[Maps(m1, pd, v).ppn] == Frame(pd, v);
    }
  }

  lemma GrowthUndone(spaces: set<int>, m0: Memory, m1: Memory, m2: Memory,
                     owner0: map<int, Use>, owner1: map<int, Use>, owner2: map<int, Use>, pd: int, lo: nat, a: nat,
                       hi: nat)
    requires lo <= a <= hi && pd in spaces && Grown(spaces, m0, m1, owner0, owner1, pd, lo, a)
    requires Shrunk(spaces, m1, m2, owner1, owner2, pd, lo, hi)
    requires forall p :: p in owner0 ==> !InFrames(owner0[p], pd, lo, hi)
    ensures Undone(spaces, m0, m2, owner0, owner2, pd, lo, hi)
  {
  }

  /** There are enough free pages to grow over pages `lo..hi` of `pd`: one for each, and the tables. */
  predicate Affords(m: Memory, pd: int, lo: int, hi: int) {
    hi - lo + Tables(m, pd, lo, hi) <= |m.free|
  }

  /** Pages `lo..a` have been added, at the cost of one page each and the tables. */
  ghost predicate Growing(spaces: set<int>, m: Memory, m': Memory, owner: map<int, Use>, owner': map<int, Use>, pd: int,
                          lo: int, a: int) {
    lo <= a && Grown(spaces, m, m', owner, owner', pd, lo, a) && Spent(m, m', pd, lo, a, a - lo) &&
    Affords(m, pd, lo, a)
  }

  /** What a failed growth over pages `lo..hi` has done: nothing to any mapping or frame, and tables added
      for the entries it reached; it gave all back if and only if the state before was such that there were
      none to add. */
  ghost predicate GrowthFailed(spaces: set<int>, m: Memory, m': Memory, owner: map<int, Use>, owner': map<int, Use>,
                               pd: int, lo: int, hi: int) {
    && Undone(spaces, m, m', owner, owner', pd, lo, hi) && TablesLeft(m, m', pd, lo, hi)
    && (SameUses(owner, owner') <==> LeavesNone(m, pd, lo, hi))
  }

  lemma Retreated(all: set<int>, spaces: set<int>, m0: Memory, m1: Memory, m2: Memory, owner0: map<int, Use>,
                  owner1: map<int, Use>, owner2: map<int, Use>, pd: int, lo: nat, a: nat, hi: nat)
    requires Owned(all, m0, spaces, owner0) && Owned(all, m2, spaces, owner2) && pd in spaces && a < hi
    requires Growing(spaces, m0, m1, owner0, owner1, pd, lo, a) && !Affords(m0, pd, lo, a + 1)
    requires Shrunk(spaces, m1, m2, owner1, owner2, pd, lo, hi)
    requires forall p :: p in owner0 ==> !InFrames(owner0[p], pd, lo, hi)
    ensures !Affords(m0, pd, lo, hi) && GrowthFailed(spaces, m0, m2, owner0, owner2, pd, lo, hi)
  {
    GrowthUndone(spaces, m0, m1, m2, owner0, owner1, owner2, pd, lo, a, hi);
    Stopped(m0, m1, m2, pd, lo, a, hi);
    LeftIff(all, spaces, m0, m2, owner0, owner2, pd, lo, hi);
  }

  /** A failed growth from `m` over pages `lo..hi` reached an entry `x` of the directory: the free pages
      lasted up to one of its pages. */
  predicate Reached(m: Memory, pd: int, lo: int, v: int, x: int) {
    v / NENTRIES == x && Affords(m, pd, lo, v + 1)
  }

  /** What a failed growth leaves behind are the tables of exactly the entries it reached. */
  ghost predicate TablesLeft(m: Memory, m': Memory, pd: int, lo: int, hi: int) {
    forall x: int :: Entry(m', pd, x).present <==>
      Entry(m, pd, x).present || exists v: int :: lo <= v < hi && Reached(m, pd, lo, v, x)
  }

  /** No page of `lo..hi` that a failing growth would still have two free pages for lacks its table. */
  predicate LeavesNone(m: Memory, pd: int, lo: int, hi: int) {
    forall v :: lo <= v < hi && v - lo + 2 <= |m.free| ==> TableFor(m, pd, v) == 0
  }

  lemma AffordsLess(m: Memory, pd: int, lo: nat, a: nat, b: int)
    requires lo <= a <= b && Affords(m, pd, lo, b)
    ensures Affords(m, pd, lo, a)
  {
    TablesGrow(m, pd, lo, a, b);
  }

  /** Growth stops at the first page it cannot afford. */
  lemma Stopped(m: Memory, m1: Memory, m2: Memory, pd: int, lo: nat, a: nat, hi: nat)
    requires lo <= a < hi && Spent(m, m1, pd, lo, a, a - lo) && Affords(m, pd, lo, a) && !Affords(m, pd, lo, a + 1)
    requires forall x: int :: Entry(m2, pd, x) == Entry(m1, pd, x)
    ensures !Affords(m, pd, lo, hi) && TablesLeft(m, m2, pd, lo, hi)
  {
    if Affords(m, pd, lo, hi) {
      AffordsLess(m, pd, lo, a + 1, hi);
    }
    forall x: int
      ensures Entry(m2, pd, x).present <==>
                Entry(m, pd, x).present || exists v: int :: lo <= v < hi && Reached(m, pd, lo, v, x)
    {
      if lo < a && lo / NENTRIES <= x <= (a - 1) / NENTRIES {
        var v := if x * NENTRIES < lo then lo else x * NENTRIES;
        assert v / NENTRIES == x && v < a;
        AffordsLess(m, pd, lo, v + 1, a);
        assert Reached(m, pd, lo, v, x);
      }
      forall v: int | lo <= v < hi && Reached(m, pd, lo, v, x)
        ensures lo < a && lo / NENTRIES <= x <= (a - 1) / NENTRIES
      {
        if v >= a {
          AffordsLess(m, pd, lo, a + 1, v + 1);
        }
      }
    }
  }

  /** Where the pages before `v` have their tables, reaching `v` costs one page each. */
  lemma {:induction false} NoTables(m: Memory, pd: int, lo: nat, v: nat)
    requires forall w :: lo <= w < v ==> TableFor(m, pd, w) == 0
    ensures Tables(m, pd, lo, v) == 0
    decreases v
  {
    if lo < v {
      NoTables(m, pd, lo, v - 1);
    }
  }

  /** The first page without a table, if there is one. */
  lemma {:induction false} FirstLacking(m: Memory, pd: int, lo: nat, v: nat) returns (f: int)
    requires lo <= v && TableFor(m, pd, v) == 1
    ensures lo <= f <= v && TableFor(m, pd, f) == 1 && forall w :: lo <= w < f ==> TableFor(m, pd, w) == 0
    decreases v
  {
    f := v;
    if w :| lo <= w < v && TableFor(m, pd, w) != 0 {
      f := FirstLacking(m, pd, lo, w);
    }
  }

  /** An entry was reached that had no table, if and only if two pages were left for the first such one. */
  lemma ReachedIff(m: Memory, pd: int, lo: nat, hi: nat)
    ensures LeavesNone(m, pd, lo, hi) <==> forall v: int, x: int :: lo <= v < hi && Reached(m, pd, lo, v, x) ==>
              Entry(m, pd, x).present
  {
    forall v: int | lo <= v < hi && TableFor(m, pd, v) == 1 && v - lo + 2 <= |m.free|
      ensures exists f: int, x: int :: lo <= f < hi && Reached(m, pd, lo, f, x) && !Entry(m, pd, x).present
    {
      var f := FirstLacking(m, pd, lo, v);
      NoTables(m, pd, lo, f);
      assert Tables(m, pd, lo, f + 1) <= 1;
      assert Reached(m, pd, lo, f, f / NENTRIES);
    }
    forall v: int, x: int | lo <= v < hi && Reached(m, pd, lo, v, x) && !Entry(m, pd, x).present
      ensures !LeavesNone(m, pd, lo, hi)
    {
      var f := FirstLacking(m, pd, lo, v);
      NoTables(m, pd, lo, f);
      assert f > lo ==> TableFor(m, pd, f - 1) == 0;
      assert f == lo || f / NENTRIES != (f - 1) / NENTRIES;
      AffordsLess(m, pd, lo, f + 1, v + 1);
    }
  }

  /** A failed growth gives back all it took if and only if no page it had two free pages for lacked its
      table: the condition is on the state before the call. */
  lemma LeftIff(all: set<int>, spaces: set<int>, m: Memory, m': Memory, owner: map<int, Use>, owner': map<int, Use>,
                pd: int, lo: nat, hi: nat)
    requires Owned(all, m, spaces, owner) && Owned(all, m', spaces, owner') && pd in spaces
    requires TablesAdded(owner, owner', pd) && TablesLeft(m, m', pd, lo, hi)
    ensures SameUses(owner, owner') <==> LeavesNone(m, pd, lo, hi)
  {
    ReachedIff(m, pd, lo, hi);
    forall v: int, x: int | lo <= v < hi && Reached(m, pd, lo, v, x) && !Entry(m, pd, x).present
      ensures !SameUses(owner, owner')
    {
      var p := Entry(m', pd, x).ppn;
      assert p in owner' && owner'[p] == Table(pd, x);
      assert p in owner ==> UseHolds(m, spaces, owner, p);
    }
    if LeavesNone(m, pd, lo, hi) {
      forall p | p in owner' && owner'[p].Table? && owner'[p].pd == pd
        ensures p in owner
      {
        assert UseHolds(m', spaces, owner', p);
        var x := owner'[p].x;
        assert Entry(m, pd, x).present;
        var q := Entry(m, pd, x).ppn;
        assert q in owner && owner[q] == Table(pd, x) && UseHolds(m', spaces, owner', q);
      }
    }
  }

  /** The property fails: two free pages, an absent directory entry, and a growth by two pages, which takes
      a page and a table and then runs out. */
  lemma GrowthLeavesTable()
    ensures var m := Memory([1, 2], map[0 := EmptyTable()], map[]);
            && Owned({0, 1, 2}, m, {0}, map[0 := Dir])
            && !Affords(m, 0, 0, 2) && !LeavesNone(m, 0, 0, 2)
  {
    var m := Memory([1, 2], map[0 := EmptyTable()], map[]);
    assert Tables(m, 0, 0, 0) == 0 && Tables(m, 0, 0, 1) == 1 && Tables(m, 0, 0, 2) == 1;
    assert TableFor(m, 0, 0) == 1;
  }

  function ZeroPage(): (b: Bytes)
    ensures |b| == PGSIZE
  {
    seq(PGSIZE, _ => 0)
  }

  /** User page `v` of `pd` is mapped with these flags to a frame with these bytes. */
  ghost predicate PageHolds(m: Memory, pd: int, v: int, bytes: Bytes, flags: int) {
    var e := Maps(m, pd, v);
    e.present && e.flags == flags && e.ppn in m.data && m.data[e.ppn] == bytes
  }

  /** User code can read and write the byte at `addr`, and it is zero. */
  ghost predicate ZeroedAt(m: Memory, pd: int, addr: nat) {
    var e := Maps(m, pd, addr / PGSIZE);
    UserAccessible(e) && e.flags / 2 % 2 == 1 && e.ppn in m.data && UserByte(m, pd, addr) == 0
  }

  lemma ZeroedBytes(m: Memory, pd: int, lo: int, hi: int, addr: nat)
    requires lo <= addr / PGSIZE < hi && forall v: int :: lo <= v < hi ==> ZeroedPage(m, pd, v)
    ensures ZeroedAt(m, pd, addr)
  {
    assert ZeroedPage(m, pd, addr / PGSIZE);
  }

  ghost predicate ZeroedPage(m: Memory, pd: int, v: int) {
    PageHolds(m, pd, v, ZeroPage(), USER_RW)
  }

  /** Nothing was given back, and all that was taken are tables of `pd` and frames of its pages `lo..hi`. */
  ghost predicate Taken(owner: map<int, Use>, owner': map<int, Use>, pd: int, lo: int, hi: int) {
    && (forall p :: p in owner ==> p in owner' && owner'[p] == owner[p])
    && (forall p ::
         p in owner' && p !in owner ==> (owner'[p].Table? && owner'[p].pd == pd) || InFrames(owner'[p], pd, lo, hi))
  }

  /** Pages `lo..hi` of `pd` were added, zeroed and writable; nothing else changed. */
  ghost predicate Grown(spaces: set<int>, m: Memory, m': Memory, owner: map<int, Use>, owner': map<int, Use>, pd: int,
                        lo: int, hi: int) {
    && MapsOnlyIn(spaces, m, m', pd, lo, hi - 1)
    && (forall v: int :: lo <= v < hi ==> ZeroedPage(m', pd, v))
    && Taken(owner, owner', pd, lo, hi)
    && FramesKept(m, m', owner)
  }

  const KERNBASE: nat := 0xC000_0000
  const EXTMEM: nat := 0x10_0000
  const DEVSPACE: nat := 0xFE00_0000

  /** One row of the kernel's mapping table. */
  datatype KMap = KMap(virt: nat, start: nat, end: nat, perm: int) {
    /** The difference of two 32-bit addresses; the last row ends at address zero, past the top. */
    function Size(): int {
      (end - start) % 0x1_0000_0000
    }
    function FirstPage(): int {
      virt / PGSIZE
    }
    function LastPage(): int {
      (virt + Size() - 1) / PGSIZE
    }
  }

  /** I/O space, kernel text, kernel data and free memory, devices. */
  function KernelMap(data: nat, top: nat): (r: seq<KMap>)
    ensures |r| == 4
  {
    [KMap(KERNBASE, 0, EXTMEM, PTE_W),
     KMap(KERNBASE + EXTMEM, EXTMEM, data, 0),
     KMap(KERNBASE + data, data, top, PTE_W),
     KMap(DEVSPACE, DEVSPACE, 0, PTE_W)]
  }

  /** The kernel's data starts on a page after its text, and memory ends below the devices. */
  predicate KernelFits(data: nat, top: nat) {
    EXTMEM < data < top && data % PGSIZE == 0 && KERNBASE + top <= DEVSPACE
  }

  ghost predicate RegionMapped(m: Memory, pd: int, r: KMap) {
    RangeMapped(m, pd, r.FirstPage(), r.LastPage(), r.start / PGSIZE, r.perm)
  }

  /** Only the kernel part of `pd` has changed, and the pages taken are its tables. */
  ghost predicate KernelPart(spaces: set<int>, base: Memory, m: Memory, owner0: map<int, Use>, owner: map<int, Use>,
                             pd: int) {
    MapsOnlyIn(spaces, base, m, pd, USER_PAGES, ALL_PAGES) && m.data == base.data && TablesAdded(owner0, owner, pd)
  }

  /** Page `v` is in one of the first `k` regions. */
  predicate Covered(data: nat, top: nat, k: nat, v: int)
    requires k <= 4
  {
    exists j :: 0 <= j < k && KernelMap(data, top)[j].FirstPage() <= v <= KernelMap(data, top)[j].LastPage()
  }

  /** The kernel as every process sees it: memory up to `top` is at KERNBASE, writable but for the kernel's text,
      the devices are where they are, and nothing else is mapped. */
  ghost predicate KernelMapped(m: Memory, pd: int, data: nat, top: nat) {
    forall v: int {:trigger Maps(m, pd, v)} :: v >= 0xC0000 ==>
      if v <= 0xC0000 + (top - 1) / 0x1000
      then Maps(m, pd, v) == Pte(true, v - 0xC0000, if 0x100 <= v - 0xC0000 < data / 0x1000 then 0 else 2)
      else if 0xFE000 <= v < 0x10_0000 then Maps(m, pd, v) == Pte(true, v, 2)
      else !Maps(m, pd, v).present
  }

  lemma RegionsAreKernel(m: Memory, pd: int, data: nat, top: nat)
    requires KernelFits(data, top) && forall k :: 0 <= k < 4 ==> RegionMapped(m, pd, KernelMap(data, top)[k])
    requires forall v: int :: v >= USER_PAGES && !Covered(data, top, 4, v) ==> !Maps(m, pd, v).present
    ensures KernelMapped(m, pd, data, top)
  {
    var kmap := KernelMap(data, top);
    RegionPages(data, top);
    forall v: int | v >= 0xC0000
      ensures if v <= 0xC0000 + (top - 1) / 0x1000
              then Maps(m, pd, v) == Pte(true, v - 0xC0000, if 0x100 <= v - 0xC0000 < data / 0x1000 then 0 else 2)
              else if 0xFE000 <= v < 0x10_0000 then Maps(m, pd, v) == Pte(true, v, 2)
              else !Maps(m, pd, v).present
    {
      assert RegionMapped(m, pd, kmap[0]) && RegionMapped(m, pd, kmap[1]);
      assert RegionMapped(m, pd, kmap[2]) && RegionMapped(m, pd, kmap[3]);
      assert (KERNBASE + top - 1) / PGSIZE == 0xC0000 + (top - 1) / 0x1000;
      assert (KERNBASE + data) / PGSIZE == 0xC0000 + data / 0x1000;
    }
  }

  /** `pd`, empty in `base`, has the first `k` regions of the kernel and no mapping from there on. */
  ghost predicate KernelSoFar(spaces: set<int>, base: Memory, m: Memory, owner0: map<int, Use>, owner: map<int, Use>,
                              pd: int, data: nat, top: nat, k: nat)
    requires k <= 4
  {
    && (forall v: int :: Maps(base, pd, v) == NONE)
    && KernelEntries(m, pd, data, top, k) && |m.free| == |base.free| - KernelTables(data, top, k)
    && KernelPart(spaces, base, m, owner0, owner, pd)
    && (forall v: int :: k < 4 && v >= KernelMap(data, top)[k].FirstPage() ==> !Maps(m, pd, v).present)
    && KernelHidden(m, pd)
    && (forall j :: 0 <= j < k ==> RegionMapped(m, pd, KernelMap(data, top)[j]))
    && (forall v: int :: v >= USER_PAGES && !Covered(data, top, k, v) ==> !Maps(m, pd, v).present)
  }

  /** The first directory entry of the kernel, and the first of the devices. */
  const KERNEL_ENTRY: nat := USER_PAGES / NENTRIES
  const DEVICE_ENTRY: nat := DEVSPACE / PGSIZE / NENTRIES

  /** The tables for the first `k` regions of the kernel: those from KERNBASE up follow one another, and
      the devices have their own. */
  function KernelTables(data: nat, top: nat, k: nat): (n: nat)
    requires k <= 4
  {
    if k == 0 then 0
    else if k == 4 then KernelTables(data, top, 3) + NENTRIES - DEVICE_ENTRY
    else KernelMap(data, top)[k-1].LastPage() / NENTRIES + 1 - KERNEL_ENTRY
  }

  ghost predicate KernelEntries(m: Memory, pd: int, data: nat, top: nat, k: nat)
    requires k <= 4
  {
    forall x: int :: Entry(m, pd, x).present <==>
      || KERNEL_ENTRY <= x < KERNEL_ENTRY + KernelTables(data, top, if k == 4 then 3 else k)
      || (k == 4 && DEVICE_ENTRY <= x < NENTRIES)
  }

  /** Where the regions begin and end, in pages. */
  lemma RegionPages(data: nat, top: nat)
    requires KernelFits(data, top)
    ensures var k, d, t := KernelMap(data, top), (KERNBASE + data) / PGSIZE, (KERNBASE + top - 1) / PGSIZE;
            && k[0].FirstPage() == USER_PAGES && k[0].LastPage() == USER_PAGES + EXTMEM / PGSIZE - 1
            && k[1].FirstPage() == USER_PAGES + EXTMEM / PGSIZE && k[1].LastPage() == d - 1
            && k[2].FirstPage() == d && k[2].LastPage() == t
            && k[3].FirstPage() == DEVSPACE / PGSIZE && k[3].LastPage() == ALL_PAGES - 1
            && USER_PAGES + EXTMEM / PGSIZE < d <= t < DEVSPACE / PGSIZE
  {
    var kmap := KernelMap(data, top);
    assert kmap[0].Size() == EXTMEM && kmap[1].Size() == data - EXTMEM && kmap[2].Size() == top - data &&
           kmap[3].Size() == 0x200_0000;
  }

  lemma EntriesInOrder(p: int, q: int)
    requires p <= q
    ensures p / NENTRIES <= q / NENTRIES && (q == p + 1 ==> q / NENTRIES <= p / NENTRIES + 1)
  {
  }

  /** How many tables the regions need, one after another. */
  lemma TablesInOrder(data: nat, top: nat)
    requires KernelFits(data, top)
    ensures var d, t := (KERNBASE + data) / PGSIZE, (KERNBASE + top - 1) / PGSIZE;
            && KernelTables(data, top, 1) == 1
            && KERNEL_ENTRY + KernelTables(data, top, 2) == (d - 1) / NENTRIES + 1
            && KERNEL_ENTRY + KernelTables(data, top, 3) == t / NENTRIES + 1
            && KERNEL_ENTRY <= (d - 1) / NENTRIES <= d / NENTRIES <= t / NENTRIES < DEVICE_ENTRY
            && d / NENTRIES <= (d - 1) / NENTRIES + 1
  {
    var d, t := (KERNBASE + data) / PGSIZE, (KERNBASE + top - 1) / PGSIZE;
    RegionPages(data, top);
    EntriesInOrder(USER_PAGES + EXTMEM / PGSIZE, d - 1);
    EntriesInOrder(d - 1, d);
    EntriesInOrder(d, t);
    EntriesInOrder(t, DEVSPACE / PGSIZE - 1);
  }

  /** The regions' directory entries, in order. */
  lemma RegionEntries(data: nat, top: nat, k: nat)
    requires KernelFits(data, top) && k < 4
    ensures var r := KernelMap(data, top)[k];
            && 0 <= r.FirstPage() <= r.LastPage()
            && 0 <= KernelTables(data, top, k) <= KernelTables(data, top, k + 1) <= KernelTables(data, top, 4)
            && (k < 3 ==>
                  KERNEL_ENTRY + KernelTables(data, top, k) - 1 <= r.FirstPage() / NENTRIES
                    <= KERNEL_ENTRY + KernelTables(data, top, k))
            && (k < 3 ==> r.LastPage() / NENTRIES == KERNEL_ENTRY + KernelTables(data, top, k + 1) - 1)
            && (k == 3 ==> r.FirstPage() / NENTRIES == DEVICE_ENTRY && r.LastPage() / NENTRIES == NENTRIES - 1)
            && KERNEL_ENTRY + KernelTables(data, top, 3) <= DEVICE_ENTRY && KERNEL_ENTRY <= r.FirstPage() / NENTRIES
  {
    RegionPages(data, top);
    TablesInOrder(data, top);
  }

  lemma RegionCost(m: Memory, pd: int, data: nat, top: nat, k: nat)
    requires KernelFits(data, top) && k < 4 && KernelEntries(m, pd, data, top, k)
    ensures var r := KernelMap(data, top)[k];
            Tables(m, pd, r.FirstPage(), r.LastPage() + 1) ==
              KernelTables(data, top, k + 1) - KernelTables(data, top, k)
  {
    RegionEntries(data, top, k);
    var r := KernelMap(data, top)[k];
    TablesFrom(m, pd, r.FirstPage(), r.LastPage() + 1,
               if k == 3 then DEVICE_ENTRY else KERNEL_ENTRY + KernelTables(data, top, k));
  }

  lemma RegionDone(spaces: set<int>, base: Memory, m: Memory, m': Memory, owner0: map<int, Use>, owner: map<int, Use>,
                   owner': map<int, Use>, pd: int, data: nat, top: nat, k: nat)
    requires KernelFits(data, top) && k < 4 && pd in spaces &&
             KernelSoFar(spaces, base, m, owner0, owner, pd, data, top, k)
    requires var r := KernelMap(data, top)[k];
             MapsSoFar(spaces, m, m', owner, owner', pd, r.FirstPage(), r.LastPage() + 1, r.start / PGSIZE, r.perm)
    requires KernelHidden(m', pd)
    ensures KernelSoFar(spaces, base, m', owner0, owner', pd, data, top, k + 1)
  {
    RegionsApart(data, top, k);
    RegionTables(m, m', pd, data, top, k);
    var kmap := KernelMap(data, top);
    forall j | 0 <= j < k + 1
      ensures RegionMapped(m', pd, kmap[j])
    {
      assert j < k ==> RegionMapped(m, pd, kmap[j]);
    }
    forall v: int | v >= USER_PAGES && !Covered(data, top, k + 1, v)
      ensures !Maps(m', pd, v).present
    {
      assert !(kmap[k].FirstPage() <= v <= kmap[k].LastPage()) && !Covered(data, top, k, v);
    }
  }

  lemma RegionTried(spaces: set<int>, base: Memory, m: Memory, m': Memory, owner0: map<int, Use>, owner: map<int, Use>,
                    owner': map<int, Use>, pd: int, data: nat, top: nat, k: nat, o: MapResult)
    requires KernelFits(data, top) && k < 4 && pd in spaces &&
             KernelSoFar(spaces, base, m, owner0, owner, pd, data, top, k)
    requires KernelMap(data, top)[k].LastPage() >= 0
    requires var r := KernelMap(data, top)[k];
             RangeTried(spaces, m, m', owner, owner', pd, r.FirstPage(), r.LastPage(), r.start / PGSIZE, r.perm, o)
    ensures o.Mapped? <==> KernelTables(data, top, k + 1) <= |base.free|
    ensures KernelPart(spaces, base, m', owner0, owner', pd)
    ensures o.Mapped? ==> KernelSoFar(spaces, base, m', owner0, owner', pd, data, top, k + 1)
  {
    RegionsApart(data, top, k);
    RegionCost(m, pd, data, top, k);
    if o.Mapped? {
      StillHidden(spaces, m, m', pd, KernelMap(data, top)[k]);
      RegionDone(spaces, base, m, m', owner0, owner, owner', pd, data, top, k);
    }
  }

  lemma RegionTables(m: Memory, m': Memory, pd: int, data: nat, top: nat, k: nat)
    requires KernelFits(data, top) && k < 4 && KernelEntries(m, pd, data, top, k)
    requires KernelMap(data, top)[k].LastPage() >= 0
    requires Spent(m, m', pd, KernelMap(data, top)[k].FirstPage(), KernelMap(data, top)[k].LastPage() + 1, 0)
    ensures KernelEntries(m', pd, data, top, k + 1)
    ensures |m'.free| == |m.free| - (KernelTables(data, top, k + 1) - KernelTables(data, top, k))
  {
    RegionCost(m, pd, data, top, k);
    RegionEntries(data, top, k);
  }

  /** A kernel region mapped without the user bit hides nothing less than before. */
  lemma StillHidden(spaces: set<int>, m: Memory, m': Memory, pd: int, r: KMap)
    requires pd in spaces && KernelHidden(m, pd) && (r.perm == 0 || r.perm == PTE_W)
    requires MapsOnlyIn(spaces, m, m', pd, r.FirstPage(), r.LastPage()) && RegionMapped(m', pd, r)
    ensures KernelHidden(m', pd)
  {
    assert !HasUser(0) && !HasUser(PTE_W);
    forall v: int | v >= USER_PAGES
      ensures !UserAccessible(Maps(m', pd, v))
    {
      if r.FirstPage() <= v <= r.LastPage() {
        assert Maps(m', pd, v) == Pte(true, r.start / PGSIZE + (v - r.FirstPage()), r.perm);
      } else {
        assert Maps(m', pd, v) == Maps(m, pd, v);
      }
    }
  }

  /** Frames are never shared: different user pages, of one address space or of two, are different
      physical pages. */
  lemma FramesDisjoint(all: set<int>, m: Memory, spaces: set<int>, owner: map<int, Use>, pd: int, v: nat, d: int,
                       w: int)
    requires Owned(all, m, spaces, owner) && pd in spaces && d in spaces && v < USER_PAGES && w < USER_PAGES
    requires Maps(m, pd, v).present && Maps(m, d, w).present && (pd, v) != (d, w)
    ensures Maps(m, pd, v).ppn != Maps(m, d, w).ppn
  {
    assert owner[Maps(m, pd, v).ppn] == Frame(pd, v) && owner[Maps(m, d, w).ppn] == Frame(d, w);
  }

  /** What a failed growth costs: the pages missing from the free list afterwards are exactly the page
      tables it added, and there are none if and only if every page of the growth that two free pages were
      left for had its table before. */
  lemma FailureCost(all: set<int>, spaces: set<int>, m: Memory, m': Memory, owner: map<int, Use>, owner': map<int, Use>,
                    pd: int, lo: nat, hi: nat)
    requires Owned(all, m, spaces, owner) && Owned(all, m', spaces, owner') && pd in spaces
    requires Undone(spaces, m, m', owner, owner', pd, lo, hi) && TablesLeft(m, m', pd, lo, hi)
    ensures forall p :: p in m'.free ==> p in m.free
    ensures forall p ::
              p in m.free && p !in m'.free <==> p in owner' && p !in owner && owner'[p].Table? && owner'[p].pd == pd
    ensures (forall p :: p in m.free <==> p in m'.free) <==> LeavesNone(m, pd, lo, hi)
  {
    LeftIff(all, spaces, m, m', owner, owner', pd, lo, hi);
    if forall p :: p in m.free <==> p in m'.free {
      forall p | p in owner'
        ensures p in owner
      {
        assert p !in m'.free && p in all;
      }
    }
  }

  /** The free pages are the pages without an owner: giving back ownership gives back pages. */
  lemma FreeIsUnowned(all: set<int>, m: Memory, spaces: set<int>, owner: map<int, Use>, m': Memory, spaces': set<int>,
                      owner': map<int, Use>)
    requires Owned(all, m, spaces, owner) && Owned(all, m', spaces', owner') && SameUses(owner, owner')
    ensures multiset(m.free) == multiset(m'.free)
  {
    forall p
      ensures multiset(m.free)[p] == multiset(m'.free)[p]
    {
      CountDistinct(m.free, p);
      CountDistinct(m'.free, p);
      assert p in m.free <==> p in all && p !in owner;
      assert p in m'.free <==> p in all && p !in owner';
    }
  }

  lemma CountDistinct(s: seq<int>, p: int)
    requires Distinct(s)
    ensures multiset(s)[p] == if p in s then 1 else 0
  {
    if s != [] {
      assert s == [s[0]] + s[1..];
      CountDistinct(s[1..], p);
      assert s[0] !in s[1..];
    }
  }

  /** The kernel's regions follow one another, above all user pages. */
  lemma RegionsApart(data: nat, top: nat, k: nat)
    requires KernelFits(data, top) && k < 4
    ensures var kmap := KernelMap(data, top);
            && 0 < kmap[k].Size() && kmap[k].virt + kmap[k].Size() <= ALL_PAGES * PGSIZE
            && USER_PAGES == kmap[0].FirstPage() <= kmap[k].FirstPage() <= kmap[k].LastPage() < ALL_PAGES
            && (k < 3 ==> kmap[k].LastPage() < kmap[k+1].FirstPage())
            && (forall j :: 0 <= j < k ==> kmap[j].LastPage() < kmap[k].FirstPage())
  {
    RegionPages(data, top);
    var kmap := KernelMap(data, top);
    assert kmap[0].Size() == EXTMEM && kmap[1].Size() == data - EXTMEM && kmap[2].Size() == top - data &&
           kmap[3].Size() == 0x200_0000;
  }

  /** `ps` are the tables under the first `i` entries of `pd`, each once. */
  ghost predicate TablesOf(owner: map<int, Use>, pd: int, i: int, ps: seq<int>) {
    Distinct(ps) && forall p :: p in ps <==> p in owner && owner[p].Table? && owner[p].pd == pd && owner[p].x < i
  }

  lemma NextTable(all: set<int>, m: Memory, spaces: set<int>, owner: map<int, Use>, pd: int, i: nat)
    requires Owned(all, m, spaces, owner) && pd in spaces
    ensures forall p :: p in owner && owner[p] == Table(pd, i) ==> Entry(m, pd, i).present && p == Entry(m, pd, i).ppn
  {
    forall p | p in owner && owner[p] == Table(pd, i)
      ensures Entry(m, pd, i).present && p == Entry(m, pd, i).ppn
    {
      assert UseHolds(m, spaces, owner, p);
    }
  }

  lemma LastTable(all: set<int>, m: Memory, spaces: set<int>, owner: map<int, Use>, pd: int)
    requires Owned(all, m, spaces, owner) && pd in spaces
    ensures forall p :: p in owner && owner[p].Table? && owner[p].pd == pd ==> owner[p].x < NENTRIES
  {
    forall p | p in owner && owner[p].Table? && owner[p].pd == pd
      ensures owner[p].x < NENTRIES
    {
      assert UseHolds(m, spaces, owner, p);
    }
  }

  /** Giving back the user frames first changes nothing in what is left at the end. */
  lemma ForgetRest(all: set<int>, m: Memory, spaces: set<int>, owner: map<int, Use>, owner': map<int, Use>, pd: int)
    requires Owned(all, m, spaces, owner) && FramesDropped(owner, owner', pd, 0, USER_PAGES)
    ensures Forget(owner', pd) == Forget(owner, pd)
  {
    forall p | p in owner
      ensures p in Forget(owner, pd) <==> p in Forget(owner', pd)
    {
      assert UseHolds(m, spaces, owner, p);
    }
  }

  /** Pages needed to hold `sz` bytes. */
  function PagesIn(sz: nat): (n: nat) {
    (sz + PGSIZE - 1) / PGSIZE
  }

  /** They are the pages that begin below `sz`. */
  lemma PagesInIs(sz: nat, v: nat)
    ensures v < PagesIn(sz) <==> v * 0x1000 < sz
  {
  }

  predicate InFrames(u: Use, pd: int, lo: int, hi: int) {
    u.Frame? && u.pd == pd && lo <= u.v < hi
  }

  /** Exactly the frames of pages `lo..hi` of `pd` were given back. */
  ghost predicate FramesDropped(owner: map<int, Use>, owner': map<int, Use>, pd: int, lo: int, hi: int) {
    && (forall p :: p in owner' <==> p in owner && !InFrames(owner[p], pd, lo, hi))
    && (forall p :: p in owner' ==> owner'[p] == owner[p])
  }

  /** Every frame still in use holds what it held. */
  ghost predicate FramesKept(m: Memory, m': Memory, owner': map<int, Use>) {
    forall p {:trigger p in m'.data} ::
      p in owner' && owner'[p].Frame? ==> (p in m.data <==> p in m'.data) && (p in m.data ==> m'.data[p] == m.data[p])
  }

  /** Pages `lo..hi` of `pd` are unmapped, and no other mapping changed. */
  ghost predicate MapsCleared(spaces: set<int>, m: Memory, m': Memory, pd: int, lo: int, hi: int) {
    && (forall q, w: int {:trigger Maps(m', q, w)} ::
         q in spaces && !(q == pd && lo <= w < hi) ==> Maps(m', q, w) == Maps(m, q, w))
    && (forall w: int :: lo <= w < hi && w < USER_PAGES ==> !Maps(m', pd, w).present)
  }

  /** The user pages `lo..hi` of `pd` were unmapped and exactly their frames given back. */
  ghost predicate Shrunk(spaces: set<int>, m: Memory, m': Memory, owner: map<int, Use>, owner': map<int, Use>, pd: int,
                         lo: int, hi: int) {
    MapsCleared(spaces, m, m', pd, lo, hi) && FramesDropped(owner, owner', pd, lo, hi) && FramesKept(m, m', owner') &&
    SameDirs(spaces, m, m')
  }

  /** Pages `lo..hi` of `pd` are unmapped, and there are enough free pages for the tables they need. */
  ghost predicate MapsFit(m: Memory, pd: int, lo: int, hi: int) {
    Tables(m, pd, lo, hi) <= |m.free| && forall w: int :: lo <= w < hi ==> !Maps(m, pd, w).present
  }

  /** Page `w` is mapped already, and there are enough free pages for the tables on the way to it. */
  ghost predicate Remapped(m: Memory, pd: int, lo: int, w: int) {
    Maps(m, pd, w).present && Tables(m, pd, lo, w) <= |m.free|
  }

  /** Pages `first..a` of `pd` have been mapped to consecutive physical pages, and nothing else has changed but
      the tables they needed. */
  ghost predicate MapsSoFar(spaces: set<int>, m: Memory, m': Memory, owner: map<int, Use>, owner': map<int, Use>,
                            pd: int, first: int, a: int, ppn: int, perm: int) {
    && m'.data == m.data && MapsOnlyIn(spaces, m, m', pd, first, a - 1)
    && MapsFit(m, pd, first, a) && Spent(m, m', pd, first, a, 0)
    && if a <= first then m' == m && owner' == owner
       else RangeMapped(m', pd, first, a - 1, ppn, perm) && TablesAdded(Bind(owner, pd, first, ppn), owner', pd)
  }

  /** What comes of mapping the pages from `first` to `last`, with the exact condition of each outcome. */
  ghost predicate RangeTried(spaces: set<int>, m: Memory, m': Memory, owner: map<int, Use>, owner': map<int, Use>,
                             pd: int, first: int, last: int, ppn: int, perm: int, r: MapResult) {
    && m'.data == m.data && MapsOnlyIn(spaces, m, m', pd, first, last)
    && (r.Mapped? <==> MapsFit(m, pd, first, last + 1))
    && (r.Remap? <==> exists w: int :: first <= w <= last && Remapped(m, pd, first, w))
    && (r.Mapped? ==> MapsSoFar(spaces, m, m', owner, owner', pd, first, last + 1, ppn, perm))
    && (!r.Mapped? ==> TablesAdded(owner, owner', pd) && (first < USER_PAGES ==> m' == m && owner' == owner))
  }

  lemma MapGoesOn(spaces: set<int>, m: Memory, m1: Memory, m2: Memory, owner: map<int, Use>, owner1: map<int, Use>,
                  owner2: map<int, Use>, pd: int, first: nat, a: nat, ppn: int, perm: int)
    requires pd in spaces && first <= a && (first < USER_PAGES ==> a == first)
    requires MapsSoFar(spaces, m, m1, owner, owner1, pd, first, a, ppn, perm)
    requires Walked(m1, m2, pd, a, 0) && m2.data == m1.data && TableFor(m1, pd, a) <= |m1.free| &&
             !Maps(m1, pd, a).present
    requires MapsChanged(spaces, m1, m2, pd, a, Pte(true, ppn + (a - first), perm))
    requires TablesAdded(Bind(owner1, pd, a, ppn + (a - first)), owner2, pd)
    ensures MapsSoFar(spaces, m, m2, owner, owner2, pd, first, a + 1, ppn, perm)
  {
    SpentMore(m, m1, m2, pd, first, a, 0, 0);
    TableOnce(m, m1, pd, first, a, 0);
  }

  /** The first page of a range that cannot be mapped decides what comes of the range. */
  lemma MapDecides(m: Memory, m1: Memory, pd: int, lo: nat, a: nat, last: nat, r: MapResult)
    requires lo <= a <= last && MapsFit(m, pd, lo, a) && Spent(m, m1, pd, lo, a, 0) && Maps(m1, pd, a) == Maps(m, pd, a)
    requires r.Remap? <==> Maps(m1, pd, a).present
    requires r.NoMemory? <==> |m1.free| < TableFor(m1, pd, a)
    ensures r.Mapped? <==> MapsFit(m, pd, lo, a + 1)
    ensures r.Remap? ==> Remapped(m, pd, lo, a)
    ensures !r.Mapped? ==> !MapsFit(m, pd, lo, last + 1)
    ensures r.NoMemory? ==> forall w: int :: lo <= w <= last ==> !Remapped(m, pd, lo, w)
    ensures r.Mapped? && a == last ==> forall w: int :: lo <= w <= last ==> !Remapped(m, pd, lo, w)
  {
    TableOnce(m, m1, pd, lo, a, 0);
    TablesGrow(m, pd, lo, a + 1, last + 1);
    forall w: int | lo <= w <= last && r.NoMemory?
      ensures !Remapped(m, pd, lo, w)
    {
      if w > a {
        TablesGrow(m, pd, lo, a + 1, w);
      } else if w < a {
        assert !Maps(m, pd, w).present;
      }
    }
  }

  lemma OneTable(m: Memory, pd: int, v: nat)
    ensures Tables(m, pd, v, v + 1) == TableFor(m, pd, v)
  {
    assert Tables(m, pd, v, v) == 0;
  }

  /** Unmapped pages own no frames. */
  lemma NoFrames(all: set<int>, m: Memory, spaces: set<int>, owner: map<int, Use>, pd: int, lo: nat, hi: nat)
    requires Owned(all, m, spaces, owner) && pd in spaces && forall v: int :: lo <= v < hi ==> !Maps(m, pd, v).present
    ensures forall p :: p in owner ==> !InFrames(owner[p], pd, lo, hi)
  {
    forall p | p in owner
      ensures !InFrames(owner[p], pd, lo, hi)
    {
      assert UseHolds(m, spaces, owner, p);
    }
  }

  /** An unmapped page owns no frame. */
  lemma NoFrame(all: set<int>, m: Memory, spaces: set<int>, owner: map<int, Use>, pd: int, a: nat)
    requires Owned(all, m, spaces, owner) && pd in spaces && !Maps(m, pd, a).present
    ensures forall p :: p in owner ==> !InFrames(owner[p], pd, a, a + 1)
  {
    forall p | p in owner
      ensures !InFrames(owner[p], pd, a, a + 1)
    {
      assert UseHolds(m, spaces, owner, p);
    }
  }

  /** Without a table, the rest of a directory entry's pages are unmapped and own no frame. */
  lemma SkipTable(all: set<int>, m: Memory, spaces: set<int>, owner: map<int, Use>, pd: int, a: nat)
    requires Owned(all, m, spaces, owner) && pd in spaces && !Entry(m, pd, a / NENTRIES).present
    ensures forall w: int :: a <= w < (a / NENTRIES + 1) * NENTRIES ==> Maps(m, pd, w) == NONE
    ensures forall p :: p in owner ==> !InFrames(owner[p], pd, a, (a / NENTRIES + 1) * NENTRIES)
  {
    forall w: int | a <= w < (a / NENTRIES + 1) * NENTRIES
      ensures Maps(m, pd, w) == NONE
    {
      assert w / NENTRIES == a / NENTRIES;
    }
    forall p | p in owner
      ensures !InFrames(owner[p], pd, a, (a / NENTRIES + 1) * NENTRIES)
    {
      assert UseHolds(m, spaces, owner, p);
    }
  }

  /** No mapping changed outside pages `lo..hi` of `pd`. */
  ghost predicate MapsOnlyIn(spaces: set<int>, m: Memory, m': Memory, pd: int, lo: int, hi: int) {
    forall q, w: int {:trigger Maps(m', q, w)} ::
      q in spaces && !(q == pd && lo <= w <= hi) ==> Maps(m', q, w) == Maps(m, q, w)
  }

  /** Pages `lo..hi` of `pd` map to consecutive physical pages. */
  ghost predicate RangeMapped(m: Memory, pd: int, lo: int, hi: int, ppn: int, perm: int) {
    forall w: int :: lo <= w <= hi ==> Maps(m, pd, w) == Pte(true, ppn + (w - lo), perm)
  }

  /** Page `v` may be mapped to `ppn`: a user page needs a page of its own. */
  predicate MayBind(m: Memory, owner: map<int, Use>, v: int, ppn: int) {
    v < USER_PAGES ==> ppn in owner && owner[ppn] == Other && ppn in m.data && |m.data[ppn]| == PGSIZE
  }

  /** The ownership once page `v` of `pd` is mapped to `ppn`. */
  function Bind(owner: map<int, Use>, pd: int, v: int, ppn: int): (r: map<int, Use>) {
    if v < USER_PAGES then owner[ppn := Frame(pd, v)] else owner
  }

  lemma BindOwned(all: set<int>, m: Memory, spaces: set<int>, owner: map<int, Use>, pd: int, v: nat, ppn: int,
                  perm: int)
    requires Owned(all, m, spaces, owner) && pd in spaces && MayBind(m, owner, v, ppn)
    requires Entry(m, pd, v / NENTRIES).present && !Maps(m, pd, v).present
    ensures var m' := SetPte(m, pd, v, Pte(true, ppn, perm));
            && Owned(all, m', spaces, Bind(owner, pd, v, ppn)) && m'.data == m.data
            && MapsChanged(spaces, m, m', pd, v, Pte(true, ppn, perm))
            && m'.free == m.free && forall x: int :: Entry(m', pd, x) == Entry(m, pd, x)
  {
    SetPteAll(all, m, spaces, owner, pd, v, Pte(true, ppn, perm));
    if v < USER_PAGES {
      AddFrameOwned(all, m, spaces, owner, pd, v, ppn, perm);
    } else {
      SetPteOwned(all, m, spaces, owner, pd, v, Pte(true, ppn, perm));
    }
  }
}
