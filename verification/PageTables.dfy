/** Physical pages and two-level page tables: who owns each page, and what an address space maps. */
module PageTables {

  const PGSIZE: nat := 4096
  const NENTRIES: nat := 1024
  /** The first kernel page, and the number of user pages: KERNBASE is 0xC0000000. */
  const USER_PAGES: nat := 0xC0000
  const ALL_PAGES: nat := 0x100000

  const PTE_W: nat := 2
  const PTE_U: nat := 4

  /** A page directory or page table entry. */
  datatype Pte = Pte(present: bool, ppn: int, flags: int)

  const NONE: Pte := Pte(false, 0, 0)

  type Bytes = seq<int>

  /** What a page that is not free is used for. */
  datatype Use =
    | Dir
    | Table(pd: int, x: int)
    | Frame(pd: int, v: int)
    | Other

  /** Physical memory: the free list, the pages in use as directories or tables, and the rest. */
  datatype Memory = Memory(free: seq<int>, tables: map<int, seq<Pte>>, data: map<int, Bytes>)

  function EmptyTable(): (t: seq<Pte>)
    ensures |t| == NENTRIES
  {
    seq(NENTRIES, _ => NONE)
  }

  /** Entry `x` of a directory or table page. */
  function Entry(m: Memory, t: int, x: int): Pte {
    if t in m.tables && 0 <= x < |m.tables[t]| then m.tables[t][x] else NONE
  }

  /** What virtual page `v` of the address space with directory `pd` maps to. */
  function Maps(m: Memory, pd: int, v: int): Pte {
    var d := Entry(m, pd, v / NENTRIES);
    if d.present then Entry(m, d.ppn, v % NENTRIES) else NONE
  }

  predicate Distinct(s: seq<int>) {
    forall i, j :: 0 <= i < j < |s| ==> s[i] != s[j]
  }

  /** Conservation: every page is free or has exactly one use, `owner` names it, and it is found
      there. `spaces` are the directories in use. */
  ghost predicate Owned(all: set<int>, m: Memory, spaces: set<int>, owner: map<int, Use>) {
    && Distinct(m.free)
    && (forall p :: p in m.free ==> p in all && p !in owner)
    && (forall p :: p in all ==> p in m.free || p in owner)
    && (forall p :: p in owner ==> p in all && UseHolds(m, spaces, owner, p))
    && (forall pd :: pd in spaces ==> pd in owner && owner[pd] == Dir)
    && (forall pd, x: int :: pd in spaces && Entry(m, pd, x).present ==>
          Entry(m, pd, x).ppn in owner && owner[Entry(m, pd, x).ppn] == Table(pd, x))
    && (forall pd, v: int :: pd in spaces && v < USER_PAGES && Maps(m, pd, v).present ==>
          Maps(m, pd, v).ppn in owner && owner[Maps(m, pd, v).ppn] == Frame(pd, v))
  }

  /** Page `p` is used as its owner says. */
  predicate UseHolds(m: Memory, spaces: set<int>, owner: map<int, Use>, p: int)
    requires p in owner
  {
    match owner[p]
    case Dir => p in spaces && p in m.tables && |m.tables[p]| == NENTRIES
    case Table(pd, x) => pd in spaces && p in m.tables && |m.tables[p]| == NENTRIES && 0 <= x < NENTRIES
                         && Entry(m, pd, x).present && Entry(m, pd, x).ppn == p
    case Frame(pd, v) => pd in spaces && p in m.data && |m.data[p]| == PGSIZE && 0 <= v < USER_PAGES
                         && Maps(m, pd, v).present && Maps(m, pd, v).ppn == p
    case Other => true
  }

  // ---------------------------------------------------------------- elementary changes

  /** Hang a fresh, empty table `t` under entry `x` of directory `pd`. */
  function AddTable(m: Memory, pd: int, x: int, t: int): (r: Memory)
    requires pd in m.tables && 0 <= x < |m.tables[pd]|
  {
    m.(tables := m.tables[t := EmptyTable()][pd := m.tables[pd][x := Pte(true, t, PTE_W + PTE_U)]])
  }

  /** Overwrite the entry for page `v`. */
  function SetPte(m: Memory, pd: int, v: int, e: Pte): (r: Memory) {
    var d := Entry(m, pd, v / NENTRIES);
    if d.present && d.ppn in m.tables && v % NENTRIES < |m.tables[d.ppn]|
    then m.(tables := m.tables[d.ppn := m.tables[d.ppn][v % NENTRIES := e]])
    else m
  }

  /** An empty table maps nothing new. */
  lemma AddTableMaps(all: set<int>, m: Memory, spaces: set<int>, owner: map<int, Use>, pd: int, x: int, t: int, q: int,
                     v: int)
    requires Owned(all, m, spaces, owner) && pd in spaces && 0 <= x < NENTRIES && !Entry(m, pd, x).present
    requires t !in owner && q in spaces
    ensures pd in m.tables && |m.tables[pd]| == NENTRIES
    ensures Maps(AddTable(m, pd, x, t), q, v) == Maps(m, q, v)
  {
    assert UseHolds(m, spaces, owner, pd) && UseHolds(m, spaces, owner, q);
    var m' := AddTable(m, pd, x, t);
    var y := v / NENTRIES;
    assert Entry(m', q, y) == if q == pd && y == x then Pte(true, t, PTE_W + PTE_U) else Entry(m, q, y);
    if Entry(m, q, y).present {
      var p := Entry(m, q, y).ppn;
      assert p in owner && owner[p] == Table(q, y);
    }
  }

  /** Overwriting one entry changes one mapping of one address space. */
  lemma SetPteMaps(all: set<int>, m: Memory, spaces: set<int>, owner: map<int, Use>, pd: int, v: int, e: Pte, q: int,
                   w: int)
    requires Owned(all, m, spaces, owner) && pd in spaces && Entry(m, pd, v / NENTRIES).present && q in spaces
    ensures Maps(SetPte(m, pd, v, e), q, w) == if q == pd && w == v then e else Maps(m, q, w)
    ensures forall x: int :: Entry(SetPte(m, pd, v, e), q, x) == Entry(m, q, x)
  {
    var m' := SetPte(m, pd, v, e);
    var t := Entry(m, pd, v / NENTRIES).ppn;
    assert t in owner && owner[t] == Table(pd, v / NENTRIES) && UseHolds(m, spaces, owner, t);
    assert owner[q] == Dir;
    forall x: int
      ensures Entry(m', q, x) == Entry(m, q, x)
    {
    }
    var y := w / NENTRIES;
    if Entry(m, q, y).present {
      var p := Entry(m, q, y).ppn;
      assert p in owner && owner[p] == Table(q, y);
      if p == t && w % NENTRIES == v % NENTRIES {
        assert w == v;
      }
    }
  }

  /** Put page `p` on the free list; whatever it held is gone. */
  function Release(m: Memory, p: int): (r: Memory) {
    Memory([p] + m.free, m.tables - {p}, m.data - {p})
  }

  /** Take the first free page off the list. */
  function Pop(m: Memory): (r: Memory)
    requires m.free != []
  {
    m.(free := m.free[1..])
  }

  // ---------------------------------------------------------------- ownership across the changes

  lemma PopFree(all: set<int>, m: Memory, spaces: set<int>, owner: map<int, Use>)
    requires Owned(all, m, spaces, owner) && m.free != []
    ensures m.free[0] in all && m.free[0] !in owner && m.free[0] !in m.free[1..]
    ensures forall q :: q in m.free <==> q == m.free[0] || q in m.free[1..]
    ensures Distinct(m.free[1..])
  {
    assert m.free == [m.free[0]] + m.free[1..] && m.free[0] in m.free;
  }

  /** Entries and mappings depend only on the tables. */
  lemma SameTables(m: Memory, m': Memory)
    requires m'.tables == m.tables
    ensures forall t: int, x: int :: Entry(m', t, x) == Entry(m, t, x)
    ensures forall q: int, v: int :: Maps(m', q, v) == Maps(m, q, v)
  {
  }

  /** A page handed out by `kalloc`, not yet put to use. */
  lemma TakeOther(all: set<int>, m: Memory, spaces: set<int>, owner: map<int, Use>)
    requires Owned(all, m, spaces, owner) && m.free != []
    ensures Owned(all, Pop(m), spaces, owner[m.free[0] := Other])
  {
    PopFree(all, m, spaces, owner);
    SameTables(m, Pop(m));
    var owner' := owner[m.free[0] := Other];
    forall p | p in owner'
      ensures p in all && UseHolds(Pop(m), spaces, owner', p)
    {
      assert p in owner ==> UseHolds(m, spaces, owner, p);
    }
  }

  /** Its return by `kfree`. */
  lemma DropOther(all: set<int>, m: Memory, spaces: set<int>, owner: map<int, Use>, p: int)
    requires Owned(all, m, spaces, owner) && p in owner && owner[p] == Other
    ensures Owned(all, Release(m, p), spaces, owner - {p})
    ensures forall q, y: int :: q in spaces ==> Entry(Release(m, p), q, y) == Entry(m, q, y)
    ensures forall q, v: int :: q in spaces ==> Maps(Release(m, p), q, v) == Maps(m, q, v)
  {
    var m', owner' := Release(m, p), owner - {p};
    forall q, y: int | q in spaces
      ensures Entry(m', q, y) == Entry(m, q, y)
    {
    }
    forall q, v: int | q in spaces
      ensures Maps(m', q, v) == Maps(m, q, v)
    {
      var d := Entry(m, q, v / NENTRIES);
      assert d.present ==> d.ppn in owner && owner[d.ppn] == Table(q, v / NENTRIES);
    }
    forall r | r in owner'
      ensures r in all && UseHolds(m', spaces, owner', r)
    {
      assert UseHolds(m, spaces, owner, r);
    }
  }

  /** Growing an address space by a table. */
  lemma AddTableOwned(all: set<int>, m: Memory, spaces: set<int>, owner: map<int, Use>, pd: int, x: int)
    requires Owned(all, m, spaces, owner) && m.free != []
    requires pd in spaces && 0 <= x < NENTRIES && !Entry(m, pd, x).present
    ensures pd in m.tables && |m.tables[pd]| == NENTRIES
    ensures Owned(all, AddTable(Pop(m), pd, x, m.free[0]), spaces, owner[m.free[0] := Table(pd, x)])
    ensures forall q, v: int :: q in spaces ==> Maps(AddTable(Pop(m), pd, x, m.free[0]), q, v) == Maps(m, q, v)
    ensures forall q, y: int :: q in spaces ==>
              Entry(AddTable(Pop(m), pd, x, m.free[0]), q, y) == if q == pd && y == x
                then Pte(true, m.free[0], PTE_W + PTE_U) else Entry(m, q, y)
  {
    PopFree(all, m, spaces, owner);
    assert UseHolds(m, spaces, owner, pd);
    var t := m.free[0];
    var m' := AddTable(Pop(m), pd, x, t);
    var owner' := owner[t := Table(pd, x)];
    forall q, v: int | q in spaces
      ensures Maps(m', q, v) == Maps(m, q, v)
    {
      AddTableMaps(all, m, spaces, owner, pd, x, t, q, v);
    }
    forall q, y: int | q in spaces
      ensures Entry(m', q, y) == if q == pd && y == x then Pte(true, t, PTE_W + PTE_U) else Entry(m, q, y)
    {
    }
    forall p | p in owner'
      ensures p in all && UseHolds(m', spaces, owner', p)
    {
      if p in owner {
        assert UseHolds(m, spaces, owner, p);
      }
    }
  }

  /** Mapping user page `v` to a page taken for it. */
  lemma AddFrameOwned(all: set<int>, m: Memory, spaces: set<int>, owner: map<int, Use>, pd: int, v: int, f: int,
                      flags: int)
    requires Owned(all, m, spaces, owner) && f in owner && owner[f] == Other && f in m.data && |m.data[f]| == PGSIZE
    requires pd in spaces && v < USER_PAGES && Entry(m, pd, v / NENTRIES).present && !Maps(m, pd, v).present
    ensures var m' := SetPte(m, pd, v, Pte(true, f, flags));
            && Owned(all, m', spaces, owner[f := Frame(pd, v)])
            && (forall q, w: int ::
                 q in spaces ==> Maps(m', q, w) == if q == pd && w == v then Pte(true, f, flags) else Maps(m, q, w))
            && (forall q, y: int :: q in spaces ==> Entry(m', q, y) == Entry(m, q, y))
  {
    var m' := SetPte(m, pd, v, Pte(true, f, flags));
    var owner' := owner[f := Frame(pd, v)];
    SetPteAll(all, m, spaces, owner, pd, v, Pte(true, f, flags));
    forall p | p in owner'
      ensures p in all && UseHolds(m', spaces, owner', p)
    {
      assert UseHolds(m, spaces, owner, p);
    }
  }

  /** `SetPteMaps` for every address space at once; tables and frames stay where they are. */
  lemma SetPteAll(all: set<int>, m: Memory, spaces: set<int>, owner: map<int, Use>, pd: int, v: int, e: Pte)
    requires Owned(all, m, spaces, owner) && pd in spaces && Entry(m, pd, v / NENTRIES).present
    ensures var m' := SetPte(m, pd, v, e);
            && m'.free == m.free && m'.data == m.data && m'.tables.Keys == m.tables.Keys
            && (forall t :: t in m.tables ==> |m'.tables[t]| == |m.tables[t]|)
            && (forall q, w: int :: q in spaces ==> Maps(m', q, w) == if q == pd && w == v then e else Maps(m, q, w))
            && (forall q, y: int :: q in spaces ==> Entry(m', q, y) == Entry(m, q, y))
  {
    var m' := SetPte(m, pd, v, e);
    forall q, w: int | q in spaces
      ensures Maps(m', q, w) == if q == pd && w == v then e else Maps(m, q, w)
    {
      SetPteMaps(all, m, spaces, owner, pd, v, e, q, w);
    }
    forall q, y: int | q in spaces
      ensures Entry(m', q, y) == Entry(m, q, y)
    {
      SetPteMaps(all, m, spaces, owner, pd, v, e, q, 0);
    }
  }

  /** A kernel mapping, or a change of flags, takes no page. */
  lemma SetPteOwned(all: set<int>, m: Memory, spaces: set<int>, owner: map<int, Use>, pd: int, v: int, e: Pte)
    requires Owned(all, m, spaces, owner) && pd in spaces && Entry(m, pd, v / NENTRIES).present
    requires v >= USER_PAGES || (Maps(m, pd, v).present && e.present && e.ppn == Maps(m, pd, v).ppn)
    ensures Owned(all, SetPte(m, pd, v, e), spaces, owner)
  {
    var m' := SetPte(m, pd, v, e);
    SetPteAll(all, m, spaces, owner, pd, v, e);
    forall p | p in owner
      ensures p in all && UseHolds(m', spaces, owner, p)
    {
      assert UseHolds(m, spaces, owner, p);
    }
  }

  /** Unmapping user page `v`: its frame is then held for no purpose. */
  lemma UnmapOwned(all: set<int>, m: Memory, spaces: set<int>, owner: map<int, Use>, pd: int, v: int)
    requires Owned(all, m, spaces, owner) && pd in spaces && v < USER_PAGES && Maps(m, pd, v).present
    ensures var f := Maps(m, pd, v).ppn;
            var m' := SetPte(m, pd, v, NONE);
            && f in owner && owner[f] == Frame(pd, v) && Owned(all, m', spaces, owner[f := Other])
            && (forall q, w: int :: q in spaces ==> Maps(m', q, w) == if q == pd && w == v then NONE else Maps(m, q, w))
            && (forall q, y: int :: q in spaces ==> Entry(m', q, y) == Entry(m, q, y))
  {
    var f, m' := Maps(m, pd, v).ppn, SetPte(m, pd, v, NONE);
    SetPteAll(all, m, spaces, owner, pd, v, NONE);
    var owner' := owner[f := Other];
    forall p | p in owner'
      ensures p in all && UseHolds(m', spaces, owner', p)
    {
      assert UseHolds(m, spaces, owner, p);
    }
  }

  /** Unmapping user page `v` and freeing its frame. */
  lemma DropFrameOwned(all: set<int>, m: Memory, spaces: set<int>, owner: map<int, Use>, pd: int, v: int)
    requires Owned(all, m, spaces, owner) && pd in spaces && v < USER_PAGES && Maps(m, pd, v).present
    ensures var f := Maps(m, pd, v).ppn;
            var m' := SetPte(Release(m, f), pd, v, NONE);
            && f in owner && owner[f] == Frame(pd, v)
            && Owned(all, m', spaces, owner - {f})
            && (forall q, w: int :: q in spaces ==> Maps(m', q, w) == if q == pd && w == v then NONE else Maps(m, q, w))
            && (forall q, y: int :: q in spaces ==> Entry(m', q, y) == Entry(m, q, y))
  {
    var f := Maps(m, pd, v).ppn;
    var m1, owner1 := SetPte(m, pd, v, NONE), owner[f := Other];
    UnmapOwned(all, m, spaces, owner, pd, v);
    DropOther(all, m1, spaces, owner1, f);
    assert owner1 - {f} == owner - {f};
    var d := Entry(m, pd, v / NENTRIES);
    assert d.ppn in owner && owner[d.ppn] == Table(pd, v / NENTRIES);
    assert SetPte(Release(m, f), pd, v, NONE) == Release(m1, f);
  }

  // ---------------------------------------------------------------- a whole address space

  /** Release pages one after another, the last element of `ps` first. */
  function ReleaseAll(m: Memory, ps: seq<int>): (r: Memory)
    ensures r.free == ps + m.free
    ensures forall t :: t in r.tables <==> t in m.tables && t !in ps
    ensures forall t :: t in r.tables ==> r.tables[t] == m.tables[t]
    ensures forall t :: t in r.data <==> t in m.data && t !in ps
    ensures forall t :: t in r.data ==> r.data[t] == m.data[t]
  {
    if ps == [] then m else
      assert forall t :: t in ps <==> t == ps[0] || t in ps[1..];
      Release(ReleaseAll(m, ps[1..]), ps[0])
  }

  /** A page that belongs to the address space `pd`. */
  predicate BelongsTo(owner: map<int, Use>, p: int, pd: int)
    requires p in owner
  {
    match owner[p]
    case Dir => p == pd
    case Table(q, _) => q == pd
    case Frame(q, _) => q == pd
    case Other => false
  }

  /** The ownership left when the address space `pd` is gone. */
  function Forget(owner: map<int, Use>, pd: int): (r: map<int, Use>) {
    map p | p in owner && !BelongsTo(owner, p, pd) :: owner[p]
  }

  /** `ps` are the pages of the address space `pd`, each once. */
  ghost predicate PagesOf(owner: map<int, Use>, pd: int, ps: seq<int>) {
    Distinct(ps) && forall p :: p in ps <==> p in owner && BelongsTo(owner, p, pd)
  }

  lemma DropSpaceMaps(all: set<int>, m: Memory, spaces: set<int>, owner: map<int, Use>, pd: int, ps: seq<int>)
    requires Owned(all, m, spaces, owner) && pd in spaces && PagesOf(owner, pd, ps)
    ensures forall q, y: int :: q in spaces && q != pd ==> Entry(ReleaseAll(m, ps), q, y) == Entry(m, q, y)
    ensures forall q, v: int :: q in spaces && q != pd ==> Maps(ReleaseAll(m, ps), q, v) == Maps(m, q, v)
  {
    var m' := ReleaseAll(m, ps);
    forall q, y: int | q in spaces && q != pd
      ensures Entry(m', q, y) == Entry(m, q, y)
    {
      assert owner[q] == Dir && UseHolds(m, spaces, owner, q);
    }
    forall q, v: int | q in spaces && q != pd
      ensures Maps(m', q, v) == Maps(m, q, v)
    {
      var d := Entry(m, q, v / NENTRIES);
      assert Entry(m', q, v / NENTRIES) == d;
      assert d.present ==> d.ppn in owner && owner[d.ppn] == Table(q, v / NENTRIES);
    }
  }

  lemma DropSpaceUse(all: set<int>, m: Memory, spaces: set<int>, owner: map<int, Use>, pd: int, ps: seq<int>, p: int)
    requires Owned(all, m, spaces, owner) && pd in spaces && PagesOf(owner, pd, ps) && p in Forget(owner, pd)
    ensures UseHolds(ReleaseAll(m, ps), spaces - {pd}, Forget(owner, pd), p)
  {
    assert UseHolds(m, spaces, owner, p);
    DropSpaceMaps(all, m, spaces, owner, pd, ps);
  }

  /** Releasing every page of an address space leaves every other page's use as it was. */
  lemma DropSpaceOwned(all: set<int>, m: Memory, spaces: set<int>, owner: map<int, Use>, pd: int, ps: seq<int>)
    requires Owned(all, m, spaces, owner) && pd in spaces && PagesOf(owner, pd, ps)
    ensures Owned(all, ReleaseAll(m, ps), spaces - {pd}, Forget(owner, pd))
    ensures forall q, v: int :: q in spaces && q != pd ==> Maps(ReleaseAll(m, ps), q, v) == Maps(m, q, v)
  {
    DropSpaceMaps(all, m, spaces, owner, pd, ps);
    forall p | p in Forget(owner, pd)
      ensures p in all && UseHolds(ReleaseAll(m, ps), spaces - {pd}, Forget(owner, pd), p)
    {
      DropSpaceUse(all, m, spaces, owner, pd, ps, p);
    }
    DistinctConcat(ps, m.free);
  }

  lemma DistinctConcat(a: seq<int>, b: seq<int>)
    requires Distinct(a) && Distinct(b) && forall p :: p in a ==> p !in b
    ensures Distinct(a + b)
  {
    var c := a + b;
    forall i, j | 0 <= i < j < |c|
      ensures c[i] != c[j]
    {
      if i < |a| <= j {
        assert c[i] in a && c[j] in b;
      }
    }
  }

  /** A page taken for it becomes an empty directory. */
  lemma AddDirOwned(all: set<int>, m: Memory, spaces: set<int>, owner: map<int, Use>, pd: int)
    requires Owned(all, m, spaces, owner) && pd in owner && owner[pd] == Other && pd !in spaces
    ensures var m' := m.(tables := m.tables[pd := EmptyTable()]);
            && Owned(all, m', spaces + {pd}, owner[pd := Dir])
            && (forall v: int :: Maps(m', pd, v) == NONE)
            && (forall x: int :: Entry(m', pd, x) == NONE)
            && (forall q, v: int :: q in spaces ==> Maps(m', q, v) == Maps(m, q, v))
  {
    var m', owner' := m.(tables := m.tables[pd := EmptyTable()]), owner[pd := Dir];
    forall q, y: int | q in spaces
      ensures Entry(m', q, y) == Entry(m, q, y)
    {
    }
    forall q, v: int | q in spaces
      ensures Maps(m', q, v) == Maps(m, q, v)
    {
      var d := Entry(m, q, v / NENTRIES);
      assert d.present ==> d.ppn in owner && owner[d.ppn] == Table(q, v / NENTRIES);
    }
    forall p | p in owner'
      ensures p in all && UseHolds(m', spaces + {pd}, owner', p)
    {
      assert UseHolds(m, spaces, owner, p);
    }
  }

  /** Writing a page that is not yet in use disturbs nothing. */
  lemma FillOwned(all: set<int>, m: Memory, spaces: set<int>, owner: map<int, Use>, p: int, bytes: Bytes)
    requires Owned(all, m, spaces, owner) && p in owner && owner[p] == Other
    ensures Owned(all, m.(data := m.data[p := bytes]), spaces, owner)
  {
    var m' := m.(data := m.data[p := bytes]);
    SameTables(m, m');
    forall r | r in owner
      ensures r in all && UseHolds(m', spaces, owner, r)
    {
      assert UseHolds(m, spaces, owner, r);
    }
  }

  /** The same pages are in use, for the same purposes. */
  ghost predicate SameUses(owner: map<int, Use>, owner': map<int, Use>) {
    && (forall p :: p in owner <==> p in owner')
    && (forall p :: p in owner ==> owner'[p] == owner[p])
  }

  // ---------------------------------------------------------------- what mapping costs

  /** The tables that mapping page `v` of `pd` has to add. */
  function TableFor(m: Memory, pd: int, v: int): (n: nat)
    ensures n <= 1
  {
    if Entry(m, pd, v / NENTRIES).present then 0 else 1
  }

  /** The tables that mapping pages `lo..hi` of `pd` has to add: the directory entries of the range that
      are absent, each counted at its first page. */
  function Tables(m: Memory, pd: int, lo: int, hi: int): (n: nat)
    decreases hi - lo
  {
    if hi <= lo then 0
    else Tables(m, pd, lo, hi - 1) + if hi - 1 == lo || (hi - 1) % NENTRIES == 0 then TableFor(m, pd, hi - 1) else 0
  }

  /** One page of `pd` was given what its mapping needs: `n` pages and a table. */
  ghost predicate Walked(m: Memory, m': Memory, pd: int, v: int, n: int) {
    && |m'.free| == |m.free| - n - TableFor(m, pd, v)
    && forall x: int {:trigger Entry(m', pd, x)} ::
         Entry(m', pd, x).present <==> Entry(m, pd, x).present || x == v / NENTRIES
  }

  /** Pages `lo..a` of `pd` were given what their mapping needs, `n` pages and tables where there were none. */
  ghost predicate Spent(m: Memory, m': Memory, pd: int, lo: int, a: int, n: int) {
    && |m'.free| == |m.free| - n - Tables(m, pd, lo, a)
    && forall x: int {:trigger Entry(m', pd, x)} ::
         Entry(m', pd, x).present <==> Entry(m, pd, x).present || (lo < a && lo / NENTRIES <= x <= (a - 1) / NENTRIES)
  }

  lemma TableOnce(m: Memory, m1: Memory, pd: int, lo: int, a: int, n: int)
    requires lo <= a && Spent(m, m1, pd, lo, a, n)
    ensures Tables(m, pd, lo, a + 1) == Tables(m, pd, lo, a) + TableFor(m1, pd, a)
  {
    if lo < a && a % NENTRIES != 0 {
      assert a / NENTRIES == (a - 1) / NENTRIES;
    }
  }

  lemma SpentMore(m: Memory, m1: Memory, m2: Memory, pd: int, lo: int, a: int, n: int, k: int)
    requires lo <= a && Spent(m, m1, pd, lo, a, n) && Walked(m1, m2, pd, a, k)
    ensures Spent(m, m2, pd, lo, a + 1, n + k)
  {
    TableOnce(m, m1, pd, lo, a, n);
    forall x: int
      ensures Entry(m2, pd, x).present <==> Entry(m, pd, x).present || lo / NENTRIES <= x <= a / NENTRIES
    {
      assert Entry(m1, pd, x).present <==>
               Entry(m, pd, x).present || (lo < a && lo / NENTRIES <= x <= (a - 1) / NENTRIES);
    }
  }

  lemma {:induction false} TablesGrow(m: Memory, pd: int, lo: int, a: int, b: int)
    requires a <= b
    ensures Tables(m, pd, lo, a) <= Tables(m, pd, lo, b)
    decreases b - a
  {
    if a < b {
      TablesGrow(m, pd, lo, a, b - 1);
    }
  }

  /** Where the entries of a range are present exactly below `from`, the others are its cost. */
  lemma {:induction false} TablesFrom(m: Memory, pd: int, lo: int, hi: int, from: int)
    requires lo < hi && lo / NENTRIES <= from <= lo / NENTRIES + 1
    requires forall x: int :: lo / NENTRIES <= x <= (hi - 1) / NENTRIES ==> (Entry(m, pd, x).present <==> x < from)
    ensures Tables(m, pd, lo, hi) == if (hi - 1) / NENTRIES < from then 0 else (hi - 1) / NENTRIES + 1 - from
    decreases hi - lo
  {
    if lo == hi - 1 {
      assert Tables(m, pd, lo, hi - 1) == 0;
    } else {
      TablesFrom(m, pd, lo, hi - 1, from);
      if (hi - 1) % NENTRIES != 0 {
        assert (hi - 1) / NENTRIES == (hi - 2) / NENTRIES;
      } else {
        assert (hi - 1) / NENTRIES == (hi - 2) / NENTRIES + 1;
      }
    }
  }
}
