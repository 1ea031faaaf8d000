/** The table of in-memory inodes: one entry for an inode in use, loaded under its lock, written
    through before the lock is let go, and dropped when the inode is freed. Each step runs under the
    table's lock or under the entry's sleep lock, so callers interleave freely between steps. */
module InodeCache {
  import opened Common

  const NINODE: nat := 50

  datatype Key = Key(dev: nat, inum: nat)

  /** An inode as stored: its mode, 0 when free, its link count, its times, and the rest. */
  datatype Inode = Inode(mode: nat, nlink: nat, ctime: nat, rest: seq<nat>)

  /** How far the lock's holder is with a change: none pending, changed in memory but not on disk, or
      freed on disk and about to be forgotten. */
  datatype Phase = Clean | Changing | Freed

  /** `gen` is the generation of the inode that was loaded: how often its number had been allocated by then. */
  datatype Entry = Entry(key: Key, ref: nat, valid: bool, holder: nat, phase: Phase, ino: Inode, gen: nat)

  type Table = map<Key, Inode>

  function OnDisk(d: Table, k: Key): Inode {
    if k in d then d[k] else Inode(0, 0, 0, [])
  }

  function Generation(gens: map<Key, nat>, k: Key): nat {
    if k in gens then gens[k] else 0
  }

  /** The copy on disk is the one in memory; the creation time is not written back. */
  predicate Same(mem: Inode, disk: Inode) {
    mem.(ctime := 0) == disk.(ctime := 0)
  }

  /** `at` says which entry is in use for an inode, `refs` who refers to each entry, and `gens` how often
      each inode number has been allocated. */
  datatype State = State(entries: seq<Entry>, disk: Table, at: map<Key, int>, refs: seq<multiset<nat>>,
                         gens: map<Key, nat>)

  predicate Has(s: State, i: int) {
    0 <= i < |s.entries| && i < |s.refs|
  }

  predicate EntryOk(s: State, i: int) {
    Has(s, i) &&
    var e := s.entries[i];
    && e.ref == |s.refs[i]|
    && (e.holder != 0 ==> e.holder in s.refs[i])
    && (e.phase != Clean ==> e.holder != 0 && e.valid)
    && (e.ref > 0 ==> e.key in s.at && s.at[e.key] == i)
    && (e.ref > 0 && e.valid && e.phase == Clean ==> Same(e.ino, OnDisk(s.disk, e.key)) && e.ino.mode != 0)
    && (e.phase == Changing ==> OnDisk(s.disk, e.key).mode != 0)
    && (e.phase == Freed ==> e.ino.mode == 0)
    && (e.ref > 0 && e.valid && e.phase != Freed ==> e.gen == Generation(s.gens, e.key))
  }

  predicate KeyOk(s: State, k: Key) {
    k in s.at ==> Has(s, s.at[k]) && s.entries[s.at[k]].key == k && s.entries[s.at[k]].ref > 0
  }

  ghost predicate Inv(s: State) {
    && |s.entries| == NINODE && |s.refs| == NINODE
    && (forall i {:trigger EntryOk(s, i)} :: 0 <= i < NINODE ==> EntryOk(s, i))
    && (forall k {:trigger KeyOk(s, k)} :: KeyOk(s, k))
  }

  // ---------------------------------------------------------------- steps

  datatype Action =
    | Hit(i: int, pid: nat)
    | Recycle(i: int, k: Key, pid: nat)
    | Lock(i: int, pid: nat)
    | Load(i: int)
    | Change(i: int, ino: Inode)
    | FreeUp(i: int)
    | Update(i: int)
    | Invalidate(i: int)
    | Unlock(i: int)
    | Put(i: int, pid: nat)
    | Ialloc(i: int, k: Key, ino: Inode)

  /** What the code checks or its callers see to. A load of a free inode panics; an inode is freed by the
      only one referring to it; an inode is allocated on disk, without its entry's lock, where it is free. */
  predicate Enabled(s: State, a: Action) {
    Has(s, a.i) &&
    var e := s.entries[a.i];
    match a
    case Hit(i, pid) => e.ref > 0
    case Recycle(i, k, pid) => e.ref == 0 && k !in s.at
    case Lock(i, pid) => pid != 0 && pid in s.refs[i] && e.holder == 0
    case Load(i) => e.holder != 0 && !e.valid && OnDisk(s.disk, e.key).mode != 0
    case Change(i, ino) => e.holder != 0 && e.valid && e.phase != Freed && ino.mode != 0
    case FreeUp(i) => e.holder != 0 && e.valid && e.phase == Clean && e.ino.nlink == 0 && e.ref == 1
    case Update(i) => e.holder != 0 && e.valid && e.phase != Freed
    case Invalidate(i) => e.holder != 0 && e.phase == Freed
    case Unlock(i) => e.holder != 0 && e.phase == Clean
    case Put(i, pid) => pid in s.refs[i] && (pid == e.holder ==> s.refs[i][pid] >= 2)
    case Ialloc(i, k, ino) => OnDisk(s.disk, k).mode == 0 && ino.mode != 0
  }

  function Set(s: State, i: int, e: Entry): (r: State)
    requires Has(s, i)
  {
    s.(entries := s.entries[i := e])
  }

  function Step(s: State, a: Action): (r: State) {
    if !Has(s, a.i) then s else
    var e := s.entries[a.i];
    match a
    case Hit(i, pid) => Set(s, i, e.(ref := e.ref + 1)).(refs := s.refs[i := s.refs[i] + multiset{pid}])
    case Recycle(i, k, pid) =>
      Set(s, i, e.(key := k, ref := 1, valid := false)).(at := s.at[k := i], refs := s.refs[i := multiset{pid}])
    case Lock(i, pid) => Set(s, i, e.(holder := pid))
    case Load(i) => Set(s, i, e.(valid := true, ino := OnDisk(s.disk, e.key), gen := Generation(s.gens, e.key)))
    case Change(i, ino) => Set(s, i, e.(ino := ino, phase := Changing))
    case FreeUp(i) => Set(s, i, e.(ino := e.ino.(mode := 0), phase := Changing))
    case Update(i) =>
      Set(s, i, e.(phase := if e.ino.mode == 0 then Freed else Clean))
        .(disk := s.disk[e.key := e.ino.(ctime := OnDisk(s.disk, e.key).ctime)])
    case Invalidate(i) => Set(s, i, e.(valid := false, phase := Clean))
    case Unlock(i) => Set(s, i, e.(holder := 0))
    case Put(i, pid) =>
      var r := Set(s, i, e.(ref := if e.ref > 0 then e.ref - 1 else 0))
                 .(refs := s.refs[i := s.refs[i] - multiset{pid}]);
      if e.ref == 1 then r.(at := s.at - {e.key}) else r
    case Ialloc(i, k, ino) => s.(disk := s.disk[k := ino], gens := s.gens[k := Generation(s.gens, k) + 1])
  }

  lemma Own(s: State, a: Action)
    requires Inv(s) && Enabled(s, a)
    ensures EntryOk(Step(s, a), a.i)
  {
    assert EntryOk(s, a.i) && KeyOk(s, s.entries[a.i].key);
  }

  lemma Other(s: State, a: Action, j: int)
    requires Inv(s) && Enabled(s, a) && 0 <= j < NINODE && j != a.i
    ensures EntryOk(Step(s, a), j)
  {
    assert EntryOk(s, j) && EntryOk(s, a.i) && KeyOk(s, s.entries[a.i].key);
  }

  lemma Keys(s: State, a: Action, k: Key)
    requires Inv(s) && Enabled(s, a)
    ensures KeyOk(Step(s, a), k)
  {
    assert EntryOk(s, a.i) && KeyOk(s, k);
  }

  lemma StepKeepsInv(s: State, a: Action)
    requires Inv(s) && Enabled(s, a)
    ensures Inv(Step(s, a))
  {
    var r := Step(s, a);
    forall i | 0 <= i < NINODE
      ensures EntryOk(r, i)
    {
      if i == a.i {
        Own(s, a);
      } else {
        Other(s, a, i);
      }
    }
    forall k
      ensures KeyOk(r, k)
    {
      Keys(s, a, k);
    }
  }

  function Run(s: State, acts: seq<Action>): (r: State) {
    if acts == [] then s else Step(Run(s, acts[..|acts|-1]), acts[|acts|-1])
  }

  predicate Allowed(s: State, acts: seq<Action>) {
    acts != [] ==> Allowed(s, acts[..|acts|-1]) && Enabled(Run(s, acts[..|acts|-1]), acts[|acts|-1])
  }

  /** The table at boot: nothing in use. */
  predicate Boot(s: State) {
    && |s.entries| == NINODE && s.refs == seq(NINODE, i => multiset{}) && s.at == map[]
    && forall i :: 0 <= i < NINODE ==> s.entries[i].ref == 0 && s.entries[i].holder == 0 && s.entries[i].phase == Clean
  }

  lemma {:induction false} RunKeepsInv(s: State, acts: seq<Action>)
    requires Boot(s) && Allowed(s, acts)
    ensures Inv(Run(s, acts))
  {
    if acts == [] {
      forall i | 0 <= i < NINODE
        ensures EntryOk(s, i)
      {
        assert s.entries[i].ref == 0;
      }
    } else {
      RunKeepsInv(s, acts[..|acts|-1]);
      StepKeepsInv(Run(s, acts[..|acts|-1]), acts[|acts|-1]);
    }
  }

  /** Over any interleaving: an inode has one entry at most, and an entry that is loaded, in use and not
      being changed by its lock's holder is the inode on disk, but for the creation time. */
  lemma WrittenThrough(s: State, acts: seq<Action>, i: int)
    requires Boot(s) && Allowed(s, acts) && Has(Run(s, acts), i) && Run(s, acts).entries[i].ref > 0
    ensures var r := Run(s, acts);
            && (forall j :: Has(r, j) && r.entries[j].ref > 0 && r.entries[j].key == r.entries[i].key ==> j == i)
            && (r.entries[i].valid && r.entries[i].phase == Clean ==>
                 Same(r.entries[i].ino, OnDisk(r.disk, r.entries[i].key)))
  {
    RunKeepsInv(s, acts);
    var r := Run(s, acts);
    assert EntryOk(r, i);
    forall j | Has(r, j) && r.entries[j].ref > 0 && r.entries[j].key == r.entries[i].key
      ensures j == i
    {
      assert EntryOk(r, j);
    }
  }

  /** A write to disk never meets an inode that was freed and handed out again behind its back: what
      `iupdate` replaces is in use and of the generation its entry was loaded from. */
  lemma UpdateHitsItsOwn(s: State, acts: seq<Action>, i: int)
    requires Boot(s) && Allowed(s, acts) && Enabled(Run(s, acts), Update(i))
    ensures var r := Run(s, acts);
            && OnDisk(r.disk, r.entries[i].key).mode != 0
            && r.entries[i].gen == Generation(r.gens, r.entries[i].key)
  {
    RunKeepsInv(s, acts);
    assert EntryOk(Run(s, acts), i);
  }

  // ---------------------------------------------------------------- from the actions alone

  /** Who has locked entry `i` by the last lock or unlock of it, 0 for nobody. */
  function LockedBy(acts: seq<Action>, i: int): (pid: nat) {
    if acts == [] then 0 else
    var a := acts[|acts|-1];
    if a == Unlock(i) then 0
    else if a.Lock? && a.i == i then a.pid
    else LockedBy(acts[..|acts|-1], i)
  }

  /** Who refers to entry `i` by the requests and releases since it was last taken for an inode. */
  function ReferredBy(acts: seq<Action>, i: int): (pids: multiset<nat>) {
    if acts == [] then multiset{} else
    var a, before := acts[|acts|-1], ReferredBy(acts[..|acts|-1], i);
    if a.Recycle? && a.i == i then multiset{a.pid}
    else if a.Hit? && a.i == i then before + multiset{a.pid}
    else if a.Put? && a.i == i then before - multiset{a.pid}
    else before
  }

  /** The inode that entry `i` was last taken for. */
  function TakenFor(s: State, acts: seq<Action>, i: int): (k: Key)
    requires Has(s, i)
  {
    if acts == [] then s.entries[i].key else
    var a := acts[|acts|-1];
    if a.Recycle? && a.i == i then a.k else TakenFor(s, acts[..|acts|-1], i)
  }

  /** Entry `i` has been loaded since it was last taken or forgotten. */
  predicate Loaded(s: State, acts: seq<Action>, i: int)
    requires Has(s, i)
  {
    if acts == [] then s.entries[i].valid else
    var a := acts[|acts|-1];
    a == Load(i) || (a != Invalidate(i) && !(a.Recycle? && a.i == i) && Loaded(s, acts[..|acts|-1], i))
  }

  /** What the last load or change of entry `i` left in memory. */
  function InMemory(s: State, acts: seq<Action>, i: int): (ino: Inode)
    requires Has(s, i)
    decreases acts, 0
  {
    if acts == [] then s.entries[i].ino else
    var front, a := acts[..|acts|-1], acts[|acts|-1];
    if a == Load(i) then Stored(s, front, TakenFor(s, front, i))
    else if a.Change? && a.i == i then a.ino
    else if a == FreeUp(i) then InMemory(s, front, i).(mode := 0)
    else InMemory(s, front, i)
  }

  /** What the last update or allocation of inode `k` left on disk: an update copies memory to disk, but for
      the creation time. */
  function Stored(s: State, acts: seq<Action>, k: Key): (ino: Inode)
    decreases acts, 0
  {
    if acts == [] then OnDisk(s.disk, k) else
    var front, a := acts[..|acts|-1], acts[|acts|-1];
    if a.Update? && Has(s, a.i) && TakenFor(s, front, a.i) == k then
      InMemory(s, front, a.i).(ctime := Stored(s, front, k).ctime)
    else if a.Ialloc? && a.k == k then a.ino
    else Stored(s, front, k)
  }

  lemma {:induction false} RunSize(s: State, acts: seq<Action>)
    ensures |Run(s, acts).entries| == |s.entries| && |Run(s, acts).refs| == |s.refs|
  {
    if acts != [] {
      RunSize(s, acts[..|acts|-1]);
    }
  }

  /** After any run since boot an entry is held by whoever locked it last and has not unlocked it, counts those
      who refer to it, is for the inode it was last taken for, and is valid if it was loaded since. */
  lemma {:induction false} EntryFollows(s: State, acts: seq<Action>, i: int)
    requires Boot(s) && Allowed(s, acts) && Has(s, i)
    ensures Has(Run(s, acts), i)
    ensures var e := Run(s, acts).entries[i];
            && e.holder == LockedBy(acts, i) && e.ref == |ReferredBy(acts, i)| && e.key == TakenFor(s, acts, i)
            && Run(s, acts).refs[i] == ReferredBy(acts, i) && e.valid == Loaded(s, acts, i)
  {
    RunKeepsInv(s, acts);
    assert EntryOk(Run(s, acts), i);
    if acts != [] {
      EntryFollows(s, acts[..|acts|-1], i);
      EntryNext(Run(s, acts[..|acts|-1]), acts[|acts|-1], i);
    }
  }

  lemma EntryNext(s: State, a: Action, i: int)
    requires Has(s, i) && Enabled(s, a)
    ensures var r := Step(s, a);
            && Has(r, i)
            && r.entries[i].key == (if a.Recycle? && a.i == i then a.k else s.entries[i].key)
            && r.entries[i].holder ==
                 (if a == Unlock(i) then 0 else if a.Lock? && a.i == i then a.pid else s.entries[i].holder)
            && r.refs[i] == (if a.Recycle? && a.i == i then multiset{a.pid}
                             else if a.Hit? && a.i == i then s.refs[i] + multiset{a.pid}
                             else if a.Put? && a.i == i then s.refs[i] - multiset{a.pid}
                             else s.refs[i])
            && r.entries[i].valid ==
                 (a == Load(i) || (a != Invalidate(i) && !(a.Recycle? && a.i == i) && s.entries[i].valid))
  {
  }

  lemma MemoryNext(s: State, a: Action, i: int)
    requires Has(s, i) && Enabled(s, a)
    ensures Has(Step(s, a), i)
    ensures Step(s, a).entries[i].ino == if a == Load(i) then OnDisk(s.disk, s.entries[i].key)
                                         else if a.Change? && a.i == i then a.ino
                                         else if a == FreeUp(i) then s.entries[i].ino.(mode := 0)
                                         else s.entries[i].ino
  {
  }

  /** It holds the inode as it was last loaded or changed. */
  lemma {:induction false} MemoryFollows(s: State, acts: seq<Action>, i: int)
    requires Boot(s) && Allowed(s, acts) && Has(s, i)
    ensures Has(Run(s, acts), i) && Run(s, acts).entries[i].ino == InMemory(s, acts, i)
    decreases acts, 0
  {
    if acts != [] {
      var front, a := acts[..|acts|-1], acts[|acts|-1];
      MemoryFollows(s, front, i);
      MemoryNext(Run(s, front), a, i);
      if a == Load(i) {
        EntryFollows(s, front, i);
        DiskFollows(s, front, TakenFor(s, front, i));
      }
    }
  }

  /** The disk holds every inode as it was last updated from its entry or allocated. */
  lemma {:induction false} DiskFollows(s: State, acts: seq<Action>, k: Key)
    requires Boot(s) && Allowed(s, acts)
    ensures OnDisk(Run(s, acts).disk, k) == Stored(s, acts, k)
    decreases acts, 0
  {
    if acts != [] {
      var front, a := acts[..|acts|-1], acts[|acts|-1];
      DiskFollows(s, front, k);
      RunSize(s, front);
      if a.Update? {
        EntryFollows(s, front, a.i);
        MemoryFollows(s, front, a.i);
      }
    }
  }

  /** A lock is taken only when nobody has it, and the steps of its holder are taken only when somebody does. */
  lemma Exclusive(s: State, acts: seq<Action>, a: Action)
    requires Boot(s) && Allowed(s, acts) && Enabled(Run(s, acts), a)
    ensures a.Lock? ==> LockedBy(acts, a.i) == 0 && LockedBy(acts + [a], a.i) == a.pid != 0
    ensures a.Load? || a.Change? || a.FreeUp? || a.Update? || a.Invalidate? || a.Unlock? ==> LockedBy(acts, a.i) != 0
    ensures a.Unlock? ==> LockedBy(acts + [a], a.i) == 0
  {
    RunSize(s, acts);
    EntryFollows(s, acts, a.i);
  }

  /** The step is a change of what entry `i` holds. */
  predicate Rewrites(a: Action, i: int) {
    a.i == i && (a.Load? || a.Change? || a.FreeUp?)
  }

  lemma {:induction false} LastChange(s: State, acts: seq<Action>, i: int, p: int, ino: Inode)
    requires Has(s, i) && 0 <= p < |acts| && acts[p] == Change(i, ino)
    requires forall u :: p < u < |acts| ==> !Rewrites(acts[u], i)
    ensures InMemory(s, acts, i) == ino
  {
    if p < |acts| - 1 {
      LastChange(s, acts[..|acts|-1], i, p, ino);
      assert !Rewrites(acts[|acts|-1], i);
    }
  }

  /** Step `q` writes inode `k` on disk. */
  predicate Writes(s: State, acts: seq<Action>, q: int, k: Key)
    requires 0 <= q < |acts|
  {
    || (acts[q].Update? && Has(s, acts[q].i) && TakenFor(s, acts[..q], acts[q].i) == k)
    || (acts[q].Ialloc? && acts[q].k == k)
  }

  /** No step from `q` on writes inode `k` on disk. */
  predicate NotWritten(s: State, acts: seq<Action>, k: Key, q: int)
    requires 0 <= q
  {
    forall u :: q <= u < |acts| ==> !Writes(s, acts, u, k)
  }

  lemma {:induction false} StoredSince(s: State, acts: seq<Action>, k: Key, q: int)
    requires 0 <= q <= |acts| && NotWritten(s, acts, k, q)
    ensures Stored(s, acts, k) == Stored(s, acts[..q], k)
  {
    if q == |acts| {
      assert acts[..q] == acts;
    } else {
      var front := acts[..|acts|-1];
      forall u | q <= u < |front|
        ensures !Writes(s, front, u, k)
      {
        assert front[..u] == acts[..u];
        assert !Writes(s, acts, u, k);
      }
      StoredSince(s, front, k, q);
      assert front[..q] == acts[..q];
      assert !Writes(s, acts, |acts| - 1, k);
    }
  }

  /** A change that was followed by an update, with no other change of the entry between them, is on disk until
      the inode is written again. */
  lemma ChangeReachesDisk(s: State, acts: seq<Action>, i: int, k: Key, p: int, q: int, ino: Inode)
    requires Boot(s) && Allowed(s, acts) && Has(s, i) && 0 <= p < q < |acts|
    requires acts[p] == Change(i, ino) && acts[q] == Update(i) && k == TakenFor(s, acts[..q], i)
    requires (forall u :: p < u < q ==> !Rewrites(acts[u], i)) && NotWritten(s, acts, k, q + 1)
    ensures Same(ino, OnDisk(Run(s, acts).disk, k))
  {
    DiskFollows(s, acts, k);
    StaysStored(s, acts, i, k, p, q, ino);
  }

  lemma StaysStored(s: State, acts: seq<Action>, i: int, k: Key, p: int, q: int, ino: Inode)
    requires Has(s, i) && 0 <= p < q < |acts|
    requires acts[p] == Change(i, ino) && acts[q] == Update(i) && k == TakenFor(s, acts[..q], i)
    requires (forall u :: p < u < q ==> !Rewrites(acts[u], i)) && NotWritten(s, acts, k, q + 1)
    ensures Same(ino, Stored(s, acts, k))
  {
    StoredSince(s, acts, k, q + 1);
    ChangeStored(s, acts[..q], i, k, p, ino);
    assert acts[..q+1] == acts[..q] + [Update(i)];
  }

  lemma ChangeStored(s: State, acts: seq<Action>, i: int, k: Key, p: int, ino: Inode)
    requires Has(s, i) && 0 <= p < |acts| && acts[p] == Change(i, ino) && k == TakenFor(s, acts, i)
    requires forall u :: p < u < |acts| ==> !Rewrites(acts[u], i)
    ensures Same(ino, Stored(s, acts + [Update(i)], k))
  {
    LastChange(s, acts, i, p, ino);
    assert (acts + [Update(i)])[..|acts|] == acts;
  }

  /** How often inode number `k` has been allocated. */
  function Allocations(acts: seq<Action>, k: Key): (n: nat) {
    if acts == [] then 0 else
    var a := acts[|acts|-1];
    Allocations(acts[..|acts|-1], k) + if a.Ialloc? && a.k == k then 1 else 0
  }

  lemma {:induction false} GenerationsFollow(s: State, acts: seq<Action>, k: Key)
    requires Allowed(s, acts)
    ensures Generation(Run(s, acts).gens, k) == Generation(s.gens, k) + Allocations(acts, k)
  {
    if acts != [] {
      GenerationsFollow(s, acts[..|acts|-1], k);
    }
  }

  lemma {:induction false} AllocationsGrow(acts: seq<Action>, k: Key, p: int, u: int)
    requires 0 <= p <= u <= |acts|
    ensures Allocations(acts[..p], k) <= Allocations(acts, k)
    ensures u < |acts| && acts[u].Ialloc? && acts[u].k == k ==> Allocations(acts[..p], k) < Allocations(acts, k)
  {
    if p == |acts| {
      assert acts[..p] == acts;
    } else {
      var front := acts[..|acts|-1];
      AllocationsGrow(front, k, p, if u < |front| then u else |front|);
      assert front[..p] == acts[..p];
    }
  }

  lemma LoadNext(s: State, a: Action, i: int)
    requires Has(s, i) && Enabled(s, a) && a != Load(i)
    ensures var e, e' := s.entries[i], Step(s, a).entries[i];
            e'.gen == e.gen && (e'.valid ==> e.valid && e'.key == e.key)
  {
  }

  /** An entry that has been valid since its last load has the generation of that load. */
  lemma {:induction false} SinceLoad(s: State, acts: seq<Action>, i: int, p: int)
    requires Boot(s) && Allowed(s, acts) && Has(s, i) && 0 <= p < |acts| && acts[p] == Load(i)
    requires forall u :: p < u < |acts| ==> acts[u] != Load(i)
    ensures Has(Run(s, acts), i)
    ensures var e := Run(s, acts).entries[i];
            e.valid ==> e.gen == Generation(s.gens, e.key) + Allocations(acts[..p], e.key)
  {
    var front := acts[..|acts|-1];
    RunSize(s, front);
    RunSize(s, acts);
    if p == |acts| - 1 {
      GenerationsFollow(s, front, Run(s, front).entries[i].key);
    } else {
      SinceLoad(s, front, i, p);
      LoadNext(Run(s, front), acts[|acts|-1], i);
      assert front[..p] == acts[..p];
    }
  }

  /** Whoever writes an inode back loaded it after its last allocation: since the load it was not freed and
      handed out again. */
  lemma NotReallocated(s: State, acts: seq<Action>, i: int, p: int, u: int)
    requires Boot(s) && Allowed(s, acts) && Has(s, i) && Enabled(Run(s, acts), Update(i))
    requires 0 <= p < u < |acts| && acts[p] == Load(i) && forall v :: p < v < |acts| ==> acts[v] != Load(i)
    ensures !(acts[u].Ialloc? && acts[u].k == Run(s, acts).entries[i].key)
  {
    var k := Run(s, acts).entries[i].key;
    UpdateHitsItsOwn(s, acts, i);
    SinceLoad(s, acts, i, p);
    GenerationsFollow(s, acts, k);
    AllocationsGrow(acts, k, p, u);
  }

  // ---------------------------------------------------------------- what can be done

  /** By `acts` the machine can get from `s` to `x`. */
  predicate Gets(s: State, acts: seq<Action>, x: State) {
    Allowed(s, acts) && Run(s, acts) == x
  }

  lemma GetsOn(s: State, acts: seq<Action>, x: State, a: Action)
    requires Gets(s, acts, x) && Enabled(x, a)
    ensures Gets(s, acts + [a], Step(x, a))
  {
    assert (acts + [a])[..|acts|] == acts;
  }

  /** The entry is held by the only one to refer to it. */
  predicate HeldBy(x: State, i: int, k: Key, pid: nat, phase: Phase) {
    && Has(x, i) && x.refs[i] == multiset{pid} && pid != 0
    && x.entries[i].key == k && x.entries[i].ref == 1 && x.entries[i].holder == pid && x.entries[i].phase == phase
  }

  /** A free entry taken, locked and loaded. */
  function Opened(s: State, i: int, k: Key, pid: nat): (r: State)
    requires Has(s, i)
  {
    Step(Step(Step(s, Recycle(i, k, pid)), Lock(i, pid)), Load(i))
  }

  /** Any inode in use can be opened, if an entry is free. */
  lemma CanOpen(s: State, i: int, k: Key, pid: nat)
    requires Inv(s) && Has(s, i) && s.entries[i].ref == 0 && k !in s.at && pid != 0 && OnDisk(s.disk, k).mode != 0
    ensures Gets(s, [Recycle(i, k, pid), Lock(i, pid), Load(i)], Opened(s, i, k, pid))
    ensures var x := Opened(s, i, k, pid);
            HeldBy(x, i, k, pid, Clean) && x.entries[i].valid && x.entries[i].ino == OnDisk(s.disk, k)
  {
    assert EntryOk(s, i);
    var x1 := Step(s, Recycle(i, k, pid));
    var x2 := Step(x1, Lock(i, pid));
    GetsOn(s, [], s, Recycle(i, k, pid));
    GetsOn(s, [] + [Recycle(i, k, pid)], x1, Lock(i, pid));
    GetsOn(s, [] + [Recycle(i, k, pid)] + [Lock(i, pid)], x2, Load(i));
    assert [] + [Recycle(i, k, pid)] + [Lock(i, pid)] + [Load(i)] == [Recycle(i, k, pid), Lock(i, pid), Load(i)];
  }

  lemma LetGo(s: State, acts: seq<Action>, x: State, i: int, k: Key, pid: nat) returns (r: State)
    requires Gets(s, acts, x) && HeldBy(x, i, k, pid, Clean)
    ensures Gets(s, acts + [Unlock(i), Put(i, pid)], r) && r.disk == x.disk && Has(r, i) && r.entries[i].ref == 0
  {
    var x1 := Step(x, Unlock(i));
    GetsOn(s, acts, x, Unlock(i));
    GetsOn(s, acts + [Unlock(i)], x1, Put(i, pid));
    r := Step(x1, Put(i, pid));
    assert acts + [Unlock(i)] + [Put(i, pid)] == acts + [Unlock(i), Put(i, pid)];
  }

  /** Its holder can change it, write it, and let it go; the change is on disk and the entry free again. */
  lemma CanChange(x: State, i: int, k: Key, pid: nat, ino: Inode) returns (r: State)
    requires HeldBy(x, i, k, pid, Clean) && x.entries[i].valid && ino.mode != 0
    ensures Gets(x, [Change(i, ino), Update(i)] + [Unlock(i), Put(i, pid)], r)
    ensures Has(r, i) && r.entries[i].ref == 0 && Same(ino, OnDisk(r.disk, k))
  {
    var x1 := Step(x, Change(i, ino));
    var x2 := Step(x1, Update(i));
    GetsOn(x, [], x, Change(i, ino));
    GetsOn(x, [] + [Change(i, ino)], x1, Update(i));
    assert [] + [Change(i, ino)] + [Update(i)] == [Change(i, ino), Update(i)];
    r := LetGo(x, [Change(i, ino), Update(i)], x2, i, k, pid);
  }

  lemma CanErase(x: State, i: int, k: Key, pid: nat) returns (r: State)
    requires HeldBy(x, i, k, pid, Clean) && x.entries[i].valid && x.entries[i].ino.nlink == 0
    ensures Gets(x, [FreeUp(i), Update(i)], r) && HeldBy(r, i, k, pid, Freed) && OnDisk(r.disk, k).mode == 0
  {
    var x1 := Step(x, FreeUp(i));
    r := Step(x1, Update(i));
    GetsOn(x, [], x, FreeUp(i));
    GetsOn(x, [] + [FreeUp(i)], x1, Update(i));
    assert [] + [FreeUp(i)] + [Update(i)] == [FreeUp(i), Update(i)];
  }

  /** One without links can be freed by the only one to refer to it; then its number can be allocated again. */
  lemma CanFree(x: State, i: int, k: Key, pid: nat, ino: Inode) returns (r: State)
    requires HeldBy(x, i, k, pid, Clean) && x.entries[i].valid && x.entries[i].ino.nlink == 0 && ino.mode != 0
    ensures Gets(x, [FreeUp(i), Update(i)] + [Invalidate(i)] + [Unlock(i), Put(i, pid)], r)
    ensures Has(r, i) && r.entries[i].ref == 0 && OnDisk(r.disk, k).mode == 0 && Enabled(r, Ialloc(i, k, ino))
  {
    var x2 := CanErase(x, i, k, pid);
    GetsOn(x, [FreeUp(i), Update(i)], x2, Invalidate(i));
    r := LetGo(x, [FreeUp(i), Update(i)] + [Invalidate(i)], Step(x2, Invalidate(i)), i, k, pid);
  }

  // ---------------------------------------------------------------- iget

  class Icache {
    var entries: seq<Entry>
    ghost var disk: Table
    ghost var at: map<Key, int>
    ghost var refs: seq<multiset<nat>>
    ghost var gens: map<Key, nat>

    ghost function S(): State
      reads this
    {
      State(entries, disk, at, refs, gens)
    }

    /** At boot: nothing in use. */
    constructor (ghost disk: Table)
      ensures Boot(S()) && Inv(S()) && this.disk == disk
    {
      entries := seq(NINODE, i => Entry(Key(0, 0), 0, false, 0, Clean, Inode(0, 0, 0, []), 0));
      this.disk, at, refs, gens := disk, map[], seq(NINODE, i => multiset{}), map[];
      new;
      RunKeepsInv(S(), []);
    }

    /** The entry for inode `k`, or a free one made its own; `None` is the panic, which happens exactly
        when the inode has no entry and all entries are in use. */
    method Iget(k: Key, pid: nat) returns (r: Option<int>)
      requires Inv(S())
      modifies `entries, `at, `refs
      ensures Inv(S())
      ensures r.None? <==> k !in old(at) && forall i :: 0 <= i < NINODE ==> old(entries)[i].ref > 0
      ensures r.None? ==> S() == old(S())
      ensures r.Some? ==> 0 <= r.value < NINODE && entries[r.value].key == k && pid in refs[r.value]
      ensures r.Some? ==>
                if k in old(at)
                then Enabled(old(S()), Hit(r.value, pid)) && S() == Step(old(S()), Hit(r.value, pid))
                else Enabled(old(S()), Recycle(r.value, k, pid)) && S() == Step(old(S()), Recycle(r.value, k, pid))
    {
      var i, empty := 0, -1;
      while i < NINODE
        invariant 0 <= i <= NINODE && S() == old(S())
        invariant forall j :: 0 <= j < i ==> !(entries[j].ref > 0 && entries[j].key == k)
        invariant if empty == -1 then forall j :: 0 <= j < i ==> entries[j].ref > 0
                  else 0 <= empty < i && entries[empty].ref == 0
      {
        if entries[i].ref > 0 && entries[i].key == k {
          assert EntryOk(S(), i);
          StepKeepsInv(S(), Hit(i, pid));
          entries := entries[i := entries[i].(ref := entries[i].ref + 1)];
          refs := refs[i := refs[i] + multiset{pid}];
          return Some(i);
        }
        if empty == -1 && entries[i].ref == 0 {
          empty := i;
        }
        i := i + 1;
      }
      assert KeyOk(S(), k);
      if empty == -1 {
        return None;
      }
      StepKeepsInv(S(), Recycle(empty, k, pid));
      entries := entries[empty := entries[empty].(key := k, ref := 1, valid := false)];
      at := at[k := empty];
      refs := refs[empty := multiset{pid}];
      return Some(empty);
    }
  }
}
