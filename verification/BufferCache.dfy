/** The block cache: at most one buffer for a block, the latest value whoever reads it, and no buffer
    reused while someone needs it. Each step runs under the cache lock or under the buffer's own sleep
    lock, so callers interleave freely between steps. */
module BufferCache {
  import opened Common
  import opened BlockDevice

  const NBUF: nat := 30

  datatype Key = Key(dev: nat, blockno: nat)

  /** `holder` is the process that has the buffer's sleep lock, 0 for none. */
  datatype Buf = Buf(key: Key, valid: bool, dirty: bool, refcnt: nat, holder: nat, data: Block)

  /** What each block holds; blocks never written are empty. */
  type Store = map<Key, Block>

  function Get(s: Store, k: Key): Block {
    if k in s then s[k] else Block([], [], [], [])
  }

  /** The cache and the disk below it. `at` says which buffer is in use for a block, `open` which
      buffers their holders have changed and not yet logged or written, `refs` who refers to each
      buffer, and `flat` what each block would hold if there were no cache. */
  datatype State = State(bufs: seq<Buf>, disk: Store, at: map<Key, int>, open: set<int>, refs: seq<multiset<nat>>,
                         flat: Store)

  predicate Has(s: State, i: int) {
    0 <= i < |s.bufs| && i < |s.refs|
  }

  predicate Used(s: State, i: int) {
    Has(s, i) && s.bufs[i].key in s.at && s.at[s.bufs[i].key] == i
  }

  /** Buffer `i` may hold a value for its block that the disk does not have. */
  predicate Newer(s: State, i: int) {
    Has(s, i) && (s.bufs[i].dirty || i in s.open)
  }

  /** A buffer no request has reached yet: zeroed memory, which reads as block 0 of device 0. */
  predicate Untouched(b: Buf) {
    b.key == Key(0, 0) && !b.valid && !b.dirty && b.refcnt == 0
  }

  predicate BufOk(s: State, i: int) {
    Has(s, i) &&
    var b := s.bufs[i];
    && b.refcnt == |s.refs[i]|
    && (b.holder != 0 ==> b.holder in s.refs[i])
    && (b.dirty ==> b.valid)
    && (i in s.open ==> b.holder != 0 && b.valid)
    && (!Used(s, i) ==> Untouched(b))
    && (b.valid ==> b.data == Get(s.flat, b.key))
  }

  /** Block `k` is in one buffer at most, and on the disk unless that buffer is newer. */
  predicate KeyOk(s: State, k: Key) {
    && (k in s.at ==> Has(s, s.at[k]) && s.bufs[s.at[k]].key == k)
    && (Get(s.disk, k) == Get(s.flat, k) || (k in s.at && Newer(s, s.at[k])))
  }

  ghost predicate Inv(s: State) {
    && |s.bufs| == NBUF && |s.refs| == NBUF
    && (forall i {:trigger BufOk(s, i)} :: 0 <= i < NBUF ==> BufOk(s, i))
    && (forall k {:trigger KeyOk(s, k)} :: KeyOk(s, k))
  }

  // ---------------------------------------------------------------- steps

  datatype Action =
    | Hit(i: int, pid: nat)
    | Recycle(i: int, k: Key, pid: nat)
    | Lock(i: int, pid: nat)
    | Fill(i: int)
    | Modify(i: int, data: Block)
    | LogDirty(i: int)
    | WriteOut(i: int)
    | Unlock(i: int)
    | Drop(i: int, pid: nat)

  /** What the code checks, or its callers see to, before each step. The steps from `Fill` to
      `Unlock` are the lock holder's; only a buffer that has been filled is changed or written. */
  predicate Enabled(s: State, a: Action) {
    Has(s, a.i) &&
    var b := s.bufs[a.i];
    match a
    case Hit(i, pid) => Used(s, i) || b.key !in s.at
    case Recycle(i, k, pid) => b.refcnt == 0 && !b.dirty && k !in s.at
    case Lock(i, pid) => pid != 0 && pid in s.refs[i] && b.holder == 0
    case Fill(i) => b.holder != 0
    case Modify(i, data) => b.holder != 0 && b.valid
    case LogDirty(i) => b.holder != 0 && b.valid
    case WriteOut(i) => b.holder != 0 && b.valid
    case Unlock(i) => b.holder != 0 && i !in s.open
    case Drop(i, pid) => pid in s.refs[i] && (pid == b.holder ==> s.refs[i][pid] >= 2)
  }

  function Step(s: State, a: Action): (r: State) {
    if !Has(s, a.i) then s else
    var b := s.bufs[a.i];
    match a
    case Hit(i, pid) => s.(bufs := s.bufs[i := b.(refcnt := b.refcnt + 1)], at := s.at[b.key := i],
                           refs := s.refs[i := s.refs[i] + multiset{pid}])
    case Recycle(i, k, pid) =>
      s.(bufs := s.bufs[i := Buf(k, false, false, 1, b.holder, b.data)],
         at := (if Used(s, i) then s.at - {b.key} else s.at)[k := i], refs := s.refs[i := multiset{pid}])
    case Lock(i, pid) => s.(bufs := s.bufs[i := b.(holder := pid)])
    case Fill(i) => if b.valid then s else s.(bufs := s.bufs[i := b.(valid := true, data := Get(s.disk, b.key))])
    case Modify(i, data) => s.(bufs := s.bufs[i := b.(data := data)], open := s.open + {i},
                               flat := s.flat[b.key := data])
    case LogDirty(i) => s.(bufs := s.bufs[i := b.(dirty := true)], open := s.open - {i})
    case WriteOut(i) => s.(bufs := s.bufs[i := b.(dirty := false)], disk := s.disk[b.key := b.data],
                           open := s.open - {i})
    case Unlock(i) => s.(bufs := s.bufs[i := b.(holder := 0)])
    case Drop(i, pid) => s.(bufs := s.bufs[i := b.(refcnt := if b.refcnt > 0 then b.refcnt - 1 else 0)],
                            refs := s.refs[i := s.refs[i] - multiset{pid}])
  }

  /** A step leaves the other buffers alone. */
  lemma Others(s: State, a: Action, j: int)
    requires Inv(s) && Enabled(s, a) && 0 <= j < NBUF && j != a.i
    ensures BufOk(Step(s, a), j)
  {
    var r := Step(s, a);
    assert BufOk(s, j) && BufOk(s, a.i) && KeyOk(s, s.bufs[a.i].key) && KeyOk(s, s.bufs[j].key);
    assert r.bufs[j] == s.bufs[j] && r.refs[j] == s.refs[j];
    assert j in r.open <==> j in s.open;
  }

  lemma Own(s: State, a: Action)
    requires Inv(s) && Enabled(s, a)
    ensures BufOk(Step(s, a), a.i)
  {
    assert BufOk(s, a.i) && KeyOk(s, s.bufs[a.i].key);
  }

  lemma Keys(s: State, a: Action, k: Key)
    requires Inv(s) && Enabled(s, a)
    ensures KeyOk(Step(s, a), k)
  {
    assert BufOk(s, a.i) && KeyOk(s, s.bufs[a.i].key) && KeyOk(s, k);
    assert k in s.at ==> BufOk(s, s.at[k]);
  }

  lemma StepKeepsInv(s: State, a: Action)
    requires Inv(s) && Enabled(s, a)
    ensures Inv(Step(s, a))
  {
    var r := Step(s, a);
    forall i | 0 <= i < NBUF
      ensures BufOk(r, i)
    {
      if i == a.i {
        Own(s, a);
      } else {
        Others(s, a, i);
      }
    }
    forall k
      ensures KeyOk(r, k)
    {
      Keys(s, a, k);
    }
  }

  // ---------------------------------------------------------------- runs

  function Run(s: State, acts: seq<Action>): (r: State) {
    if acts == [] then s else Step(Run(s, acts[..|acts|-1]), acts[|acts|-1])
  }

  predicate Allowed(s: State, acts: seq<Action>) {
    acts != [] ==> Allowed(s, acts[..|acts|-1]) && Enabled(Run(s, acts[..|acts|-1]), acts[|acts|-1])
  }

  /** The cache at boot: every buffer untouched. */
  predicate Boot(s: State) {
    && |s.bufs| == NBUF && s.refs == seq(NBUF, i => multiset{})
    && (forall i :: 0 <= i < NBUF ==> Untouched(s.bufs[i]) && s.bufs[i].holder == 0)
    && s.at == map[] && s.open == {} && s.flat == s.disk
  }

  lemma BootInv(s: State)
    requires Boot(s)
    ensures Inv(s)
  {
    forall i | 0 <= i < NBUF
      ensures BufOk(s, i)
    {
      assert Untouched(s.bufs[i]);
    }
  }

  lemma {:induction false} RunKeepsInv(s: State, acts: seq<Action>)
    requires Inv(s) && Allowed(s, acts)
    ensures Inv(Run(s, acts))
  {
    if acts != [] {
      RunKeepsInv(s, acts[..|acts|-1]);
      StepKeepsInv(Run(s, acts[..|acts|-1]), acts[|acts|-1]);
    }
  }

  /** The value the run last gave to block `k`: the reference for what a read must return. */
  function Latest(s: State, acts: seq<Action>, k: Key): Block {
    if acts == [] then Get(s.disk, k) else
    var before, a := Run(s, acts[..|acts|-1]), acts[|acts|-1];
    if a.Modify? && Has(before, a.i) && before.bufs[a.i].key == k then a.data else Latest(s, acts[..|acts|-1], k)
  }

  lemma {:induction false} FlatIsLatest(s: State, acts: seq<Action>, k: Key)
    requires s.flat == s.disk
    ensures Get(Run(s, acts).flat, k) == Latest(s, acts, k)
  {
    if acts != [] {
      FlatIsLatest(s, acts[..|acts|-1], k);
    }
  }

  /** Transparency: after any interleaved run since boot, two valid buffers never hold the same block,
      and a valid buffer holds what was last written to its block by anyone. */
  lemma ReadsLatest(s: State, acts: seq<Action>, i: int)
    requires Boot(s) && Allowed(s, acts) && Has(Run(s, acts), i) && Run(s, acts).bufs[i].valid
    ensures Run(s, acts).bufs[i].data == Latest(s, acts, Run(s, acts).bufs[i].key)
    ensures forall j ::
              Has(Run(s, acts), j) && Run(s, acts).bufs[j].valid &&
              Run(s, acts).bufs[j].key == Run(s, acts).bufs[i].key ==>
                j == i
  {
    var r := Run(s, acts);
    BootInv(s);
    RunKeepsInv(s, acts);
    FlatIsLatest(s, acts, r.bufs[i].key);
    assert BufOk(r, i);
    forall j | Has(r, j) && r.bufs[j].valid && r.bufs[j].key == r.bufs[i].key
      ensures j == i
    {
      assert BufOk(r, j);
    }
  }

  /** Someone refers to buffer `i`, or it waits for its commit. */
  predicate Needed(s: State, i: int) {
    Has(s, i) && (s.bufs[i].refcnt > 0 || s.bufs[i].dirty)
  }

  /** Buffer `i` is needed at every moment of the run before its end. */
  predicate NeededAlong(s: State, acts: seq<Action>, i: int) {
    acts != [] ==> NeededAlong(s, acts[..|acts|-1], i) && Needed(Run(s, acts[..|acts|-1]), i)
  }

  lemma NeededStep(s: State, a: Action, i: int)
    requires Enabled(s, a) && Needed(s, i)
    ensures Has(Step(s, a), i) && Step(s, a).bufs[i].key == s.bufs[i].key
  {
  }

  /** Over any run in which buffer `i` is needed throughout, it stays with its block. */
  lemma {:induction false} NeededStays(s: State, acts: seq<Action>, i: int)
    requires Has(s, i) && Allowed(s, acts) && NeededAlong(s, acts, i)
    ensures Has(Run(s, acts), i) && Run(s, acts).bufs[i].key == s.bufs[i].key
  {
    if acts != [] {
      NeededStays(s, acts[..|acts|-1], i);
      NeededStep(Run(s, acts[..|acts|-1]), acts[|acts|-1], i);
    }
  }

  /** With no buffer ahead of the disk, the disk alone has every block's latest value. */
  lemma CleanIsFlat(s: State, k: Key)
    requires Inv(s) && forall i :: Has(s, i) ==> !Newer(s, i)
    ensures Get(s.disk, k) == Get(s.flat, k)
  {
    assert KeyOk(s, k);
  }

  // ---------------------------------------------------------------- locks and references, from the actions alone

  /** Who has locked buffer `i` by the last lock or unlock of it, 0 for nobody. */
  function LockedBy(acts: seq<Action>, i: int): (pid: nat) {
    if acts == [] then 0 else
    var a := acts[|acts|-1];
    if a == Unlock(i) then 0
    else if a.Lock? && a.i == i then a.pid
    else LockedBy(acts[..|acts|-1], i)
  }

  /** Who refers to buffer `i` by the requests and releases since it was last taken for a block. */
  function ReferredBy(acts: seq<Action>, i: int): (pids: multiset<nat>) {
    if acts == [] then multiset{} else
    var a, before := acts[|acts|-1], ReferredBy(acts[..|acts|-1], i);
    if a.i != i then before
    else if a.Recycle? then multiset{a.pid}
    else if a.Hit? then before + multiset{a.pid}
    else if a.Drop? then before - multiset{a.pid}
    else before
  }

  /** The block that buffer `i` was last taken for. */
  function TakenFor(acts: seq<Action>, i: int): (k: Key) {
    if acts == [] then Key(0, 0) else
    var a := acts[|acts|-1];
    if a.Recycle? && a.i == i then a.k else TakenFor(acts[..|acts|-1], i)
  }

  /** After any run since boot a buffer is held by whoever locked it last and has not unlocked it, counts those
      who refer to it, and is for the block it was last taken for. */
  lemma {:induction false} RunFollows(s: State, acts: seq<Action>, i: int)
    requires Boot(s) && Allowed(s, acts) && 0 <= i < NBUF
    ensures Has(Run(s, acts), i)
    ensures var b := Run(s, acts).bufs[i];
            && b.holder == LockedBy(acts, i) && b.refcnt == |ReferredBy(acts, i)| && b.key == TakenFor(acts, i)
            && Run(s, acts).refs[i] == ReferredBy(acts, i)
  {
    BootInv(s);
    RunKeepsInv(s, acts);
    assert BufOk(Run(s, acts), i);
    if acts != [] {
      RunFollows(s, acts[..|acts|-1], i);
    }
  }

  /** The lock holder's steps. */
  predicate NeedsLock(a: Action) {
    a.Fill? || a.Modify? || a.LogDirty? || a.WriteOut? || a.Unlock?
  }

  /** Somebody locked buffer `i` at `p`, and nobody unlocked it from there up to `q`. */
  predicate HeldSince(acts: seq<Action>, i: int, p: int, q: int) {
    && 0 <= p < q <= |acts| && acts[p].Lock? && acts[p].i == i
    && forall u :: p < u < q ==> acts[u] != Unlock(i)
  }

  lemma {:induction false} HeldFrom(acts: seq<Action>, i: int) returns (p: int)
    requires LockedBy(acts, i) != 0
    ensures HeldSince(acts, i, p, |acts|)
  {
    var front, a := acts[..|acts|-1], acts[|acts|-1];
    if a.Lock? && a.i == i {
      p := |acts| - 1;
    } else {
      p := HeldFrom(front, i);
      assert forall u :: p < u < |front| ==> front[u] == acts[u];
    }
  }

  lemma {:induction false} FreeAfterUnlock(acts: seq<Action>, i: int, p: int) returns (u: int)
    requires 0 <= p < |acts| && acts[p].Lock? && acts[p].i == i && LockedBy(acts, i) == 0
    requires forall q :: p <= q < |acts| && acts[q].Lock? ==> acts[q].pid != 0
    ensures p < u < |acts| && acts[u] == Unlock(i)
  {
    var front, a := acts[..|acts|-1], acts[|acts|-1];
    if a == Unlock(i) {
      u := |acts| - 1;
    } else {
      u := FreeAfterUnlock(front, i, p);
    }
  }

  lemma AllowedPrefix(s: State, acts: seq<Action>, q: nat)
    requires Allowed(s, acts) && q <= |acts|
    ensures Allowed(s, acts[..q]) && (q < |acts| ==> Enabled(Run(s, acts[..q]), acts[q]))
  {
    if q == |acts| {
      assert acts[..q] == acts;
    } else if q == |acts| - 1 {
    } else {
      AllowedPrefix(s, acts[..|acts|-1], q);
      assert acts[..|acts|-1][..q] == acts[..q];
    }
  }

  /** Mutual exclusion over any run since boot: between two locks of a buffer it is unlocked. */
  lemma OneHolder(s: State, acts: seq<Action>, i: int, p: int, q: int) returns (u: int)
    requires Boot(s) && Allowed(s, acts) && 0 <= p < q < |acts|
    requires acts[p].Lock? && acts[q].Lock? && acts[p].i == acts[q].i == i
    ensures p < u < q && acts[u] == Unlock(i)
  {
    forall k | p <= k < q && acts[k].Lock?
      ensures acts[k].pid != 0
    {
      AllowedPrefix(s, acts, k);
    }
    AllowedPrefix(s, acts, q);
    RunSize(s, acts[..q]);
    RunFollows(s, acts[..q], i);
    u := FreeAfterUnlock(acts[..q], i, p);
  }

  /** Reading in, changing, logging, writing and unlocking a buffer happen only while somebody has locked it. */
  lemma OnlyWhileHeld(s: State, acts: seq<Action>, q: int) returns (p: int)
    requires Boot(s) && Allowed(s, acts) && 0 <= q < |acts| && NeedsLock(acts[q])
    ensures HeldSince(acts, acts[q].i, p, q)
  {
    var i := acts[q].i;
    AllowedPrefix(s, acts, q);
    RunSize(s, acts[..q]);
    RunFollows(s, acts[..q], i);
    p := HeldFrom(acts[..q], i);
    assert forall u :: p < u < q ==> acts[..q][u] == acts[u];
  }

  lemma RunSize(s: State, acts: seq<Action>)
    requires Boot(s) && Allowed(s, acts)
    ensures |Run(s, acts).bufs| == NBUF
  {
    BootInv(s);
    RunKeepsInv(s, acts);
  }

  // ---------------------------------------------------------------- as the log sees it

  /** What is pinned for block `k`: the contents of a dirty buffer. */
  function Pinned(s: State, k: Key): (p: Option<Block>) {
    if k in s.at && Has(s, s.at[k]) && s.bufs[s.at[k]].dirty then Some(s.bufs[s.at[k]].data) else None
  }

  /** When no holder is in the middle of a change, a block is what is pinned for it, or else what is on disk. */
  lemma PinnedOverDisk(s: State, k: Key)
    requires Inv(s) && s.open == {}
    ensures Get(s.flat, k) == if Pinned(s, k).Some? then Pinned(s, k).value else Get(s.disk, k)
  {
    assert KeyOk(s, k);
    if k in s.at {
      assert BufOk(s, s.at[k]);
    }
  }

  /** Logging a block pins it, writing it to disk unpins it, changing it while it is pinned changes what is
      pinned, and no other step matters to what is pinned. */
  lemma PinnedStep(s: State, a: Action, k: Key)
    requires Inv(s) && Enabled(s, a)
    ensures var b := s.bufs[a.i];
            Pinned(Step(s, a), k) ==
              if k != b.key then Pinned(s, k)
              else if a.LogDirty? then Some(b.data)
              else if a.WriteOut? then None
              else if a.Modify? && b.dirty then Some(a.data)
              else Pinned(s, k)
  {
    var b := s.bufs[a.i];
    assert BufOk(s, a.i) && KeyOk(s, b.key) && KeyOk(s, k);
    if a.Recycle? {
      assert KeyOk(s, a.k);
    }
  }
}
