/** The buffer cache as it is kept in memory: buffers on a doubly linked list, most recently used
    first, searched forwards for a block and backwards for a buffer to reuse. */
module BufferList {
  import opened BlockDevice
  import opened BufferRing
  import opened BufferCache

  /** No untouched buffer comes before the one in use for block 0 of device 0. */
  ghost predicate ZeroFirst(s: State, c: seq<int>) {
    forall j, k :: 0 < j < k < |c| - 1 && Used(s, c[k]) && s.bufs[c[k]].key == Key(0, 0) ==> Used(s, c[j])
  }

  /** The step `a` was possible in `s` and led to `r`. */
  ghost predicate Taken(s: State, r: State, a: Action) {
    Enabled(s, a) && r == Step(s, a)
  }

  /** `d` is the list `c` with `b` moved to the front and the rest in the same order. */
  ghost predicate Moved(c: seq<int>, d: seq<int>, b: int) {
    exists k {:trigger Without(c, k)} :: 0 < k < |c| - 1 && c[k] == b && d == AtFront(Without(c, k), b)
  }

  /** The list is a doubly linked permutation of all the buffers. */
  ghost predicate Listed(next: seq<int>, prev: seq<int>, c: seq<int>) {
    Ring(next, prev, c, NBUF) && |c| == NBUF + 2 && Holds(c, NBUF)
  }

  /** Link the buffers one by one at the head. */
  method LinkAll() returns (next: seq<int>, prev: seq<int>, ghost c: seq<int>)
    ensures Listed(next, prev, c)
  {
    next, prev := seq(NBUF + 1, i => NBUF), seq(NBUF + 1, i => NBUF);
    c := [NBUF, NBUF];
    var b := 0;
    while b < NBUF
      invariant 0 <= b <= NBUF && Ring(next, prev, c, NBUF) && |c| == b + 2 && Holds(c, b)
      invariant forall k :: 0 <= k < |c| ==> c[k] < b || c[k] == NBUF
    {
      LinkKeepsRing(next, prev, c, NBUF, b);
      var first := next[NBUF];
      next := next[b := first];
      prev := prev[b := NBUF];
      prev := prev[first := b];
      next := next[NBUF := b];
      LinkKeepsAll(c, b);
      c := AtFront(c, b);
      b := b + 1;
    }
  }

  /** Unlink `b` and link it again right after the head. */
  method ToFront(next: seq<int>, prev: seq<int>, ghost c: seq<int>, ghost k: int, b: int)
    returns (nx: seq<int>, pv: seq<int>)
    requires Listed(next, prev, c) && 0 < k <= NBUF && c[k] == b
    ensures Listed(nx, pv, AtFront(Without(c, k), b)) && nx[NBUF] == b
  {
    UnlinkKeepsRing(next, prev, c, NBUF, k);
    MoveKeepsAll(c, NBUF, NBUF, k);
    pv := prev[next[b] := prev[b]];
    nx := next[prev[b] := next[b]];
    LinkKeepsRing(nx, pv, Without(c, k), NBUF, b);
    nx := nx[b := nx[NBUF]];
    pv := pv[b := NBUF];
    pv := pv[nx[NBUF] := b];
    nx := nx[NBUF := b];
  }

  class Cache {
    var next: seq<int>
    var prev: seq<int>
    var bufs: seq<Buf>
    var disk: Store
    /** The list from the head around to the head. */
    ghost var c: seq<int>
    ghost var at: map<Key, int>
    ghost var open: set<int>
    ghost var refs: seq<multiset<nat>>
    ghost var flat: Store

    ghost function S(): State
      reads this
    {
      State(bufs, disk, at, open, refs, flat)
    }

    ghost predicate Valid()
      reads this
    {
      Inv(S()) && Listed(next, prev, c) && ZeroFirst(S(), c)
    }

    /** The ghost part of the state moves along with a step. */
    ghost method Follow(r: State)
      modifies `at, `open, `refs, `flat
      ensures at == r.at && open == r.open && refs == r.refs && flat == r.flat
    {
      at, open, refs, flat := r.at, r.open, r.refs, r.flat;
    }

    /** The buffers all zeroed, on the list. */
    constructor (disk: Store)
      ensures Valid() && Boot(S()) && this.disk == disk
    {
      var nx, pv, l := LinkAll();
      next, prev, c, this.disk, flat := nx, pv, l, disk, disk;
      bufs := seq(NBUF, i => Buf(Key(0, 0), false, false, 0, 0, Block([], [], [], [])));
      at, open, refs := map[], {}, seq(NBUF, i => multiset{});
      new;
      BootInv(S());
    }

    /** The first buffer on the list for block `k`, or the head. */
    method Find(k: Key, ghost pid: nat) returns (b: int)
      requires Valid()
      ensures 0 <= b <= NBUF
      ensures b == NBUF ==> forall i :: 0 <= i < NBUF ==> bufs[i].key != k
      ensures b < NBUF ==> bufs[b].key == k && Enabled(S(), Hit(b, pid)) && ZeroFirst(Step(S(), Hit(b, pid)), c)
    {
      ghost var p := 1;
      b := next[NBUF];
      assert Links(next, prev, c, 0);
      while b != NBUF
        invariant 0 < p < |c| && b == c[p]
        invariant forall j :: 0 < j < p ==> bufs[c[j]].key != k
        decreases |c| - p
      {
        if bufs[b].key == k {
          FirstIsRight(S(), next, prev, c, p);
          HitKeepsZeroFirst(S(), next, prev, c, p, pid);
          return;
        }
        assert Links(next, prev, c, p);
        b := next[b];
        p := p + 1;
      }
      forall i | 0 <= i < NBUF
        ensures bufs[i].key != k
      {
        assert i in c;
      }
    }

    /** The least recently used buffer that nobody needs, or the head. */
    method Victim() returns (b: int)
      requires Valid()
      ensures 0 <= b <= NBUF
      ensures b == NBUF <==> forall i :: 0 <= i < NBUF ==> Needed(S(), i)
      ensures b < NBUF ==> !Needed(S(), b)
      ensures b < NBUF ==> exists p :: 0 < p <= NBUF && c[p] == b && forall j :: p < j <= NBUF ==> Needed(S(), c[j])
    {
      ghost var p := NBUF;
      b := prev[NBUF];
      assert Links(next, prev, c, NBUF);
      while b != NBUF
        invariant 0 <= p <= NBUF && b == c[p]
        invariant forall j :: p < j <= NBUF ==> Needed(S(), c[j])
        decreases p
      {
        if bufs[b].refcnt == 0 && !bufs[b].dirty {
          assert !Needed(S(), b);
          return;
        }
        assert Links(next, prev, c, p - 1);
        b := prev[b];
        p := p - 1;
      }
      forall i | 0 <= i < NBUF
        ensures Needed(S(), i)
      {
        assert i in c;
      }
    }

    /** A buffer for block `k`, referred to by `pid` and not yet locked; the head stands for the panic,
        which happens exactly when the block is not cached and every buffer is needed. */
    method BufferGet(k: Key, pid: nat) returns (b: int)
      requires Valid()
      modifies `bufs, `at, `open, `refs, `flat
      ensures Valid()
      ensures b == NBUF <==>
                old((forall i :: 0 <= i < NBUF ==> bufs[i].key != k) && (forall i :: 0 <= i < NBUF ==> Needed(S(), i)))
      ensures b == NBUF ==> S() == old(S())
      ensures b != NBUF ==> 0 <= b < NBUF && bufs[b].key == k && pid in refs[b]
      ensures b != NBUF ==> bufs[b].refcnt == if old(bufs)[b].key == k then old(bufs)[b].refcnt + 1 else 1
      ensures b != NBUF ==> Taken(old(S()), S(), Hit(b, pid)) || Taken(old(S()), S(), Recycle(b, k, pid))
    {
      b := Find(k, pid);
      if b != NBUF {
        StepKeepsInv(S(), Hit(b, pid));
        ghost var r := Step(S(), Hit(b, pid));
        bufs := bufs[b := bufs[b].(refcnt := bufs[b].refcnt + 1)];
        Follow(r);
        return;
      }
      b := Victim();
      if b != NBUF {
        NotCached(S(), k);
        StepKeepsInv(S(), Recycle(b, k, pid));
        RecycleKeepsZeroFirst(S(), next, prev, c, b, k, pid);
        ghost var r := Step(S(), Recycle(b, k, pid));
        bufs := bufs[b := bufs[b].(key := k, valid := false, dirty := false, refcnt := 1)];
        Follow(r);
      }
    }

    /** One turn of waiting for the buffer's sleep lock: `true` if it was free, `false` to sleep again. */
    method AcquireSleep(b: int, pid: nat) returns (ok: bool)
      requires Valid() && 0 <= b < NBUF && pid != 0 && pid in refs[b]
      modifies `bufs
      ensures ok <==> old(bufs)[b].holder == 0
      ensures Valid() && S() == if ok then old(Step(S(), Lock(b, pid))) else old(S())
      ensures ok ==> old(Enabled(S(), Lock(b, pid))) && bufs[b].holder == pid
    {
      ok := bufs[b].holder == 0;
      if !ok {
        return;
      }
      StepKeepsInv(S(), Lock(b, pid));
      SameUse(S(), Step(S(), Lock(b, pid)), c);
      bufs := bufs[b := bufs[b].(holder := pid)];
    }

    /** The end of a read: the holder gets the block's latest value. */
    method ReadIn(b: int)
      requires Valid() && Enabled(S(), Fill(b))
      modifies `bufs
      ensures Valid() && S() == old(Step(S(), Fill(b)))
      ensures bufs[b].valid && bufs[b].data == Get(flat, bufs[b].key)
    {
      StepKeepsInv(S(), Fill(b));
      SameUse(S(), Step(S(), Fill(b)), c);
      if !bufs[b].valid {
        bufs := bufs[b := bufs[b].(valid := true, data := Get(disk, bufs[b].key))];
      }
      assert BufOk(S(), b);
    }

    /** The holder changes the buffer's data. */
    method Change(b: int, data: Block)
      requires Valid() && Enabled(S(), Modify(b, data))
      modifies `bufs, `at, `open, `refs, `flat
      ensures Valid() && S() == old(Step(S(), Modify(b, data)))
      ensures bufs[b] == old(bufs)[b].(data := data)
    {
      ghost var r := Step(S(), Modify(b, data));
      StepKeepsInv(S(), Modify(b, data));
      SameUse(S(), r, c);
      bufs := bufs[b := bufs[b].(data := data)];
      Follow(r);
    }

    /** What the log does to a buffer to keep it in memory until the commit. */
    method Pin(b: int)
      requires Valid() && Enabled(S(), LogDirty(b))
      modifies `bufs, `at, `open, `refs, `flat
      ensures Valid() && S() == old(Step(S(), LogDirty(b)))
      ensures bufs[b] == old(bufs)[b].(dirty := true)
    {
      ghost var r := Step(S(), LogDirty(b));
      StepKeepsInv(S(), LogDirty(b));
      SameUse(S(), r, c);
      bufs := bufs[b := bufs[b].(dirty := true)];
      Follow(r);
    }

    /** Process `pid` writes the buffer to the disk; `false` is the panic, when it does not hold the lock. */
    method BufferWrite(b: int, pid: nat) returns (ok: bool)
      requires Valid() && 0 <= b < NBUF && pid != 0 && bufs[b].valid
      modifies `bufs, `disk, `at, `open, `refs, `flat
      ensures ok <==> old(bufs)[b].holder == pid
      ensures Valid() && S() == if ok then old(Step(S(), WriteOut(b))) else old(S())
      ensures ok ==> Get(disk, bufs[b].key) == bufs[b].data == old(bufs)[b].data && !bufs[b].dirty
    {
      ok := bufs[b].holder == pid;
      if !ok {
        return;
      }
      ghost var r := Step(S(), WriteOut(b));
      StepKeepsInv(S(), WriteOut(b));
      SameUse(S(), r, c);
      disk := disk[bufs[b].key := bufs[b].data];
      bufs := bufs[b := bufs[b].(dirty := false)];
      Follow(r);
    }

    /** The first half of a release by `pid`; `false` is the panic, when it does not hold the lock. */
    method ReleaseSleep(b: int, pid: nat) returns (ok: bool)
      requires Valid() && 0 <= b < NBUF && pid != 0 && b !in open
      modifies `bufs
      ensures ok <==> old(bufs)[b].holder == pid
      ensures Valid() && S() == if ok then old(Step(S(), Unlock(b))) else old(S())
      ensures ok ==> bufs[b].holder == 0
    {
      ok := bufs[b].holder == pid;
      if !ok {
        return;
      }
      StepKeepsInv(S(), Unlock(b));
      SameUse(S(), Step(S(), Unlock(b)), c);
      bufs := bufs[b := bufs[b].(holder := 0)];
    }

    method DropReference(b: int, pid: nat)
      requires Valid() && Enabled(S(), Drop(b, pid))
      modifies `bufs, `at, `open, `refs, `flat
      ensures Valid() && Taken(old(S()), S(), Drop(b, pid)) && Used(S(), b)
      ensures bufs[b].refcnt == old(bufs)[b].refcnt - 1
    {
      ghost var r := Step(S(), Drop(b, pid));
      StepKeepsInv(S(), Drop(b, pid));
      SameUse(S(), r, c);
      UsedIfNeeded(S(), b, pid);
      bufs := bufs[b := bufs[b].(refcnt := bufs[b].refcnt - 1)];
      Follow(r);
    }

    /** The second half: one reference less, and to the front of the list with the last one. */
    method BufferRelease(b: int, pid: nat)
      requires Valid() && Enabled(S(), Drop(b, pid))
      modifies `bufs, `next, `prev, `c, `at, `open, `refs, `flat
      ensures Valid() && Taken(old(S()), S(), Drop(b, pid)) && Used(S(), b)
      ensures bufs[b].refcnt == old(bufs)[b].refcnt - 1
      ensures bufs[b].refcnt > 0 ==> c == old(c)
      ensures bufs[b].refcnt == 0 ==> next[NBUF] == b && Moved(old(c), c, b)
    {
      DropReference(b, pid);
      if bufs[b].refcnt == 0 {
        MoveToFront(b);
      }
    }

    method MoveToFront(b: int)
      requires Valid() && Used(S(), b)
      modifies `next, `prev, `c
      ensures Valid() && next[NBUF] == b
      ensures Moved(old(c), c, b)
    {
      ghost var k := Position(next, prev, c, b);
      FrontKeepsZeroFirst(S(), c, k);
      next, prev := ToFront(next, prev, c, k, b);
      c := AtFront(Without(c, k), b);
    }
  }

  lemma Position(next: seq<int>, prev: seq<int>, c: seq<int>, b: int) returns (k: int)
    requires Listed(next, prev, c) && 0 <= b < NBUF
    ensures 0 < k <= NBUF && c[k] == b
  {
    assert b in c;
    k :| 0 <= k < |c| && c[k] == b;
  }

  lemma NotCached(s: State, k: Key)
    requires Inv(s) && forall i :: 0 <= i < NBUF ==> s.bufs[i].key != k
    ensures k !in s.at
  {
    assert KeyOk(s, k);
  }

  /** A step that leaves keys and their places alone keeps the order. */
  lemma SameUse(s: State, r: State, c: seq<int>)
    requires ZeroFirst(s, c) && r.at == s.at && |r.bufs| == |s.bufs| && |r.refs| == |s.refs|
    requires forall i :: 0 <= i < |s.bufs| ==> r.bufs[i].key == s.bufs[i].key
    ensures ZeroFirst(r, c)
  {
    assert forall i :: Used(r, i) <==> Used(s, i);
  }

  lemma UsedIfNeeded(s: State, b: int, pid: nat)
    requires Inv(s) && Enabled(s, Drop(b, pid))
    ensures s.bufs[b].refcnt >= 1 && Used(Step(s, Drop(b, pid)), b)
  {
    assert BufOk(s, b);
  }

  lemma RecycleKeepsZeroFirst(s: State, next: seq<int>, prev: seq<int>, c: seq<int>, b: int, k: Key, pid: nat)
    requires Inv(s) && Listed(next, prev, c) && ZeroFirst(s, c) && Has(s, b) && k !in s.at
    requires forall i :: 0 <= i < NBUF ==> s.bufs[i].key != k
    ensures ZeroFirst(Step(s, Recycle(b, k, pid)), c)
  {
    var r := Step(s, Recycle(b, k, pid));
    forall i | Has(s, i)
      ensures Used(r, i) <==> Used(s, i) || i == b
    {
      assert BufOk(s, i) && BufOk(s, b);
    }
    forall j, l | 0 < j < l < |c| - 1 && Used(r, c[l]) && r.bufs[c[l]].key == Key(0, 0)
      ensures Used(r, c[j])
    {
      assert BufOk(s, c[j]);
    }
  }

  lemma FrontKeepsZeroFirst(s: State, c: seq<int>, k: int)
    requires ZeroFirst(s, c) && 0 < k < |c| - 1 && Used(s, c[k])
    ensures ZeroFirst(s, AtFront(Without(c, k), c[k]))
  {
    var d := AtFront(Without(c, k), c[k]);
    forall i, j | 0 < i < j < |d| - 1 && Used(s, d[j]) && s.bufs[d[j]].key == Key(0, 0)
      ensures Used(s, d[i])
    {
      if i > 1 {
        var i', j' := if i <= k then i - 1 else i, if j <= k then j - 1 else j;
        assert d[i] == c[i'] && d[j] == c[j'];
      }
    }
  }

  /** If the buffer at `p` is the first for its block and not in use for it, no buffer is. */
  lemma FirstIsRight(s: State, next: seq<int>, prev: seq<int>, c: seq<int>, p: int)
    requires Inv(s) && Listed(next, prev, c) && ZeroFirst(s, c) && 0 < p <= NBUF
    requires forall j :: 0 < j < p ==> s.bufs[c[j]].key != s.bufs[c[p]].key
    ensures Used(s, c[p]) || s.bufs[c[p]].key !in s.at
  {
    var key := s.bufs[c[p]].key;
    assert BufOk(s, c[p]);
    if key in s.at {
      assert KeyOk(s, key);
      var q := s.at[key];
      assert q in c;
      var k :| 0 <= k < |c| && c[k] == q;
      assert Used(s, c[k]) && p <= k;
    }
  }

  lemma HitKeepsZeroFirst(s: State, next: seq<int>, prev: seq<int>, c: seq<int>, p: int, pid: nat)
    requires Inv(s) && Listed(next, prev, c) && ZeroFirst(s, c) && 0 < p <= NBUF &&
             (Used(s, c[p]) || s.bufs[c[p]].key !in s.at)
    requires forall j :: 0 < j < p ==> s.bufs[c[j]].key != s.bufs[c[p]].key
    ensures ZeroFirst(Step(s, Hit(c[p], pid)), c)
  {
    var r := Step(s, Hit(c[p], pid));
    forall i | Has(s, i)
      ensures Used(r, i) <==> Used(s, i) || i == c[p]
    {
      assert BufOk(s, i) && BufOk(s, c[p]);
    }
    forall j, k | 0 < j < k < |c| - 1 && Used(r, c[k]) && r.bufs[c[k]].key == Key(0, 0)
      ensures Used(r, c[j])
    {
      assert BufOk(s, c[j]);
    }
  }
}
