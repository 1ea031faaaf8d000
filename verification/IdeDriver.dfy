/** The disk driver's request queue and the one command the drive works on, against the driver for a
    disk in memory, which copies at once. Callers submit, the drive interrupts, and a caller uses its
    own buffer while it is not queued, in any order. */
module IdeDriver {
  import opened Common
  import opened BlockDevice

  /** A block of one of the two drives. */
  datatype Place = Place(drive: nat, blockno: nat)

  datatype Buf = Buf(dev: nat, blockno: nat, valid: bool, dirty: bool, data: Block)

  /** A command the drive has been given; a write takes its data along. */
  datatype Command = ReadBlock(at: Place) | WriteBlock(at: Place, data: Block)

  type Store = map<Place, Block>

  function Get(disk: Store, p: Place): Block {
    if p in disk then disk[p] else Block([], [], [], [])
  }

  function PlaceOf(b: Buf): Place {
    Place(b.dev % 2, b.blockno)
  }

  // ---------------------------------------------------------------- the synchronous driver

  /** The disk after `iderw`. */
  function SyncDisk(disk: Store, b: Buf): Store {
    if b.dirty then disk[PlaceOf(b) := b.data] else disk
  }

  /** The buffer after `iderw`. */
  function SyncBuf(disk: Store, b: Buf): Buf {
    if b.dirty then b.(valid := true, dirty := false) else b.(valid := true, data := Get(disk, PlaceOf(b)))
  }

  /** The disk after `iderw` on each buffer in turn. */
  function SyncAll(disk: Store, bs: seq<Buf>): Store {
    if bs == [] then disk else SyncDisk(SyncAll(disk, bs[..|bs|-1]), bs[|bs|-1])
  }

  /** `iderw` has something to do. */
  predicate Pending(b: Buf) {
    !b.valid || b.dirty
  }

  // ---------------------------------------------------------------- the queue

  datatype State = State(bufs: map<int, Buf>, queue: seq<int>, drive: Option<Command>, disk: Store)

  datatype Action = Submit(b: int) | Interrupt | Use(b: int, buf: Buf)

  function CommandFor(b: Buf): Command {
    if b.dirty then WriteBlock(PlaceOf(b), b.data) else ReadBlock(PlaceOf(b))
  }

  /** What the drive has done to the disk when it interrupts. */
  function Execute(disk: Store, c: Command): Store {
    if c.WriteBlock? then disk[c.at := c.data] else disk
  }

  /** A caller submits its own buffer, once, when there is something to do; while the buffer is queued
      its owner sleeps and nobody else may touch it. */
  predicate Enabled(s: State, a: Action) {
    match a
    case Submit(b) => b in s.bufs && b !in s.queue && Pending(s.bufs[b]) && s.bufs[b].blockno < FSSIZE
    case Interrupt => true
    case Use(b, buf) => b !in s.queue
  }

  function Start(s: State): (r: State) {
    if s.queue == [] || s.queue[0] !in s.bufs then s.(drive := None)
      else s.(drive := Some(CommandFor(s.bufs[s.queue[0]])))
  }

  function Step(s: State, a: Action): (r: State) {
    match a
    case Submit(b) =>
      var r := s.(queue := s.queue + [b]);
      if s.queue == [] then Start(r) else r
    case Interrupt =>
      if s.queue == [] || s.queue[0] !in s.bufs || s.drive.None? then s else
      var b := s.bufs[s.queue[0]];
      var disk := Execute(s.disk, s.drive.value);
      var done := if b.dirty then b else b.(data := Get(disk, s.drive.value.at));
      Start(State(s.bufs[s.queue[0] := done.(valid := true, dirty := false)], s.queue[1..], None, disk))
    case Use(b, buf) => s.(bufs := s.bufs[b := buf])
  }

  function Run(s: State, acts: seq<Action>): (r: State) {
    if acts == [] then s else Step(Run(s, acts[..|acts|-1]), acts[|acts|-1])
  }

  predicate Allowed(s: State, acts: seq<Action>) {
    acts != [] ==> Allowed(s, acts[..|acts|-1]) && Enabled(Run(s, acts[..|acts|-1]), acts[|acts|-1])
  }

  datatype Request = Request(id: int, buf: Buf)

  /** Every request of the run, in the order submitted, with its buffer as it was then. */
  function Requests(s: State, acts: seq<Action>): (rs: seq<Request>) {
    if acts == [] then [] else
    var before, a := Run(s, acts[..|acts|-1]), acts[|acts|-1];
    var rs := Requests(s, acts[..|acts|-1]);
    if a.Submit? && a.b in before.bufs then rs + [Request(a.b, before.bufs[a.b])] else rs
  }

  function Bufs(rs: seq<Request>): (bs: seq<Buf>)
    ensures |bs| == |rs|
    ensures forall i :: 0 <= i < |rs| ==> bs[i] == rs[i].buf
  {
    if rs == [] then [] else Bufs(rs[..|rs|-1]) + [rs[|rs|-1].buf]
  }

  /** With `rs` submitted since the disk was `disk0`: the requests not yet done are queued in order with
      their buffers untouched, the drive works on the first of them and on nothing else, and the disk is
      what the synchronous driver would have made of the others, in order. */
  ghost predicate Serving(disk0: Store, rs: seq<Request>, s: State) {
    && |s.queue| <= |rs|
    && (forall i :: 0 <= i < |s.queue| ==> Waiting(s, rs, i))
    && (forall i, j :: 0 <= i < j < |s.queue| ==> s.queue[i] != s.queue[j])
    && s.drive == (if s.queue == [] then None else Some(CommandFor(rs[|rs|-|s.queue|].buf)))
    && s.disk == SyncAll(disk0, Bufs(rs[..|rs|-|s.queue|]))
  }

  ghost predicate Waiting(s: State, rs: seq<Request>, i: int) {
    && 0 <= i < |s.queue| <= |rs| && s.queue[i] == rs[|rs|-|s.queue|+i].id
    && s.queue[i] in s.bufs && s.bufs[s.queue[i]] == rs[|rs|-|s.queue|+i].buf && Pending(rs[|rs|-|s.queue|+i].buf)
    && rs[|rs|-|s.queue|+i].buf.blockno < FSSIZE
  }

  lemma SubmitServes(disk0: Store, rs: seq<Request>, s: State, b: int)
    requires Serving(disk0, rs, s) && Enabled(s, Submit(b))
    ensures Serving(disk0, rs + [Request(b, s.bufs[b])], Step(s, Submit(b)))
  {
    var r, rs' := Step(s, Submit(b)), rs + [Request(b, s.bufs[b])];
    forall i | 0 <= i < |r.queue|
      ensures Waiting(r, rs', i)
    {
      if i < |s.queue| {
        assert Waiting(s, rs, i);
      }
    }
    assert rs'[..|rs'|-|r.queue|] == rs[..|rs|-|s.queue|];
  }

  /** The interrupt completes the oldest request exactly as the synchronous driver would. */
  lemma InterruptIsSync(disk0: Store, rs: seq<Request>, s: State)
    requires Serving(disk0, rs, s) && s.queue != []
    ensures var r, b := Step(s, Interrupt), s.queue[0];
            && b in s.bufs && r.queue == s.queue[1..] && r.disk == SyncDisk(s.disk, s.bufs[b])
            && r.bufs == s.bufs[b := SyncBuf(s.disk, s.bufs[b])] && !Pending(r.bufs[b])
  {
    assert Waiting(s, rs, 0);
  }

  lemma SyncNext(disk0: Store, rs: seq<Request>, n: nat)
    requires n < |rs|
    ensures SyncAll(disk0, Bufs(rs[..n+1])) == SyncDisk(SyncAll(disk0, Bufs(rs[..n])), rs[n].buf)
  {
    assert rs[..n+1][..n] == rs[..n];
    assert Bufs(rs[..n+1]) == Bufs(rs[..n]) + [rs[n].buf];
  }

  lemma StillWaiting(disk0: Store, rs: seq<Request>, s: State, i: int)
    requires Serving(disk0, rs, s) && 0 <= i < |s.queue| - 1
    ensures Waiting(Step(s, Interrupt), rs, i)
  {
    InterruptIsSync(disk0, rs, s);
    assert Waiting(s, rs, i + 1);
  }

  lemma NextStarts(disk0: Store, rs: seq<Request>, s: State)
    requires Serving(disk0, rs, s) && s.queue != []
    ensures var r := Step(s, Interrupt); r.drive == if |s.queue| == 1 then None
              else Some(CommandFor(rs[|rs|-|s.queue|+1].buf))
  {
    assert Waiting(s, rs, 0);
    if |s.queue| > 1 {
      assert Waiting(s, rs, 1);
      StillWaiting(disk0, rs, s, 0);
    }
  }

  lemma InterruptServes(disk0: Store, rs: seq<Request>, s: State)
    requires Serving(disk0, rs, s)
    ensures Serving(disk0, rs, Step(s, Interrupt))
  {
    if s.queue != [] {
      var r := Step(s, Interrupt);
      HeadServed(disk0, rs, s);
      forall i | 0 <= i < |r.queue|
        ensures Waiting(r, rs, i)
      {
        StillWaiting(disk0, rs, s, i);
      }
      NextStarts(disk0, rs, s);
    }
  }

  lemma HeadServed(disk0: Store, rs: seq<Request>, s: State)
    requires Serving(disk0, rs, s) && s.queue != []
    ensures var r := Step(s, Interrupt);
            r.queue == s.queue[1..] && r.disk == SyncAll(disk0, Bufs(rs[..|rs|-|r.queue|]))
  {
    InterruptIsSync(disk0, rs, s);
    assert Waiting(s, rs, 0);
    SyncNext(disk0, rs, |rs| - |s.queue|);
  }

  lemma UseServes(disk0: Store, rs: seq<Request>, s: State, b: int, buf: Buf)
    requires Serving(disk0, rs, s) && Enabled(s, Use(b, buf))
    ensures Serving(disk0, rs, Step(s, Use(b, buf)))
  {
    var r := Step(s, Use(b, buf));
    forall i | 0 <= i < |r.queue|
      ensures Waiting(r, rs, i)
    {
      assert Waiting(s, rs, i);
    }
  }

  /** Over any interleaving the queue refines the synchronous driver: requests are served in the order
      submitted, one at a time, each as if alone. */
  lemma {:induction false} QueueRefinesSync(s: State, acts: seq<Action>)
    requires s.queue == [] && s.drive == None && Allowed(s, acts)
    ensures Serving(s.disk, Requests(s, acts), Run(s, acts))
  {
    if acts != [] {
      var front, a := acts[..|acts|-1], acts[|acts|-1];
      QueueRefinesSync(s, front);
      match a
      case Submit(b) => SubmitServes(s.disk, Requests(s, front), Run(s, front), b);
      case Interrupt => InterruptServes(s.disk, Requests(s, front), Run(s, front));
      case Use(b, buf) => UseServes(s.disk, Requests(s, front), Run(s, front), b, buf);
    }
  }

  // ---------------------------------------------------------------- what is read

  /** Two requests are for the same block of the same drive. */
  predicate SameBlock(a: Buf, b: Buf) {
    a.dev % 2 == b.dev % 2 && a.blockno == b.blockno
  }

  /** A write is read back from its block, and changes no other block. */
  lemma ReadBack(disk: Store, a: Buf, b: Buf)
    requires a.dirty && !b.dirty
    ensures SyncBuf(SyncDisk(disk, a), b).data == if SameBlock(a, b) then a.data else SyncBuf(disk, b).data
  {
  }

  /** What the last of the writes to the block of `b` put there, if there was one. */
  function LastWrite(bs: seq<Buf>, b: Buf): (data: Option<Block>) {
    if bs == [] then None
    else if bs[|bs|-1].dirty && SameBlock(bs[|bs|-1], b) then Some(bs[|bs|-1].data)
    else LastWrite(bs[..|bs|-1], b)
  }

  lemma {:induction false} ReadsLastWrite(disk: Store, bs: seq<Buf>, b: Buf)
    requires !b.dirty
    ensures SyncBuf(SyncAll(disk, bs), b).data ==
            match LastWrite(bs, b)
            case Some(data) => data
            case None => Get(disk, Place(b.dev % 2, b.blockno))
  {
    if bs != [] {
      ReadsLastWrite(disk, bs[..|bs|-1], b);
      if bs[|bs|-1].dirty {
        ReadBack(SyncAll(disk, bs[..|bs|-1]), bs[|bs|-1], b);
      }
    }
  }

  /** The requests of a run that have been completed, in order. */
  function Completed(s: State, acts: seq<Action>): (bs: seq<Buf>) {
    AllBut(Requests(s, acts), |Run(s, acts).queue|)
  }

  /** The buffers of all but the last `n` requests. */
  function AllBut(rs: seq<Request>, n: nat): (bs: seq<Buf>) {
    Bufs(if n <= |rs| then rs[..|rs|-n] else [])
  }

  /** Over any run: when a read completes, its buffer has what the last completed write to that block of that
      drive put there, or else what the disk had at the start; when a write completes, its buffer keeps its data.
      Either way it is valid and clean, and still for its block, and no other buffer changes. */
  lemma CompletesRight(s: State, acts: seq<Action>)
    requires s.queue == [] && s.drive == None && Allowed(s, acts) && Run(s, acts).queue != []
    ensures var r, r' := Run(s, acts), Step(Run(s, acts), Interrupt);
            var q := r.queue[0];
            && q in r.bufs && q in r'.bufs && r'.bufs == r.bufs[q := r'.bufs[q]]
            && r'.bufs[q].valid && !r'.bufs[q].dirty
            && r'.bufs[q].dev == r.bufs[q].dev && r'.bufs[q].blockno == r.bufs[q].blockno
            && r'.bufs[q].data ==
                 if r.bufs[q].dirty then r.bufs[q].data
                 else match LastWrite(Completed(s, acts), r.bufs[q])
                      case Some(data) => data
                      case None => Get(s.disk, Place(r.bufs[q].dev % 2, r.bufs[q].blockno))
  {
    var r, rs := Run(s, acts), Requests(s, acts);
    QueueRefinesSync(s, acts);
    InterruptIsSync(s.disk, rs, r);
    assert Waiting(r, rs, 0);
    var b := r.bufs[r.queue[0]];
    if !b.dirty {
      ReadsLastWrite(s.disk, Completed(s, acts), b);
    }
  }

  lemma OneMore(s: State, acts: seq<Action>, a: Action)
    ensures Run(s, acts + [a]) == Step(Run(s, acts), a)
    ensures Requests(s, acts + [a]) ==
            if a.Submit? && a.b in Run(s, acts).bufs then Requests(s, acts) + [Request(a.b, Run(s, acts).bufs[a.b])]
            else Requests(s, acts)
  {
    assert (acts + [a])[..|acts|] == acts;
  }

  lemma BufsMore(rs: seq<Request>, n: nat)
    requires n < |rs|
    ensures Bufs(rs[..n+1]) == Bufs(rs[..n]) + [rs[n].buf]
  {
  }

  /** An interrupt adds the oldest request to those completed. */
  lemma InterruptCompletes(s: State, acts: seq<Action>)
    requires s.queue == [] && s.drive == None && Allowed(s, acts) && Run(s, acts).queue != []
    ensures var r := Run(s, acts);
            r.queue[0] in r.bufs && Completed(s, acts + [Interrupt]) == Completed(s, acts) + [r.bufs[r.queue[0]]]
  {
    var r, rs := Run(s, acts), Requests(s, acts);
    QueueRefinesSync(s, acts);
    OneMore(s, acts, Interrupt);
    OldestDone(s.disk, rs, r);
  }

  lemma OldestDone(disk0: Store, rs: seq<Request>, s: State)
    requires Serving(disk0, rs, s) && s.queue != []
    ensures s.queue[0] in s.bufs
    ensures AllBut(rs, |Step(s, Interrupt).queue|) == AllBut(rs, |s.queue|) + [s.bufs[s.queue[0]]]
  {
    InterruptIsSync(disk0, rs, s);
    assert Waiting(s, rs, 0);
    BufsMore(rs, |rs| - |s.queue|);
  }

  /** Nothing else does. */
  lemma OthersComplete(s: State, acts: seq<Action>, a: Action)
    requires s.queue == [] && s.drive == None && Allowed(s, acts) && Enabled(Run(s, acts), a)
    requires a.Interrupt? ==> Run(s, acts).queue == []
    ensures Completed(s, acts + [a]) == Completed(s, acts)
  {
    var r, rs := Run(s, acts), Requests(s, acts);
    QueueRefinesSync(s, acts);
    OneMore(s, acts, a);
    QueueNext(r, a);
    if a.Submit? {
      SameButOne(rs, Request(a.b, r.bufs[a.b]), |r.queue|);
    }
  }

  lemma SameButOne(rs: seq<Request>, q: Request, n: nat)
    requires n <= |rs|
    ensures AllBut(rs + [q], n + 1) == AllBut(rs, n)
  {
    assert (rs + [q])[..|rs| - n] == rs[..|rs| - n];
  }

  lemma QueueNext(s: State, a: Action)
    requires Enabled(s, a) && (a.Interrupt? ==> s.queue == [])
    ensures |Step(s, a).queue| == |s.queue| + if a.Submit? then 1 else 0
  {
  }

  /** What a buffer was last given is in it until it is submitted, so that is what its next request is for. */
  lemma {:induction false} GivenUntilSubmitted(s: State, acts: seq<Action>, p: int, b: int, buf: Buf)
    requires Allowed(s, acts) && 0 <= p < |acts| && acts[p] == Use(b, buf)
    requires forall u :: p < u < |acts| ==> acts[u] != Submit(b) && !(acts[u].Use? && acts[u].b == b)
    ensures b in Run(s, acts).bufs && Run(s, acts).bufs[b] == buf && b !in Run(s, acts).queue
    ensures Requests(s, acts + [Submit(b)]) == Requests(s, acts) + [Request(b, buf)]
  {
    if p < |acts| - 1 {
      var front, a := acts[..|acts|-1], acts[|acts|-1];
      GivenUntilSubmitted(s, front, p, b, buf);
      Untouched(Run(s, front), a, b);
    }
    OneMore(s, acts, Submit(b));
  }

  lemma Untouched(s: State, a: Action, b: int)
    requires b in s.bufs && b !in s.queue && a != Submit(b) && !(a.Use? && a.b == b)
    ensures b in Step(s, a).bufs && Step(s, a).bufs[b] == s.bufs[b] && b !in Step(s, a).queue
  {
  }

  // ---------------------------------------------------------------- the linked queue

  /** The queue hangs off `head` through `qnext`; 0 ends it. */
  ghost predicate Chained(head: int, qnext: map<int, int>, q: seq<int>) {
    && head == Entry(q, 0)
    && (forall i :: 0 <= i < |q| ==> q[i] != 0 && q[i] in qnext && qnext[q[i]] == Entry(q, i + 1))
    && (forall i, j :: 0 <= i < j < |q| ==> q[i] != q[j])
  }

  ghost function Entry(q: seq<int>, i: int): int {
    if 0 <= i < |q| then q[i] else 0
  }

  datatype Outcome = Queued | NothingToDo | NoDisk

  class Driver {
    var bufs: map<int, Buf>
    var idequeue: int
    var qnext: map<int, int>
    var drive: Option<Command>
    var disk: Store
    ghost var queue: seq<int>

    ghost function S(): State
      reads this
    {
      State(bufs, queue, drive, disk)
    }

    ghost predicate Valid()
      reads this
    {
      && Chained(idequeue, qnext, queue)
      && (forall i :: 0 <= i < |queue| ==> queue[i] in bufs && bufs[queue[i]].blockno < FSSIZE)
      && (queue == [] <==> drive == None)
    }

    /** No request is waiting and the drive is idle. */
    constructor (bufs: map<int, Buf>, disk: Store)
      ensures Valid() && S() == State(bufs, [], None, disk)
    {
      this.bufs, this.disk := bufs, disk;
      idequeue, qnext, drive, queue := 0, map[], None, [];
    }

    /** Hand the request to the drive; a block beyond the end of the disk would make it panic. */
    method IdeStart(b: int)
      requires b in bufs && bufs[b].blockno < FSSIZE
      modifies `drive
      ensures drive == Some(CommandFor(bufs[b]))
    {
      if bufs[b].dirty {
        drive := Some(WriteBlock(PlaceOf(bufs[b]), bufs[b].data));
      } else {
        drive := Some(ReadBlock(PlaceOf(bufs[b])));
      }
    }

    /** Put `b` at the end of the queue: walk to the link that is 0 and set it. */
    method Append(b: int)
      requires Chained(idequeue, qnext, queue) && b != 0 && b !in queue
      modifies `idequeue, `qnext, `queue
      ensures queue == old(queue) + [b] && Chained(idequeue, qnext, queue)
    {
      qnext := qnext[b := 0];
      // The link under inspection is the queue's head for 0, and that of buffer `pp` otherwise.
      var pp, link := 0, idequeue;
      ghost var k := 0;
      while link != 0
        invariant 0 <= k <= |queue| && link == Entry(queue, k) && pp == Entry(queue, k - 1)
        invariant Chained(idequeue, qnext, queue) && qnext == old(qnext)[b := 0] && queue == old(queue)
        decreases |queue| - k
      {
        pp := link;
        link := qnext[pp];
        k := k + 1;
      }
      if pp == 0 {
        idequeue := b;
      } else {
        qnext := qnext[pp := b];
      }
      queue := queue + [b];
    }

    /** What `ide_dirty_write` does before it sleeps, or the panic it stops with. */
    method Enqueue(b: int, havedisk1: bool) returns (o: Outcome)
      requires Valid() && b != 0 && b in bufs && b !in queue && bufs[b].blockno < FSSIZE
      modifies `idequeue, `qnext, `queue, `drive
      ensures o.NothingToDo? <==> !Pending(bufs[b])
      ensures o.NoDisk? <==> Pending(bufs[b]) && bufs[b].dev != 0 && !havedisk1
      ensures o.Queued? ==> old(Enabled(S(), Submit(b)))
      ensures Valid() && S() == if o.Queued? then Step(old(S()), Submit(b)) else old(S())
    {
      if !Pending(bufs[b]) {
        return NothingToDo;
      }
      if bufs[b].dev != 0 && !havedisk1 {
        return NoDisk;
      }
      o := Queued;
      Append(b);
      if idequeue == b {
        IdeStart(b);
      }
    }

    /** The end of a command. `b` is the buffer whose caller is woken, 0 for none. */
    method IdeInterrupt() returns (b: int)
      requires Valid()
      modifies `bufs, `idequeue, `qnext, `queue, `drive, `disk
      ensures Valid() && S() == Step(old(S()), Interrupt)
      ensures b == Entry(old(queue), 0) && (b != 0 ==> !Pending(bufs[b]))
    {
      b := idequeue;
      if b == 0 {
        return;
      }
      ChainTail(idequeue, qnext, queue);
      var done, c := bufs[b], drive.value;
      disk := Execute(disk, c);
      idequeue := qnext[b];
      queue := queue[1..];
      if !done.dirty {
        done := done.(data := Get(disk, c.at));
      }
      bufs := bufs[b := done.(valid := true, dirty := false)];
      drive := None;
      if idequeue != 0 {
        IdeStart(idequeue);
      }
    }
  }

  lemma ChainTail(head: int, qnext: map<int, int>, q: seq<int>)
    requires Chained(head, qnext, q) && q != []
    ensures Chained(qnext[q[0]], qnext, q[1..]) && qnext[q[0]] == Entry(q[1..], 0)
  {
    forall i | 0 <= i < |q| - 1
      ensures q[1..][i] in qnext && qnext[q[1..][i]] == Entry(q[1..], i + 1)
    {
      assert q[1..][i] == q[i + 1];
    }
  }
}
