/** Many file system operations over one log: every interleaving of `begin_op`, `log_write` and
    `end_op`, with the commit and the recovery advancing one block write at a time and a crash,
    possibly in the middle of a write, at any moment. */
module GroupCommit {
  import opened Common
  import opened BlockDevice
  import opened RedoLog

  /** One `log_write`: which operation made it, and the block it recorded. */
  datatype Event = Event(op: nat, w: Write)

  /** An operation between `begin_op` and `end_op`, with the distinct blocks it has logged. */
  datatype Op = Op(id: nat, blocks: set<nat>)

  /** What the log is doing; `base` is the disk when the commit or recovery began and `k` the
      number of its writes completed since. */
  datatype Phase =
    | Running
    | Committing(base: Disk, k: nat)
    | Recovering(base: Disk, k: nat)

  datatype State = State(
    disk: Disk,
    pinned: map<nat, Block>,
    lh: seq<nat>,
    active: seq<Op>,
    phase: Phase,
    nextOp: nat,
    // the first operation of the group now in the log
    groupStart: nat,
    // every `log_write` ever made
    calls: seq<Event>,
    // those not lost in a crash
    history: seq<Event>,
    // how much of the history had been committed and installed
    durable: nat)

  datatype Action =
    | Begin
    | LogWrite(i: nat, b: nat, data: Block)
    | End(i: nat)
    | Advance
    | Crash(r: Disk)

  function Init(g: Geometry, h: Disk): State {
    State(h, map[], [], [], Running, 0, 0, [], [], 0)
  }

  /** The writes of the commit or recovery under way. */
  function Pending(g: Geometry, s: State): (ws: seq<Write>) {
    match s.phase
    case Running => []
    case Committing(base, _) =>
      if g.start < |base| && HasHeader(base[g.start]) && |s.lh| <= LOGSIZE
      then CommitWrites(g, base[g.start], s.lh, PinnedValues(s.lh, s.pinned)) else []
    case Recovering(base, _) => if ValidDisk(g, base) then RecoverWrites(g, base) else []
  }

  function Done(s: State): (k: nat) {
    if s.phase.Running? then 0 else s.phase.k
  }

  /** `log_write` would panic: the transaction is as big as the log. */
  predicate LogFull(g: Geometry, s: State) {
    |s.lh| >= LOGSIZE || |s.lh| >= g.size - 1
  }

  /** A `log_write` an operation may ask for, when each logs at most `budget` distinct blocks. */
  predicate MayLog(g: Geometry, budget: nat, s: State, i: nat, b: nat) {
    s.phase.Running? && i < |s.active| && g.Home(b) && |s.active[i].blocks + {b}| <= budget
  }

  predicate Enabled(g: Geometry, budget: nat, s: State, a: Action) {
    match a
    case Begin => s.phase.Running? && |s.lh| + (|s.active| + 1) * MAXOPBLOCKS <= LOGSIZE
    case LogWrite(i, b, _) => MayLog(g, budget, s, i, b) && !LogFull(g, s)
    case End(i) => s.phase.Running? && i < |s.active|
    case Advance => !s.phase.Running?
    case Crash(r) =>
      || r == s.disk
      || (Done(s) < |Pending(g, s)| && TornWrite(s.disk, Pending(g, s)[Done(s)], r))
  }

  function Step(g: Geometry, s: State, a: Action): State {
    if (a.LogWrite? || a.End?) && a.i >= |s.active| then s else
    match a
    case Begin => s.(active := s.active + [Op(s.nextOp, {})], nextOp := s.nextOp + 1)
    case LogWrite(i, b, data) =>
      var op := s.active[i];
      var e := Event(op.id, Write(b, data));
      s.(lh := Absorb(s.lh, b), pinned := s.pinned[b := data],
         active := s.active[i := op.(blocks := op.blocks + {b})],
         history := s.history + [e], calls := s.calls + [e])
    case End(i) =>
      var rest := s.active[..i] + s.active[i+1..];
      s.(active := rest, phase := if rest == [] then Committing(s.disk, 0) else Running)
    case Advance =>
      if Done(s) < |Pending(g, s)| then
        s.(disk := ApplyOne(s.disk, Pending(g, s)[Done(s)]), phase := s.phase.(k := Done(s) + 1))
      else
        s.(phase := Running, lh := [], pinned := map[], durable := |s.history|, groupStart := s.nextOp)
    case Crash(r) =>
      var kept := Survives(g, s, r);
      s.(disk := r, pinned := map[], lh := [], active := [], phase := Recovering(r, 0),
         history := s.history[..kept], durable := kept, groupStart := s.nextOp)
  }

  /** How much of the history the disk `r` left by a crash of `s` carries: the current group counts
      from the moment its header is on disk. */
  function Survives(g: Geometry, s: State, r: Disk): (n: nat)
    ensures n <= |s.history|
  {
    var committed := s.phase.Committing? && s.lh != [] &&
                     (s.phase.k > |s.lh| || (g.start < |r| && HeaderOf(r[g.start]) != []));
    if committed || s.durable > |s.history| then |s.history| else s.durable
  }

  /** The contents produced by a sequence of logged writes. */
  function Replay(h: Disk, es: seq<Event>): (r: Disk)
    ensures |r| == |h|
  {
    if es == [] then h else ApplyOne(Replay(h, es[..|es|-1]), es[|es|-1].w)
  }

  /** The events of one operation. */
  function EventsOf(op: nat, es: seq<Event>): (r: seq<Event>) {
    if es == [] then [] else
      EventsOf(op, es[..|es|-1]) + if es[|es|-1].op == op then [es[|es|-1]] else []
  }

  // ---------------------------------------------------------------- the invariant

  /** The pinned buffers and the header summarise the group in the log. */
  predicate GroupMatches(h: Disk, s: State) {
    && s.durable <= |s.history|
    && Replay(h, s.history) == Committed(Replay(h, s.history[..s.durable]), s.lh, PinnedValues(s.lh, s.pinned))
  }

  /** The contents a crash of `s` is promised at least. */
  function Base(h: Disk, s: State): Disk {
    if s.durable <= |s.history| then Replay(h, s.history[..s.durable]) else h
  }

  predicate DiskInv(g: Geometry, h: Disk, s: State) {
    match s.phase
    case Running => Settled(g, s.disk, Base(h, s))
    case Committing(base, k) =>
      && Settled(g, base, Base(h, s)) && s.active == []
      && k <= |Pending(g, s)| && s.disk == Apply(base, Pending(g, s)[..k])
    case Recovering(base, k) =>
      && Holds(g, base, Base(h, s)) && s.active == [] && s.lh == []
      && k <= |Pending(g, s)| && s.disk == Apply(base, Pending(g, s)[..k])
  }

  /** Operations never straddle the boundary between what is durable and what is in the log. */
  ghost predicate OpsInv(s: State) {
    && s.groupStart <= s.nextOp && s.durable <= |s.history|
    && (forall i :: 0 <= i < |s.active| ==> s.groupStart <= s.active[i].id < s.nextOp)
    && (forall i :: 0 <= i < |s.history| ==> (s.history[i].op < s.groupStart <==> i < s.durable))
    && (forall i :: 0 <= i < |s.calls| ==> s.calls[i].op < s.nextOp)
    && (forall i :: 0 <= i < |s.history| ==> s.history[i].op < s.nextOp)
    && (forall op: nat ::
         EventsOf(op, s.history) == EventsOf(op, s.calls) || (op < s.groupStart && EventsOf(op, s.history) == []))
  }

  ghost predicate Inv(g: Geometry, h: Disk, s: State) {
    && |h| == g.nblocks
    && ValidHeader(g, s.lh)
    && GroupMatches(h, s)
    && DiskInv(g, h, s)
    && OpsInv(s)
    && (s.lh == [] ==> s.durable == |s.history|)
    && (s.phase.Running? && s.active == [] ==> s.lh == [])
  }

  lemma InvInit(g: Geometry, h: Disk)
    requires Settled(g, h, h)
    ensures Inv(g, h, Init(g, h))
  {
    NothingCommitted(h);
  }

  // ---------------------------------------------------------------- log_write

  /** Logging one more block is one more committed write. */
  lemma AbsorbCommits(g: Geometry, h: Disk, lh: seq<nat>, pinned: map<nat, Block>, b: nat, data: Block)
    requires ValidHeader(g, lh) && b < |h|
    ensures Committed(h, Absorb(lh, b), PinnedValues(Absorb(lh, b), pinned[b := data]))
         == ApplyOne(Committed(h, lh, PinnedValues(lh, pinned)), Write(b, data))
  {
    var lh' := Absorb(lh, b);
    forall c | 0 <= c < |h| && c in lh && c != b
      ensures Position(lh', c) == Position(lh, c)
    {
      PositionAppend(lh, b, c);
    }
  }

  lemma PositionAppend(hd: seq<nat>, b: nat, c: nat)
    requires c in hd
    ensures c in hd + [b] && Position(hd + [b], c) == Position(hd, c)
  {
    if hd[0] != c {
      assert (hd + [b])[1..] == hd[1..] + [b];
      PositionAppend(hd[1..], b, c);
    }
  }

  lemma EventsAppend(op: nat, es: seq<Event>, e: Event)
    ensures EventsOf(op, es + [e]) == EventsOf(op, es) + if e.op == op then [e] else []
  {
    assert (es + [e])[..|es|] == es;
  }

  lemma OpsLogWrite(g: Geometry, s: State, i: nat, b: nat, data: Block)
    requires OpsInv(s) && i < |s.active|
    ensures OpsInv(Step(g, s, LogWrite(i, b, data)))
  {
    var s' := Step(g, s, LogWrite(i, b, data));
    forall op: nat
      ensures EventsOf(op, s'.history) == EventsOf(op, s'.calls) ||
              (op < s'.groupStart && EventsOf(op, s'.history) == [])
    {
      EventsAppend(op, s.history, s'.history[|s.history|]);
      EventsAppend(op, s.calls, s'.calls[|s.calls|]);
      assert EventsOf(op, s.history) == EventsOf(op, s.calls) || (op < s.groupStart && EventsOf(op, s.history) == []);
    }
  }

  lemma InvLogWrite(g: Geometry, h: Disk, budget: nat, s: State, i: nat, b: nat, data: Block)
    requires Inv(g, h, s) && Enabled(g, budget, s, LogWrite(i, b, data))
    ensures Inv(g, h, Step(g, s, LogWrite(i, b, data)))
  {
    var s' := Step(g, s, LogWrite(i, b, data));
    OpsLogWrite(g, s, i, b, data);
    AbsorbCommits(g, Base(h, s), s.lh, s.pinned, b, data);
    assert s'.history[..|s.history|] == s.history;
    assert s'.history[..s.durable] == s.history[..s.durable];
  }

  // ---------------------------------------------------------------- begin_op and end_op

  lemma InvBegin(g: Geometry, h: Disk, s: State)
    requires Inv(g, h, s) && s.phase.Running?
    ensures Inv(g, h, Step(g, s, Begin))
  {
  }

  lemma InvEnd(g: Geometry, h: Disk, s: State, i: nat)
    requires Inv(g, h, s) && s.phase.Running? && i < |s.active|
    ensures Inv(g, h, Step(g, s, End(i)))
  {
    var s' := Step(g, s, End(i));
    assert Pending(g, s')[..0] == [];
  }

  // ---------------------------------------------------------------- commit and recovery

  lemma InvAdvanceWrite(g: Geometry, h: Disk, s: State)
    requires Inv(g, h, s) && !s.phase.Running? && Done(s) < |Pending(g, s)|
    ensures Inv(g, h, Step(g, s, Advance))
  {
    var r := Step(g, s, Advance);
    OneWriteOn(g, h, s);
    SameOps(s, r);
  }

  lemma SamePending(g: Geometry, s: State, s': State)
    requires s' == s.(disk := s'.disk, phase := s'.phase) && !s.phase.Running? && !s'.phase.Running?
    requires s'.phase == s.phase.(k := s'.phase.k)
    ensures Pending(g, s') == Pending(g, s)
  {
  }

  lemma OneWriteOn(g: Geometry, h: Disk, s: State)
    requires DiskInv(g, h, s) && !s.phase.Running? && Done(s) < |Pending(g, s)|
    ensures DiskInv(g, h, Step(g, s, Advance))
  {
    var ws, s' := Pending(g, s), Step(g, s, Advance);
    ApplyNext(s.phase.base, ws, s.phase.k);
    SamePending(g, s, s');
    assert Base(h, s') == Base(h, s);
  }

  lemma SameOps(s: State, r: State)
    requires OpsInv(s) && r == s.(disk := r.disk, phase := r.phase)
    ensures OpsInv(r)
  {
  }

  /** At the end of a commit or recovery, the whole history is home. */
  lemma DoneSettles(g: Geometry, h: Disk, s: State)
    requires Inv(g, h, s) && !s.phase.Running? && Done(s) >= |Pending(g, s)|
    ensures Settled(g, s.disk, Replay(h, s.history))
  {
    AllDone(g, h, s);
    if s.phase.Committing? {
      PendingCommit(g, s);
      CommitComplete(g, s.phase.base, Base(h, s), s.lh, PinnedValues(s.lh, s.pinned));
    } else {
      PendingRecover(g, s);
      assert s.history[..|s.history|] == s.history;
      RecoverComplete(g, s.phase.base, Base(h, s));
    }
  }

  lemma AllDone(g: Geometry, h: Disk, s: State)
    requires DiskInv(g, h, s) && !s.phase.Running? && Done(s) >= |Pending(g, s)|
    ensures s.disk == Apply(s.phase.base, Pending(g, s))
  {
    var ws := Pending(g, s);
    assert s.phase.k == |ws| && ws[..|ws|] == ws;
  }

  lemma PendingCommit(g: Geometry, s: State)
    requires s.phase.Committing? && ValidDisk(g, s.phase.base) && |s.lh| <= LOGSIZE
    ensures Pending(g, s) == CommitWrites(g, s.phase.base[g.start], s.lh, PinnedValues(s.lh, s.pinned))
  {
  }

  lemma PendingRecover(g: Geometry, s: State)
    requires s.phase.Recovering? && ValidDisk(g, s.phase.base)
    ensures Pending(g, s) == RecoverWrites(g, s.phase.base)
  {
  }

  lemma NothingCommitted(h: Disk)
    ensures Committed(h, [], PinnedValues([], map[])) == h
  {
  }

  lemma InvAdvanceDone(g: Geometry, h: Disk, s: State)
    requires Inv(g, h, s) && !s.phase.Running? && Done(s) >= |Pending(g, s)|
    ensures Inv(g, h, Step(g, s, Advance))
  {
    DoneSettles(g, h, s);
    assert s.history[..|s.history|] == s.history;
    NothingCommitted(Replay(h, s.history));
  }

  // ---------------------------------------------------------------- crash

  lemma EventsNone(op: nat, es: seq<Event>)
    requires forall i :: 0 <= i < |es| ==> es[i].op != op
    ensures EventsOf(op, es) == []
  {
  }

  lemma {:induction false} EventsPrefix(op: nat, es: seq<Event>, d: nat)
    requires d <= |es| && forall i :: d <= i < |es| ==> es[i].op != op
    ensures EventsOf(op, es[..d]) == EventsOf(op, es)
  {
    if d == |es| {
      assert es[..d] == es;
    } else {
      EventsPrefix(op, es[..|es|-1], d);
      assert es[..|es|-1][..d] == es[..d];
    }
  }

  lemma OpsCrash(g: Geometry, s: State, r: Disk)
    requires OpsInv(s) && (Survives(g, s, r) == s.durable || Survives(g, s, r) == |s.history|)
    ensures OpsInv(Step(g, s, Crash(r)))
  {
    var s' := Step(g, s, Crash(r));
    forall op: nat
      ensures EventsOf(op, s'.history) == EventsOf(op, s'.calls) ||
              (op < s'.groupStart && EventsOf(op, s'.history) == [])
    {
      assert EventsOf(op, s.history) == EventsOf(op, s.calls) || (op < s.groupStart && EventsOf(op, s.history) == []);
      if Survives(g, s, r) == |s.history| {
        assert s'.history == s.history;
      } else if op < s.groupStart {
        EventsPrefix(op, s.history, s.durable);
      } else {
        EventsNone(op, s'.history);
        if op >= s.nextOp {
          EventsNone(op, s.calls);
        }
      }
    }
  }

  /** The disk a crash leaves carries exactly the surviving part of the history. */
  lemma CrashHolds(g: Geometry, h: Disk, s: State, r: Disk)
    requires Inv(g, h, s)
    requires r == s.disk || (Done(s) < |Pending(g, s)| && TornWrite(s.disk, Pending(g, s)[Done(s)], r))
    ensures Survives(g, s, r) == s.durable || (Survives(g, s, r) == |s.history| && s.active == [])
    ensures Holds(g, r, Replay(h, s.history[..Survives(g, s, r)]))
  {
    var ws := Pending(g, s);
    assert s.history[..|s.history|] == s.history;
    match s.phase
    case Running =>
    case Committing(base, k) =>
      if s.lh != [] {
        assert CrashAt(base, ws, k, r);
        CommitCrash(g, base, Base(h, s), s.lh, PinnedValues(s.lh, s.pinned), k, r);
      }
    case Recovering(base, k) =>
      assert CrashAt(base, ws, k, r);
      RecoverCrash(g, base, Base(h, s), k, r);
  }

  lemma InvCrash(g: Geometry, h: Disk, budget: nat, s: State, r: Disk)
    requires Inv(g, h, s) && Enabled(g, budget, s, Crash(r))
    ensures Inv(g, h, Step(g, s, Crash(r)))
  {
    var s' := Step(g, s, Crash(r));
    CrashHolds(g, h, s, r);
    OpsCrash(g, s, r);
    assert s'.history[..s'.durable] == s'.history;
    assert Pending(g, s')[..0] == [];
    NothingCommitted(Replay(h, s'.history));
  }

  lemma InvStep(g: Geometry, h: Disk, budget: nat, s: State, a: Action)
    requires Inv(g, h, s) && Enabled(g, budget, s, a)
    ensures Inv(g, h, Step(g, s, a))
  {
    match a
    case Begin => InvBegin(g, h, s);
    case LogWrite(i, b, data) => InvLogWrite(g, h, budget, s, i, b, data);
    case End(i) => InvEnd(g, h, s, i);
    case Advance =>
      if Done(s) < |Pending(g, s)| {
        InvAdvanceWrite(g, h, s);
      } else {
        InvAdvanceDone(g, h, s);
      }
    case Crash(r) => InvCrash(g, h, budget, s, r);
  }

  // ---------------------------------------------------------------- whole runs

  /** The state after a sequence of actions. */
  function After(g: Geometry, h: Disk, acts: seq<Action>): (s: State) {
    if acts == [] then Init(g, h) else Step(g, After(g, h, acts[..|acts|-1]), acts[|acts|-1])
  }

  /** A run: each action was enabled when it was taken. */
  predicate Run(g: Geometry, h: Disk, budget: nat, acts: seq<Action>) {
    acts == [] || (Run(g, h, budget, acts[..|acts|-1])
                   && Enabled(g, budget, After(g, h, acts[..|acts|-1]), acts[|acts|-1]))
  }

  lemma {:induction false} InvRun(g: Geometry, h: Disk, budget: nat, acts: seq<Action>)
    requires Settled(g, h, h) && Run(g, h, budget, acts)
    ensures Inv(g, h, After(g, h, acts))
  {
    if acts == [] {
      InvInit(g, h);
    } else {
      InvRun(g, h, budget, acts[..|acts|-1]);
      InvStep(g, h, budget, After(g, h, acts[..|acts|-1]), acts[|acts|-1]);
    }
  }

  // ---------------------------------------------------------------- who logged what, from the actions alone

  /** How many operations have begun. */
  function Begun(acts: seq<Action>): (n: nat) {
    if acts == [] then 0 else Begun(acts[..|acts|-1]) + if acts[|acts|-1].Begin? then 1 else 0
  }

  /** The operations under way, numbered as they began: those that have not ended, and since the last crash. */
  function UnderWay(acts: seq<Action>): (ids: seq<nat>) {
    if acts == [] then [] else NowUnderWay(UnderWay(acts[..|acts|-1]), Begun(acts[..|acts|-1]), acts[|acts|-1])
  }

  function NowUnderWay(ids: seq<nat>, next: nat, a: Action): (r: seq<nat>) {
    match a
    case Begin => ids + [next]
    case End(i) => if i < |ids| then ids[..i] + ids[i+1..] else ids
    case Crash(_) => []
    case _ => ids
  }

  /** Every `log_write`, with the operation that made it. */
  function Logged(acts: seq<Action>): (es: seq<Event>) {
    if acts == [] then [] else
    var front, a := acts[..|acts|-1], acts[|acts|-1];
    Logged(front)
    + if a.LogWrite? && a.i < |UnderWay(front)| then [Event(UnderWay(front)[a.i], Write(a.b, a.data))] else []
  }

  ghost predicate Numbered(ops: seq<Op>, ids: seq<nat>) {
    |ops| == |ids| && forall i :: 0 <= i < |ops| ==> ops[i].id == ids[i]
  }

  lemma StepNumbers(g: Geometry, budget: nat, s: State, ids: seq<nat>, a: Action)
    requires Enabled(g, budget, s, a) && Numbered(s.active, ids)
    ensures Numbered(Step(g, s, a).active, NowUnderWay(ids, s.nextOp, a))
    ensures Step(g, s, a).nextOp == s.nextOp + if a.Begin? then 1 else 0
    ensures Step(g, s, a).calls == s.calls + if a.LogWrite? then [Event(ids[a.i], Write(a.b, a.data))] else []
  {
  }

  /** The state machine numbers operations as they begin, and its calls are those of the run. */
  lemma {:induction false} CallsAreTheRuns(g: Geometry, h: Disk, budget: nat, acts: seq<Action>)
    requires Run(g, h, budget, acts)
    ensures var s := After(g, h, acts);
            s.nextOp == Begun(acts) && s.calls == Logged(acts) && Numbered(s.active, UnderWay(acts))
  {
    if acts != [] {
      var front, a := acts[..|acts|-1], acts[|acts|-1];
      CallsAreTheRuns(g, h, budget, front);
      StepNumbers(g, budget, After(g, h, front), UnderWay(front), a);
    }
  }

  /** Some part of the history that an operation's writes are wholly in or wholly out of. */
  ghost predicate WholeOps(s: State, kept: seq<Event>) {
    && (forall op: nat :: EventsOf(op, kept) == EventsOf(op, s.calls) || EventsOf(op, kept) == [])
    && (forall i :: 0 <= i < |s.active| ==> EventsOf(s.active[i].id, kept) == [])
  }

  lemma SurvivorsAreWhole(g: Geometry, h: Disk, s: State, r: Disk)
    requires Inv(g, h, s)
    requires Survives(g, s, r) == s.durable || (Survives(g, s, r) == |s.history| && s.active == [])
    ensures WholeOps(s, s.history[..Survives(g, s, r)])
  {
    var kept := s.history[..Survives(g, s, r)];
    OpsCrash(g, s, r);
    assert Step(g, s, Crash(r)).history == kept;
    forall i | 0 <= i < |s.active|
      ensures EventsOf(s.active[i].id, kept) == []
    {
      EventsNone(s.active[i].id, kept);
    }
  }

  lemma CrashIsPrefix(g: Geometry, h: Disk, budget: nat, s: State, r: Disk)
    requires Inv(g, h, s) && Enabled(g, budget, s, Crash(r))
    ensures ValidDisk(g, r)
    ensures var kept := s.history[..Survives(g, s, r)];
            && s.durable <= |kept|
            && Settled(g, Apply(r, RecoverWrites(g, r)), Replay(h, kept))
            && WholeOps(s, kept)
    ensures Survives(g, s, r) == s.durable || (Survives(g, s, r) == |s.history| && s.active == [])
  {
    CrashHolds(g, h, s, r);
    RecoverComplete(g, r, Replay(h, s.history[..Survives(g, s, r)]));
    SurvivorsAreWhole(g, h, s, r);
  }

  /** Group commit, over every run: crash in any reachable state, even inside a block write, and
      recovery gives the effect of a prefix of the history, at least its durable part, in which
      every operation appears with all of its writes or with none, and no unfinished operation
      appears at all. */
  lemma CrashedRunIsPrefix(g: Geometry, h: Disk, budget: nat, acts: seq<Action>, r: Disk)
    requires Settled(g, h, h) && Run(g, h, budget, acts) && Enabled(g, budget, After(g, h, acts), Crash(r))
    ensures ValidDisk(g, r)
    ensures var s := After(g, h, acts);
            var kept := s.history[..Survives(g, s, r)];
            && s.durable <= |kept|
            && Settled(g, Apply(r, RecoverWrites(g, r)), Replay(h, kept))
            && WholeOps(s, kept)
  {
    InvRun(g, h, budget, acts);
    CrashIsPrefix(g, h, budget, After(g, h, acts), r);
  }

  lemma DurableStep(g: Geometry, s: State, a: Action)
    requires s.durable <= |s.history| && (a.Crash? ==> s.durable <= Survives(g, s, a.r))
    ensures var s' := Step(g, s, a);
            s.durable <= s'.durable <= |s'.history| && s.history[..s.durable] <= s'.history[..s'.durable]
  {
  }

  /** What is durable stays: no step, not even a crash, ever removes it. */
  lemma DurableGrows(g: Geometry, h: Disk, budget: nat, acts: seq<Action>, a: Action)
    requires Settled(g, h, h) && Run(g, h, budget, acts + [a])
    ensures var s, s' := After(g, h, acts), After(g, h, acts + [a]);
            && s.durable <= |s.history| && s'.durable <= |s'.history|
            && s.history[..s.durable] <= s'.history[..s'.durable]
  {
    assert (acts + [a])[..|acts|] == acts;
    InvRun(g, h, budget, acts);
    if a.Crash? {
      CrashHolds(g, h, After(g, h, acts), a.r);
    }
    DurableStep(g, After(g, h, acts), a);
  }

  // ---------------------------------------------------------------- log space

  /** The distinct blocks an operation may log for the log never to overflow. */
  const SAFE_BUDGET: nat := 9

  /** What the active operations may still add to the log. */
  function Reserve(ops: seq<Op>): int {
    if ops == [] then 0 else Reserve(ops[..|ops|-1]) + SAFE_BUDGET - |ops[|ops|-1].blocks|
  }

  /** The blocks logged and the blocks still to come fit, with room to spare, in a 30-block log. */
  predicate SpaceInv(s: State) {
    && |s.lh| + Reserve(s.active) <= 28
    && |s.lh| <= 28
    && (forall i :: 0 <= i < |s.active| ==> |s.active[i].blocks| <= SAFE_BUDGET)
    && (forall i, b :: 0 <= i < |s.active| && b in s.active[i].blocks ==> b in s.lh)
    && (s.phase.Running? && s.active == [] ==> s.lh == [])
    && (!s.phase.Running? ==> s.active == [])
  }

  lemma {:induction false} ReserveBounds(ops: seq<Op>)
    requires forall i :: 0 <= i < |ops| ==> |ops[i].blocks| <= SAFE_BUDGET
    ensures 0 <= Reserve(ops) <= 9 * |ops|
  {
    if ops != [] {
      ReserveBounds(ops[..|ops|-1]);
    }
  }

  lemma {:induction false} ReserveReplace(ops: seq<Op>, i: nat, op: Op)
    requires i < |ops|
    ensures Reserve(ops[i := op]) == Reserve(ops) + |ops[i].blocks| - |op.blocks|
  {
    var ops' := ops[i := op];
    if i == |ops| - 1 {
      assert ops'[..|ops|-1] == ops[..|ops|-1];
    } else {
      assert ops'[..|ops|-1] == ops[..|ops|-1][i := op];
      ReserveReplace(ops[..|ops|-1], i, op);
    }
  }

  lemma {:induction false} ReserveRemove(ops: seq<Op>, i: nat)
    requires i < |ops|
    ensures Reserve(ops[..i] + ops[i+1..]) == Reserve(ops) - SAFE_BUDGET + |ops[i].blocks|
  {
    var ops' := ops[..i] + ops[i+1..];
    if i == |ops| - 1 {
      assert ops' == ops[..|ops|-1];
    } else {
      assert ops'[..|ops'|-1] == ops[..|ops|-1][..i] + ops[..|ops|-1][i+1..];
      ReserveRemove(ops[..|ops|-1], i);
    }
  }

  lemma SpaceBegin(g: Geometry, s: State)
    requires SpaceInv(s) && s.phase.Running? && |s.lh| + 9 * (|s.active| + 1) <= 28
    ensures SpaceInv(Step(g, s, Begin))
  {
    var n, ops := |s.active|, Step(g, s, Begin).active;
    assert ops[..n] == s.active && ops[n].blocks == {};
    assert Reserve(ops) == Reserve(s.active) + SAFE_BUDGET;
    ReserveBounds(s.active);
  }

  /** The reservation of ten blocks each leaves two blocks over if each logs nine. */
  lemma BeginFits(lh: nat, n: nat)
    requires lh + (n + 1) * MAXOPBLOCKS <= LOGSIZE && (n == 0 ==> lh == 0)
    ensures lh + 9 * (n + 1) <= 28
  {
    assert MAXOPBLOCKS == 10 && LOGSIZE == 30;
    assert lh + (n + 1) * 10 <= 30;
  }

  lemma SpaceLogWrite(g: Geometry, s: State, i: nat, b: nat, data: Block)
    requires SpaceInv(s) && MayLog(g, SAFE_BUDGET, s, i, b)
    ensures SpaceInv(Step(g, s, LogWrite(i, b, data)))
  {
    var op := s.active[i];
    var op' := op.(blocks := op.blocks + {b});
    ReserveReplace(s.active, i, op');
    ReserveBounds(s.active[i := op']);
    if b in s.lh {
      SubsetSize(op.blocks, op'.blocks);
    } else {
      assert b !in op.blocks;
      assert |op'.blocks| == |op.blocks| + 1;
    }
  }

  lemma SpaceEnd(g: Geometry, s: State, i: nat)
    requires SpaceInv(s) && s.phase.Running? && i < |s.active|
    ensures SpaceInv(Step(g, s, End(i)))
  {
    ReserveRemove(s.active, i);
    ReserveBounds(Step(g, s, End(i)).active);
  }

  lemma SpaceStep(g: Geometry, budget: nat, s: State, a: Action)
    requires budget <= SAFE_BUDGET && SpaceInv(s) && Enabled(g, budget, s, a)
    ensures SpaceInv(Step(g, s, a))
  {
    match a
    case Begin =>
      BeginFits(|s.lh|, |s.active|);
      SpaceBegin(g, s);
    case LogWrite(i, b, data) => SpaceLogWrite(g, s, i, b, data);
    case End(i) => SpaceEnd(g, s, i);
    case _ =>
  }

  lemma {:induction false} SpaceRun(g: Geometry, h: Disk, budget: nat, acts: seq<Action>)
    requires budget <= SAFE_BUDGET && Run(g, h, budget, acts)
    ensures SpaceInv(After(g, h, acts))
  {
    if acts != [] {
      SpaceRun(g, h, budget, acts[..|acts|-1]);
      SpaceStep(g, budget, After(g, h, acts[..|acts|-1]), acts[|acts|-1]);
    }
  }

  /** The log that mkfs lays out: 30 blocks, so 29 besides the header. */
  predicate MkfsLog(g: Geometry) {
    g.Valid() && g.size == LOGSIZE
  }

  /** Some operation within its budget would be refused by `log_write`. */
  ghost predicate PanicReachable(g: Geometry, h: Disk, budget: nat) {
    exists acts, i: nat, b: nat ::
      Run(g, h, budget, acts) && MayLog(g, budget, After(g, h, acts), i, b) && LogFull(g, After(g, h, acts))
  }

  /** With at most nine blocks per operation, at most 28 blocks are ever logged, every log write
      stays inside the log area, and `log_write` never panics. */
  lemma LogNeverOverflows(g: Geometry, h: Disk, budget: nat, acts: seq<Action>)
    requires MkfsLog(g) && budget <= SAFE_BUDGET && Run(g, h, budget, acts)
    ensures var s := After(g, h, acts);
            && |s.lh| <= 28 && !LogFull(g, s)
            && forall i :: 0 <= i < |s.lh| ==> g.InLog(LogWrites(g, PinnedValues(s.lh, s.pinned))[i].bno)
  {
    SpaceRun(g, h, budget, acts);
  }

  function Clamp(x: int): nat {
    if x < 0 then 0 else if x > 10 then 10 else x
  }

  lemma RunNext(g: Geometry, h: Disk, budget: nat, acts: seq<Action>, a: Action)
    requires Run(g, h, budget, acts) && Enabled(g, budget, After(g, h, acts), a)
    ensures Run(g, h, budget, acts + [a]) && After(g, h, acts + [a]) == Step(g, After(g, h, acts), a)
  {
    assert (acts + [a])[..|acts|] == acts;
  }

  /** Three operations started together have logged `n` fresh blocks, ten each in turn. */
  predicate Filled(g: Geometry, s: State, n: nat) {
    && s.phase.Running? && |s.lh| == n && |s.active| == 3
    && (forall b :: b in s.lh ==> b < g.start + g.size + n)
    && (forall i :: 0 <= i < 3 ==> |s.active[i].blocks| == Clamp(n - 10 * i))
    && (forall i, b :: 0 <= i < 3 && b in s.active[i].blocks ==> b < g.start + g.size + n)
  }

  function Filler(g: Geometry, n: nat): Action {
    LogWrite(n / 10, g.start + g.size + n, Block([], [], [], []))
  }

  /** The next block is new to the log and to the operation whose turn it is. */
  lemma FillerIsNew(g: Geometry, budget: nat, s: State, n: nat)
    requires MkfsLog(g) && budget >= MAXOPBLOCKS && g.start + g.size + 30 <= g.nblocks && n <= 28 && Filled(g, s, n)
    ensures var i, b := n / 10, g.start + g.size + n;
            && i < 3 && b !in s.lh && |s.active[i].blocks + {b}| == |s.active[i].blocks| + 1 <= 10
            && Enabled(g, budget, s, Filler(g, n))
  {
    var i, b := n / 10, g.start + g.size + n;
    assert b !in s.active[i].blocks;
    assert n / 10 == 0 || n / 10 == 1 || n / 10 == 2;
  }

  lemma FillOne(g: Geometry, budget: nat, s: State, n: nat)
    requires MkfsLog(g) && budget >= MAXOPBLOCKS && g.start + g.size + 30 <= g.nblocks && n <= 28 && Filled(g, s, n)
    ensures Enabled(g, budget, s, Filler(g, n)) && Filled(g, Step(g, s, Filler(g, n)), n + 1)
  {
    FillerIsNew(g, budget, s, n);
    var r := Step(g, s, Filler(g, n));
    forall i | 0 <= i < 3
      ensures |r.active[i].blocks| == Clamp(n + 1 - 10 * i)
    {
      assert |s.active[i].blocks| == Clamp(n - 10 * i);
    }
  }

  lemma StartThree(g: Geometry, h: Disk, budget: nat) returns (acts: seq<Action>)
    ensures Run(g, h, budget, acts) && Filled(g, After(g, h, acts), 0)
  {
    acts := [];
    for i := 0 to 3
      invariant Run(g, h, budget, acts)
      invariant After(g, h, acts).phase.Running? && After(g, h, acts).lh == [] && |After(g, h, acts).active| == i
      invariant forall j :: 0 <= j < i ==> After(g, h, acts).active[j].blocks == {}
    {
      RunNext(g, h, budget, acts, Begin);
      acts := acts + [Begin];
    }
  }

  lemma FillMore(g: Geometry, h: Disk, budget: nat, before: seq<Action>, n: nat)
    requires MkfsLog(g) && budget >= MAXOPBLOCKS && g.start + g.size + 30 <= g.nblocks && n <= 28
    requires Run(g, h, budget, before) && Filled(g, After(g, h, before), n)
    ensures Run(g, h, budget, before + [Filler(g, n)]) && Filled(g, After(g, h, before + [Filler(g, n)]), n + 1)
  {
    FillOne(g, budget, After(g, h, before), n);
    RunNext(g, h, budget, before, Filler(g, n));
  }

  lemma {:induction false} FillTo(g: Geometry, h: Disk, budget: nat, n: nat) returns (acts: seq<Action>)
    requires MkfsLog(g) && budget >= MAXOPBLOCKS && g.start + g.size + 30 <= g.nblocks && n <= 29
    ensures Run(g, h, budget, acts) && Filled(g, After(g, h, acts), n)
  {
    acts := StartThree(g, h, budget);
    for k := 0 to n
      invariant Run(g, h, budget, acts) && Filled(g, After(g, h, acts), k)
    {
      FillMore(g, h, budget, acts, k);
      acts := acts + [Filler(g, k)];
    }
  }

  /** The exact budget: on mkfs's log, `log_write` can refuse an operation that keeps to its budget
      if and only if the budget is MAXOPBLOCKS or more, one more than the log was sized for. */
  lemma OverflowsExactlyFromTen(g: Geometry, h: Disk, budget: nat)
    requires MkfsLog(g) && g.start + g.size + 30 <= g.nblocks
    ensures PanicReachable(g, h, budget) <==> budget >= MAXOPBLOCKS
  {
    if budget >= MAXOPBLOCKS {
      var acts := FillTo(g, h, budget, 29);
      var s := After(g, h, acts);
      var b := g.start + g.size + 29;
      assert |s.active[2].blocks + {b}| == |s.active[2].blocks| + 1;
      assert MayLog(g, budget, s, 2, b) && LogFull(g, s);
    } else if PanicReachable(g, h, budget) {
      var acts, i: nat, b: nat :|
        Run(g, h, budget, acts) && MayLog(g, budget, After(g, h, acts), i, b) && LogFull(g, After(g, h, acts));
      LogNeverOverflows(g, h, budget, acts);
    }
  }
}
