/** Sleeping and waking, one machine instruction's worth of locking at a time: processes that wait for
    a sleep lock or for room in the log, the ones that let them go on, and kills that wake anybody. */
module SleepWakeup {
  import opened Common

  /** What a channel's spin lock protects: a sleep lock's holder, -1 for none, or the log's counters. */
  datatype Vars = LockVars(owner: int) | LogVars(n: nat, outstanding: int, committing: bool)

  /** What is done under the spin lock other than waiting. A log write that adds no block changes nothing
      here. */
  datatype Op = Release | LogWrite | EndOp | EndCommit

  /** The condition under which a waiter sleeps. */
  predicate Blocked(v: Vars) {
    match v
    case LockVars(owner) => owner != -1
    case LogVars(n, out, c) => c || n + (out + 1) * MAXOPBLOCKS > LOGSIZE
  }

  /** What a waiter does when it need not sleep any more. */
  function Enter(v: Vars, p: int): Vars {
    match v
    case LockVars(owner) => LockVars(p)
    case LogVars(n, out, c) => LogVars(n, out + 1, c)
  }

  /** What callers see to: the holder releases, operations in progress write and end, and the commit
      under way ends. */
  predicate May(v: Vars, p: int, op: Op) {
    match v
    case LockVars(owner) => op == Release && owner == p
    case LogVars(n, out, c) => ((op == LogWrite || op == EndOp) && out >= 1) || (op == EndCommit && c)
  }

  function Effect(v: Vars, op: Op): Vars {
    match v
    case LockVars(owner) => LockVars(-1)
    case LogVars(n, out, c) =>
      match op
      case Release => v
      case LogWrite => LogVars(n + 1, out, c)
      case EndOp => LogVars(n, out - 1, c || out == 1)
      case EndCommit => LogVars(0, out, false)
  }

  /** Whether the operation wakes the channel before it lets go of the spin lock. */
  predicate Wakes(v: Vars, op: Op) {
    match v
    case LockVars(owner) => true
    case LogVars(n, out, c) => op == EndCommit || (op == EndOp && out != 1)
  }

  /** Every operation that ends a wait wakes the waiters; an operation that does not wake leaves the
      condition as it was or worse. */
  lemma UnblockingWakes(v: Vars, p: int, op: Op)
    requires Blocked(v) && !Blocked(Effect(v, op)) && May(v, p, op)
    ensures Wakes(v, op)
  {
  }

  // ---------------------------------------------------------------- the machine

  /** Where a process is. `L` is the channel's spin lock and `T` the process table's. */
  datatype Pc =
    | Idle
    | WantEnter // spinning for L
    | Testing // has L
    | ToSleep // has L, found the condition true, spinning for T
    | HasBoth // has L and T
    | Parking // has T
    | Marked // has T, channel set
    | Sleepy // has T, asleep
    | Away // switched out
    | Resumed // has T
    | WantBack // spinning for L
    | Entered // has L
    | WantDo(op: Op) // spinning for L
    | Doing(op: Op) // has L
    | ToWake // has L, has changed the variables, spinning for T
    | Waking // has L and T
    | Woken // has L and T, has woken everyone
    | Leaving // has L

  predicate HasL(pc: Pc) {
    pc.Testing? || pc.ToSleep? || pc.HasBoth? || pc.Entered? || pc.Doing? || pc.ToWake? || pc.Waking? || pc.Woken? ||
    pc.Leaving?
  }

  predicate HasT(pc: Pc) {
    pc.HasBoth? || pc.Parking? || pc.Marked? || pc.Sleepy? || pc.Resumed? || pc.Waking? || pc.Woken?
  }

  datatype Proc = Proc(pc: Pc, chan: bool, asleep: bool)

  datatype Event = DidEnter(p: int) | DidOp(p: int, op: Op)

  /** `L` and `T` name the holders of the two spin locks, -1 for none; `hist` is what was done to the
      variables so far. */
  datatype State = State(v: Vars, L: int, T: int, procs: seq<Proc>, hist: seq<Event>)

  datatype Action = GoEnter(p: int) | GoDo(p: int, op: Op) | Go(p: int) | Kill(p: int)

  predicate Enabled(s: State, a: Action) {
    0 <= a.p < |s.procs| &&
    var pc := s.procs[a.p].pc;
    match a
    case GoEnter(p) => pc.Idle?
    case GoDo(p, op) => pc.Idle?
    case Kill(p) => s.T == -1
    case Go(p) =>
      match pc
      case Idle => false
      case WantEnter => s.L == -1
      case WantBack => s.L == -1
      case WantDo(op) => s.L == -1
      case ToSleep => s.T == -1
      case ToWake => s.T == -1
      case Away => s.T == -1 && !s.procs[p].asleep
      case Doing(op) => May(s.v, p, op)
      case _ => true
  }

  function Wake(procs: seq<Proc>): (r: seq<Proc>)
    ensures |r| == |procs|
    ensures forall i :: 0 <= i < |procs| ==> r[i] == if procs[i].chan then procs[i].(asleep := false) else procs[i]
  {
    seq(|procs|, i requires 0 <= i < |procs| => if procs[i].chan then procs[i].(asleep := false) else procs[i])
  }

  function At(s: State, p: int, pc: Pc): State
    requires 0 <= p < |s.procs|
  {
    s.(procs := s.procs[p := s.procs[p].(pc := pc)])
  }

  function Step(s: State, a: Action): (r: State)
    requires 0 <= a.p < |s.procs|
    ensures |r.procs| == |s.procs|
  {
    match a
    case GoEnter(p) => At(s, p, WantEnter)
    case GoDo(p, op) => At(s, p, WantDo(op))
    case Kill(p) => s.(procs := s.procs[p := s.procs[p].(asleep := false)])
    case Go(p) =>
      var pr := s.procs[p];
      match pr.pc
      case Idle => s
      case WantEnter => At(s, p, Testing).(L := p)
      case WantBack => At(s, p, Testing).(L := p)
      case Testing => if Blocked(s.v) then At(s, p, ToSleep)
             else At(s, p, Entered).(v := Enter(s.v, p), hist := s.hist + [DidEnter(p)])
      case ToSleep => At(s, p, HasBoth).(T := p)
      case HasBoth => At(s, p, Parking).(L := -1)
      case Parking => s.(procs := s.procs[p := Proc(Marked, true, pr.asleep)])
      case Marked => s.(procs := s.procs[p := Proc(Sleepy, pr.chan, true)])
      case Sleepy => At(s, p, Away).(T := -1)
      case Away => At(s, p, Resumed).(T := p)
      case Resumed => s.(procs := s.procs[p := Proc(WantBack, false, pr.asleep)], T := -1)
      case Entered => At(s, p, Idle).(L := -1)
      case WantDo(op) => At(s, p, Doing(op)).(L := p)
      case Doing(op) =>
        At(s, p, if Wakes(s.v, op) then ToWake else Leaving).(v := Effect(s.v, op), hist := s.hist + [DidOp(p, op)])
      case ToWake => At(s, p, Waking).(T := p)
      case Waking => At(s, p, Woken).(procs := Wake(s.procs)[p := s.procs[p].(pc := Woken)])
      case Woken => At(s, p, Leaving).(T := -1)
      case Leaving => At(s, p, Idle).(L := -1)
  }

  // ---------------------------------------------------------------- the invariant

  /** Someone has changed the variables and will still wake the channel, without letting go of L before. */
  predicate WakePending(s: State) {
    0 <= s.L < |s.procs| && (s.procs[s.L].pc.ToWake? || s.procs[s.L].pc.Waking?)
  }

  /** The process sleeps on the channel, or has made up its mind to. */
  predicate Waits(pr: Proc) {
    pr.asleep || pr.pc.ToSleep? || pr.pc.HasBoth? || pr.pc.Parking? || pr.pc.Marked?
  }

  predicate ProcOk(s: State, p: int) {
    0 <= p < |s.procs| &&
    var pr := s.procs[p];
    && (HasL(pr.pc) <==> s.L == p)
    && (HasT(pr.pc) <==> s.T == p)
    && (pr.asleep ==> pr.chan && (pr.pc.Sleepy? || pr.pc.Away?))
    && (pr.pc.Marked? ==> pr.chan)
    && (pr.pc.Sleepy? ==> pr.chan && pr.asleep)
    && (Waits(pr) ==> Blocked(s.v) || WakePending(s))
  }

  ghost predicate Inv(s: State) {
    && -1 <= s.L < |s.procs| && -1 <= s.T < |s.procs|
    && forall p {:trigger ProcOk(s, p)} :: 0 <= p < |s.procs| ==> ProcOk(s, p)
  }

  lemma Own(s: State, a: Action)
    requires Inv(s) && Enabled(s, a)
    ensures ProcOk(Step(s, a), a.p)
  {
    assert ProcOk(s, a.p);
  }

  lemma Other(s: State, a: Action, q: int)
    requires Inv(s) && Enabled(s, a) && 0 <= q < |s.procs| && q != a.p
    ensures ProcOk(Step(s, a), q)
  {
    assert ProcOk(s, a.p) && ProcOk(s, q);
    if a.Go? && s.procs[a.p].pc.Doing? && Blocked(s.v) && !Blocked(Effect(s.v, s.procs[a.p].pc.op)) {
      UnblockingWakes(s.v, a.p, s.procs[a.p].pc.op);
    }
  }

  lemma StepKeepsInv(s: State, a: Action)
    requires Inv(s) && Enabled(s, a)
    ensures Inv(Step(s, a))
  {
    var r := Step(s, a);
    assert ProcOk(s, a.p);
    forall p | 0 <= p < |r.procs|
      ensures ProcOk(r, p)
    {
      if p == a.p {
        Own(s, a);
      } else {
        Other(s, a, p);
      }
    }
  }

  // ---------------------------------------------------------------- runs

  function Run(s: State, acts: seq<Action>): (r: State)
    ensures |r.procs| == |s.procs|
  {
    if acts == [] then s else
    var before, a := Run(s, acts[..|acts|-1]), acts[|acts|-1];
    if 0 <= a.p < |before.procs| then Step(before, a) else before
  }

  predicate Allowed(s: State, acts: seq<Action>) {
    acts != [] ==> Allowed(s, acts[..|acts|-1]) && Enabled(Run(s, acts[..|acts|-1]), acts[|acts|-1])
  }

  predicate Boot(s: State) {
    && (s.v == LockVars(-1) || s.v == LogVars(0, 0, false)) && s.L == -1 && s.T == -1 && s.hist == []
    && forall p :: 0 <= p < |s.procs| ==> s.procs[p] == Proc(Idle, false, false)
  }

  lemma {:induction false} RunKeepsInv(s: State, acts: seq<Action>)
    requires Boot(s) && Allowed(s, acts)
    ensures Inv(Run(s, acts))
  {
    if acts == [] {
      forall p | 0 <= p < |s.procs|
        ensures ProcOk(s, p)
      {
        assert s.procs[p] == Proc(Idle, false, false);
      }
    } else {
      RunKeepsInv(s, acts[..|acts|-1]);
      StepKeepsInv(Run(s, acts[..|acts|-1]), acts[|acts|-1]);
    }
  }

  /** The log is either idle and empty, or running operations, or committing with none running. */
  predicate LogOk(v: Vars) {
    v.LogVars? ==>
      v.outstanding >= 0 && (v.committing ==> v.outstanding == 0) && (!v.committing && v.outstanding == 0 ==> v.n == 0)
  }

  /** Event `i` of a sleep lock: entries and releases take turns, and each release is by the process
      that entered just before. */
  predicate Turn(hist: seq<Event>, i: int) {
    && 0 <= i < |hist| && hist[i].p >= 0
    && (i % 2 == 0 ==> hist[i].DidEnter?)
    && (i % 2 == 1 ==> hist[i] == DidOp(hist[i-1].p, Release))
  }

  /** Holders take turns, and the lock's holder is the last one in that is not out. */
  ghost predicate TurnOk(v: Vars, hist: seq<Event>) {
    v.LockVars? ==>
      && (forall i {:trigger Turn(hist, i)} :: 0 <= i < |hist| ==> Turn(hist, i))
      && v.owner == (if |hist| % 2 == 1 then hist[|hist|-1].p else -1)
  }

  lemma NextTurn(v: Vars, hist: seq<Event>, e: Event)
    requires v.LockVars? && TurnOk(v, hist) && e.p >= 0 && (if e.DidEnter? then !Blocked(v) else May(v, e.p, e.op))
    ensures TurnOk(if e.DidEnter? then Enter(v, e.p) else Effect(v, e.op), hist + [e])
  {
    var r := hist + [e];
    assert hist != [] ==> Turn(hist, |hist| - 1);
    forall i | 0 <= i < |r|
      ensures Turn(r, i)
    {
      if i < |hist| {
        assert Turn(hist, i);
      }
    }
  }

  lemma StepKeepsTurns(s: State, a: Action)
    requires Enabled(s, a) && TurnOk(s.v, s.hist)
    ensures TurnOk(Step(s, a).v, Step(s, a).hist)
  {
    if a.Go? && s.v.LockVars? {
      if s.procs[a.p].pc.Doing? {
        NextTurn(s.v, s.hist, DidOp(a.p, s.procs[a.p].pc.op));
      } else if s.procs[a.p].pc.Testing? && !Blocked(s.v) {
        NextTurn(s.v, s.hist, DidEnter(a.p));
      }
    }
  }

  lemma StepKeepsLog(s: State, a: Action)
    requires Enabled(s, a) && LogOk(s.v)
    ensures LogOk(Step(s, a).v) && (Step(s, a).v.LockVars? <==> s.v.LockVars?)
  {
  }

  lemma {:induction false} RunKeepsVars(s: State, acts: seq<Action>)
    requires Boot(s) && Allowed(s, acts)
    ensures LogOk(Run(s, acts).v) && TurnOk(Run(s, acts).v, Run(s, acts).hist)
    ensures Run(s, acts).v.LockVars? <==> s.v.LockVars?
  {
    if acts != [] {
      RunKeepsVars(s, acts[..|acts|-1]);
      StepKeepsTurns(Run(s, acts[..|acts|-1]), acts[|acts|-1]);
      StepKeepsLog(Run(s, acts[..|acts|-1]), acts[|acts|-1]);
    }
  }

  /** Mutual exclusion over any run: between two entries to a sleep lock its first holder let it go. */
  lemma OneHolder(s: State, acts: seq<Action>, i: nat, j: nat)
    requires Boot(s) && s.v.LockVars? && Allowed(s, acts)
    requires i < j < |Run(s, acts).hist| && Run(s, acts).hist[i].DidEnter? && Run(s, acts).hist[j].DidEnter?
    ensures i + 1 < j && Run(s, acts).hist[i + 1] == DidOp(Run(s, acts).hist[i].p, Release)
  {
    RunKeepsVars(s, acts);
    TakeTurns(Run(s, acts).v, Run(s, acts).hist, i, j);
  }

  lemma TakeTurns(v: Vars, hist: seq<Event>, i: nat, j: nat)
    requires v.LockVars? && TurnOk(v, hist) && i < j < |hist| && hist[i].DidEnter? && hist[j].DidEnter?
    ensures i + 1 < j && hist[i + 1] == DidOp(hist[i].p, Release)
  {
    assert Turn(hist, i) && Turn(hist, i + 1) && Turn(hist, j);
  }

  /** No wakeup is lost in any interleaving, whoever is killed and when: a process asleep on a sleep
      lock means that the lock is held, and one asleep in `begin_op` that an operation or a commit is in
      progress, or else someone is about to wake them. */
  lemma NoLostWakeup(s: State, acts: seq<Action>, p: int)
    requires Boot(s) && Allowed(s, acts) && 0 <= p < |s.procs| && Run(s, acts).procs[p].asleep
    ensures var r := Run(s, acts);
            WakePending(r) ||
            match r.v
            case LockVars(owner) => owner != -1
            case LogVars(n, out, c) => c || (out >= 1 && n + (out + 1) * MAXOPBLOCKS > LOGSIZE)
  {
    RunKeepsInv(s, acts);
    RunKeepsVars(s, acts);
    assert ProcOk(Run(s, acts), p);
  }

  // ---------------------------------------------------------------- what the variables mean

  /** How many operations have begun and not ended. */
  function Outstanding(hist: seq<Event>): (n: int) {
    if hist == [] then 0 else
    var e := hist[|hist|-1];
    Outstanding(hist[..|hist|-1]) + if e.DidEnter? then 1 else if e.op == EndOp then -1 else 0
  }

  /** How many blocks have been logged since the last commit ended. */
  function LoggedSince(hist: seq<Event>): (n: nat) {
    if hist == [] then 0 else
    var e := hist[|hist|-1];
    if e.DidOp? && e.op == EndCommit then 0
    else LoggedSince(hist[..|hist|-1]) + if e.DidOp? && e.op == LogWrite then 1 else 0
  }

  /** The last operation out has begun a commit, and it has not ended. */
  predicate CommitBegun(hist: seq<Event>) {
    hist != [] &&
    var e, front := hist[|hist|-1], hist[..|hist|-1];
    if e.DidOp? && e.op == EndCommit then false
    else CommitBegun(front) || (e.DidOp? && e.op == EndOp && Outstanding(front) == 1)
  }

  ghost predicate Counts(v: Vars, hist: seq<Event>) {
    v.LogVars? ==> v == LogVars(LoggedSince(hist), Outstanding(hist), CommitBegun(hist))
  }

  /** The last thing done to the variables was `e`. */
  predicate LastIs(hist: seq<Event>, e: Event) {
    hist != [] && hist[|hist|-1] == e
  }

  /** Nobody gets past waiting without having entered, or leaves after an operation without having done it. */
  predicate Recorded(s: State, p: int) {
    0 <= p < |s.procs| &&
    var pc := s.procs[p].pc;
    && (pc.Entered? ==> LastIs(s.hist, DidEnter(p)))
    && (pc.ToWake? || pc.Waking? || pc.Woken? || pc.Leaving? ==> exists op :: LastIs(s.hist, DidOp(p, op)))
  }

  lemma StepRecords(s: State, a: Action, p: int)
    requires Inv(s) && Enabled(s, a) && Recorded(s, p)
    ensures Recorded(Step(s, a), p)
  {
    assert ProcOk(s, p) && ProcOk(s, a.p);
    var r := Step(s, a);
    if a.Go? && s.procs[a.p].pc.Doing? {
      assert LastIs(r.hist, DidOp(a.p, s.procs[a.p].pc.op));
    }
  }

  lemma StepCounts(s: State, a: Action)
    requires Enabled(s, a) && Counts(s.v, s.hist)
    ensures Counts(Step(s, a).v, Step(s, a).hist)
  {
    var r := Step(s, a);
    if r.hist != s.hist {
      assert r.hist[..|r.hist|-1] == s.hist;
    }
  }

  /** In any run the log's counters say how many operations are under way, how many blocks they logged, and
      whether a commit is, going by what was done; and what is done is all recorded. */
  lemma {:induction false} CountersMean(s: State, acts: seq<Action>, p: int)
    requires Boot(s) && Allowed(s, acts) && 0 <= p < |s.procs|
    ensures Counts(Run(s, acts).v, Run(s, acts).hist) && Recorded(Run(s, acts), p)
  {
    if acts != [] {
      var front, a := acts[..|acts|-1], acts[|acts|-1];
      CountersMean(s, front, p);
      RunKeepsInv(s, front);
      StepCounts(Run(s, front), a);
      StepRecords(Run(s, front), a, p);
    }
  }

  /** Who tests the condition goes on exactly if the lock is free, or if no commit is under way and the log has room
      for ten blocks of every operation, the new one included; otherwise it makes for sleep. */
  lemma EntersExactly(s: State, p: int)
    requires Enabled(s, Go(p)) && s.procs[p].pc.Testing?
    ensures var r := Step(s, Go(p));
            && (r.procs[p].pc.Entered? <==>
                  match s.v
                  case LockVars(owner) => owner == -1
                  case LogVars(n, out, c) => !c && n + (out + 1) * 10 <= 30)
            && (!r.procs[p].pc.Entered? ==> r.procs[p].pc.ToSleep? && r.v == s.v)
  {
  }

  /** A killed sleeper can run again, whatever it waits for. */
  lemma KilledRuns(s: State, p: int)
    requires Inv(s) && Enabled(s, Kill(p)) && s.procs[p].pc.Away?
    ensures Enabled(Step(s, Kill(p)), Go(p))
  {
  }

  // ---------------------------------------------------------------- a process left alone

  /** `n` steps of process `p` and of nobody else. */
  function Alone(p: int, n: nat): (acts: seq<Action>) {
    seq(n, _ => Go(p))
  }

  /** `s` with process `p` and the two spin locks as given. */
  function Seat(s: State, p: int, L: int, T: int, pr: Proc): (r: State)
    requires 0 <= p < |s.procs|
  {
    s.(L := L, T := T, procs := s.procs[p := pr])
  }

  /** After `n` steps alone, process `p` has got from `s` to `x`. */
  predicate Gets(s: State, p: int, n: nat, x: State) {
    Allowed(s, Alone(p, n)) && Run(s, Alone(p, n)) == x
  }

  lemma GetsOn(s: State, p: int, n: nat, x: State, y: State)
    requires Gets(s, p, n, x) && Enabled(x, Go(p)) && Step(x, Go(p)) == y
    ensures Gets(s, p, n + 1, y)
  {
    assert Alone(p, n + 1)[..n] == Alone(p, n);
  }

  /** Who finds it must wait is asleep on the channel six steps later, and has let go of both spin locks. */
  lemma GoesToSleep(s: State, p: int)
    requires Inv(s) && 0 <= p < |s.procs| && s.procs[p].pc.Testing? && Blocked(s.v) && s.T == -1
    ensures Gets(s, p, 6, Seat(s, p, -1, -1, Proc(Away, true, true)))
  {
    var pr := s.procs[p];
    assert ProcOk(s, p);
    GetsOn(s, p, 0, s, Seat(s, p, p, -1, pr.(pc := ToSleep)));
    GetsOn(s, p, 1, Seat(s, p, p, -1, pr.(pc := ToSleep)), Seat(s, p, p, p, pr.(pc := HasBoth)));
    GetsOn(s, p, 2, Seat(s, p, p, p, pr.(pc := HasBoth)), Seat(s, p, -1, p, pr.(pc := Parking)));
    Parks(s, p, pr.(pc := Parking));
  }

  lemma Parks(s: State, p: int, pr: Proc)
    requires 0 <= p < |s.procs| && pr.pc.Parking? && Gets(s, p, 3, Seat(s, p, -1, p, pr))
    ensures Gets(s, p, 6, Seat(s, p, -1, -1, Proc(Away, true, true)))
  {
    GetsOn(s, p, 3, Seat(s, p, -1, p, pr), Seat(s, p, -1, p, Proc(Marked, true, pr.asleep)));
    GetsOn(s, p, 4, Seat(s, p, -1, p, Proc(Marked, true, pr.asleep)), Seat(s, p, -1, p, Proc(Sleepy, true, true)));
    GetsOn(s, p, 5, Seat(s, p, -1, p, Proc(Sleepy, true, true)), Seat(s, p, -1, -1, Proc(Away, true, true)));
  }

  /** Who was woken is back to test the condition three steps later, off the channel. */
  lemma ComesBack(s: State, p: int)
    requires 0 <= p < |s.procs| && s.procs[p].pc.Away? && !s.procs[p].asleep && s.L == -1 && s.T == -1
    ensures Gets(s, p, 3, Seat(s, p, p, -1, Proc(Testing, false, false)))
  {
    var pr := s.procs[p];
    GetsOn(s, p, 0, s, Seat(s, p, -1, p, pr.(pc := Resumed)));
    GetsOn(s, p, 1, Seat(s, p, -1, p, pr.(pc := Resumed)), Seat(s, p, -1, -1, Proc(WantBack, false, false)));
    GetsOn(s, p, 2, Seat(s, p, -1, -1, Proc(WantBack, false, false)), Seat(s, p, p, -1, Proc(Testing, false, false)));
  }

  /** Who has to wake the others has done so four steps later, and has let go of both spin locks. */
  lemma WakesEveryone(s: State, p: int)
    requires Inv(s) && 0 <= p < |s.procs| && s.procs[p].pc.ToWake? && s.T == -1
    ensures var r := s.(procs := Wake(s.procs));
            && Gets(s, p, 4, Seat(r, p, -1, -1, s.procs[p].(pc := Idle)))
            && forall q :: 0 <= q < |r.procs| ==> !r.procs[q].asleep
  {
    var pr, r := s.procs[p], s.(procs := Wake(s.procs));
    assert ProcOk(s, p);
    GetsOn(s, p, 0, s, Seat(s, p, p, p, pr.(pc := Waking)));
    WakingStep(s, p, pr.(pc := Waking));
    GetsOn(s, p, 1, Seat(s, p, p, p, pr.(pc := Waking)), Seat(r, p, p, p, pr.(pc := Woken)));
    Leaves(s, p, r, pr.(pc := Woken));
    AllAwake(s);
  }

  lemma Leaves(s: State, p: int, r: State, pr: Proc)
    requires 0 <= p < |r.procs| && pr.pc.Woken? && Gets(s, p, 2, Seat(r, p, p, p, pr))
    ensures Gets(s, p, 4, Seat(r, p, -1, -1, pr.(pc := Idle)))
  {
    GetsOn(s, p, 2, Seat(r, p, p, p, pr), Seat(r, p, p, -1, pr.(pc := Leaving)));
    GetsOn(s, p, 3, Seat(r, p, p, -1, pr.(pc := Leaving)), Seat(r, p, -1, -1, pr.(pc := Idle)));
  }

  lemma WakingStep(s: State, p: int, pr: Proc)
    requires 0 <= p < |s.procs| && pr.pc.Waking?
    ensures Step(Seat(s, p, p, p, pr), Go(p)) == Seat(s.(procs := Wake(s.procs)), p, p, p, pr.(pc := Woken))
  {
    assert Wake(s.procs[p := pr])[p := pr.(pc := Woken)] == Wake(s.procs)[p := pr.(pc := Woken)];
  }

  lemma AllAwake(s: State)
    requires Inv(s)
    ensures forall q :: 0 <= q < |s.procs| ==> !Wake(s.procs)[q].asleep
  {
    forall q | 0 <= q < |s.procs|
      ensures !Wake(s.procs)[q].asleep
    {
      assert ProcOk(s, q);
    }
  }

  /** `log_write`, and `end_op` of the last operation out, wake nobody: the latter leaves that to the commit. */
  lemma LeavesThemAsleep(s: State, p: int, op: Op)
    requires 0 <= p < |s.procs| && s.procs[p].pc == Doing(op) && s.v.LogVars? && s.v.outstanding >= 1
    requires op == LogWrite || (op == EndOp && s.v.outstanding == 1)
    ensures var r := s.(v := Effect(s.v, op), hist := s.hist + [DidOp(p, op)]);
            && Gets(s, p, 2, Seat(r, p, -1, s.T, s.procs[p].(pc := Idle)))
            && (op == EndOp ==> r.v.committing)
  {
    var pr, r := s.procs[p], s.(v := Effect(s.v, op), hist := s.hist + [DidOp(p, op)]);
    GetsOn(s, p, 0, s, Seat(r, p, s.L, s.T, pr.(pc := Leaving)));
    GetsOn(s, p, 1, Seat(r, p, s.L, s.T, pr.(pc := Leaving)), Seat(r, p, -1, s.T, pr.(pc := Idle)));
  }

  /** `end_op` of any other operation, and the end of a commit, leave the caller to wake everyone. */
  lemma MakesForWaking(s: State, p: int, op: Op)
    requires 0 <= p < |s.procs| && s.procs[p].pc == Doing(op) && s.v.LogVars?
    requires (op == EndOp && s.v.outstanding > 1) || (op == EndCommit && s.v.committing)
    ensures Enabled(s, Go(p)) && Step(s, Go(p)).procs[p].pc.ToWake?
  {
  }

  /** An operation that ends never finds a commit under way, so `end_op` does not panic. */
  lemma EndOpFindsNoCommit(s: State, acts: seq<Action>, p: int)
    requires Boot(s) && Allowed(s, acts) && Run(s, acts).v.LogVars? && May(Run(s, acts).v, p, EndOp)
    ensures !Run(s, acts).v.committing
  {
    RunKeepsVars(s, acts);
  }

  /** A pending wake gets through: the waker holds L until it has woken every sleeper. */
  lemma WakeReachesAll(s: State, p: int)
    requires Inv(s) && s.L == p && p >= 0 && s.procs[p].pc.Waking?
    ensures Enabled(s, Go(p)) && forall q :: 0 <= q < |s.procs| ==> !Waits(Step(s, Go(p)).procs[q])
  {
    var r := Step(s, Go(p));
    forall q | 0 <= q < |s.procs|
      ensures !Waits(r.procs[q])
    {
      assert ProcOk(s, q) && ProcOk(s, p);
    }
  }
}
