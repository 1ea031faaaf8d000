/** The code of the log takes the steps of the state machine: each operation, from a log that matches a state,
    leaves one that matches the state after the step, and stops or panics exactly when the step is not enabled. */
module LogRefinement {
  import opened Common
  import opened BlockDevice
  import opened RedoLog
  import opened GroupCommit
  import opened LogManager

  /** The fields of the log between commits are those of the state; the state knows more, the history. */
  ghost predicate Matches(log: Log, s: State)
    reads log
  {
    && log.Valid() && !log.committing && s.phase.Running?
    && log.disk == s.disk && log.pinned == s.pinned && log.lh == s.lh && log.outstanding == |s.active|
  }

  /** `begin_op` is admitted exactly when the step is enabled. */
  method BeginRefines(log: Log, ghost budget: nat, ghost s: State) returns (admitted: bool)
    requires Matches(log, s)
    modifies log
    ensures admitted == Enabled(log.g, budget, s, Begin)
    ensures Matches(log, if admitted then Step(log.g, s, Begin) else s)
  {
    admitted := log.BeginOp();
  }

  /** `log_write` by operation `i` is the step, and its size panic is that of the state machine. */
  method LogWriteRefines(log: Log, ghost s: State, ghost i: nat, b: nat, data: Block) returns (o: Outcome)
    requires Matches(log, s) && i < |s.active| && log.g.Home(b)
    modifies log
    ensures o.TooBig? == LogFull(log.g, s) && !o.OutsideTransaction?
    ensures Matches(log, if o.Logged? then Step(log.g, s, LogWrite(i, b, data)) else s)
  {
    o := log.LogWrite(b, data);
  }

  // ---------------------------------------------------------------- commit and recovery, write by write

  function Advances(g: Geometry, s: State, n: nat): (r: State) {
    if n == 0 then s else Step(g, Advances(g, s, n - 1), Advance)
  }

  /** The state when the commit or recovery that begins in `s` has ended. */
  function Finished(g: Geometry, s: State): (r: State) {
    Advances(g, s, |Pending(g, s)| + 1)
  }

  lemma {:induction false} AdvancesAre(g: Geometry, s: State, n: nat)
    requires !s.phase.Running? && s.phase.base == s.disk && s.phase.k == 0 && n <= |Pending(g, s)|
    ensures Advances(g, s, n) == s.(disk := Apply(s.disk, Pending(g, s)[..n]), phase := s.phase.(k := n))
  {
    if n > 0 {
      AdvancesAre(g, s, n - 1);
      NextWrite(g, s, Advances(g, s, n - 1), Pending(g, s), n - 1);
    }
  }

  lemma NextWrite(g: Geometry, s: State, t: State, ws: seq<Write>, n: nat)
    requires !s.phase.Running? && s.phase.base == s.disk && s.phase.k == 0 && ws == Pending(g, s) && n < |ws|
    requires t == s.(disk := Apply(s.disk, ws[..n]), phase := s.phase.(k := n))
    ensures Step(g, t, Advance) == s.(disk := Apply(s.disk, ws[..n + 1]), phase := s.phase.(k := n + 1))
  {
    SamePending(g, s, t);
    ApplyNext(s.disk, ws, n);
  }

  /** In the end all its writes are done, and the log is empty and running. */
  lemma FinishedIs(g: Geometry, s: State)
    requires !s.phase.Running? && s.phase.base == s.disk && s.phase.k == 0
    ensures Finished(g, s) == s.(disk := Apply(s.disk, Pending(g, s)), phase := Running, lh := [], pinned := map[],
                                 durable := |s.history|, groupStart := s.nextOp)
  {
    var ws := Pending(g, s);
    AdvancesAre(g, s, |ws|);
    assert ws[..|ws|] == ws;
    SamePending(g, s, Advances(g, s, |ws|));
  }

  /** `end_op` of operation `i` is its last step; the last operation out then takes every step of the commit. */
  method EndRefines(log: Log, ghost s: State, ghost i: nat) returns (committed: bool)
    requires Matches(log, s) && i < |s.active|
    modifies log
    ensures committed == (|s.active| == 1)
    ensures Matches(log, if committed then Finished(log.g, Step(log.g, s, End(i))) else Step(log.g, s, End(i)))
  {
    ghost var t := Step(log.g, s, End(i));
    if |s.active| == 1 {
      PendingCommit(log.g, t);
      FinishedIs(log.g, t);
    }
    committed := log.EndOp();
  }

  /** Recovery at boot takes every step of the recovery. */
  method RecoverRefines(log: Log, ghost s: State)
    requires ValidDisk(log.g, log.disk) && log.pinned == map[] && log.outstanding == 0 && !log.committing
    requires s.phase == Recovering(log.disk, 0) && s.disk == log.disk && s.active == []
    modifies log
    ensures Matches(log, Finished(log.g, s))
  {
    PendingRecover(log.g, s);
    FinishedIs(log.g, s);
    log.RecoverFromLog();
  }
}
