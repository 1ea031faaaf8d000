/** Whole runs of many file operations over the group-committing log, their changes and their calls of
    `log_write` interleaved in any way: whenever the power fails, the recovered disk has the files as they
    were at a moment of the run at which no operation was under way. */
module FileRuns {
  import opened Common
  import opened BlockDevice
  import opened RedoLog
  import opened GroupCommit
  import opened DiskFormat
  import opened FileSystem
  import opened FileOps
  import opened CrashSafety

  datatype Snapshot = Snapshot(fs: Fs, disk: seq<Inode>)

  /** The log and the file system above it. `dirty` says which operation changed a block last that was not
      logged since; `saved` is the file system as of the last commit. */
  datatype Joint = Joint(s: State, now: Snapshot, dirty: map<nat, nat>, saved: Snapshot)

  datatype FileAction =
    | BeginOp
    | Change(i: nat, next: Snapshot)
    | Log(i: nat, b: nat, image: Image)
    | EndOp(i: nat)
    | Progress
    | PowerFail(r: Disk)

  function Start(g: Geometry, h: Disk, first: Snapshot): (j: Joint) {
    Joint(Init(g, h), first, map[], first)
  }

  function ImageIn(l: Layout, x: Snapshot, b: int): (r: Image) {
    ImageOf(l, x.fs, x.disk, b)
  }

  /** The blocks that store something else in `y` than in `x`. */
  function Changed(l: Layout, x: Snapshot, y: Snapshot): (bs: set<nat>) {
    set b: nat | l.inodestart <= b < l.size && ImageIn(l, x, b) != ImageIn(l, y, b)
  }

  /** What the log does in a step; a change in memory is none of its business. */
  function LogAction(enc: Image -> Block, a: FileAction): (r: Option<Action>) {
    match a
    case BeginOp => Some(Begin)
    case Change(_, _) => None
    case Log(i, b, image) => Some(LogWrite(i, b, enc(image)))
    case EndOp(i) => Some(End(i))
    case Progress => Some(Advance)
    case PowerFail(r) => Some(Crash(r))
  }

  /** An operation under way may change anything in memory; it ends only after it has logged every block it
      was the last to change. */
  predicate Allowed(g: Geometry, enc: Image -> Block, budget: nat, j: Joint, a: FileAction) {
    && (LogAction(enc, a).Some? ==> Enabled(g, budget, j.s, LogAction(enc, a).value))
    && (a.Change? ==> j.s.phase.Running? && a.i < |j.s.active|)
    && (a.EndOp? ==> a.i < |j.s.active| && forall b :: b in j.dirty ==> j.dirty[b] != j.s.active[a.i].id)
  }

  /** What the disk will have after a crash that leaves `r`. */
  function Survivor(g: Geometry, j: Joint, r: Disk): (x: Snapshot) {
    if Survives(g, j.s, r) == j.s.durable then j.saved else j.now
  }

  function FileStep(g: Geometry, l: Layout, enc: Image -> Block, j: Joint, a: FileAction): (r: Joint) {
    var s := if LogAction(enc, a).Some? then Step(g, j.s, LogAction(enc, a).value) else j.s;
    match a
    case BeginOp => j.(s := s)
    case EndOp(_) => j.(s := s)
    case Change(i, next) =>
      if i >= |j.s.active| then j else
      j.(now := next, dirty := j.dirty + map b | b in Changed(l, j.now, next) :: j.s.active[i].id)
    case Log(i, b, image) =>
      if i >= |j.s.active| then j else
      j.(s := s, dirty := if image == ImageIn(l, j.now, b) then j.dirty - {b} else j.dirty[b := j.s.active[i].id])
    case Progress => j.(s := s, saved := if s.phase.Running? then j.now else j.saved)
    case PowerFail(r) =>
      var x := Survivor(g, j, r);
      Joint(s, Snapshot(OnDisk(x.fs, x.disk), x.disk), map[], x)
  }

  /** The state after a sequence of actions. */
  function FilesAfter(g: Geometry, l: Layout, enc: Image -> Block, j: Joint, acts: seq<FileAction>): (r: Joint) {
    if acts == [] then j else FileStep(g, l, enc, FilesAfter(g, l, enc, j, acts[..|acts|-1]), acts[|acts|-1])
  }

  predicate FileRun(g: Geometry, l: Layout, enc: Image -> Block, budget: nat, j: Joint, acts: seq<FileAction>) {
    acts != [] ==>
      && FileRun(g, l, enc, budget, j, acts[..|acts|-1])
      && Allowed(g, enc, budget, FilesAfter(g, l, enc, j, acts[..|acts|-1]), acts[|acts|-1])
  }

  // ---------------------------------------------------------------- the invariant

  /** All home blocks but `but` store the file system. */
  ghost predicate StoresBut(l: Layout, enc: Image -> Block, d: Disk, x: Snapshot, but: map<nat, nat>) {
    |d| == l.size && forall b: nat :: l.inodestart <= b < l.size && b !in but ==> d[b] == enc(ImageIn(l, x, b))
  }

  ghost predicate StoresAll(l: Layout, enc: Image -> Block, d: Disk, x: Snapshot) {
    Stores(l, enc, d, x.fs, x.disk)
  }

  /** The durable part of the history. */
  function Kept(j: Joint): (es: seq<Event>) {
    if j.s.durable <= |j.s.history| then j.s.history[..j.s.durable] else j.s.history
  }

  /** A block not logged since it changed has an operation to do it. */
  predicate DirtyOwned(j: Joint) {
    forall b :: b in j.dirty ==> exists i :: 0 <= i < |j.s.active| && j.s.active[i].id == j.dirty[b]
  }

  /** Everything logged so far amounts to the file system in memory, but for dirty blocks; what is durable
      amounts to the file system as of the last commit. */
  ghost predicate Amounts(l: Layout, enc: Image -> Block, h: Disk, j: Joint) {
    && StoresBut(l, enc, Replay(h, j.s.history), j.now, j.dirty)
    && StoresAll(l, enc, Replay(h, Kept(j)), j.saved)
  }

  ghost predicate FileInv(g: Geometry, l: Layout, enc: Image -> Block, h: Disk, j: Joint) {
    Inv(g, h, j.s) && DirtyOwned(j) && Amounts(l, enc, h, j)
  }

  lemma QuietStores(g: Geometry, l: Layout, enc: Image -> Block, h: Disk, j: Joint)
    requires FileInv(g, l, enc, h, j) && j.s.active == []
    ensures j.dirty == map[] && StoresAll(l, enc, Replay(h, j.s.history), j.now)
  {
    assert forall b :: b !in j.dirty;
  }

  lemma ReplayMore(h: Disk, es: seq<Event>, e: Event, b: nat)
    requires b < |h|
    ensures Replay(h, es + [e])[b] == if e.w.bno == b then e.w.data else Replay(h, es)[b]
  {
    assert (es + [e])[..|es|] == es;
  }

  lemma StartInv(g: Geometry, l: Layout, enc: Image -> Block, h: Disk, first: Snapshot)
    requires Settled(g, h, h) && StoresAll(l, enc, h, first)
    ensures FileInv(g, l, enc, h, Start(g, h, first))
  {
    InvInit(g, h);
  }

  lemma ChangeAmounts(g: Geometry, l: Layout, enc: Image -> Block, h: Disk, j: Joint, i: nat, next: Snapshot)
    requires Amounts(l, enc, h, j) && DirtyOwned(j) && i < |j.s.active|
    ensures Amounts(l, enc, h, FileStep(g, l, enc, j, Change(i, next)))
    ensures DirtyOwned(FileStep(g, l, enc, j, Change(i, next)))
  {
    var j' := FileStep(g, l, enc, j, Change(i, next));
    forall b: nat | l.inodestart <= b < l.size && b !in j'.dirty
      ensures Replay(h, j.s.history)[b] == enc(ImageIn(l, next, b))
    {
      assert b !in Changed(l, j.now, next);
    }
  }

  lemma LogAmounts(g: Geometry, l: Layout, enc: Image -> Block, h: Disk, j: Joint, i: nat, b: nat, image: Image)
    requires Amounts(l, enc, h, j) && i < |j.s.active| && j.s.durable <= |j.s.history|
    ensures Amounts(l, enc, h, FileStep(g, l, enc, j, Log(i, b, image)))
  {
    var j' := FileStep(g, l, enc, j, Log(i, b, image));
    var e := Event(j.s.active[i].id, Write(b, enc(image)));
    assert j'.s.history == j.s.history + [e] && Kept(j') == Kept(j);
    forall c: nat | l.inodestart <= c < l.size && c !in j'.dirty
      ensures Replay(h, j'.s.history)[c] == enc(ImageIn(l, j.now, c))
    {
      ReplayMore(h, j.s.history, e, c);
    }
  }

  lemma LogKeepsOwners(g: Geometry, l: Layout, enc: Image -> Block, j: Joint, i: nat, b: nat, image: Image)
    requires DirtyOwned(j) && i < |j.s.active|
    ensures DirtyOwned(FileStep(g, l, enc, j, Log(i, b, image)))
  {
    var j' := FileStep(g, l, enc, j, Log(i, b, image));
    forall c | c in j'.dirty
      ensures exists k :: 0 <= k < |j'.s.active| && j'.s.active[k].id == j'.dirty[c]
    {
      var k :| 0 <= k < |j.s.active| && j.s.active[k].id == j'.dirty[c];
      assert j'.s.active[k].id == j.s.active[k].id;
    }
  }

  lemma EndKeepsOwners(g: Geometry, l: Layout, enc: Image -> Block, budget: nat, j: Joint, i: nat)
    requires DirtyOwned(j) && Allowed(g, enc, budget, j, EndOp(i))
    ensures DirtyOwned(FileStep(g, l, enc, j, EndOp(i)))
  {
    var j' := FileStep(g, l, enc, j, EndOp(i));
    forall c | c in j'.dirty
      ensures exists k :: 0 <= k < |j'.s.active| && j'.s.active[k].id == j'.dirty[c]
    {
      var k :| 0 <= k < |j.s.active| && j.s.active[k].id == j.dirty[c];
      assert j'.s.active[if k < i then k else k - 1].id == j.dirty[c];
    }
  }

  lemma BeginKeepsOwners(g: Geometry, l: Layout, enc: Image -> Block, j: Joint)
    requires DirtyOwned(j)
    ensures DirtyOwned(FileStep(g, l, enc, j, BeginOp))
  {
    var j' := FileStep(g, l, enc, j, BeginOp);
    forall c | c in j'.dirty
      ensures exists k :: 0 <= k < |j'.s.active| && j'.s.active[k].id == j'.dirty[c]
    {
      var k :| 0 <= k < |j.s.active| && j.s.active[k].id == j.dirty[c];
      assert j'.s.active[k].id == j.dirty[c];
    }
  }

  lemma ProgressAmounts(g: Geometry, l: Layout, enc: Image -> Block, h: Disk, j: Joint)
    requires Amounts(l, enc, h, j) && StoresAll(l, enc, Replay(h, j.s.history), j.now) && j.s.durable <= |j.s.history|
    requires !j.s.phase.Running?
    ensures Amounts(l, enc, h, FileStep(g, l, enc, j, Progress))
  {
    var j' := FileStep(g, l, enc, j, Progress);
    assert j'.s.history == j.s.history;
    assert Kept(j') == if j'.s.phase.Running? then j.s.history else Kept(j);
  }

  /** The surviving file system is what the surviving history amounts to. */
  lemma SurvivorStored(g: Geometry, l: Layout, enc: Image -> Block, h: Disk, budget: nat, j: Joint, r: Disk)
    requires FileInv(g, l, enc, h, j) && Allowed(g, enc, budget, j, PowerFail(r))
    ensures StoresAll(l, enc, Replay(h, j.s.history[..Survives(g, j.s, r)]), Survivor(g, j, r))
    ensures Survivor(g, j, r) != j.saved ==> j.s.active == [] && Survives(g, j.s, r) == |j.s.history|
  {
    CrashIsPrefix(g, h, budget, j.s, r);
    if Survives(g, j.s, r) != j.s.durable {
      QuietStores(g, l, enc, h, j);
      assert j.s.history[..|j.s.history|] == j.s.history;
    }
  }

  /** A reboot reads the inodes back from disk. */
  lemma RebootStores(l: Layout, enc: Image -> Block, d: Disk, x: Snapshot)
    requires StoresAll(l, enc, d, x)
    ensures StoresBut(l, enc, d, Snapshot(OnDisk(x.fs, x.disk), x.disk), map[])
  {
    forall b
      ensures ImageIn(l, Snapshot(OnDisk(x.fs, x.disk), x.disk), b) == ImageIn(l, x, b)
    {
    }
  }

  lemma FailAmounts(g: Geometry, l: Layout, enc: Image -> Block, h: Disk, j: Joint, r: Disk)
    requires StoresAll(l, enc, Replay(h, j.s.history[..Survives(g, j.s, r)]), Survivor(g, j, r))
    ensures Amounts(l, enc, h, FileStep(g, l, enc, j, PowerFail(r)))
  {
    var kept, j' := j.s.history[..Survives(g, j.s, r)], FileStep(g, l, enc, j, PowerFail(r));
    RebootStores(l, enc, Replay(h, kept), Survivor(g, j, r));
    assert j'.s.history == kept && Kept(j') == kept;
  }

  lemma FileStepKeepsInv(g: Geometry, l: Layout, enc: Image -> Block, h: Disk, budget: nat, j: Joint, a: FileAction)
    requires FileInv(g, l, enc, h, j) && Allowed(g, enc, budget, j, a)
    ensures FileInv(g, l, enc, h, FileStep(g, l, enc, j, a))
  {
    if LogAction(enc, a).Some? {
      InvStep(g, h, budget, j.s, LogAction(enc, a).value);
    }
    match a
    case BeginOp => BeginKeepsOwners(g, l, enc, j);
    case EndOp(i) => EndKeepsOwners(g, l, enc, budget, j, i);
    case Change(i, next) => ChangeAmounts(g, l, enc, h, j, i, next);
    case Log(i, b, image) =>
      LogAmounts(g, l, enc, h, j, i, b, image);
      LogKeepsOwners(g, l, enc, j, i, b, image);
    case Progress =>
      QuietStores(g, l, enc, h, j);
      ProgressAmounts(g, l, enc, h, j);
    case PowerFail(r) =>
      SurvivorStored(g, l, enc, h, budget, j, r);
      FailAmounts(g, l, enc, h, j, r);
  }

  lemma {:induction false} FileRunInv(g: Geometry, l: Layout, enc: Image -> Block, h: Disk, budget: nat, j: Joint,
                                      acts: seq<FileAction>)
    requires FileInv(g, l, enc, h, j) && FileRun(g, l, enc, budget, j, acts)
    ensures FileInv(g, l, enc, h, FilesAfter(g, l, enc, j, acts))
  {
    if acts != [] {
      FileRunInv(g, l, enc, h, budget, j, acts[..|acts|-1]);
      FileStepKeepsInv(g, l, enc, h, budget, FilesAfter(g, l, enc, j, acts[..|acts|-1]), acts[|acts|-1]);
    }
  }

  /** How many operations are under way: those that began and did not end, since the last crash. */
  function Working(acts: seq<FileAction>): (n: int) {
    if acts == [] then 0 else
    var n := Working(acts[..|acts|-1]);
    match acts[|acts|-1]
    case BeginOp => n + 1
    case EndOp(_) => n - 1
    case PowerFail(_) => 0
    case _ => n
  }

  lemma {:induction false} WorkingIs(g: Geometry, l: Layout, enc: Image -> Block, h: Disk, budget: nat,
                                     first: Snapshot, acts: seq<FileAction>)
    requires FileRun(g, l, enc, budget, Start(g, h, first), acts)
    ensures |FilesAfter(g, l, enc, Start(g, h, first), acts).s.active| == Working(acts)
  {
    if acts != [] {
      WorkingIs(g, l, enc, h, budget, first, acts[..|acts|-1]);
    }
  }

  // ---------------------------------------------------------------- moments of a run

  /** After the first `k` actions no operation was under way, the file system was `x` and the history `kept`. */
  predicate Moment(g: Geometry, l: Layout, enc: Image -> Block, j: Joint, acts: seq<FileAction>, k: nat,
                   x: Snapshot, kept: seq<Event>) {
    && k <= |acts|
    && var m := FilesAfter(g, l, enc, j, acts[..k]);
       m.s.active == [] && m.now == x && m.s.history == kept
  }

  lemma SameMoment(g: Geometry, l: Layout, enc: Image -> Block, j: Joint, acts: seq<FileAction>, k: nat,
                   x: Snapshot, kept: seq<Event>)
    requires acts != [] && Moment(g, l, enc, j, acts[..|acts|-1], k, x, kept)
    ensures Moment(g, l, enc, j, acts, k, x, kept)
  {
    assert acts[..|acts|-1][..k] == acts[..k];
  }

  /** Nobody is at work while the log commits or recovers, and what is durable is part of the history. */
  predicate Orderly(s: State) {
    s.durable <= |s.history| && (!s.phase.Running? ==> s.active == [])
  }

  /** What survives a crash is the last commit, or the current group with nobody at work. */
  predicate CutsWhole(g: Geometry, s: State, r: Disk) {
    Survives(g, s, r) == s.durable || (Survives(g, s, r) == |s.history| && s.active == [])
  }

  /** A step leaves the last commit alone, or ends with a commit, or crashes after one. */
  lemma SavedNext(g: Geometry, l: Layout, enc: Image -> Block, budget: nat, j: Joint, a: FileAction)
    requires Orderly(j.s) && Allowed(g, enc, budget, j, a) && (a.PowerFail? ==> CutsWhole(g, j.s, a.r))
    ensures var j' := FileStep(g, l, enc, j, a);
            || (j'.saved == j.saved && Kept(j') == Kept(j))
            || (j'.s.active == [] && j'.saved == j'.now && Kept(j') == j'.s.history)
            || (j.s.active == [] && j'.saved == j.now && Kept(j') == j.s.history)
  {
    var j' := FileStep(g, l, enc, j, a);
    if a.Log? {
      assert j'.s.history[..j.s.durable] == j.s.history[..j.s.durable];
    }
  }

  lemma InOrder(g: Geometry, l: Layout, enc: Image -> Block, h: Disk, budget: nat, j: Joint, a: FileAction)
    requires FileInv(g, l, enc, h, j) && Allowed(g, enc, budget, j, a)
    ensures Orderly(j.s) && (a.PowerFail? ==> CutsWhole(g, j.s, a.r))
  {
    if a.PowerFail? {
      CrashHolds(g, h, j.s, a.r);
    }
  }

  /** The last commit is the file system of a quiet moment, with exactly the history of that moment. */
  lemma {:induction false} SavedMoment(g: Geometry, l: Layout, enc: Image -> Block, h: Disk, budget: nat, j: Joint,
                                       acts: seq<FileAction>) returns (k: nat)
    requires FileInv(g, l, enc, h, j) && FileRun(g, l, enc, budget, j, acts)
    requires j.s.active == [] && j.saved == j.now && Kept(j) == j.s.history
    ensures var m := FilesAfter(g, l, enc, j, acts); Moment(g, l, enc, j, acts, k, m.saved, Kept(m))
  {
    if acts == [] {
      return 0;
    }
    var front, a := acts[..|acts|-1], acts[|acts|-1];
    var m, m' := FilesAfter(g, l, enc, j, front), FilesAfter(g, l, enc, j, acts);
    FileRunInv(g, l, enc, h, budget, j, front);
    InOrder(g, l, enc, h, budget, m, a);
    SavedNext(g, l, enc, budget, m, a);
    k := SavedMoment(g, l, enc, h, budget, j, front);
    assert front[..|front|] == front && acts[..|acts|] == acts;
    if m'.saved == m.saved && Kept(m') == Kept(m) {
      SameMoment(g, l, enc, j, acts, k, m.saved, Kept(m));
    } else if m'.s.active == [] && m'.saved == m'.now && Kept(m') == m'.s.history {
      k := |acts|;
    } else {
      k := |front|;
      SameMoment(g, l, enc, j, acts, k, m.now, m.s.history);
    }
  }

  lemma SurvivorMoment(g: Geometry, l: Layout, enc: Image -> Block, h: Disk, budget: nat, j: Joint,
                       acts: seq<FileAction>, r: Disk, saved: nat) returns (k: nat)
    requires FileInv(g, l, enc, h, FilesAfter(g, l, enc, j, acts))
    requires var m := FilesAfter(g, l, enc, j, acts);
             Allowed(g, enc, budget, m, PowerFail(r)) && Moment(g, l, enc, j, acts, saved, m.saved, Kept(m))
    ensures var m := FilesAfter(g, l, enc, j, acts);
            Moment(g, l, enc, j, acts, k, Survivor(g, m, r), m.s.history[..Survives(g, m.s, r)])
  {
    var m := FilesAfter(g, l, enc, j, acts);
    InOrder(g, l, enc, h, budget, m, PowerFail(r));
    assert acts[..|acts|] == acts && m.s.history[..|m.s.history|] == m.s.history;
    k := if Survives(g, m.s, r) == m.s.durable then saved else |acts|;
  }

  /** Recovery after a crash of `j` that left `r` brings back the survivor, and of the history what it should. */
  ghost predicate Recovers(g: Geometry, l: Layout, enc: Image -> Block, j: Joint, r: Disk, x: Snapshot,
                           kept: seq<Event>) {
    && ValidDisk(g, r) && StoresAll(l, enc, Apply(r, RecoverWrites(g, r)), x)
    && kept <= j.s.history && j.s.durable <= |kept| && WholeOps(j.s, kept)
  }

  lemma SurvivorRecovered(g: Geometry, l: Layout, enc: Image -> Block, h: Disk, budget: nat, j: Joint, r: Disk)
    requires CrashSafety.Fits(g, l) && FileInv(g, l, enc, h, j) && Allowed(g, enc, budget, j, PowerFail(r))
    ensures Recovers(g, l, enc, j, r, Survivor(g, j, r), j.s.history[..Survives(g, j.s, r)])
  {
    var x, kept := Survivor(g, j, r), j.s.history[..Survives(g, j.s, r)];
    CrashIsPrefix(g, h, budget, j.s, r);
    SurvivorStored(g, l, enc, h, budget, j, r);
    SettledStores(g, l, enc, Apply(r, RecoverWrites(g, r)), Replay(h, kept), x.fs, x.disk);
  }

  // ---------------------------------------------------------------- the theorems

  /** A run of the whole from a disk that stores `first`. */
  ghost predicate Whole(g: Geometry, l: Layout, enc: Image -> Block, h: Disk, budget: nat, first: Snapshot,
                        acts: seq<FileAction>, r: Disk) {
    && Settled(g, h, h) && StoresAll(l, enc, h, first) && CrashSafety.Fits(g, l)
    && FileRun(g, l, enc, budget, Start(g, h, first), acts)
    && Allowed(g, enc, budget, FilesAfter(g, l, enc, Start(g, h, first), acts), PowerFail(r))
  }

  /** Over every run, however the operations interleave, crashed at any moment and any number of times before:
      the recovered disk stores the file system of a moment `k` at which no operation was under way. What has
      been logged by then is what survives: everything durable, each operation wholly or not at all, and
      nothing of one still under way. */
  lemma RunSurvivesCrash(g: Geometry, l: Layout, enc: Image -> Block, h: Disk, budget: nat, first: Snapshot,
                         acts: seq<FileAction>, r: Disk) returns (k: nat)
    requires Whole(g, l, enc, h, budget, first, acts, r)
    ensures k <= |acts|
    ensures var m := FilesAfter(g, l, enc, Start(g, h, first), acts[..k]);
            && m.s.active == []
            && Recovers(g, l, enc, FilesAfter(g, l, enc, Start(g, h, first), acts), r, m.now, m.s.history)
  {
    var j := Start(g, h, first);
    StartInv(g, l, enc, h, first);
    FileRunInv(g, l, enc, h, budget, j, acts);
    k := SavedMoment(g, l, enc, h, budget, j, acts);
    k := SurvivorMoment(g, l, enc, h, budget, j, acts, r, k);
    SurvivorRecovered(g, l, enc, h, budget, FilesAfter(g, l, enc, j, acts), r);
  }

  /** The disk stores `x`, and every file system in good order that it stores has the files of `x`. */
  ghost predicate Holds(l: Layout, enc: Image -> Block, d: Disk, x: Snapshot) {
    && StoresAll(l, enc, d, x)
    && forall fs, disk, i: nat {:trigger Stores(l, enc, d, fs, disk), StoredContent(fs, disk, i)} ::
         Good(l, fs, disk) && Stores(l, enc, d, fs, disk) ==> StoredContent(fs, disk, i) == Content(x.fs, i)
  }

  lemma HoldsContent(g: Geometry, l: Layout, enc: Image -> Block, d: Disk, x: Snapshot)
    requires CrashSafety.Fits(g, l) && Encodes(l, enc) && Good(l, x.fs, x.disk) && WrittenThrough(x.fs, x.disk)
    requires StoresAll(l, enc, d, x)
    ensures Holds(l, enc, d, x)
  {
    forall fs, disk, i: nat | Good(l, fs, disk) && Stores(l, enc, d, fs, disk)
      ensures StoredContent(fs, disk, i) == Content(x.fs, i)
    {
      StoredUnique(g, l, enc, d, fs, disk, x.fs, x.disk, i);
      StoredIsContent(x.fs, x.disk, i);
    }
  }

  /** So if the file system is in good order whenever no operation is under way, the recovered disk determines
      every file to be as it was at such a moment. */
  lemma FilesSurviveCrash(g: Geometry, l: Layout, enc: Image -> Block, h: Disk, budget: nat, first: Snapshot,
                          acts: seq<FileAction>, r: Disk) returns (k: nat)
    requires Whole(g, l, enc, h, budget, first, acts, r) && Encodes(l, enc)
    ensures ValidDisk(g, r) && k <= |acts|
    ensures var m := FilesAfter(g, l, enc, Start(g, h, first), acts[..k]);
            && m.s.active == []
            && (Good(l, m.now.fs, m.now.disk) && WrittenThrough(m.now.fs, m.now.disk) ==>
                  Holds(l, enc, Apply(r, RecoverWrites(g, r)), m.now))
  {
    k := RunSurvivesCrash(g, l, enc, h, budget, first, acts, r);
    var x := FilesAfter(g, l, enc, Start(g, h, first), acts[..k]).now;
    if Good(l, x.fs, x.disk) && WrittenThrough(x.fs, x.disk) {
      HoldsContent(g, l, enc, Apply(r, RecoverWrites(g, r)), x);
    }
  }

  // ---------------------------------------------------------------- file operations in a run

  /** The calls of `log_write` of operation `i`, as steps of a run. */
  function Logs(i: nat, calls: seq<Call>): (acts: seq<FileAction>) {
    if calls == [] then [] else
    var c := calls[|calls|-1];
    Logs(i, calls[..|calls|-1]) + if c.bno < 0 then [] else [Log(i, c.bno, c.image)]
  }

  /** A change in memory to `next`, and the calls of `log_write`. */
  function Steps(i: nat, next: Snapshot, calls: seq<Call>): (acts: seq<FileAction>) {
    [Change(i, next)] + Logs(i, calls)
  }

  lemma StepsMore(g: Geometry, l: Layout, enc: Image -> Block, j: Joint, acts: seq<FileAction>, a: FileAction)
    ensures FilesAfter(g, l, enc, j, acts + [a]) == FileStep(g, l, enc, FilesAfter(g, l, enc, j, acts), a)
  {
    assert (acts + [a])[..|acts|] == acts;
  }

  predicate SameIds(s: State, s': State) {
    |s'.active| == |s.active| && forall i :: 0 <= i < |s.active| ==> s'.active[i].id == s.active[i].id
  }

  /** From `j` by the given calls: a block not logged is as dirty as it was, and one logged last as it is now
      is clean. */
  predicate Cleaned(l: Layout, j: Joint, j': Joint, calls: seq<Call>) {
    && j'.now == j.now && SameIds(j.s, j'.s)
    && (forall b :: b in j'.dirty ==>
          && LastImage(calls, b) != Some(ImageIn(l, j.now, b))
          && (LastImage(calls, b).None? ==> b in j.dirty && j'.dirty[b] == j.dirty[b]))
  }

  lemma CleanedMore(g: Geometry, l: Layout, enc: Image -> Block, j: Joint, m: Joint, i: nat, calls: seq<Call>)
    requires calls != [] && i < |j.s.active| && Cleaned(l, j, m, calls[..|calls|-1])
    ensures var c := calls[|calls|-1];
            Cleaned(l, j, if c.bno < 0 then m else FileStep(g, l, enc, m, Log(i, c.bno, c.image)), calls)
  {
  }

  lemma {:induction false} StepsClean(g: Geometry, l: Layout, enc: Image -> Block, j: Joint, i: nat, next: Snapshot,
                                      calls: seq<Call>)
    requires i < |j.s.active|
    ensures Cleaned(l, FileStep(g, l, enc, j, Change(i, next)), FilesAfter(g, l, enc, j, Steps(i, next, calls)), calls)
  {
    if calls == [] {
      assert Steps(i, next, calls) == [] + [Change(i, next)];
      StepsMore(g, l, enc, j, [], Change(i, next));
    } else {
      var front, c := calls[..|calls|-1], calls[|calls|-1];
      StepsClean(g, l, enc, j, i, next, front);
      var m := FilesAfter(g, l, enc, j, Steps(i, next, front));
      CleanedMore(g, l, enc, FileStep(g, l, enc, j, Change(i, next)), m, i, calls);
      if c.bno < 0 {
        assert Steps(i, next, calls) == Steps(i, next, front);
      } else {
        assert Steps(i, next, calls) == Steps(i, next, front) + [Log(i, c.bno, c.image)];
        StepsMore(g, l, enc, j, Steps(i, next, front), Log(i, c.bno, c.image));
      }
    }
  }

  /** An operation that covers its changes and is current at its end, as file writes and freeing are, leaves
      no block dirty that was not so before: nothing it did keeps it from ending. */
  lemma OperationEndsClean(g: Geometry, l: Layout, enc: Image -> Block, j: Joint, i: nat, next: Snapshot,
                           calls: seq<Call>, logged: set<int>)
    requires CrashSafety.Fits(g, l) && i < |j.s.active|
    requires Operation(l, j.now.fs, j.now.disk, next.fs, next.disk, calls, logged)
    ensures var j' := FilesAfter(g, l, enc, j, Steps(i, next, calls));
            && j'.now == next && SameIds(j.s, j'.s)
            && forall b :: b in j'.dirty ==> b !in logged && b in j.dirty && j'.dirty[b] == j.dirty[b]
  {
    var j' := FilesAfter(g, l, enc, j, Steps(i, next, calls));
    StepsClean(g, l, enc, j, i, next, calls);
    forall b: nat | b in j'.dirty
      ensures b !in logged && b in j.dirty && j'.dirty[b] == j.dirty[b]
    {
      assert b in logged <==> LastImage(calls, b).Some?;
      if b !in logged && b in Changed(l, j.now, next) {
        UnloggedKept(g, l, j.now.fs, j.now.disk, next.fs, next.disk, logged, b);
      }
    }
  }
}
