/** The on-disk redo log: commit, recovery, and what survives a crash. */
module RedoLog {
  import opened Common
  import opened BlockDevice

  /** Where the log lives: the header block at `start`, log blocks up to `start + size`. */
  datatype Geometry = Geometry(start: nat, size: nat, nblocks: nat) {
    predicate Valid() {
      1 <= size && start + size <= nblocks
    }
    predicate InLog(b: nat) {
      start <= b < start + size
    }
    predicate Home(b: nat) {
      b < nblocks && !InLog(b)
    }
  }

  /** A header the log can carry: distinct home blocks, and room for all of them. */
  predicate ValidHeader(g: Geometry, hd: seq<nat>) {
    && |hd| <= LOGSIZE
    && |hd| < g.size
    && (forall i :: 0 <= i < |hd| ==> g.Home(hd[i]))
    && (forall i, j :: 0 <= i < j < |hd| ==> hd[i] != hd[j])
  }

  /** The first sector can be read as a header: a count, then that many block numbers. */
  predicate HasHeader(b: Block) {
    |b.s0| == SECTOR_WORDS && b.s0[0] <= LOGSIZE
  }

  function HeaderOf(b: Block): (hd: seq<nat>) {
    if HasHeader(b) then b.s0[1..1 + b.s0[0]] else []
  }

  predicate ValidDisk(g: Geometry, d: Disk) {
    && g.Valid()
    && |d| == g.nblocks
    && HasHeader(d[g.start])
    && ValidHeader(g, HeaderOf(d[g.start]))
  }

  /** Storing a header overwrites only the words it needs. */
  function StoreHeader(b: Block, hd: seq<nat>): (r: Block)
    requires HasHeader(b) && |hd| <= LOGSIZE
    ensures HasHeader(r) && HeaderOf(r) == hd
    ensures r.s0[1 + |hd|..] == b.s0[1 + |hd|..] && r.s1 == b.s1 && r.s2 == b.s2 && r.s3 == b.s3
  {
    b.(s0 := [|hd|] + hd + b.s0[1 + |hd|..])
  }

  // ---------------------------------------------------------------- contents of the disk

  /** The index at which a header names block `b`. */
  function Position(hd: seq<nat>, b: nat): (i: nat)
    requires b in hd
    ensures i < |hd| && hd[i] == b
  {
    if hd[0] == b then 0 else 1 + Position(hd[1..], b)
  }

  /** The blocks the log of `d` holds for the header it carries. */
  function LoggedBlocks(g: Geometry, d: Disk): (vals: seq<Block>)
    requires ValidDisk(g, d)
    ensures |vals| == |HeaderOf(d[g.start])|
  {
    d[g.start + 1..g.start + 1 + |HeaderOf(d[g.start])|]
  }

  /** What a completed recovery of `d` leaves in block `b`. */
  function Recovered(g: Geometry, d: Disk, b: nat): Block
    requires ValidDisk(g, d) && b < g.nblocks
  {
    var hd := HeaderOf(d[g.start]);
    if b in hd then LoggedBlocks(g, d)[Position(hd, b)] else d[b]
  }

  /** Recovery of `d` would make the home blocks those of `h`. */
  predicate Holds(g: Geometry, d: Disk, h: Disk) {
    && ValidDisk(g, d)
    && |h| == g.nblocks
    && forall b :: 0 <= b < g.nblocks && g.Home(b) ==> Recovered(g, d, b) == h[b]
  }

  /** The home blocks of `d` already are those of `h` and nothing is left to recover. */
  predicate Settled(g: Geometry, d: Disk, h: Disk) {
    && ValidDisk(g, d)
    && |h| == g.nblocks
    && HeaderOf(d[g.start]) == []
    && forall b :: 0 <= b < g.nblocks && g.Home(b) ==> d[b] == h[b]
  }

  // ---------------------------------------------------------------- the writes, in order

  function LogWrites(g: Geometry, vals: seq<Block>): (ws: seq<Write>) {
    seq(|vals|, i requires 0 <= i < |vals| => Write(g.start + 1 + i, vals[i]))
  }

  function InstallWrites(hd: seq<nat>, vals: seq<Block>): (ws: seq<Write>)
    requires |hd| == |vals|
  {
    seq(|hd|, i requires 0 <= i < |hd| => Write(hd[i], vals[i]))
  }

  /** Install every logged block, then clear the header. */
  function RecoverWrites(g: Geometry, d: Disk): (ws: seq<Write>)
    requires ValidDisk(g, d)
  {
    InstallWrites(HeaderOf(d[g.start]), LoggedBlocks(g, d)) + [Write(g.start, StoreHeader(d[g.start], []))]
  }

  /** Fill the log, write the header, install, clear the header. */
  function CommitWrites(g: Geometry, hb: Block, hd: seq<nat>, vals: seq<Block>): (ws: seq<Write>)
    requires HasHeader(hb) && |hd| <= LOGSIZE && |vals| == |hd|
  {
    if hd == [] then [] else
      LogWrites(g, vals)
      + [Write(g.start, StoreHeader(hb, hd))]
      + InstallWrites(hd, vals)
      + [Write(g.start, StoreHeader(StoreHeader(hb, hd), []))]
  }

  /** The contents `h` with the transaction applied: the last word on what a commit means. */
  function Committed(h: Disk, hd: seq<nat>, vals: seq<Block>): (r: Disk)
    requires |vals| == |hd|
  {
    seq(|h|, b requires 0 <= b < |h| => if b in hd then vals[Position(hd, b)] else h[b])
  }

  /** The contents of the pinned buffers of a header's blocks, in header order. */
  function PinnedValues(hd: seq<nat>, pinned: map<nat, Block>): (vals: seq<Block>) {
    seq(|hd|, i requires 0 <= i < |hd| => if hd[i] in pinned then pinned[hd[i]] else Block([], [], [], []))
  }

  /** The header after logging block `b`: a block already named is absorbed. */
  function Absorb(hd: seq<nat>, b: nat): (r: seq<nat>) {
    if b in hd then hd else hd + [b]
  }

  // ---------------------------------------------------------------- one interrupted write

  /** A log block may tear freely while the header is empty. */
  lemma TearLogBlock(g: Geometry, d: Disk, h: Disk, bno: nat, r: Disk)
    requires Settled(g, d, h) && g.InLog(bno) && bno != g.start && SameExcept(d, bno, r)
    ensures Settled(g, r, h)
  {
  }

  /** With the header in place and the log filled, recovery yields the transaction's contents. */
  lemma HeaderDecides(g: Geometry, d: Disk, h: Disk, hd: seq<nat>, vals: seq<Block>)
    requires ValidDisk(g, d) && HeaderOf(d[g.start]) == hd && LoggedBlocks(g, d) == vals
    requires |h| == g.nblocks && forall b :: 0 <= b < g.nblocks && g.Home(b) ==> d[b] == h[b]
    ensures Holds(g, d, Committed(h, hd, vals))
  {
  }

  /** The header write decides: it either took effect or it did not. */
  lemma TearHeader(g: Geometry, d: Disk, h: Disk, hd: seq<nat>, vals: seq<Block>, w: Write, r: Disk)
    requires Settled(g, d, h)
    requires ValidHeader(g, hd) && |vals| == |hd|
    requires d[g.start + 1..g.start + 1 + |hd|] == vals
    requires w == Write(g.start, StoreHeader(d[g.start], hd)) && TornWrite(d, w, r)
    ensures g.start < |r|
    ensures HeaderOf(r[g.start]) == [] ==> Settled(g, r, h)
    ensures HeaderOf(r[g.start]) != [] ==> Holds(g, r, Committed(h, hd, vals))
  {
    if HeaderOf(r[g.start]) != [] {
      assert r[g.start + 1..g.start + 1 + |hd|] == vals;
      HeaderDecides(g, r, h, hd, vals);
    }
  }

  /** Overwriting a home block leaves the header and the log blocks alone. */
  lemma HomeWriteKeepsLog(g: Geometry, d: Disk, bno: nat, r: Disk)
    requires ValidDisk(g, d) && g.Home(bno) && SameExcept(d, bno, r)
    ensures ValidDisk(g, r) && r[g.start] == d[g.start] && LoggedBlocks(g, r) == LoggedBlocks(g, d)
  {
    assert r[g.start] == d[g.start];
  }

  /** Installing a logged block may tear: its log copy is still what recovery reads. */
  lemma TearInstall(g: Geometry, d: Disk, h: Disk, bno: nat, r: Disk)
    requires Holds(g, d, h) && bno in HeaderOf(d[g.start]) && SameExcept(d, bno, r)
    ensures Holds(g, r, h)
  {
    HomeWriteKeepsLog(g, d, bno, r);
    var hd := HeaderOf(d[g.start]);
    forall b | 0 <= b < g.nblocks && g.Home(b)
      ensures Recovered(g, r, b) == h[b]
    {
      assert Recovered(g, d, b) == h[b];
    }
  }

  /** Clearing the header may tear once every logged block is home. */
  lemma TearClear(g: Geometry, d: Disk, h: Disk, w: Write, r: Disk)
    requires Holds(g, d, h)
    requires forall b :: 0 <= b < g.nblocks && g.Home(b) ==> d[b] == h[b]
    requires w == Write(g.start, StoreHeader(d[g.start], [])) && TornWrite(d, w, r)
    ensures Holds(g, r, h)
    ensures r[g.start] == w.data ==> Settled(g, r, h)
  {
  }

  // ---------------------------------------------------------------- recovery

  /** `x` is a disk on which the first `k` logged blocks of `d` have been installed. */
  predicate Installed(g: Geometry, d: Disk, k: nat, x: Disk)
    requires ValidDisk(g, d) && k <= |HeaderOf(d[g.start])|
  {
    var hd := HeaderOf(d[g.start]);
    && |x| == |d|
    && ValidDisk(g, x) && x[g.start] == d[g.start] && LoggedBlocks(g, x) == LoggedBlocks(g, d)
    && (forall b :: 0 <= b < g.nblocks && b !in hd ==> x[b] == d[b])
    && (forall i :: 0 <= i < k ==> x[hd[i]] == LoggedBlocks(g, d)[i])
  }

  lemma InstallOne(g: Geometry, d: Disk, k: nat, x: Disk, y: Disk)
    requires ValidDisk(g, d) && k < |HeaderOf(d[g.start])| && Installed(g, d, k, x)
    requires y == x[HeaderOf(d[g.start])[k] := LoggedBlocks(g, d)[k]]
    ensures Installed(g, d, k + 1, y)
  {
    HomeWriteKeepsLog(g, x, HeaderOf(d[g.start])[k], y);
  }

  lemma InstalledHolds(g: Geometry, d: Disk, h: Disk, k: nat, x: Disk)
    requires Holds(g, d, h) && k <= |HeaderOf(d[g.start])| && Installed(g, d, k, x)
    ensures Holds(g, x, h)
  {
    forall b | 0 <= b < g.nblocks && g.Home(b)
      ensures Recovered(g, x, b) == h[b]
    {
      assert Recovered(g, d, b) == h[b];
    }
  }

  lemma {:induction false} InstallPrefix(g: Geometry, d: Disk, k: nat)
    requires ValidDisk(g, d) && k <= |HeaderOf(d[g.start])|
    ensures Installed(g, d, k, Apply(d, RecoverWrites(g, d)[..k]))
  {
    var ws := RecoverWrites(g, d);
    if k > 0 {
      InstallPrefix(g, d, k - 1);
      assert ws[..k][..k-1] == ws[..k-1];
      InstallOne(g, d, k - 1, Apply(d, ws[..k-1]), Apply(d, ws[..k]));
    }
  }

  lemma RecoverPrefix(g: Geometry, d: Disk, h: Disk, k: nat)
    requires Holds(g, d, h) && k <= |HeaderOf(d[g.start])|
    ensures Installed(g, d, k, Apply(d, RecoverWrites(g, d)[..k]))
    ensures Holds(g, Apply(d, RecoverWrites(g, d)[..k]), h)
  {
    InstallPrefix(g, d, k);
    InstalledHolds(g, d, h, k, Apply(d, RecoverWrites(g, d)[..k]));
  }

  /** When every logged block is installed, the home blocks are what recovery promises. */
  lemma AllInstalled(g: Geometry, d: Disk, h: Disk)
    requires Holds(g, d, h)
    ensures var x := Apply(d, RecoverWrites(g, d)[..|HeaderOf(d[g.start])|]);
            forall b :: 0 <= b < g.nblocks && g.Home(b) ==> x[b] == h[b]
  {
    var hd := HeaderOf(d[g.start]);
    RecoverPrefix(g, d, h, |hd|);
    var x := Apply(d, RecoverWrites(g, d)[..|hd|]);
    forall b | 0 <= b < g.nblocks && g.Home(b)
      ensures x[b] == h[b]
    {
      assert Recovered(g, d, b) == h[b];
      if b in hd {
        assert x[hd[Position(hd, b)]] == LoggedBlocks(g, d)[Position(hd, b)];
      }
    }
  }

  /** A crash at any point of a recovery, inside a block write or between two, loses nothing. */
  lemma RecoverCrash(g: Geometry, d: Disk, h: Disk, k: nat, r: Disk)
    requires Holds(g, d, h) && k <= |RecoverWrites(g, d)| && CrashAt(d, RecoverWrites(g, d), k, r)
    ensures Holds(g, r, h)
  {
    var ws := RecoverWrites(g, d);
    var hd := HeaderOf(d[g.start]);
    if k == |ws| {
      assert ws[..k] == ws;
      RecoverComplete(g, d, h);
    } else {
      CrashIsTorn(d, ws, k, r);
      RecoverPrefix(g, d, h, k);
      if k < |hd| {
        TearInstall(g, Apply(d, ws[..k]), h, hd[k], r);
      } else {
        AllInstalled(g, d, h);
        TearClear(g, Apply(d, ws[..k]), h, ws[k], r);
      }
    }
  }

  /** A recovery that runs to its end leaves exactly the promised home blocks and an empty log. */
  lemma RecoverComplete(g: Geometry, d: Disk, h: Disk)
    requires Holds(g, d, h)
    ensures Settled(g, Apply(d, RecoverWrites(g, d)), h)
    ensures Holds(g, Apply(d, RecoverWrites(g, d)), h)
  {
    var ws := RecoverWrites(g, d);
    var n := |HeaderOf(d[g.start])|;
    RecoverPrefix(g, d, h, n);
    AllInstalled(g, d, h);
    assert ws[..|ws|-1] == ws[..n];
    TearClear(g, Apply(d, ws[..n]), h, ws[n], Apply(d, ws));
  }

  // ---------------------------------------------------------------- commit

  lemma {:induction false} LogPrefix(g: Geometry, d: Disk, h: Disk, vals: seq<Block>, k: nat)
    requires Settled(g, d, h) && |vals| < g.size && k <= |vals|
    ensures var x := Apply(d, LogWrites(g, vals)[..k]);
            Settled(g, x, h) && x[g.start] == d[g.start] && x[g.start + 1..g.start + 1 + k] == vals[..k]
  {
    var ws := LogWrites(g, vals);
    if k > 0 {
      LogPrefix(g, d, h, vals, k - 1);
      assert ws[..k][..k-1] == ws[..k-1];
      var x := Apply(d, ws[..k-1]);
      var y := Apply(d, ws[..k]);
      assert ws[k-1] == Write(g.start + k, vals[k-1]);
      TearLogBlock(g, x, h, g.start + k, y);
      assert y == x[g.start + k := vals[k-1]];
      assert y[g.start + 1..g.start + 1 + k] == x[g.start + 1..g.start + k] + [vals[k-1]];
      assert vals[..k] == vals[..k-1] + [vals[k-1]];
    }
  }

  /** The disk just after the header of a commit reached it. */
  function HeaderWritten(g: Geometry, d: Disk, hd: seq<nat>, vals: seq<Block>): (r: Disk)
    requires ValidDisk(g, d) && ValidHeader(g, hd) && |vals| == |hd|
  {
    Apply(d, LogWrites(g, vals) + [Write(g.start, StoreHeader(d[g.start], hd))])
  }

  lemma HeaderWrittenDisk(g: Geometry, d: Disk, h: Disk, hd: seq<nat>, vals: seq<Block>)
    requires Settled(g, d, h) && ValidHeader(g, hd) && |vals| == |hd|
    ensures var x := HeaderWritten(g, d, hd, vals);
            && x[g.start] == StoreHeader(d[g.start], hd)
            && x[g.start + 1..g.start + 1 + |hd|] == vals
            && forall b :: 0 <= b < g.nblocks && g.Home(b) ==> x[b] == h[b]
  {
    var lw := LogWrites(g, vals);
    var w := Write(g.start, StoreHeader(d[g.start], hd));
    LogPrefix(g, d, h, vals, |vals|);
    assert lw[..|vals|] == lw && (lw + [w])[..|lw|] == lw;
    var x, y := Apply(d, lw), HeaderWritten(g, d, hd, vals);
    assert y == x[g.start := w.data];
    assert y[g.start + 1..g.start + 1 + |hd|] == x[g.start + 1..g.start + 1 + |hd|];
  }

  lemma HeaderWrittenState(g: Geometry, d: Disk, h: Disk, hd: seq<nat>, vals: seq<Block>)
    requires Settled(g, d, h) && ValidHeader(g, hd) && |vals| == |hd|
    ensures var x := HeaderWritten(g, d, hd, vals);
            && ValidDisk(g, x) && x[g.start] == StoreHeader(d[g.start], hd)
            && LoggedBlocks(g, x) == vals && Holds(g, x, Committed(h, hd, vals))
  {
    HeaderWrittenDisk(g, d, h, hd, vals);
    HeaderDecides(g, HeaderWritten(g, d, hd, vals), h, hd, vals);
  }

  /** After its header, a commit does what a recovery of that disk would do. */
  lemma CommitIsLogThenRecover(g: Geometry, d: Disk, h: Disk, hd: seq<nat>, vals: seq<Block>)
    requires Settled(g, d, h) && ValidHeader(g, hd) && |vals| == |hd| && hd != []
    ensures ValidDisk(g, HeaderWritten(g, d, hd, vals))
    ensures CommitWrites(g, d[g.start], hd, vals)
         == LogWrites(g, vals) + [Write(g.start, StoreHeader(d[g.start], hd))]
            + RecoverWrites(g, HeaderWritten(g, d, hd, vals))
  {
    HeaderWrittenState(g, d, h, hd, vals);
  }

  /** Crash atomicity of one commit: before the header write the old contents survive, after it
      the new ones, and during it one or the other; never a mixture, whatever tears. */
  lemma CommitCrash(g: Geometry, d: Disk, h: Disk, hd: seq<nat>, vals: seq<Block>, k: nat, r: Disk)
    requires Settled(g, d, h) && ValidHeader(g, hd) && |vals| == |hd| && hd != []
    requires k <= |CommitWrites(g, d[g.start], hd, vals)|
    requires CrashAt(d, CommitWrites(g, d[g.start], hd, vals), k, r)
    ensures g.start < |r|
    ensures k < |hd| ==> HeaderOf(r[g.start]) == []
    ensures k <= |hd| && HeaderOf(r[g.start]) == [] ==> Holds(g, r, h)
    ensures k > |hd| || HeaderOf(r[g.start]) != [] ==> Holds(g, r, Committed(h, hd, vals))
  {
    var ws := CommitWrites(g, d[g.start], hd, vals);
    var lw := LogWrites(g, vals);
    var n := |hd|;
    if k > n {
      CrashAfterHeader(g, d, h, hd, vals, k, r);
    } else {
      LogPrefix(g, d, h, vals, k);
      assert ws[..k] == lw[..k];
      CrashIsTorn(d, ws, k, r);
      if k < n {
        TearLogBlock(g, Apply(d, ws[..k]), h, g.start + 1 + k, r);
      } else {
        assert vals[..n] == vals;
        TearHeader(g, Apply(d, ws[..k]), h, hd, vals, ws[k], r);
      }
    }
  }

  lemma PastHead(head: seq<Write>, rest: seq<Write>, k: nat)
    requires |head| <= k <= |head| + |rest|
    ensures (head + rest)[..k] == head + rest[..k - |head|]
    ensures k < |head + rest| ==> (head + rest)[k] == rest[k - |head|]
  {
  }

  lemma CrashAfterHeader(g: Geometry, d: Disk, h: Disk, hd: seq<nat>, vals: seq<Block>, k: nat, r: Disk)
    requires Settled(g, d, h) && ValidHeader(g, hd) && |vals| == |hd| && hd != []
    requires |hd| < k <= |CommitWrites(g, d[g.start], hd, vals)|
    requires CrashAt(d, CommitWrites(g, d[g.start], hd, vals), k, r)
    ensures Holds(g, r, Committed(h, hd, vals))
  {
    var ws := CommitWrites(g, d[g.start], hd, vals);
    var head := LogWrites(g, vals) + [Write(g.start, StoreHeader(d[g.start], hd))];
    var x := HeaderWritten(g, d, hd, vals);
    CommitIsLogThenRecover(g, d, h, hd, vals);
    HeaderWrittenState(g, d, h, hd, vals);
    var rest := RecoverWrites(g, x);
    var j := k - |head|;
    PastHead(head, rest, k);
    assert ws == head + rest;
    ApplyConcat(d, head, rest[..j]);
    RecoverCrash(g, x, Committed(h, hd, vals), j, r);
  }

  /** A commit that is not interrupted: the new contents are home and the log is empty again. */
  lemma CommitComplete(g: Geometry, d: Disk, h: Disk, hd: seq<nat>, vals: seq<Block>)
    requires Settled(g, d, h) && ValidHeader(g, hd) && |vals| == |hd|
    ensures Settled(g, Apply(d, CommitWrites(g, d[g.start], hd, vals)), Committed(h, hd, vals))
  {
    if hd != [] {
      CommitIsLogThenRecover(g, d, h, hd, vals);
      HeaderWrittenState(g, d, h, hd, vals);
      var x := HeaderWritten(g, d, hd, vals);
      ApplyConcat(d, LogWrites(g, vals) + [Write(g.start, StoreHeader(d[g.start], hd))], RecoverWrites(g, x));
      RecoverComplete(g, x, Committed(h, hd, vals));
    }
  }

  // ---------------------------------------------------------------- any number of failed recoveries

  /** `r` was left by a crash somewhere in the recovery of `d`. */
  predicate Interrupted(g: Geometry, d: Disk, r: Disk) {
    ValidDisk(g, d) ==>
      exists k: nat :: k <= |RecoverWrites(g, d)| && CrashAt(d, RecoverWrites(g, d), k, r)
  }

  predicate FailedRecoveries(g: Geometry, ds: seq<Disk>) {
    forall i :: 0 < i < |ds| ==> Interrupted(g, ds[i-1], ds[i])
  }

  lemma {:induction false} RecoveriesKeep(g: Geometry, ds: seq<Disk>, h: Disk, n: nat)
    requires FailedRecoveries(g, ds) && n < |ds| && Holds(g, ds[0], h)
    ensures Holds(g, ds[n], h)
  {
    if n > 0 {
      RecoveriesKeep(g, ds, h, n - 1);
      assert Interrupted(g, ds[n-1], ds[n]);
      var k: nat :| k <= |RecoverWrites(g, ds[n-1])| && CrashAt(ds[n-1], RecoverWrites(g, ds[n-1]), k, ds[n]);
      RecoverCrash(g, ds[n-1], h, k, ds[n]);
    }
  }

  /** The whole story of one transaction: crash anywhere in its commit, crash anywhere in each of
      any number of recoveries, then let one recovery finish. Every home block then has its old
      value, or every home block has its committed value. */
  lemma CommitIsAtomic(g: Geometry, d: Disk, h: Disk, hd: seq<nat>, vals: seq<Block>, k: nat, ds: seq<Disk>)
    requires Settled(g, d, h) && ValidHeader(g, hd) && |vals| == |hd| && hd != []
    requires k <= |CommitWrites(g, d[g.start], hd, vals)|
    requires FailedRecoveries(g, ds) && |ds| > 0
    requires CrashAt(d, CommitWrites(g, d[g.start], hd, vals), k, ds[0])
    ensures var last := ds[|ds|-1];
            && ValidDisk(g, last)
            && (|| Settled(g, Apply(last, RecoverWrites(g, last)), h)
                || Settled(g, Apply(last, RecoverWrites(g, last)), Committed(h, hd, vals)))
  {
    CommitCrash(g, d, h, hd, vals, k, ds[0]);
    var h' := if Holds(g, ds[0], h) then h else Committed(h, hd, vals);
    RecoveriesKeep(g, ds, h', |ds| - 1);
    RecoverComplete(g, ds[|ds|-1], h');
  }
}
