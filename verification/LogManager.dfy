/** The in-memory side of the log: the operations that file system calls make, with the
    exact sequence of disk writes each of them issues. */
module LogManager {
  import opened Common
  import opened BlockDevice
  import opened RedoLog

  datatype Outcome = Logged | TooBig | OutsideTransaction

  class Log {
    const g: Geometry
    var disk: Disk
    /** The buffers pinned by B_DIRTY: logged, not yet installed. */
    var pinned: map<nat, Block>
    /** The in-memory header: the block numbers logged so far. */
    var lh: seq<nat>
    var outstanding: nat
    var committing: bool
    /** Every block write issued so far, in order. */
    ghost var trace: seq<Write>

    constructor (g: Geometry, disk: Disk)
      requires ValidDisk(g, disk)
      ensures this.g == g && this.disk == disk && trace == [] && pinned == map[]
      ensures lh == [] && outstanding == 0 && !committing
    {
      this.g := g;
      this.disk := disk;
      pinned := map[];
      lh := [];
      outstanding := 0;
      committing := false;
      trace := [];
    }

    /** Between commits: the log on disk is empty and exactly the logged blocks are pinned. */
    ghost predicate Valid()
      reads this
    {
      && ValidDisk(g, disk) && HeaderOf(disk[g.start]) == []
      && ValidHeader(g, lh)
      && forall b :: b in pinned <==> b in lh
    }

    method BufferRead(b: nat) returns (data: Block)
      requires b < |disk|
      ensures data == if b in pinned then pinned[b] else disk[b]
    {
      if b in pinned {
        data := pinned[b];
      } else {
        data := disk[b];
      }
    }

    method BufferWrite(b: nat, data: Block)
      requires b < |disk|
      modifies `disk, `pinned, `trace
      ensures disk == ApplyOne(old(disk), Write(b, data))
      ensures trace == old(trace) + [Write(b, data)]
      ensures pinned == old(pinned) - {b}
    {
      disk := disk[b := data];
      pinned := pinned - {b};
      trace := trace + [Write(b, data)];
    }

    /** The logged blocks fit in the log, and no block of the log area is pinned. */
    ghost predicate Fits()
      reads this
    {
      && g.Valid() && |disk| == g.nblocks && |lh| < g.size
      && (forall i :: 0 <= i < |lh| ==> g.Home(lh[i]))
      && (forall b :: b in pinned ==> !g.InLog(b))
    }

    /** Copy the next pinned block to the log. */
    method WriteLogNext(ghost disk0: Disk, ghost trace0: seq<Write>, ghost ws: seq<Write>, tail: nat)
      requires Fits() && tail < |lh| && lh[tail] in pinned && ws == LogWrites(g, PinnedValues(lh, pinned))
      requires Written(disk0, disk, trace0, trace, ws, tail)
      modifies `disk, `pinned, `trace
      ensures pinned == old(pinned) && |disk| == g.nblocks && Written(disk0, disk, trace0, trace, ws, tail + 1)
    {
      var from := BufferRead(lh[tail]);
      assert g.InLog(g.start + 1 + tail);
      BufferWrite(g.start + 1 + tail, from);
      assert pinned == old(pinned);
      assert ws[tail] == Write(g.start + 1 + tail, from);
      ApplyNext(disk0, ws, tail);
    }

    /** Copy the pinned blocks to the log. */
    method WriteLog()
      requires Fits() && forall i :: 0 <= i < |lh| ==> lh[i] in pinned
      modifies `disk, `pinned, `trace
      ensures pinned == old(pinned)
      ensures trace == old(trace) + LogWrites(g, PinnedValues(lh, old(pinned)))
      ensures disk == Apply(old(disk), LogWrites(g, PinnedValues(lh, old(pinned))))
    {
      ghost var ws := LogWrites(g, PinnedValues(lh, pinned));
      var tail := 0;
      while tail < |lh|
        invariant 0 <= tail <= |lh| && pinned == old(pinned) && |disk| == g.nblocks
        invariant Written(old(disk), disk, old(trace), trace, ws, tail)
      {
        WriteLogNext(old(disk), old(trace), ws, tail);
        tail := tail + 1;
      }
      assert ws[..|lh|] == ws;
    }

    /** Write the in-memory header to its block. */
    method WriteHead()
      requires g.start < |disk| && HasHeader(disk[g.start]) && g.start !in pinned && |lh| <= LOGSIZE
      modifies `disk, `pinned, `trace
      ensures pinned == old(pinned)
      ensures trace == old(trace) + [Write(g.start, StoreHeader(old(disk[g.start]), lh))]
      ensures disk == ApplyOne(old(disk), Write(g.start, StoreHeader(old(disk[g.start]), lh)))
    {
      var hb := BufferRead(g.start);
      var words := hb.s0[0 := |lh|];
      var i := 0;
      while i < |lh|
        invariant 0 <= i <= |lh| && |words| == SECTOR_WORDS
        invariant words == [|lh|] + lh[..i] + hb.s0[1 + i..]
      {
        words := words[1 + i := lh[i]];
        i := i + 1;
      }
      BufferWrite(g.start, hb.(s0 := words));
      assert lh[..|lh|] == lh;
      assert pinned == old(pinned);
    }

    /** Copy the next logged block to its home location. */
    method InstallNext(ghost disk0: Disk, ghost trace0: seq<Write>, ghost pinned0: map<nat, Block>,
                       ghost ws: seq<Write>, tail: nat)
      requires Fits() && tail < |lh| && |disk0| == g.nblocks &&
               ws == InstallWrites(lh, disk0[g.start + 1..g.start + 1 + |lh|])
      requires Installing(g, disk0, disk, trace0, trace, ws, tail) && Unpinned(pinned0, pinned, lh, tail)
      modifies `disk, `pinned, `trace
      ensures Installing(g, disk0, disk, trace0, trace, ws, tail + 1) && Unpinned(pinned0, pinned, lh, tail + 1) &&
              Fits()
    {
      Unpin(pinned0, pinned, lh, tail);
      assert g.InLog(g.start + tail + 1);
      var lbuf := BufferRead(g.start + tail + 1);
      BufferWrite(lh[tail], lbuf);
      assert ws[tail] == Write(lh[tail], lbuf);
      ApplyNext(disk0, ws, tail);
    }

    /** Copy every logged block to its home location. */
    method InstallTrans()
      requires Fits()
      modifies `disk, `pinned, `trace
      ensures trace == old(trace) + InstallWrites(lh, old(disk)[g.start + 1..g.start + 1 + |lh|])
      ensures disk == Apply(old(disk), InstallWrites(lh, old(disk)[g.start + 1..g.start + 1 + |lh|]))
      ensures forall b :: b in pinned <==> b in old(pinned) && b !in lh
    {
      ghost var ws := InstallWrites(lh, disk[g.start + 1..g.start + 1 + |lh|]);
      var tail := 0;
      while tail < |lh|
        invariant 0 <= tail <= |lh| && Fits() && Installing(g, old(disk), disk, old(trace), trace, ws, tail)
        invariant Unpinned(old(pinned), pinned, lh, tail)
      {
        InstallNext(old(disk), old(trace), old(pinned), ws, tail);
        tail := tail + 1;
      }
      assert ws[..|lh|] == ws && lh[..|lh|] == lh;
    }

    /** Read the header block into memory. */
    method ReadHead()
      requires g.start < |disk| && HasHeader(disk[g.start]) && g.start !in pinned
      modifies `lh
      ensures lh == HeaderOf(disk[g.start])
    {
      var hb := BufferRead(g.start);
      var n := hb.s0[0];
      lh := [];
      var i := 0;
      while i < n
        invariant 0 <= i <= n
        invariant lh == hb.s0[1..1 + i]
      {
        lh := lh + [hb.s0[1 + i]];
        i := i + 1;
      }
    }

    /** The end of both a commit and a recovery: install, then erase the transaction from the log. */
    method InstallAndClear()
      requires ValidDisk(g, disk) && lh == HeaderOf(disk[g.start])
      requires forall b :: b in pinned ==> b in lh
      modifies `disk, `pinned, `trace, `lh
      ensures trace == old(trace) + RecoverWrites(g, old(disk))
      ensures disk == Apply(old(disk), RecoverWrites(g, old(disk)))
      ensures pinned == map[] && lh == []
    {
      RecoverSplit(g, disk);
      InstallTrans();
      NonePinned(pinned);
      lh := [];
      WriteHead();
      AppendTwo(old(trace), InstallWrites(old(lh), LoggedBlocks(g, old(disk))), trace[|trace|-1]);
    }

    /** At boot: finish a transaction whose header made it to disk, then clear the log. */
    method RecoverFromLog()
      requires ValidDisk(g, disk) && pinned == map[]
      modifies `disk, `pinned, `trace, `lh
      ensures trace == old(trace) + RecoverWrites(g, old(disk))
      ensures disk == Apply(old(disk), RecoverWrites(g, old(disk)))
      ensures Valid() && lh == []
    {
      RecoverSplit(g, disk);
      ReadHead();
      InstallAndClear();
    }

    /** Make the current transaction durable and install it. */
    method Commit()
      requires Valid()
      modifies `disk, `pinned, `trace, `lh
      ensures trace == old(trace) + CommitWrites(g, old(disk)[g.start], old(lh), PinnedValues(old(lh), old(pinned)))
      ensures disk == Apply(old(disk), CommitWrites(g, old(disk)[g.start], old(lh), PinnedValues(old(lh), old(pinned))))
      ensures Valid() && lh == [] && pinned == map[]
    {
      if lh != [] {
        ghost var vals := PinnedValues(lh, pinned);
        CommitSplit(g, disk, lh, vals);
        WriteTransaction();
        ghost var y := disk;
        InstallAndClear();
        AppendThree(old(trace), LogWrites(g, vals), [Write(g.start, StoreHeader(old(disk)[g.start], old(lh)))],
                    RecoverWrites(g, y));
      }
    }

    /** The first half of a commit: the blocks, then the header that makes them count. */
    method WriteTransaction()
      requires Valid() && lh != []
      modifies `disk, `pinned, `trace
      ensures pinned == old(pinned)
      ensures var vals, w := PinnedValues(lh, old(pinned)), Write(g.start, StoreHeader(old(disk)[g.start], lh));
              && trace == old(trace) + LogWrites(g, vals) + [w]
              && disk == ApplyOne(Apply(old(disk), LogWrites(g, vals)), w)
    {
      LogKeepsHeader(g, disk, PinnedValues(lh, pinned));
      WriteLog();
      WriteHead();
    }

    /** One attempt of `begin_op`: reserve log space, or report that the caller must sleep. */
    method BeginOp() returns (admitted: bool)
      modifies `outstanding
      ensures admitted <==> !committing && |lh| + (old(outstanding) + 1) * MAXOPBLOCKS <= LOGSIZE
      ensures outstanding == if admitted then old(outstanding) + 1 else old(outstanding)
    {
      if committing {
        admitted := false;
      } else if |lh| + (outstanding + 1) * MAXOPBLOCKS > LOGSIZE {
        admitted := false;
      } else {
        outstanding := outstanding + 1;
        admitted := true;
      }
    }

    /** Leave an operation; the last one out commits. */
    method EndOp() returns (committed: bool)
      requires Valid() && outstanding >= 1 && !committing
      modifies this
      ensures Valid() && !committing && outstanding == old(outstanding) - 1
      ensures committed <==> outstanding == 0
      ensures !committed ==> lh == old(lh) && pinned == old(pinned) && disk == old(disk) && trace == old(trace)
      ensures committed ==>
                && lh == [] && pinned == map[]
                && trace == old(trace)
                            + CommitWrites(g, old(disk)[g.start], old(lh), PinnedValues(old(lh), old(pinned)))
                && disk == Apply(old(disk),
                                 CommitWrites(g, old(disk)[g.start], old(lh), PinnedValues(old(lh), old(pinned))))
                && Settled(g, disk, Committed(old(disk), old(lh), PinnedValues(old(lh), old(pinned))))
    {
      outstanding := outstanding - 1;
      committed := outstanding == 0;
      if committed {
        committing := true;
        CommitComplete(g, disk, disk, lh, PinnedValues(lh, pinned));
        Commit();
        committing := false;
      }
    }

    /** Record that the caller changed block `b` to `data`: absorb or append its number, pin the buffer. */
    method LogWrite(b: nat, data: Block) returns (o: Outcome)
      requires Valid() && g.Home(b)
      modifies `lh, `pinned
      ensures Valid()
      ensures o.TooBig? <==> |old(lh)| >= LOGSIZE || |old(lh)| >= g.size - 1
      ensures o.OutsideTransaction? <==> !(|old(lh)| >= LOGSIZE || |old(lh)| >= g.size - 1) && outstanding < 1
      ensures o.Logged? ==> lh == Absorb(old(lh), b) && pinned == old(pinned)[b := data]
      ensures !o.Logged? ==> lh == old(lh) && pinned == old(pinned)
    {
      if |lh| >= LOGSIZE || |lh| >= g.size - 1 {
        return TooBig;
      }
      if outstanding < 1 {
        return OutsideTransaction;
      }
      var i := 0;
      while i < |lh| && lh[i] != b
        invariant 0 <= i <= |lh|
        invariant b !in lh[..i]
      {
        i := i + 1;
      }
      if i == |lh| {
        assert lh[..i] == lh;
        lh := lh + [b];
      } else {
        assert lh[i := b] == lh;
        lh := lh[i := b];
      }
      pinned := pinned[b := data];
      o := Logged;
    }
  }

  /** The first `tail` of the writes `ws` have been done. */
  ghost predicate Written(disk0: Disk, disk: Disk, trace0: seq<Write>, trace: seq<Write>, ws: seq<Write>, tail: nat) {
    tail <= |ws| && trace == trace0 + ws[..tail] && disk == Apply(disk0, ws[..tail])
  }

  /** The same, with the log area as it was. */
  ghost predicate Installing(g: Geometry, disk0: Disk, disk: Disk, trace0: seq<Write>, trace: seq<Write>,
                             ws: seq<Write>, tail: nat) {
    && Written(disk0, disk, trace0, trace, ws, tail) && |disk| == |disk0|
    && forall b :: 0 <= b < |disk| && g.InLog(b) ==> disk[b] == disk0[b]
  }

  /** The first `n` blocks of the header are no longer pinned. */
  ghost predicate Unpinned(pinned0: map<nat, Block>, pinned: map<nat, Block>, hd: seq<nat>, n: nat) {
    n <= |hd| && forall b :: b in pinned <==> b in pinned0 && b !in hd[..n]
  }

  lemma Unpin(pinned0: map<nat, Block>, pinned: map<nat, Block>, hd: seq<nat>, n: nat)
    requires n < |hd| && Unpinned(pinned0, pinned, hd, n)
    ensures Unpinned(pinned0, pinned - {hd[n]}, hd, n + 1)
  {
    assert hd[..n+1] == hd[..n] + [hd[n]];
  }

  lemma NonePinned(pinned: map<nat, Block>)
    requires forall b :: b !in pinned
    ensures pinned == map[]
  {
  }

  lemma AppendTwo(t: seq<Write>, a: seq<Write>, w: Write)
    ensures t + a + [w] == t + (a + [w])
  {
  }

  lemma AppendThree(t: seq<Write>, a: seq<Write>, b: seq<Write>, c: seq<Write>)
    ensures t + a + b + c == t + (a + b + c)
  {
  }

  /** A recovery's writes are the installs and then the cleared header. */
  lemma RecoverSplit(g: Geometry, d: Disk)
    requires ValidDisk(g, d)
    ensures var mid := Apply(d, InstallWrites(HeaderOf(d[g.start]), LoggedBlocks(g, d)));
            var clear := Write(g.start, StoreHeader(d[g.start], []));
            && mid[g.start] == d[g.start]
            && RecoverWrites(g, d) == InstallWrites(HeaderOf(d[g.start]), LoggedBlocks(g, d)) + [clear]
            && Apply(d, RecoverWrites(g, d)) == ApplyOne(mid, clear)
            && ValidDisk(g, ApplyOne(mid, clear)) && HeaderOf(ApplyOne(mid, clear)[g.start]) == []
  {
    var hd := HeaderOf(d[g.start]);
    var ws := RecoverWrites(g, d);
    InstallPrefix(g, d, |hd|);
    assert ws[..|hd|] == InstallWrites(hd, LoggedBlocks(g, d));
    assert ws[..|ws|-1] == ws[..|hd|];
  }

  lemma LogKeepsHeader(g: Geometry, d: Disk, vals: seq<Block>)
    requires Settled(g, d, d) && |vals| < g.size
    ensures Apply(d, LogWrites(g, vals))[g.start] == d[g.start]
  {
    LogPrefix(g, d, d, vals, |vals|);
    assert LogWrites(g, vals)[..|vals|] == LogWrites(g, vals);
  }

  /** A commit's writes are the log blocks, the header, and what a recovery would then write. */
  lemma CommitSplit(g: Geometry, d: Disk, hd: seq<nat>, vals: seq<Block>)
    requires Settled(g, d, d) && ValidHeader(g, hd) && |vals| == |hd| && hd != []
    ensures var x := Apply(d, LogWrites(g, vals));
            var y := ApplyOne(x, Write(g.start, StoreHeader(d[g.start], hd)));
            var ws := CommitWrites(g, d[g.start], hd, vals);
            && x[g.start] == d[g.start]
            && ValidDisk(g, y) && HeaderOf(y[g.start]) == hd
            && ws == LogWrites(g, vals) + [Write(g.start, StoreHeader(d[g.start], hd))] + RecoverWrites(g, y)
            && Apply(d, ws) == Apply(y, RecoverWrites(g, y))
            && ValidDisk(g, Apply(d, ws)) && HeaderOf(Apply(d, ws)[g.start]) == []
  {
    var lw := LogWrites(g, vals);
    var w := Write(g.start, StoreHeader(d[g.start], hd));
    LogPrefix(g, d, d, vals, |vals|);
    assert lw[..|vals|] == lw && (lw + [w])[..|lw|] == lw;
    HeaderWrittenState(g, d, d, hd, vals);
    CommitIsLogThenRecover(g, d, d, hd, vals);
    CommitComplete(g, d, d, hd, vals);
    ApplyConcat(d, lw + [w], RecoverWrites(g, HeaderWritten(g, d, hd, vals)));
  }
}
