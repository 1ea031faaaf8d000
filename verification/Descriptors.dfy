/** Open files: descriptor slots of processes, counted references to the file table, and the pipes
    behind some of the files. System calls follow one another in any order. */
module Descriptors {
  import opened Common

  const NFILE: nat := 100
  const NOFILE: nat := 128

  datatype Kind = NoKind | PipeEnd(page: int, writable: bool) | Inode
  datatype File = File(ref: int, kind: Kind)

  /** Slot `fd` of the descriptor table of process `p`. */
  datatype Slot = Slot(p: int, fd: int)

  /** Which ends of a pipe are open. */
  datatype Ends = Ends(readopen: bool, writeopen: bool)

  /** The slots that are in use and the files they name. */
  type Table = map<Slot, int>

  function Open(e: Ends, writable: bool): bool {
    if writable then e.writeopen else e.readopen
  }

  function Close(e: Ends, writable: bool): Ends {
    if writable then e.(writeopen := false) else e.(readopen := false)
  }

  function Holders(t: Table, f: int): (r: set<Slot>) {
    set s | s in t && t[s] == f
  }

  /** Every file's count is the number of slots naming it, and of references the running call has in
      hand. */
  ghost predicate Counted(files: seq<File>, t: Table, loose: multiset<int>) {
    && |files| == NFILE
    && (forall s :: s in t ==> 0 <= t[s] < NFILE && 0 <= s.fd < NOFILE)
    && (forall f :: 0 <= f < NFILE ==> files[f].ref == |Holders(t, f)| + loose[f])
  }

  /** A file in use for a pipe's end: the pipe exists, the end is open, and no other file has it. */
  ghost predicate FileOk(files: seq<File>, pipes: map<int, Ends>, end: map<(int, bool), int>, f: int) {
    0 <= f < |files| && files[f].ref >= 0 && (files[f].ref == 0 ==> files[f].kind == NoKind) &&
    match files[f].kind
    case PipeEnd(page, w) => page in pipes && Open(pipes[page], w) && (page, w) in end && end[(page, w)] == f
    case _ => true
  }

  /** A pipe: some end is open, and an open end has its file. */
  ghost predicate PipeOk(files: seq<File>, pipes: map<int, Ends>, end: map<(int, bool), int>, page: int) {
    page in pipes ==>
      && (pipes[page].readopen || pipes[page].writeopen)
      && (pipes[page].readopen ==> EndOk(files, end, page, false))
      && (pipes[page].writeopen ==> EndOk(files, end, page, true))
  }

  ghost predicate EndOk(files: seq<File>, end: map<(int, bool), int>, page: int, w: bool) {
    && (page, w) in end && 0 <= end[(page, w)] < |files|
    && files[end[(page, w)]].kind == PipeEnd(page, w) && files[end[(page, w)]].ref >= 1
  }

  ghost predicate PipesOk(files: seq<File>, pipes: map<int, Ends>, pool: set<int>, end: map<(int, bool), int>) {
    && |files| == NFILE
    && (forall f {:trigger FileOk(files, pipes, end, f)} :: 0 <= f < NFILE ==> FileOk(files, pipes, end, f))
    && (forall page {:trigger PipeOk(files, pipes, end, page)} :: PipeOk(files, pipes, end, page))
    && (forall page :: page in pipes ==> page !in pool)
  }

  // ---------------------------------------------------------------- counting

  lemma AddSlot(t: Table, s: Slot, f: int)
    requires s !in t
    ensures |Holders(t[s := f], f)| == |Holders(t, f)| + 1
    ensures forall g :: g != f ==> Holders(t[s := f], g) == Holders(t, g)
  {
    assert Holders(t[s := f], f) == Holders(t, f) + {s};
  }

  lemma DropSlot(t: Table, s: Slot)
    requires s in t
    ensures |Holders(t - {s}, t[s])| == |Holders(t, t[s])| - 1
    ensures forall g :: g != t[s] ==> Holders(t - {s}, g) == Holders(t, g)
  {
    assert Holders(t, t[s]) == Holders(t - {s}, t[s]) + {s};
  }

  /** A file with a slot has a positive count, so neither panic on a dead file can happen. */
  lemma NamedIsAlive(files: seq<File>, t: Table, loose: multiset<int>, s: Slot)
    requires Counted(files, t, loose) && s in t
    ensures files[t[s]].ref >= 1
  {
    assert s in Holders(t, t[s]);
  }

  /** Between calls, a pipe exists exactly as long as some descriptor of some process names one of its
      ends. */
  lemma PipeLivesWithDescriptors(files: seq<File>, t: Table, pipes: map<int, Ends>, pool: set<int>,
                                 end: map<(int, bool), int>, page: int)
    requires Counted(files, t, multiset{}) && PipesOk(files, pipes, pool, end)
    ensures page in pipes <==> exists s :: s in t && files[t[s]].kind.PipeEnd? && files[t[s]].kind.page == page
    ensures page in pipes ==> forall w :: Open(pipes[page], w) <==>
              exists s :: s in t && files[t[s]].kind == PipeEnd(page, w)
  {
    assert PipeOk(files, pipes, end, page);
    forall s | s in t && files[t[s]].kind.PipeEnd?
      ensures files[t[s]].kind.page in pipes && Open(pipes[files[t[s]].kind.page], files[t[s]].kind.writable)
    {
      assert FileOk(files, pipes, end, t[s]);
    }
    forall w | page in pipes && Open(pipes[page], w)
      ensures exists s :: s in t && files[t[s]].kind == PipeEnd(page, w)
    {
      var f := end[(page, w)];
      assert EndOk(files, end, page, w) && |Holders(t, f)| >= 1;
      var s :| s in Holders(t, f);
      assert s in t && files[t[s]].kind == PipeEnd(page, w);
    }
    assert page in pipes ==> Open(pipes[page], true) || Open(pipes[page], false);
  }

  // ---------------------------------------------------------------- closing

  function Closed(file: File): File {
    if file.ref > 1 then file.(ref := file.ref - 1) else File(0, NoKind)
  }

  function ClosePipe(pipes: map<int, Ends>, file: File): map<int, Ends> {
    if file.ref > 1 || !file.kind.PipeEnd? || file.kind.page !in pipes then pipes
    else if Open(pipes[file.kind.page], !file.kind.writable)
      then pipes[file.kind.page := Close(pipes[file.kind.page], file.kind.writable)]
    else pipes - {file.kind.page}
  }

  lemma CloseKeepsPipes(files: seq<File>, pipes: map<int, Ends>, pool: set<int>, end: map<(int, bool), int>, f: int)
    requires PipesOk(files, pipes, pool, end) && 0 <= f < NFILE && files[f].ref >= 1
    ensures var pipes' := ClosePipe(pipes, files[f]);
            PipesOk(files[f := Closed(files[f])], pipes', pool + (pipes.Keys - pipes'.Keys), end)
  {
    var files', pipes' := files[f := Closed(files[f])], ClosePipe(pipes, files[f]);
    assert FileOk(files, pipes, end, f);
    forall g | 0 <= g < NFILE
      ensures FileOk(files', pipes', end, g)
    {
      assert FileOk(files, pipes, end, g);
    }
    forall page
      ensures PipeOk(files', pipes', end, page)
    {
      assert PipeOk(files, pipes, end, page);
    }
  }

  // ---------------------------------------------------------------- the calls

  class Kernel {
    var files: seq<File>
    var ofile: Table
    var pipes: map<int, Ends>
    /** The free pages of the page allocator. */
    var pool: set<int>
    ghost var end: map<(int, bool), int>

    /** The state while the running call holds the references `loose`. */
    ghost predicate Holding(loose: multiset<int>)
      reads this
    {
      Counted(files, ofile, loose) && PipesOk(files, pipes, pool, end)
    }

    ghost predicate Valid()
      reads this
    {
      Holding(multiset{})
    }

    /** Every page is where it was: a pipe's or free. */
    ghost function Pages(): set<int>
      reads this
    {
      pipes.Keys + pool
    }

    /** At boot: no file open, no descriptor in use, no pipe. */
    constructor (pages: set<int>)
      ensures Valid() && ofile == map[] && pipes == map[] && pool == pages
    {
      files := seq(NFILE, i => File(0, NoKind));
      ofile, pipes, pool, end := map[], map[], pages, map[];
    }

    method FileAlloc(ghost loose: multiset<int>) returns (f: int)
      requires Holding(loose)
      modifies `files
      ensures -1 <= f < NFILE
      ensures f == -1 <==> forall g :: 0 <= g < NFILE ==> old(files)[g].ref != 0
      ensures if f == -1 then files == old(files)
                else old(files)[f] == File(0, NoKind) && files == old(files)[f := File(1, NoKind)]
      ensures Holding(if f == -1 then loose else loose + multiset{f})
    {
      f := 0;
      while f < NFILE
        invariant 0 <= f <= NFILE && files == old(files)
        invariant forall g :: 0 <= g < f ==> files[g].ref != 0
      {
        if files[f].ref == 0 {
          assert FileOk(files, pipes, end, f);
          AllocKeepsPipes(files, pipes, pool, end, f);
          files := files[f := files[f].(ref := 1)];
          return;
        }
        f := f + 1;
      }
      return -1;
    }

    method FileDup(f: int)
      requires 0 <= f < |files| && files[f].ref >= 1
      modifies `files
      ensures files == old(files)[f := old(files)[f].(ref := old(files)[f].ref + 1)]
    {
      files := files[f := files[f].(ref := files[f].ref + 1)];
    }

    /** One reference less; with the last one the file is free again, and so is its end of a pipe, and
        with the second end the pipe's page. */
    method FileClose(f: int)
      requires PipesOk(files, pipes, pool, end) && 0 <= f < NFILE && files[f].ref >= 1
      modifies `files, `pipes, `pool
      ensures PipesOk(files, pipes, pool, end) && Pages() == old(Pages())
      ensures files == old(files)[f := Closed(old(files)[f])]
      ensures pipes == ClosePipe(old(pipes), old(files)[f]) && pool == old(pool) + (old(pipes).Keys - pipes.Keys)
    {
      CloseKeepsPipes(files, pipes, pool, end, f);
      ghost var pipes' := ClosePipe(pipes, files[f]);
      assert FileOk(files, pipes, end, f);
      var ff := files[f];
      if ff.ref > 1 {
        files := files[f := ff.(ref := ff.ref - 1)];
        assert pool + (pipes.Keys - pipes'.Keys) == pool;
        return;
      }
      files := files[f := File(0, NoKind)];
      if ff.kind.PipeEnd? {
        PipeClose(ff.kind.page, ff.kind.writable);
      }
      assert pool == old(pool) + (old(pipes).Keys - pipes'.Keys);
    }

    method PipeClose(page: int, writable: bool)
      requires page in pipes && page !in pool && Open(pipes[page], writable)
      modifies `pipes, `pool
      ensures pipes == if Open(old(pipes)[page], !writable)
                then old(pipes)[page := Close(old(pipes)[page], writable)] else old(pipes) - {page}
      ensures pool == old(pool) + (old(pipes).Keys - pipes.Keys)
    {
      var e := Close(pipes[page], writable);
      if !e.readopen && !e.writeopen {
        pipes := pipes - {page};
        pool := pool + {page};
      } else {
        pipes := pipes[page := e];
      }
    }

    /** The lowest free slot of process `p`. */
    method FdAlloc(p: int, f: int) returns (fd: int)
      modifies `ofile
      ensures -1 <= fd < NOFILE
      ensures fd == -1 <==> forall i :: 0 <= i < NOFILE ==> Slot(p, i) in old(ofile)
      ensures fd != -1 ==> Slot(p, fd) !in old(ofile) && forall i :: 0 <= i < fd ==> Slot(p, i) in old(ofile)
      ensures ofile == if fd == -1 then old(ofile) else old(ofile)[Slot(p, fd) := f]
    {
      fd := 0;
      while fd < NOFILE
        invariant 0 <= fd <= NOFILE && ofile == old(ofile)
        invariant forall i :: 0 <= i < fd ==> Slot(p, i) in ofile
      {
        if Slot(p, fd) !in ofile {
          ofile := ofile[Slot(p, fd) := f];
          return;
        }
        fd := fd + 1;
      }
      return -1;
    }

    method SysClose(p: int, fd: int) returns (r: int)
      requires Valid()
      modifies `files, `ofile, `pipes, `pool
      ensures Valid() && Pages() == old(Pages())
      ensures if Slot(p, fd) in old(ofile) then r == 0 && ofile == old(ofile) - {Slot(p, fd)}
                else r < 0 && ofile == old(ofile)
    {
      var s := Slot(p, fd);
      if s !in ofile {
        return -22;
      }
      NamedIsAlive(files, ofile, multiset{}, s);
      CloseCounts(files, ofile, s);
      var f := ofile[s];
      ofile := ofile - {s};
      FileClose(f);
      return 0;
    }

    method SysDup(p: int, fd: int) returns (r: int)
      requires Valid()
      modifies `files, `ofile
      ensures Valid()
      ensures r < 0 ==>
                ofile == old(ofile) && files == old(files) && (Slot(p, fd) !in ofile || forall i :: 0 <= i < NOFILE ==>
                  Slot(p, i) in ofile)
      ensures r >= 0 ==>
                Slot(p, fd) in old(ofile) && LowestFree(old(ofile), p, r) &&
                ofile == old(ofile)[Slot(p, r) := old(ofile)[Slot(p, fd)]]
    {
      var s := Slot(p, fd);
      if s !in ofile {
        return -22;
      }
      NamedIsAlive(files, ofile, multiset{}, s);
      var f := ofile[s];
      r := FdAlloc(p, f);
      if r < 0 {
        return -2;
      }
      DupCounts(files, old(ofile), Slot(p, r), f);
      DupKeepsPipes(files, pipes, pool, end, f);
      FileDup(f);
    }

    method SysDup2(p: int, oldfd: int, newfd: int) returns (r: int)
      requires Valid()
      modifies `files, `ofile, `pipes, `pool
      ensures Valid() && Pages() == old(Pages())
      ensures r < 0 <==> !(0 <= oldfd < NOFILE && 0 <= newfd < NOFILE && Slot(p, oldfd) in old(ofile))
      ensures r < 0 ==> ofile == old(ofile)
      ensures r >= 0 ==> r == newfd && ofile == old(ofile)[Slot(p, newfd) := old(ofile)[Slot(p, oldfd)]]
    {
      if oldfd < 0 || oldfd >= NOFILE || newfd < 0 || newfd >= NOFILE || Slot(p, oldfd) !in ofile {
        return -9;
      }
      if oldfd == newfd {
        return newfd;
      }
      var f, s := ofile[Slot(p, oldfd)], Slot(p, newfd);
      if s in ofile {
        CloseSlot(s);
      }
      assert Slot(p, oldfd) in ofile && ofile[Slot(p, oldfd)] == f;
      NamedIsAlive(files, ofile, multiset{}, Slot(p, oldfd));
      NameFile(s, f);
      return newfd;
    }

    /** Close the file a slot names, then empty the slot. */
    method CloseSlot(s: Slot)
      requires Valid() && s in ofile
      modifies `files, `ofile, `pipes, `pool
      ensures Valid() && Pages() == old(Pages()) && ofile == old(ofile) - {s}
    {
      NamedIsAlive(files, ofile, multiset{}, s);
      CloseCounts(files, ofile, s);
      FileClose(ofile[s]);
      ofile := ofile - {s};
    }

    /** Let a free slot name an open file, then count it. */
    method NameFile(s: Slot, f: int)
      requires Valid() && s !in ofile && 0 <= s.fd < NOFILE && 0 <= f < NFILE && files[f].ref >= 1
      modifies `files, `ofile
      ensures Valid() && ofile == old(ofile)[s := f]
    {
      DupCounts(files, ofile, s, f);
      DupKeepsPipes(files, pipes, pool, end, f);
      ofile := ofile[s := f];
      FileDup(f);
    }

    /** Close a file that was free before this call allocated it. */
    method Undo(f: int, ghost loose: multiset<int>)
      requires Holding(loose) && 0 <= f < NFILE && f in loose && files[f].ref == 1 && files[f].kind != Inode
      modifies `files, `pipes, `pool
      ensures Holding(loose - multiset{f}) && Pages() == old(Pages())
      ensures files == old(files)[f := File(0, NoKind)] && pipes == ClosePipe(old(pipes), old(files)[f])
      ensures pool == old(pool) + (old(pipes).Keys - pipes.Keys)
    {
      FileClose(f);
    }

    /** A pipe and a file for each end, or nothing taken at all; `grant` is what the page allocator
        would answer. */
    method PipeAlloc(grant: Option<int>) returns (ok: bool, rf: int, wf: int, ghost page: int)
      requires Valid() && (grant.Some? ==> grant.value in pool)
      modifies `files, `pipes, `pool, `end
      ensures Pages() == old(Pages())
      ensures ok <==> TwoFree(old(files)) && grant.Some?
      ensures !ok ==> Valid() && files == old(files) && pipes == old(pipes)
      ensures ok ==> Holding(multiset{rf, wf}) && NewPipe(old(files), old(pipes), files, pipes, rf, wf, page)
    {
      ok, page := false, 0;
      rf, wf := TwoFiles();
      if wf == -1 {
        return;
      }
      if grant.None? {
        Undo(rf, multiset{rf, wf});
        Undo(wf, multiset{wf});
        assert files == old(files);
        return;
      }
      MakePipe(grant.value, rf, wf);
      ok, page := true, grant.value;
    }

    /** Two free files, or none taken. */
    method TwoFiles() returns (rf: int, wf: int)
      requires Valid()
      modifies `files, `pipes, `pool
      ensures pipes == old(pipes) && pool == old(pool)
      ensures wf != -1 <==> TwoFree(old(files))
      ensures wf == -1 ==> Valid() && files == old(files)
      ensures wf != -1 ==> 0 <= rf < NFILE && 0 <= wf < NFILE && rf != wf && Holding(multiset{rf, wf})
      ensures wf != -1 ==>
                old(files)[rf] == old(files)[wf] == File(0, NoKind) &&
                files == old(files)[rf := File(1, NoKind)][wf := File(1, NoKind)]
    {
      rf := FileAlloc(multiset{});
      if rf == -1 {
        return rf, -1;
      }
      wf := FileAlloc(multiset{rf});
      OtherFree(old(files), rf);
      if wf == -1 {
        Undo(rf, multiset{rf});
        assert files == old(files);
      }
    }

    /** The page becomes a pipe with both ends open. */
    method MakePipe(page: int, rf: int, wf: int)
      requires Holding(multiset{rf, wf}) && page in pool && 0 <= rf < NFILE && 0 <= wf < NFILE && rf != wf &&
               files[rf] == files[wf] == File(1, NoKind)
      modifies `files, `pipes, `pool, `end
      ensures Holding(multiset{rf, wf}) && Pages() == old(Pages()) && page !in old(pipes)
      ensures pipes == old(pipes)[page := Ends(true, true)]
      ensures files == old(files)[rf := File(1, PipeEnd(page, false))][wf := File(1, PipeEnd(page, true))]
    {
      NewKeepsPipes(files, pipes, pool, end, rf, wf, page);
      pool := pool - {page};
      pipes := pipes[page := Ends(true, true)];
      files := files[rf := File(1, PipeEnd(page, false))][wf := File(1, PipeEnd(page, true))];
      end := end[(page, false) := rf][(page, true) := wf];
    }

    /** Close both ends of a pipe that no descriptor names yet. */
    method Unpipe(rf: int, wf: int, ghost page: int, ghost files0: seq<File>, ghost pipes0: map<int, Ends>)
      requires Holding(multiset{rf, wf}) && NewPipe(files0, pipes0, files, pipes, rf, wf, page)
      modifies `files, `pipes, `pool
      ensures Valid() && Pages() == old(Pages()) && files == files0 && pipes == pipes0
    {
      Undo(rf, multiset{rf, wf});
      assert files[wf] == File(1, PipeEnd(page, true)) && pipes == pipes0[page := Ends(false, true)];
      Undo(wf, multiset{wf});
      assert pipes == pipes0;
    }

    /** A pipe on two new descriptors, or nothing changed. */
    method SysPipe(p: int, grant: Option<int>)
      returns (r: int, fd0: int, fd1: int, ghost rf: int, ghost wf: int, ghost page: int)
      requires Valid() && (grant.Some? ==> grant.value in pool)
      modifies `files, `ofile, `pipes, `pool, `end
      ensures Valid() && Pages() == old(Pages())
      ensures r >= 0 <==> TwoFree(old(files)) && grant.Some? && TwoSlotsFree(old(ofile), p)
      ensures r < 0 ==> files == old(files) && ofile == old(ofile) && pipes == old(pipes)
      ensures r >= 0 ==> LowestFree(old(ofile), p, fd0) && LowestFree(old(ofile)[Slot(p, fd0) := rf], p, fd1)
      ensures r >= 0 ==>
                NewPipe(old(files), old(pipes), files, pipes, rf, wf, page) &&
                ofile == old(ofile)[Slot(p, fd0) := rf][Slot(p, fd1) := wf]
    {
      r, fd0, fd1 := -12, -1, -1;
      var ok, f0, f1;
      ok, f0, f1, page := PipeAlloc(grant);
      rf, wf := f0, f1;
      if ok {
        fd0, fd1 := TwoSlots(p, f0, f1);
        if fd1 < 0 {
          Unpipe(f0, f1, page, old(files), old(pipes));
        } else {
          r := 0;
        }
      }
    }

    /** Two free slots for the two files, or none taken. */
    method TwoSlots(p: int, rf: int, wf: int) returns (fd0: int, fd1: int)
      requires Counted(files, ofile, multiset{rf, wf}) && 0 <= rf < NFILE && 0 <= wf < NFILE && rf != wf
      modifies `ofile
      ensures fd1 >= 0 <==> TwoSlotsFree(old(ofile), p)
      ensures fd1 < 0 ==> ofile == old(ofile)
      ensures fd1 >= 0 ==> LowestFree(old(ofile), p, fd0) && LowestFree(old(ofile)[Slot(p, fd0) := rf], p, fd1)
      ensures fd1 >= 0 ==>
                Counted(files, ofile, multiset{}) && ofile == old(ofile)[Slot(p, fd0) := rf][Slot(p, fd1) := wf]
    {
      fd0 := FdAlloc(p, rf);
      if fd0 < 0 {
        return fd0, -1;
      }
      fd1 := FdAlloc(p, wf);
      OtherSlotFree(old(ofile), p, fd0);
      if fd1 < 0 {
        ofile := ofile - {Slot(p, fd0)};
        assert ofile == old(ofile);
        return;
      }
      TakeSlot(files, old(ofile), Slot(p, fd0), rf, multiset{rf, wf});
      TakeSlot(files, old(ofile)[Slot(p, fd0) := rf], Slot(p, fd1), wf, multiset{rf, wf} - multiset{rf});
      assert multiset{rf, wf} - multiset{rf} - multiset{wf} == multiset{};
    }

    /** What fork does with descriptors: the child's slots name the parent's files. */
    method ForkFiles(parent: int, child: int)
      requires Valid() && parent != child && forall s :: s in ofile ==> s.p != child
      modifies `files, `ofile
      ensures Valid() && Forked(old(ofile), ofile, parent, child, NOFILE)
    {
      var i := 0;
      while i < NOFILE
        invariant 0 <= i <= NOFILE && Valid() && Forked(old(ofile), ofile, parent, child, i)
      {
        if Slot(parent, i) in ofile {
          CopySlot(parent, child, i);
        }
        i := i + 1;
      }
    }

    method CopySlot(parent: int, child: int, i: int)
      requires Valid() && Slot(parent, i) in ofile && Slot(child, i) !in ofile
      modifies `files, `ofile
      ensures Valid() && ofile == old(ofile)[Slot(child, i) := old(ofile)[Slot(parent, i)]]
    {
      var f, s := ofile[Slot(parent, i)], Slot(child, i);
      NamedIsAlive(files, ofile, multiset{}, Slot(parent, i));
      DupCounts(files, ofile, s, f);
      DupKeepsPipes(files, pipes, pool, end, f);
      FileDup(f);
      ofile := ofile[s := f];
    }

    /** What exit does with descriptors: it closes them all. */
    method ExitFiles(p: int)
      requires Valid()
      modifies `files, `ofile, `pipes, `pool
      ensures Valid() && Pages() == old(Pages())
      ensures forall s :: s in ofile <==> s in old(ofile) && s.p != p
      ensures forall s :: s in ofile ==> ofile[s] == old(ofile)[s]
    {
      var fd := 0;
      while fd < NOFILE
        invariant 0 <= fd <= NOFILE && Valid() && Pages() == old(Pages())
        invariant forall s :: s in ofile <==> s in old(ofile) && !(s.p == p && 0 <= s.fd < fd)
        invariant forall s :: s in ofile ==> ofile[s] == old(ofile)[s]
      {
        var s := Slot(p, fd);
        if s in ofile {
          CloseSlot(s);
        }
        fd := fd + 1;
      }
    }
  }

  /** `t'` is `t` with the first `n` slots of `parent` copied to `child`. */
  ghost predicate Forked(t: Table, t': Table, parent: int, child: int, n: int)
    requires forall s :: s in t ==> s.p != child
  {
    && (forall s :: s in t' <==> s in t || (s.p == child && 0 <= s.fd < n && Slot(parent, s.fd) in t))
    && (forall s :: s in t' ==> t'[s] == if s.p == child then t[Slot(parent, s.fd)] else t[s])
  }

  /** The slot takes over a reference the call has in hand. */
  lemma TakeSlot(files: seq<File>, t: Table, s: Slot, f: int, loose: multiset<int>)
    requires Counted(files, t, loose) && s !in t && f in loose && 0 <= f < NFILE && 0 <= s.fd < NOFILE
    ensures Counted(files, t[s := f], loose - multiset{f})
  {
    AddSlot(t, s, f);
  }

  /** At least two files are free. */
  ghost predicate TwoFree(files: seq<File>) {
    exists f, g :: 0 <= f < g < |files| && files[f].ref == 0 && files[g].ref == 0
  }

  /** At least two descriptors of process `p` are free. */
  ghost predicate TwoSlotsFree(t: Table, p: int) {
    exists i, j :: 0 <= i < j < NOFILE && Slot(p, i) !in t && Slot(p, j) !in t
  }

  /** The first descriptor of `p` that is not in use. */
  predicate LowestFree(t: Table, p: int, fd: int) {
    0 <= fd < NOFILE && Slot(p, fd) !in t && forall i :: 0 <= i < fd ==> Slot(p, i) in t
  }

  lemma OtherFree(files: seq<File>, f: int)
    requires 0 <= f < |files| && files[f].ref == 0
    ensures TwoFree(files) <==> exists g :: 0 <= g < |files| && g != f && files[g].ref == 0
  {
    if g :| 0 <= g < |files| && g != f && files[g].ref == 0 {
      assert if f < g then files[f].ref == 0 && files[g].ref == 0 else files[g].ref == 0 && files[f].ref == 0;
    }
  }

  lemma OtherSlotFree(t: Table, p: int, i: int)
    requires 0 <= i < NOFILE && Slot(p, i) !in t
    ensures TwoSlotsFree(t, p) <==> exists j :: 0 <= j < NOFILE && j != i && Slot(p, j) !in t
  {
    if j :| 0 <= j < NOFILE && j != i && Slot(p, j) !in t {
      assert if i < j then Slot(p, i) !in t && Slot(p, j) !in t else Slot(p, j) !in t && Slot(p, i) !in t;
    }
  }

  /** Two files that were free are now the ends of a pipe that was not there. */
  predicate NewPipe(files: seq<File>, pipes: map<int, Ends>, files': seq<File>, pipes': map<int, Ends>, rf: int,
                    wf: int, page: int) {
    && 0 <= rf < NFILE == |files| && 0 <= wf < NFILE && rf != wf && files[rf] == files[wf] == File(0, NoKind)
    && page !in pipes && pipes' == pipes[page := Ends(true, true)]
    && files' == files[rf := File(1, PipeEnd(page, false))][wf := File(1, PipeEnd(page, true))]
  }

  lemma NewKeepsPipes(files: seq<File>, pipes: map<int, Ends>, pool: set<int>, end: map<(int, bool), int>, rf: int,
                      wf: int, page: int)
    requires PipesOk(files, pipes, pool, end) && 0 <= rf < NFILE && 0 <= wf < NFILE && rf != wf && page in pool
    requires files[rf] == files[wf] == File(1, NoKind)
    ensures PipesOk(files[rf := File(1, PipeEnd(page, false))][wf := File(1, PipeEnd(page, true))],
                    pipes[page := Ends(true, true)],
                    pool - {page}, end[(page, false) := rf][(page, true) := wf])
  {
    var files' := files[rf := File(1, PipeEnd(page, false))][wf := File(1, PipeEnd(page, true))];
    var pipes', end' := pipes[page := Ends(true, true)], end[(page, false) := rf][(page, true) := wf];
    forall g | 0 <= g < NFILE
      ensures FileOk(files', pipes', end', g)
    {
      assert FileOk(files, pipes, end, g);
    }
    forall q
      ensures PipeOk(files', pipes', end', q)
    {
      assert PipeOk(files, pipes, end, q);
    }
  }

  lemma AllocKeepsPipes(files: seq<File>, pipes: map<int, Ends>, pool: set<int>, end: map<(int, bool), int>, f: int)
    requires PipesOk(files, pipes, pool, end) && 0 <= f < NFILE && files[f].ref == 0
    ensures PipesOk(files[f := File(1, NoKind)], pipes, pool, end)
  {
    var files' := files[f := File(1, NoKind)];
    assert FileOk(files, pipes, end, f);
    forall g | 0 <= g < NFILE
      ensures FileOk(files', pipes, end, g)
    {
      assert FileOk(files, pipes, end, g);
    }
    forall page
      ensures PipeOk(files', pipes, end, page)
    {
      assert PipeOk(files, pipes, end, page);
    }
  }

  lemma DupKeepsPipes(files: seq<File>, pipes: map<int, Ends>, pool: set<int>, end: map<(int, bool), int>, f: int)
    requires PipesOk(files, pipes, pool, end) && 0 <= f < NFILE && files[f].ref >= 1
    ensures PipesOk(files[f := files[f].(ref := files[f].ref + 1)], pipes, pool, end)
  {
    var files' := files[f := files[f].(ref := files[f].ref + 1)];
    forall g | 0 <= g < NFILE
      ensures FileOk(files', pipes, end, g)
    {
      assert FileOk(files, pipes, end, g);
    }
    forall page
      ensures PipeOk(files', pipes, end, page)
    {
      assert PipeOk(files, pipes, end, page);
    }
  }

  lemma DupCounts(files: seq<File>, t: Table, s: Slot, f: int)
    requires Counted(files, t, multiset{}) && s !in t && 0 <= f < NFILE && 0 <= s.fd < NOFILE
    ensures Counted(files[f := files[f].(ref := files[f].ref + 1)], t[s := f], multiset{})
  {
    AddSlot(t, s, f);
  }

  lemma CloseCounts(files: seq<File>, t: Table, s: Slot)
    requires Counted(files, t, multiset{}) && s in t
    ensures Counted(files[t[s] := Closed(files[t[s]])], t - {s}, multiset{})
  {
    NamedIsAlive(files, t, multiset{}, s);
    DropSlot(t, s);
  }
}
