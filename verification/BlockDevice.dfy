/** The disk under the log: blocks made of sectors, ordered block writes, and what a
    power failure in the middle of a block write can leave behind.

    A block is 2048 bytes and the drive commits 512-byte sectors, so a block is four
    sectors, each a sequence of 32-bit words. */
module BlockDevice {

  const SECTOR_WORDS: nat := 128

  type Sector = seq<nat>

  datatype Block = Block(s0: Sector, s1: Sector, s2: Sector, s3: Sector)

  type Disk = seq<Block>

  datatype Write = Write(bno: nat, data: Block)

  /** A completed write; the driver refuses blocks the disk does not have. */
  function ApplyOne(d: Disk, w: Write): (r: Disk)
    ensures |r| == |d|
  {
    if w.bno < |d| then d[w.bno := w.data] else d
  }

  /** The disk after the given writes completed in order. */
  function Apply(d: Disk, ws: seq<Write>): (r: Disk)
    ensures |r| == |d|
  {
    if ws == [] then d else ApplyOne(Apply(d, ws[..|ws|-1]), ws[|ws|-1])
  }

  /** An interrupted write: each sector holds its old or its new contents. */
  predicate Torn(before: Block, after: Block, r: Block) {
    && (r.s0 == before.s0 || r.s0 == after.s0)
    && (r.s1 == before.s1 || r.s1 == after.s1)
    && (r.s2 == before.s2 || r.s2 == after.s2)
    && (r.s3 == before.s3 || r.s3 == after.s3)
  }

  /** Any of the sectors may be old and any new. */
  lemma AnySectorTears(before: Block, after: Block, n0: bool, n1: bool, n2: bool, n3: bool)
    ensures Torn(before, after,
                 Block(if n0 then after.s0 else before.s0, if n1 then after.s1 else before.s1,
                       if n2 then after.s2 else before.s2, if n3 then after.s3 else before.s3))
  {
  }

  /** `r` is `d` with block `bno` replaced by anything at all. */
  predicate SameExcept(d: Disk, bno: nat, r: Disk) {
    |r| == |d| && forall b :: 0 <= b < |d| && b != bno ==> r[b] == d[b]
  }

  predicate TornWrite(d: Disk, w: Write, r: Disk) {
    SameExcept(d, w.bno, r) && (w.bno < |d| ==> Torn(d[w.bno], w.data, r[w.bno]))
  }

  /** `r` is a disk a crash can leave after exactly `k` of the writes have completed:
      either no further write was under way, or the next one was interrupted. */
  predicate CrashAt(d: Disk, ws: seq<Write>, k: nat, r: Disk)
    requires k <= |ws|
  {
    || r == Apply(d, ws[..k])
    || (k < |ws| && TornWrite(Apply(d, ws[..k]), ws[k], r))
  }

  lemma ApplyNext(d: Disk, ws: seq<Write>, k: nat)
    requires k < |ws|
    ensures ws[..k+1] == ws[..k] + [ws[k]]
    ensures Apply(d, ws[..k+1]) == ApplyOne(Apply(d, ws[..k]), ws[k])
  {
    assert ws[..k+1][..k] == ws[..k];
  }

  lemma {:induction false} ApplyConcat(d: Disk, a: seq<Write>, b: seq<Write>)
    ensures Apply(d, a + b) == Apply(Apply(d, a), b)
  {
    if b == [] {
      assert a + b == a;
    } else {
      var c := a + b;
      assert c[..|c|-1] == a + b[..|b|-1];
      ApplyConcat(d, a, b[..|b|-1]);
    }
  }

  /** Stopping between two writes is the special case of an interrupted write that did nothing. */
  lemma CrashIsTorn(d: Disk, ws: seq<Write>, k: nat, r: Disk)
    requires k < |ws| && CrashAt(d, ws, k, r)
    ensures TornWrite(Apply(d, ws[..k]), ws[k], r)
  {
  }
}
