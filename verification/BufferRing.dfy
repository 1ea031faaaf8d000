/** The doubly linked list of buffers, most recently used first, as arrays of neighbours. The list
    head is entry `n`, after the `n` buffers. */
module BufferRing {

  /** `c` walks the list: from the head, through each linked entry once, back to the head; `next`
      leads along it and `prev` leads back. */
  ghost predicate Ring(next: seq<int>, prev: seq<int>, c: seq<int>, n: nat) {
    && |next| == |prev| == n + 1
    && |c| >= 2 && c[0] == n && c[|c|-1] == n
    && (forall k :: 0 < k < |c| - 1 ==> 0 <= c[k] < n)
    && (forall j, k :: 0 < j < k < |c| - 1 ==> c[j] != c[k])
    && (forall k :: 0 <= k < |c| - 1 ==> Links(next, prev, c, k))
  }

  /** The links between positions `k` and `k + 1`. */
  ghost predicate Links(next: seq<int>, prev: seq<int>, c: seq<int>, k: int) {
    && 0 <= k < |c| - 1 && 0 <= c[k] < |next| && 0 <= c[k+1] < |prev|
    && next[c[k]] == c[k+1] && prev[c[k+1]] == c[k]
  }

  ghost function Without(c: seq<int>, k: int): (r: seq<int>) {
    if 0 <= k < |c| then c[..k] + c[k+1..] else c
  }

  ghost function AtFront(c: seq<int>, b: int): (r: seq<int>) {
    if c == [] then [] else [c[0], b] + c[1..]
  }

  /** Taking the entry at position `k` out. */
  lemma UnlinkKeepsRing(next: seq<int>, prev: seq<int>, c: seq<int>, n: nat, k: int)
    requires Ring(next, prev, c, n) && 0 < k < |c| - 1
    ensures var b := c[k];
            && 0 <= next[b] <= n && 0 <= prev[b] <= n
            && Ring(next[prev[b] := next[b]], prev[next[b] := prev[b]], Without(c, k), n)
            && forall j :: 0 <= j < |Without(c, k)| ==> Without(c, k)[j] != b
  {
    var b, d := c[k], Without(c, k);
    assert Links(next, prev, c, k - 1) && Links(next, prev, c, k);
    var next', prev' := next[prev[b] := next[b]], prev[next[b] := prev[b]];
    forall j | 0 <= j < |d| - 1
      ensures Links(next', prev', d, j)
    {
      if j < k - 1 {
        assert Links(next, prev, c, j);
      } else if j >= k {
        assert Links(next, prev, c, j + 1);
      }
    }
  }

  /** Putting an entry that is not linked right after the head. */
  lemma LinkKeepsRing(next: seq<int>, prev: seq<int>, c: seq<int>, n: nat, b: int)
    requires Ring(next, prev, c, n) && 0 <= b < n && forall j :: 0 <= j < |c| ==> c[j] != b
    ensures 0 <= next[n] <= n
    ensures Ring(next[b := next[n]][n := b], prev[b := n][next[n] := b], AtFront(c, b), n)
  {
    var d := AtFront(c, b);
    assert Links(next, prev, c, 0);
    var next', prev' := next[b := next[n]][n := b], prev[b := n][next[n] := b];
    forall j | 0 <= j < |d| - 1
      ensures Links(next', prev', d, j)
    {
      if j >= 2 {
        assert Links(next, prev, c, j - 1);
      }
    }
  }

  /** The first `m` buffers are on the list. */
  ghost predicate Holds(c: seq<int>, m: int) {
    forall b :: 0 <= b < m ==> b in c
  }

  lemma LinkKeepsAll(c: seq<int>, b: int)
    requires c != [] && Holds(c, b)
    ensures Holds(AtFront(c, b), b + 1)
  {
    var d := AtFront(c, b);
    assert d[1] == b && d[0] == c[0];
    forall i | 0 <= i < b
      ensures i in d
    {
      assert i in c;
      var j :| 0 <= j < |c| && c[j] == i;
      assert j > 0 ==> d[j + 1] == i;
    }
  }

  lemma MoveKeepsAll(c: seq<int>, n: nat, m: int, k: int)
    requires Holds(c, m) && 0 < k < |c| - 1 && c[0] == n
    ensures Holds(AtFront(Without(c, k), c[k]), m)
  {
    var d := AtFront(Without(c, k), c[k]);
    forall b | 0 <= b < m
      ensures b in d
    {
      assert b in c;
      var j :| 0 <= j < |c| && c[j] == b;
      if j == 0 || j == k {
        assert d[0] == c[0] && d[1] == c[k];
      } else if j < k {
        assert d[j + 1] == b;
      } else {
        assert d[j] == b;
      }
    }
  }
}
