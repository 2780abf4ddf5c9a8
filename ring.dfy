/**
 * Index arithmetic of the circular sample history, and a value-level description of what
 * its slots hold.
 *
 * A *window* is the list of valid records, oldest first. With the write cursor at `pos`,
 * the k-th oldest of `count` records sits in slot `(pos - count + k) mod N`; every other
 * slot holds 0.0. `Layout(w, pos)` is that picture of all N slots, and the history class
 * keeps its array equal to it.
 */
module RingLayout {

  /** Number of slots in the history (SIGBUF_SIZE). */
  const N: int := 120

  function Min(a: int, b: int): int { if a <= b then a else b }

  function Max(a: int, b: int): int { if a <= b then b else a }

  /** Exact sum of a sequence of samples. */
  function Sum(s: seq<real>): real
  {
    if s == [] then 0.0 else s[0] + Sum(s[1..])
  }

  /** Mean of a non-empty window. */
  function Mean(w: seq<real>): real
    requires |w| > 0
  {
    Sum(w) / (|w| as real)
  }

  /** Slot of the k-th oldest of `count` records that end just before the cursor `pos`. */
  function SlotOf(pos: int, count: int, k: int): int
  {
    (pos - count + k) % N
  }

  /** Age of slot `j` (0 = oldest) relative to `count` records ending just before `pos`. */
  function Age(pos: int, count: int, j: int): int
  {
    (j - pos + count) % N
  }

  /** The firmware's start offset for an oldest-first walk (STM32code.c:126 and :172). */
  function Offset(pos: int, count: int): int
  {
    pos + (N - count) % N
  }

  /** Value held by slot `j` when the window `w` ends just before `pos`. */
  function Cell(w: seq<real>, pos: int, j: int): real
    requires |w| <= N
  {
    var a := Age(pos, |w|, j);
    if a < |w| then w[a] else 0.0
  }

  /** All N slots for window `w` ending just before `pos`: the zero-fill invariant. */
  function Layout(w: seq<real>, pos: int): seq<real>
    requires |w| <= N
  {
    seq(N, j => Cell(w, pos, j))
  }

  /** The window after one more sample: once all N slots are valid, the oldest falls out. */
  function Pushed(w: seq<real>, v: real): (r: seq<real>)
    requires |w| <= N
    ensures |r| == Min(|w| + 1, N)
    ensures r[|r| - 1] == v
  {
    if |w| < N then w + [v] else w[1..] + [v]
  }

  /** The window after the samples `vs` arrive one by one. */
  function PushedAll(w: seq<real>, vs: seq<real>): (r: seq<real>)
    requires |w| <= N
    decreases |vs|
  {
    if vs == [] then w else PushedAll(Pushed(w, vs[0]), vs[1..])
  }

  // ---------------------------------------------------------------------------
  // Reduction modulo N

  /** On the ranges this module uses, `% N` is a single wrap. */
  lemma Wrap(x: int)
    requires -N <= x < 2 * N
    ensures x % N == if x < 0 then x + N else if x < N then x else x - N
  {
  }

  /** The firmware's walk `(i + offset) % N` visits the i-th oldest slot, and stays in bounds. */
  lemma {:induction false} OffsetWalk(pos: int, count: int, i: int)
    requires 0 <= pos < N && 0 < count <= N && 0 <= i < count
    ensures 0 <= (i + Offset(pos, count)) % N < N
    ensures (i + Offset(pos, count)) % N == SlotOf(pos, count, i)
  {
    Wrap(N - count);
    Wrap(i + Offset(pos, count));
    Wrap(pos - count + i);
  }

  /** The i-th oldest record of a window is stored at `SlotOf`, which is in bounds. */
  lemma {:induction false} LayoutAtSlot(w: seq<real>, pos: int, k: int)
    requires |w| <= N && 0 <= pos < N && 0 <= k < |w|
    ensures 0 <= SlotOf(pos, |w|, k) < N
    ensures Age(pos, |w|, SlotOf(pos, |w|, k)) == k
    ensures Layout(w, pos)[SlotOf(pos, |w|, k)] == w[k]
  {
    var c := |w|;
    Wrap(pos - c + k);
    Wrap(SlotOf(pos, c, k) - pos + c);
  }

  /** Distinct ages give distinct slots: the walk never visits a slot twice. */
  lemma {:induction false} SlotsDistinct(pos: int, count: int, k: int, l: int)
    requires 0 <= pos < N && 0 <= count <= N && 0 <= k < l < count
    ensures SlotOf(pos, count, k) != SlotOf(pos, count, l)
  {
    Wrap(pos - count + k);
    Wrap(pos - count + l);
  }

  /** The slot under the cursor holds 0.0 while the window has room, and the oldest record once it is full. */
  lemma {:induction false} CursorSlot(w: seq<real>, pos: int)
    requires |w| <= N && 0 <= pos < N
    ensures Layout(w, pos)[pos] == if |w| < N then 0.0 else w[0]
  {
    Wrap(|w|);
  }

  // ---------------------------------------------------------------------------
  // How the layout changes under the two mutations

  lemma {:induction false} CellPushed(w: seq<real>, pos: int, v: real, j: int)
    requires |w| <= N && 0 <= pos < N && 0 <= j < N
    ensures Cell(Pushed(w, v), (pos + 1) % N, j) == if j == pos then v else Cell(w, pos, j)
  {
    var c := |w|;
    var w', p' := Pushed(w, v), (pos + 1) % N;
    Wrap(pos + 1);
    Wrap(j - pos + c);
    Wrap(j - p' + |w'|);
    if c < N {
      assert w' == w + [v];
    } else {
      assert w' == w[1..] + [v];
    }
  }

  /** Writing `v` under the cursor and advancing it is exactly pushing `v` onto the window. */
  lemma {:induction false} LayoutPushed(w: seq<real>, pos: int, v: real)
    requires |w| <= N && 0 <= pos < N
    ensures Layout(Pushed(w, v), (pos + 1) % N) == Layout(w, pos)[pos := v]
  {
    forall j | 0 <= j < N {
      CellPushed(w, pos, v, j);
    }
  }

  lemma {:induction false} CellDropped(w: seq<real>, m: int, pos: int, j: int)
    requires |w| <= N && 0 <= m <= |w| && 0 <= pos < N && 0 <= j < N
    ensures Cell(w[m..], pos, j) == if Age(pos, |w|, j) < m then 0.0 else Cell(w, pos, j)
  {
    var c := |w|;
    Wrap(j - pos + c);
    Wrap(j - pos + (c - m));
    assert |w[m..]| == c - m;
  }

  /**
   * Dropping the m oldest records of the window, with the cursor left where it is,
   * zeroes exactly the slots of age below m and leaves every other slot as it was.
   */
  lemma {:induction false} LayoutDropped(w: seq<real>, m: int, pos: int)
    requires |w| <= N && 0 <= m <= |w| && 0 <= pos < N
    ensures forall j :: 0 <= j < N ==>
      Layout(w[m..], pos)[j] == if Age(pos, |w|, j) < m then 0.0 else Layout(w, pos)[j]
  {
    forall j | 0 <= j < N {
      CellDropped(w, m, pos, j);
    }
  }

  /** Zeroing the oldest slot is exactly dropping the oldest record. */
  lemma {:induction false} LayoutDropOldest(u: seq<real>, pos: int)
    requires 0 < |u| <= N && 0 <= pos < N
    ensures 0 <= SlotOf(pos, |u|, 0) < N
    ensures Layout(u[1..], pos) == Layout(u, pos)[SlotOf(pos, |u|, 0) := 0.0]
  {
    var s := SlotOf(pos, |u|, 0);
    LayoutAtSlot(u, pos, 0);
    LayoutDropped(u, 1, pos);
    forall j | 0 <= j < N
      ensures Layout(u[1..], pos)[j] == Layout(u, pos)[s := 0.0][j]
    {
      Wrap(j - pos + |u|);
      Wrap(pos - |u|);
    }
  }

  // ---------------------------------------------------------------------------
  // Sums

  /** Overwriting one element changes the sum by the difference, as STM32code.c:73-75 relies on. */
  lemma {:induction false} SumUpdate(s: seq<real>, j: int, x: real)
    requires 0 <= j < |s|
    ensures Sum(s[j := x]) == Sum(s) - s[j] + x
    decreases |s|
  {
    if j == 0 {
      assert s[j := x][1..] == s[1..];
    } else {
      assert s[j := x][1..] == s[1..][j - 1 := x];
      SumUpdate(s[1..], j - 1, x);
    }
  }

  lemma {:induction false} SumSplit(s: seq<real>, m: int)
    requires 0 <= m <= |s|
    ensures Sum(s) == Sum(s[..m]) + Sum(s[m..])
    decreases m
  {
    if m > 0 {
      assert s[..m][1..] == s[1..][..m - 1];
      assert s[m..] == s[1..][m - 1..];
      SumSplit(s[1..], m - 1);
    }
  }

  lemma {:induction false} SumOfZeros(s: seq<real>)
    requires forall i :: 0 <= i < |s| ==> s[i] == 0.0
    ensures Sum(s) == 0.0
    decreases |s|
  {
    if s != [] {
      SumOfZeros(s[1..]);
    }
  }

  /**
   * The fact the firmware relies on: because every slot outside the window holds 0.0, the sum of
   * all N slots equals the sum of the valid records.
   */
  lemma {:induction false} SumLayout(w: seq<real>, pos: int)
    requires |w| <= N && 0 <= pos < N
    ensures Sum(Layout(w, pos)) == Sum(w)
    decreases |w|
  {
    if w == [] {
      SumOfZeros(Layout(w, pos));
    } else {
      var s := SlotOf(pos, |w|, 0);
      LayoutAtSlot(w, pos, 0);
      LayoutDropOldest(w, pos);
      SumUpdate(Layout(w, pos), s, 0.0);
      SumLayout(w[1..], pos);
    }
  }

  // ---------------------------------------------------------------------------
  // The window over a run of samples

  /**
   * After any run of samples the window holds the most recent ones, at most N of them,
   * in arrival order.
   */
  lemma {:induction false} PushedAllKeepsNewest(w: seq<real>, vs: seq<real>)
    requires |w| <= N
    ensures PushedAll(w, vs) == (w + vs)[Max(0, |w| + |vs| - N)..]
    decreases |vs|
  {
    if vs == [] {
      assert w + vs == w;
    } else {
      var v := vs[0];
      var p := Pushed(w, v);
      var d := Max(0, |w| + 1 - N);
      assert p == (w + [v])[d..];
      PushedAllKeepsNewest(p, vs[1..]);
      var e := Max(0, |p| + |vs[1..]| - N);
      assert p + vs[1..] == (w + vs)[d..] by {
        assert w + vs == (w + [v]) + vs[1..];
      }
      assert (w + vs)[d..][e..] == (w + vs)[d + e..];
    }
  }
}
