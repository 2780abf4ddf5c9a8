/**
 * The firmware's sample history: the array `sigbuffer` of N slots with the write cursor
 * `sigbufpos`, the record count `recordcount` and the running sum `runningtotal`
 * (STM32code.c:50-54), and the three operations on it: the append step of the sampling
 * thread, the oldest-first listing of `printdata` and the pruning of `deletedata`.
 *
 * Each operation runs to completion without interference: the firmware pauses sampling
 * around printing and deleting for exactly that purpose.
 */
module SampleHistory {
  import opened RingLayout

  /** One printed line: the slot index and the sample stored there. */
  datatype Line = Line(slot: int, value: real)

  /** What `printdata` reports. */
  datatype PrintReport =
    | NoRecordsToPrint
    | Printed(inMemory: int, average: real, lines: seq<Line>)

  /** What `deletedata` reports. */
  datatype DeleteReport =
    | NoRecordsToDelete
    | Deleted(inMemory: int, deleted: int)

  /**
   * Reference definition of a listing of window `w` (cursor at `pos`) limited to `amt`
   * records: the count, the mean and the `amt` oldest records with their slots, oldest first.
   */
  function Listing(w: seq<real>, pos: int, amt: nat): PrintReport
    requires |w| <= N
  {
    if |w| == 0 then NoRecordsToPrint
    else
      Printed(|w|, Mean(w),
              seq(Min(amt, |w|), k requires 0 <= k < |w| => Line(SlotOf(pos, |w|, k), w[k])))
  }

  /** Projection of the printed values. */
  function Values(lines: seq<Line>): seq<real>
  {
    seq(|lines|, k requires 0 <= k < |lines| => lines[k].value)
  }

  /**
   * A listing shows the oldest `Min(amt, |w|)` records in arrival order, each next to a
   * distinct in-bounds slot that really holds it; with no records it shows nothing.
   */
  lemma {:induction false} ListingShowsOldest(w: seq<real>, pos: int, amt: nat)
    requires |w| <= N && 0 <= pos < N
    ensures Listing(w, pos, amt) == NoRecordsToPrint <==> |w| == 0
    ensures Listing(w, pos, amt).Printed? ==>
      var lines := Listing(w, pos, amt).lines;
      && Listing(w, pos, amt).inMemory == |w|
      && Values(lines) == w[..Min(amt, |w|)]
      && (forall k :: 0 <= k < |lines| ==>
            0 <= lines[k].slot < N && Layout(w, pos)[lines[k].slot] == lines[k].value)
      && (forall k, l :: 0 <= k < l < |lines| ==> lines[k].slot != lines[l].slot)
  {
    if |w| > 0 {
      var lines := Listing(w, pos, amt).lines;
      forall k | 0 <= k < |lines|
        ensures 0 <= lines[k].slot < N && Layout(w, pos)[lines[k].slot] == lines[k].value
      {
        LayoutAtSlot(w, pos, k);
      }
      forall k, l | 0 <= k < l < |lines|
        ensures lines[k].slot != lines[l].slot
      {
        SlotsDistinct(pos, |w|, k, l);
      }
      assert Values(lines) == w[..Min(amt, |w|)];
    }
  }

  class History {
    /** `sigbuffer`: N sample slots. */
    const buf: array<real>
    /** `sigbufpos`: the slot the next sample overwrites. */
    var pos: int
    /** `recordcount`: number of valid records, at most N. */
    var count: int
    /** `runningtotal`: maintained sum of all N slots. */
    var total: real
    /** The valid records, oldest first. */
    ghost var Window: seq<real>

    /**
     * The history's invariant: the slots are the layout of the window (the k-th oldest of
     * the `count` records before the cursor, 0.0 everywhere else) and `total` is the sum
     * of all slots.
     */
    ghost predicate Valid()
      reads this, buf
    {
      && buf.Length == N
      && 0 <= pos < N
      && 0 <= count <= N
      && |Window| == count
      && buf[..] == Layout(Window, pos)
      && total == Sum(buf[..])
    }

    /** Start-up state: the globals' initial values and the zeroing loop of `main`. */
    constructor ()
      ensures Valid() && fresh(buf)
      ensures pos == 0 && count == 0 && total == 0.0 && Window == []
      ensures forall j :: 0 <= j < N ==> buf[j] == 0.0
    {
      var slots := new real[N];
      var i := 0;
      while i < N
        invariant 0 <= i <= N
        invariant forall j :: 0 <= j < i ==> slots[j] == 0.0
      {
        slots[i] := 0.0;
        i := i + 1;
      }
      assert slots[..] == Layout([], 0);
      SumOfZeros(slots[..]);
      buf := slots;
      pos, count, total := 0, 0, 0.0;
      Window := [];
    }

    /** The derived `average`: running sum over record count, the mean of the window. */
    function Average(): (a: real)
      reads this, buf
      requires Valid() && count > 0
      ensures a == Mean(Window)
    {
      SumLayout(Window, pos);
      total / (count as real)
    }

    /**
     * One sample arrives: subtract the slot under the cursor, store the sample, add it,
     * advance the cursor and saturate the count.
     */
    method Append(v: real)
      requires Valid()
      modifies this, buf
      ensures Valid()
      ensures Window == Pushed(old(Window), v)
      ensures pos == (old(pos) + 1) % N
      ensures count == Min(old(count) + 1, N)
      ensures buf[..] == old(buf[..])[old(pos) := v]
      ensures total == old(total) - old(buf[pos]) + v
    {
      ghost var before := buf[..];
      LayoutPushed(Window, pos, v);
      SumUpdate(before, pos, v);
      total := total - buf[pos];
      buf[pos] := v;
      total := total + buf[pos];
      pos := (pos + 1) % N;
      count := if count >= N then N else count + 1;
      Window := Pushed(Window, v);
    }

    /** `printdata`: the report of up to `amt` oldest records; nothing is changed. */
    method Print(amt: nat) returns (r: PrintReport)
      requires Valid()
      ensures r == Listing(Window, pos, amt)
    {
      if count == 0 {
        return NoRecordsToPrint;
      }
      var n := amt;
      if n > count {
        n := count;
      }
      var offset := pos + (N - count) % N;
      var lines: seq<Line> := [];
      var i := 0;
      while i < n
        invariant 0 <= i <= n
        invariant |lines| == i
        invariant forall k :: 0 <= k < i ==> lines[k] == Line(SlotOf(pos, count, k), Window[k])
      {
        OffsetWalk(pos, count, i);
        LayoutAtSlot(Window, pos, i);
        var p := (i + offset) % N;
        lines := lines + [Line(p, buf[p])];
        i := i + 1;
      }
      r := Printed(count, Average(), lines);
    }

    /**
     * `deletedata`: clamp `amt` to the count, zero the `amt` oldest slots while subtracting
     * them from the running sum, and shrink the count; the cursor does not move.
     */
    method Delete(amt: nat) returns (r: DeleteReport)
      requires Valid()
      modifies this, buf
      ensures Valid() && pos == old(pos)
      ensures r == if old(count) == 0 then NoRecordsToDelete
                   else Deleted(old(count), Min(amt, old(count)))
      ensures Window == old(Window)[Min(amt, old(count))..]
      ensures count == old(count) - Min(amt, old(count))
      ensures total == old(total) - Sum(old(Window)[..Min(amt, old(count))])
      ensures forall j :: 0 <= j < N ==>
        buf[j] == if Age(pos, old(count), j) < Min(amt, old(count)) then 0.0 else old(buf[j])
    {
      if count == 0 {
        assert Window[0..] == Window;
        return NoRecordsToDelete;
      }
      ghost var w0 := Window;
      var n := amt;
      if n > count {
        n := count;
      }
      var offset := pos + (N - count) % N;
      var i := 0;
      assert w0[0..] == w0;
      while i < n
        invariant 0 <= i <= n
        invariant pos == old(pos) && count == old(count) && Window == w0
        invariant buf[..] == Layout(w0[i..], pos)
        invariant total == Sum(buf[..])
      {
        ghost var before := buf[..];
        OffsetWalk(pos, count, i);
        var p := (i + offset) % N;
        LayoutDropOldest(w0[i..], pos);
        assert w0[i..][1..] == w0[i + 1..];
        SumUpdate(before, p, 0.0);
        total := total - buf[p];
        buf[p] := 0.0;
        assert buf[..] == before[p := 0.0];
        i := i + 1;
      }
      r := Deleted(count, n);
      count := count - n;
      Window := w0[n..];
      SumLayout(w0, pos);
      SumLayout(Window, pos);
      SumSplit(w0, n);
      LayoutDropped(w0, n, pos);
    }
  }
}
