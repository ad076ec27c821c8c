/** Counting the clear bits of the frame bitmap, and the split of the frames among NUMA nodes. */
module FrameCount {

  /** The number of free frames in `[lo, hi)`. */
  function CountFree(bits: seq<bool>, lo: nat, hi: nat): nat
    requires hi <= |bits|
    decreases hi
  {
    if hi <= lo then 0 else CountFree(bits, lo, hi - 1) + if bits[hi - 1] then 0 else 1
  }

  /** The free frames below `total`. */
  ghost function FreeOf(bits: seq<bool>, total: nat): set<nat>
    requires total <= |bits|
  {
    set f | 0 <= f < total && !bits[f]
  }

  /** The count of clear bits is the size of the set of free frames. */
  lemma {:induction false} FreeOfCount(bits: seq<bool>, total: nat)
    requires total <= |bits|
    ensures |FreeOf(bits, total)| == CountFree(bits, 0, total)
  {
    if total > 0 {
      FreeOfCount(bits, total - 1);
      var last: set<nat> := if bits[total - 1] then {} else {total - 1};
      assert FreeOf(bits, total) == FreeOf(bits, total - 1) + last;
    }
  }

  lemma {:induction false} FreeOfFlip(bits: seq<bool>, total: nat, frame: nat, v: bool)
    requires frame < total <= |bits| && bits[frame] != v
    ensures FreeOf(bits[frame := v], total) ==
        if v then FreeOf(bits, total) - {frame} else FreeOf(bits, total) + {frame}
    ensures frame in FreeOf(bits, total) <==> v
  {
  }

  lemma {:induction false} FreeOfEmpty(bits: seq<bool>, total: nat)
    requires total <= |bits|
    ensures FreeOf(bits, total) == {} <==> CountFree(bits, 0, total) == 0
  {
    CountZero(bits, 0, total);
    if FreeOf(bits, total) == {} {
      forall f | 0 <= f < total ensures bits[f] { assert f !in FreeOf(bits, total); }
    }
  }

  /** All of `[r, r + n)` is free. */
  ghost predicate FreeRun(bits: seq<bool>, r: nat, n: nat) {
    r + n <= |bits| && forall f :: r <= f < r + n ==> !bits[f]
  }

  /** Frames `[r, r + n)` do not have `c` strictly inside. */
  predicate ClearOf(r: nat, n: nat, c: nat) { r + n <= c || c <= r }

  lemma {:induction false} CountSplit(bits: seq<bool>, lo: nat, mid: nat, hi: nat)
    requires lo <= mid <= hi <= |bits|
    ensures CountFree(bits, lo, hi) == CountFree(bits, lo, mid) + CountFree(bits, mid, hi)
    decreases hi
  {
    if mid < hi { CountSplit(bits, lo, mid, hi - 1); }
  }

  lemma {:induction false} CountUpdate(bits: seq<bool>, f: nat, v: bool, lo: nat, hi: nat)
    requires f < |bits| && hi <= |bits| && bits[f] != v
    ensures CountFree(bits[f := v], lo, hi) ==
            CountFree(bits, lo, hi) + if lo <= f < hi then (if v then -1 else 1) else 0
    decreases hi
  {
    if lo < hi { CountUpdate(bits, f, v, lo, hi - 1); }
  }

  /** A count of zero means that nothing in the range is free. */
  lemma {:induction false} CountZero(bits: seq<bool>, lo: nat, hi: nat)
    requires hi <= |bits|
    ensures CountFree(bits, lo, hi) == 0 <==> forall f :: lo <= f < hi ==> bits[f]
    decreases hi
  {
    if lo < hi {
      CountZero(bits, lo, hi - 1);
      assert CountFree(bits, lo, hi) == 0 ==> bits[hi - 1];
    }
  }

  /** A free run inside a range is counted in full. */
  lemma {:induction false} CountRun(bits: seq<bool>, r: nat, n: nat, lo: nat, hi: nat)
    requires hi <= |bits| && lo <= r && r + n <= hi && FreeRun(bits, r, n)
    ensures CountFree(bits, lo, hi) >= n
    decreases n
  {
    if n > 0 {
      CountRun(bits, r, n - 1, lo, r + n - 1);
      CountSplit(bits, lo, r + n, hi);
    }
  }

  // ------------------------------------------------------------------------------------
  // NUMA nodes
  // ------------------------------------------------------------------------------------

  datatype NumaNode = NumaNode(firstFrame: nat, frameCount: nat, freeFrames: nat, nextScanFrame: nat)

  function End(n: NumaNode): nat { n.firstFrame + n.frameCount }

  predicate Contains(n: NumaNode, frame: nat) { n.firstFrame <= frame < End(n) }

  /** Where a scan of the node starts: its cursor, or its first frame when that is stale. */
  function Cursor(n: NumaNode): nat {
    if Contains(n, n.nextScanFrame) then n.nextScanFrame else n.firstFrame
  }

  /** Node `i` starts where the one before it ends. */
  predicate Adjacent(nodes: seq<NumaNode>, i: nat)
    requires 0 < i < |nodes|
  {
    nodes[i].firstFrame == End(nodes[i - 1])
  }

  /** The first `active` nodes follow one another and cover `[0, total)`. */
  ghost predicate Partition(nodes: seq<NumaNode>, active: nat, total: nat) {
    1 <= active <= |nodes| && nodes[0].firstFrame == 0 && End(nodes[active - 1]) == total &&
    (forall i :: 0 < i < active ==> Adjacent(nodes, i)) &&
    (forall i :: 0 <= i < active ==> End(nodes[i]) <= total)
  }

  ghost predicate Sizes(nodes: seq<NumaNode>, active: nat, base: nat) {
    active <= |nodes| && forall i :: 0 <= i < active ==> base <= nodes[i].frameCount <= base + 1
  }

  /** Every node has as many frames as the last one, or one more. */
  ghost predicate Even(nodes: seq<NumaNode>, active: nat) {
    1 <= active <= |nodes| && Sizes(nodes, active, nodes[active - 1].frameCount)
  }

  /** Each cached count is the number of clear bits of its node. */
  ghost predicate Counted(nodes: seq<NumaNode>, active: nat, bits: seq<bool>) {
    active <= |nodes| && forall i :: 0 <= i < active ==>
      End(nodes[i]) <= |bits| && nodes[i].freeFrames == CountFree(bits, nodes[i].firstFrame, End(nodes[i]))
  }

  /** The nodes have the same frames (only counts and cursors may differ). */
  ghost predicate SameLayout(a: seq<NumaNode>, b: seq<NumaNode>) {
    |a| == |b| && forall i :: 0 <= i < |a| ==>
      a[i].firstFrame == b[i].firstFrame && a[i].frameCount == b[i].frameCount
  }

  lemma {:induction false} LayoutKept(a: seq<NumaNode>, b: seq<NumaNode>, active: nat, total: nat)
    requires SameLayout(a, b) && Partition(a, active, total) && Even(a, active)
    ensures Partition(b, active, total) && Even(b, active)
  {
    forall i | 0 < i < active ensures Adjacent(b, i) { assert Adjacent(a, i); }
  }

  lemma {:induction false} PartitionOrdered(nodes: seq<NumaNode>, active: nat, total: nat, i: nat, j: nat)
    requires Partition(nodes, active, total) && i < j < active
    ensures End(nodes[i]) <= nodes[j].firstFrame
    decreases j
  {
    assert Adjacent(nodes, j);
    if i < j - 1 { PartitionOrdered(nodes, active, total, i, j - 1); }
  }

  /** A frame is in exactly one node. */
  lemma {:induction false} NodeUnique(nodes: seq<NumaNode>, active: nat, total: nat, i: nat, j: nat, frame: nat)
    requires Partition(nodes, active, total) && i < active && j < active
    requires Contains(nodes[i], frame) && Contains(nodes[j], frame)
    ensures i == j
  {
    if i < j { PartitionOrdered(nodes, active, total, i, j); }
    if j < i { PartitionOrdered(nodes, active, total, j, i); }
  }

  lemma {:induction false} NodeExists(nodes: seq<NumaNode>, active: nat, total: nat, frame: nat, k: nat)
    requires Partition(nodes, active, total) && k < active && frame < End(nodes[k])
    ensures exists i :: 0 <= i < active && Contains(nodes[i], frame)
    decreases k
  {
    if nodes[k].firstFrame <= frame {
      assert Contains(nodes[k], frame);
    } else {
      assert k > 0 ==> Adjacent(nodes, k);
      NodeExists(nodes, active, total, frame, k - 1);
    }
  }

  /** The nodes' counts add up to the count of all frames. */
  lemma {:induction false} NodeCountsAdd(nodes: seq<NumaNode>, active: nat, total: nat, bits: seq<bool>, k: nat)
    requires Partition(nodes, active, total) && Counted(nodes, active, bits) && k < active
    ensures End(nodes[k]) <= |bits| && CountFree(bits, 0, End(nodes[k])) == SumFree(nodes, k + 1)
    decreases k
  {
    if k > 0 {
      assert Adjacent(nodes, k);
      NodeCountsAdd(nodes, active, total, bits, k - 1);
      CountSplit(bits, 0, nodes[k].firstFrame, End(nodes[k]));
    }
  }

  function SumFree(nodes: seq<NumaNode>, k: nat): nat
    requires k <= |nodes|
  {
    if k == 0 then 0 else SumFree(nodes, k - 1) + nodes[k - 1].freeFrames
  }

  /** The whole bookkeeping: an even partition and exact cached counts. */
  ghost predicate Ledger(nodes: seq<NumaNode>, active: nat, total: nat, bits: seq<bool>, free: nat) {
    0 < total <= |bits| && Partition(nodes, active, total) && Even(nodes, active) &&
    Counted(nodes, active, bits) && free == CountFree(bits, 0, total)
  }

  /** Node `k` with its cached count moved by `delta`. */
  function Adjust(nodes: seq<NumaNode>, k: nat, delta: int): seq<NumaNode>
    requires k < |nodes| && nodes[k].freeFrames + delta >= 0
  {
    nodes[k := nodes[k].(freeFrames := nodes[k].freeFrames + delta)]
  }

  /** Exactly node `k`'s count has moved by `delta`. */
  ghost predicate AdjustedAt(a: seq<NumaNode>, b: seq<NumaNode>, k: nat, delta: int) {
    k < |a| && a[k].freeFrames + delta >= 0 && b == Adjust(a, k, delta)
  }

  /** Only counts differ. */
  ghost predicate OnlyCounts(a: seq<NumaNode>, b: seq<NumaNode>) {
    SameLayout(a, b) && forall i :: 0 <= i < |a| ==> a[i].nextScanFrame == b[i].nextScanFrame
  }

  lemma {:induction false} CountedUpdate(nodes: seq<NumaNode>, active: nat, total: nat, bits: seq<bool>, frame: nat,
                                         v: bool, k: nat)
    requires Partition(nodes, active, total) && Counted(nodes, active, bits) && total <= |bits|
    requires frame < total && bits[frame] != v && k < active && Contains(nodes[k], frame)
    ensures v ==> nodes[k].freeFrames > 0
    ensures Counted(Adjust(nodes, k, if v then -1 else 1), active, bits[frame := v])
  {
    CountUpdate(bits, frame, v, nodes[k].firstFrame, End(nodes[k]));
    forall i | 0 <= i < active && i != k
      ensures CountFree(bits[frame := v], nodes[i].firstFrame, End(nodes[i])) == nodes[i].freeFrames
    {
      CountUpdate(bits, frame, v, nodes[i].firstFrame, End(nodes[i]));
      if Contains(nodes[i], frame) { NodeUnique(nodes, active, total, i, k, frame); }
    }
  }

  /** Flipping one frame's bit together with its node's count and the global count keeps the
      books exact; a count that goes down was not zero. */
  lemma {:induction false} LedgerFlip(nodes: seq<NumaNode>, active: nat, total: nat, bits: seq<bool>, free: nat,
                                      frame: nat, v: bool, k: nat)
    requires Ledger(nodes, active, total, bits, free)
    requires frame < total && bits[frame] != v && k < active && Contains(nodes[k], frame)
    ensures v ==> nodes[k].freeFrames > 0 && free > 0
    ensures Ledger(Adjust(nodes, k, if v then -1 else 1), active, total, bits[frame := v], free + if v then -1 else 1)
    ensures OnlyCounts(nodes, Adjust(nodes, k, if v then -1 else 1))
  {
    CountedUpdate(nodes, active, total, bits, frame, v, k);
    CountUpdate(bits, frame, v, 0, total);
    LayoutKept(nodes, Adjust(nodes, k, if v then -1 else 1), active, total);
  }

  /** Moving a scan cursor does not touch the books. */
  lemma {:induction false} LedgerCursor(nodes: seq<NumaNode>, active: nat, total: nat, bits: seq<bool>, free: nat,
                                        k: nat, cursor: nat)
    requires Ledger(nodes, active, total, bits, free) && k < |nodes|
    ensures Ledger(nodes[k := nodes[k].(nextScanFrame := cursor)], active, total, bits, free)
    ensures SameLayout(nodes, nodes[k := nodes[k].(nextScanFrame := cursor)])
  {
    LayoutKept(nodes, nodes[k := nodes[k].(nextScanFrame := cursor)], active, total);
  }

  lemma {:induction false} CountedNext(nodes: seq<NumaNode>, i: nat, bits: seq<bool>, cursor: nat)
    requires Counted(nodes, i, bits) && i < |nodes| && End(nodes[i]) <= |bits|
    ensures var count := CountFree(bits, nodes[i].firstFrame, End(nodes[i]));
            var next := nodes[i := nodes[i].(freeFrames := count, nextScanFrame := cursor)];
            Counted(next, i + 1, bits) && SameLayout(nodes, next)
  {
  }

  lemma {:induction false} SumZero(nodes: seq<NumaNode>, k: nat)
    requires k <= |nodes| && forall i :: 0 <= i < k ==> nodes[i].freeFrames == 0
    ensures SumFree(nodes, k) == 0
  {
    if k > 0 { SumZero(nodes, k - 1); }
  }

  /** When frames are free, some node has a free frame. */
  lemma {:induction false} SomeNodeHasFree(nodes: seq<NumaNode>, active: nat, total: nat, bits: seq<bool>, free: nat)
    requires Ledger(nodes, active, total, bits, free) && free > 0
    ensures exists i :: 0 <= i < active && nodes[i].freeFrames > 0
  {
    if forall i :: 0 <= i < active ==> nodes[i].freeFrames == 0 {
      SumZero(nodes, active);
      NodeCountsAdd(nodes, active, total, bits, active - 1);
    }
  }
}
