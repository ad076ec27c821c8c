/** The physical memory manager: reserving and releasing frames, single and contiguous
    allocation with NUMA preference, and reconfiguring the node layout.

    Each public entry of the kernel runs under the manager's lock and is one method here. */
module Pmm {
  import opened Bitmap
  import opened FrameCount

  const PAGE_SIZE: nat := 4096
  const MAX_NUMA_NODES: nat := 8
  const NODE_ANY: nat := 0xFF

  /** Frame `frame` is the free frame of the node that comes first from its cursor on,
      going round the node's end. */
  ghost predicate FirstFrom(bits: seq<bool>, n: NumaNode, frame: nat) {
    Contains(n, frame) && End(n) <= |bits| && !bits[frame] &&
    if frame >= Cursor(n) then forall g :: Cursor(n) <= g < frame ==> bits[g]
    else (forall g :: Cursor(n) <= g < End(n) ==> bits[g]) && (forall g :: n.firstFrame <= g < frame ==> bits[g])
  }

  /** The node with cyclic distance `i` from `start`: their sum modulo `active`. */
  function Around(start: nat, i: nat, active: nat): (k: nat)
    requires start < active && i < active
    ensures k < active
  {
    if start + i < active then start + i else start + i - active
  }

  /** Going round once from any start meets every node. */
  lemma {:induction false} AroundCovers(start: nat, active: nat, k: nat)
    requires start < active && k < active
    ensures exists i :: 0 <= i < active && Around(start, i, active) == k
  {
    var i := if k >= start then k - start else k + active - start;
    assert Around(start, i, active) == k;
  }

  /** `frame + i` as the 32-bit sum of the source. */
  function Frame32(frame: nat, i: nat): nat { (frame + i) % 0x1_0000_0000 }

  /** Counting `count` frames up from `frame` in 32 bits meets `f`. */
  ghost predicate Listed(frame: nat, count: nat, f: nat) {
    exists i :: 0 <= i < count && Frame32(frame, i) == f
  }

  lemma {:induction false} ListedNext(frame: nat, i: nat, f: nat)
    ensures Listed(frame, i + 1, f) <==> Listed(frame, i, f) || f == Frame32(frame, i)
  {
  }

  /** A count that does not pass the end of the 32-bit frame numbers meets just the frames from
      `frame` on. */
  lemma {:induction false} ListedRange(frame: nat, count: nat, f: nat)
    requires frame + count <= 0x1_0000_0000
    ensures Listed(frame, count, f) <==> frame <= f < frame + count
  {
    if frame <= f < frame + count {
      assert Frame32(frame, f - frame) == f;
    }
  }

  // ------------------------------------------------------------------------------------
  // Ranges of bytes and the frames they cover
  // ------------------------------------------------------------------------------------

  /** Frame `f` lies wholly in the bytes from `base` on. */
  predicate WhollyIn(f: nat, base: nat, length: nat) {
    base <= f * PAGE_SIZE && (f + 1) * PAGE_SIZE <= base + length
  }

  /** The frames that marking the range available releases. */
  predicate Marked(f: nat, base: nat, length: nat, total: nat) {
    base / PAGE_SIZE <= f < (base + length) / PAGE_SIZE && f < total
  }

  /** Marking releases every frame wholly in the range; it releases no other frame exactly if the
      base is aligned or no frame is released at all. */
  lemma {:induction false} MarkedExact(base: nat, length: nat, total: nat)
    ensures forall f :: 0 <= f < total && WhollyIn(f, base, length) ==> Marked(f, base, length, total)
    ensures (forall f :: 0 <= f && Marked(f, base, length, total) ==> WhollyIn(f, base, length)) <==>
            base % PAGE_SIZE == 0 || base / PAGE_SIZE >= (base + length) / PAGE_SIZE || base / PAGE_SIZE >= total
  {
    var first := base / PAGE_SIZE;
    if first < (base + length) / PAGE_SIZE && first < total {
      assert Marked(first, base, length, total);
      if base % PAGE_SIZE != 0 { assert !WhollyIn(first, base, length); }
    }
  }

  /** Marking 8 KiB from address 1 on releases frame 0, whose first byte was not available. */
  lemma {:induction false} MarkedWitness()
    ensures Marked(0, 1, 8192, 2) && !WhollyIn(0, 1, 8192)
  {
  }

  /** Frame `f` holds a byte of the range. */
  predicate Touched(f: nat, base: nat, length: nat) {
    base / PAGE_SIZE <= f < (base + length + PAGE_SIZE - 1) / PAGE_SIZE
  }

  lemma {:induction false} TouchedExact(f: nat, base: nat, length: nat)
    requires length > 0
    ensures Touched(f, base, length) <==> f * PAGE_SIZE < base + length && base < (f + 1) * PAGE_SIZE
  {
  }

  // ------------------------------------------------------------------------------------
  // The boot loader's memory map
  // ------------------------------------------------------------------------------------

  /** A region of the memory map, in 64-bit words. */
  datatype Region = Region(base: nat, length: nat, available: bool)

  datatype Bytes = Bytes(base: nat, length: nat)

  const U64: nat := 0x1_0000_0000_0000_0000
  const PHYS_CAP: nat := 0xFFFF_F000

  /** The end of a region in 64 bits. */
  function RegionEnd(r: Region): nat { (r.base + r.length) % U64 }

  /** How far memory reaches by this region; a region that wraps reaches to the cap. */
  function RegionTop(r: Region): (top: nat)
    ensures top <= PHYS_CAP
  {
    if RegionEnd(r) < r.base || RegionEnd(r) > PHYS_CAP then PHYS_CAP else RegionEnd(r)
  }

  predicate Usable(r: Region) {
    r.available && r.length != 0 && r.base < RegionEnd(r) && r.base < PHYS_CAP
  }

  /** The part of a usable region below the cap. */
  function Offered(r: Region): (b: Bytes)
    requires Usable(r)
  {
    Bytes(r.base, (if RegionEnd(r) > PHYS_CAP then PHYS_CAP else RegionEnd(r)) - r.base)
  }

  predicate MarkedBy(r: Region, f: nat, total: nat) {
    Usable(r) && Marked(f, r.base, Offered(r).length, total)
  }

  ghost predicate Available(regions: seq<Region>, f: nat, total: nat) {
    exists i :: 0 <= i < |regions| && MarkedBy(regions[i], f, total)
  }

  predicate TouchedBy(b: Bytes, f: nat) { Touched(f, b.base, b.length) }

  ghost predicate Taken(ranges: seq<Bytes>, f: nat) {
    exists i :: 0 <= i < |ranges| && TouchedBy(ranges[i], f)
  }

  /** The frames that are free after boot. */
  ghost function BootFree(regions: seq<Region>, ranges: seq<Bytes>, total: nat): set<nat> {
    set f | 0 <= f < total && Available(regions, f, total) && !Taken(ranges, f)
  }

  /** No frame that is free after boot holds a byte of a range that boot reserves; and if every
      usable region begins on a page, each free frame lies wholly in a region. */
  lemma {:induction false} BootFreeSound(regions: seq<Region>, ranges: seq<Bytes>, total: nat, f: nat)
    requires f in BootFree(regions, ranges, total)
    ensures forall i :: 0 <= i < |ranges| && ranges[i].length > 0 ==>
      (f + 1) * PAGE_SIZE <= ranges[i].base || ranges[i].base + ranges[i].length <= f * PAGE_SIZE
    ensures (forall i :: 0 <= i < |regions| && Usable(regions[i]) ==> regions[i].base % PAGE_SIZE == 0) ==>
      exists i :: 0 <= i < |regions| && Usable(regions[i]) && WhollyIn(f, regions[i].base, Offered(regions[i]).length)
  {
    forall i | 0 <= i < |ranges| && ranges[i].length > 0
      ensures (f + 1) * PAGE_SIZE <= ranges[i].base || ranges[i].base + ranges[i].length <= f * PAGE_SIZE
    {
      assert !TouchedBy(ranges[i], f);
      TouchedExact(f, ranges[i].base, ranges[i].length);
    }
    var i :| 0 <= i < |regions| && MarkedBy(regions[i], f, total);
    MarkedExact(regions[i].base, Offered(regions[i]).length, total);
  }

  class Pmm {
    const bitmap: FrameBitmap
    const totalFrames: nat
    var freeFrames: nat
    var nodes: seq<NumaNode>
    var activeNodes: nat
    var roundRobin: nat
    var globalNext: nat
    var initialized: bool

    /** The nodes partition the frames evenly, and every cached count is exact. */
    ghost predicate Valid()
      reads this, bitmap, bitmap.bytes
    {
      bitmap.Valid() && |nodes| == MAX_NUMA_NODES &&
      Ledger(nodes, activeNodes, totalFrames, bitmap.bits, freeFrames)
    }

    /** The frames that can be handed out. */
    ghost function FreeSet(): set<nat>
      requires totalFrames <= |bitmap.bits|
      reads this, bitmap
    {
      FreeOf(bitmap.bits, totalFrames)
    }

    /** Boot state: every frame reserved, one node. */
    constructor (total: nat)
      requires total > 0
      ensures Valid() && totalFrames == total && FreeSet() == {} && !initialized && activeNodes == 1
      ensures fresh(bitmap) && fresh(bitmap.bytes) && forall f :: 0 <= f < total ==> bitmap.bits[f]
    {
      var size := (total + 7) / 8;
      bitmap := new FrameBitmap((size + PAGE_SIZE - 1) / PAGE_SIZE * PAGE_SIZE);
      totalFrames, freeFrames := total, 0;
      nodes := seq(MAX_NUMA_NODES, _ => NumaNode(0, 0, 0, 0));
      activeNodes, roundRobin, globalNext, initialized := 1, 0, 0, false;
      new;
      ResetLayout(1);
      CountZero(bitmap.bits, 0, total);
    }

    /** Lays out `count` nodes of `base` frames, the first `extra` of them with one more. */
    method LayOut(count: nat, base: nat, extra: nat)
      requires |nodes| == MAX_NUMA_NODES && 0 < count <= MAX_NUMA_NODES
      requires extra < count && Placed(base, extra, count) == totalFrames
      modifies this`nodes
      ensures |nodes| == MAX_NUMA_NODES
      ensures Partition(nodes, count, totalFrames) && Even(nodes, count)
      ensures forall i :: 0 <= i < count ==> nodes[i].freeFrames == 0
    {
      var remainder, cursor := extra, 0;
      for i := 0 to count
        invariant |nodes| == MAX_NUMA_NODES
        invariant remainder == if i < extra then extra - i else 0
        invariant cursor == Placed(base, extra, i)
        invariant cursor == if i == 0 then 0 else End(nodes[i - 1])
        invariant i > 0 ==> nodes[0].firstFrame == 0
        invariant forall j :: 0 < j < i ==> Adjacent(nodes, j)
        invariant forall j :: 0 <= j < i ==> End(nodes[j]) <= cursor && nodes[j].freeFrames == 0
        invariant Sizes(nodes, i, base) && (i > extra ==> nodes[i - 1].frameCount == base)
      {
        var frames := base + if remainder > 0 then 1 else 0;
        if remainder > 0 {
          remainder := remainder - 1;
        }
        ghost var before := nodes;
        nodes := nodes[i := NumaNode(cursor, frames, 0, cursor)];
        forall j | 0 < j < i ensures Adjacent(nodes, j) { assert Adjacent(before, j); }
        cursor := cursor + frames;
      }
    }

    /** Clears the node records that are not in use. */
    method ClearTail(count: nat)
      requires |nodes| == MAX_NUMA_NODES && Partition(nodes, count, totalFrames) && Even(nodes, count)
      modifies this`nodes
      ensures |nodes| == MAX_NUMA_NODES && Partition(nodes, count, totalFrames) && Even(nodes, count)
      ensures forall i :: 0 <= i < count ==> nodes[i] == old(nodes)[i]
      ensures forall i :: count <= i < MAX_NUMA_NODES ==> nodes[i] == NumaNode(0, 0, 0, 0)
    {
      for i := count to MAX_NUMA_NODES
        invariant |nodes| == MAX_NUMA_NODES && nodes[..count] == old(nodes)[..count]
        invariant forall j :: count <= j < i ==> nodes[j] == NumaNode(0, 0, 0, 0)
      {
        nodes := nodes[i := NumaNode(0, 0, 0, 0)];
      }
      PrefixLayout(old(nodes), nodes, count, totalFrames);
    }

    /** Frames per node, and how many nodes get one more. */
    method Share(count: nat) returns (base: nat, extra: nat)
      requires count > 0
      ensures extra < count && Placed(base, extra, count) == totalFrames
    {
      SplitEvenly(totalFrames, count);
      return totalFrames / count, totalFrames % count;
    }

    /** Splits the frames among the requested number of nodes, clamped to 1..8; unused node
        records are cleared, counts start at zero and stale cursors go back to the start. */
    method ResetLayout(requested: nat)
      requires |nodes| == MAX_NUMA_NODES && totalFrames > 0
      modifies this`nodes, this`activeNodes, this`roundRobin, this`globalNext
      ensures |nodes| == MAX_NUMA_NODES && roundRobin < activeNodes && globalNext < totalFrames
      ensures activeNodes ==
          if requested == 0 then 1 else if requested > MAX_NUMA_NODES then MAX_NUMA_NODES else requested
      ensures Partition(nodes, activeNodes, totalFrames) && Even(nodes, activeNodes)
      ensures forall i :: 0 <= i < activeNodes ==> nodes[i].freeFrames == 0
      ensures forall i :: activeNodes <= i < MAX_NUMA_NODES ==> nodes[i] == NumaNode(0, 0, 0, 0)
    {
      var count := if requested == 0 then 1 else if requested > MAX_NUMA_NODES then MAX_NUMA_NODES else requested;
      var base, extra := Share(count);
      LayOut(count, base, extra);
      ClearTail(count);
      activeNodes := count;
      if roundRobin >= activeNodes {
        roundRobin := 0;
      }
      if globalNext >= totalFrames {
        globalNext := 0;
      }
    }

    /** The free frames of a range, by testing each bit. */
    method CountRange(start: nat, end: nat) returns (n: nat)
      requires bitmap.Valid() && start <= end <= |bitmap.bits|
      ensures n == CountFree(bitmap.bits, start, end)
    {
      n := 0;
      for frame := start to end
        invariant n == CountFree(bitmap.bits, start, frame)
      {
        var taken := bitmap.Test(frame);
        if !taken {
          n := n + 1;
        }
      }
    }

    /** Recomputes every cached count from the bitmap and repairs stale cursors. */
    method Recount()
      requires bitmap.Valid() && 0 < totalFrames <= |bitmap.bits| && |nodes| == MAX_NUMA_NODES
      requires Partition(nodes, activeNodes, totalFrames) && Even(nodes, activeNodes)
      modifies this`nodes, this`freeFrames
      ensures Valid() && SameLayout(old(nodes), nodes)
    {
      var total := 0;
      ghost var was := nodes;
      for i := 0 to activeNodes
        invariant |nodes| == MAX_NUMA_NODES && SameLayout(was, nodes)
        invariant Counted(nodes, i, bitmap.bits)
        invariant total == CountFree(bitmap.bits, 0, if i == 0 then 0 else End(was[i - 1]))
      {
        var n := nodes[i];
        assert i > 0 ==> Adjacent(was, i);
        var count := CountRange(n.firstFrame, End(n));
        CountSplit(bitmap.bits, 0, was[i].firstFrame, End(was[i]));
        total := total + count;
        CountedNext(nodes, i, bitmap.bits, Cursor(n));
        nodes := nodes[i := n.(freeFrames := count, nextScanFrame := Cursor(n))];
      }
      freeFrames := total;
      LayoutKept(was, nodes, activeNodes, totalFrames);
    }

    /** Changes the number of NUMA nodes; no frame changes hands. */
    method ConfigureNumaTopology(count: nat) returns (ok: bool)
      requires Valid()
      modifies this
      ensures Valid() && initialized == old(initialized)
      ensures ok <==> 0 < count <= MAX_NUMA_NODES
      ensures activeNodes == if ok then count else old(activeNodes)
      ensures freeFrames == old(freeFrames)
    {
      if count == 0 || count > MAX_NUMA_NODES {
        return false;
      }
      ResetLayout(count);
      Recount();
      return true;
    }

    /** The end of boot: counts are recomputed and allocation is allowed. */
    method FinishInit()
      requires Valid()
      modifies this
      ensures Valid() && initialized && freeFrames == old(freeFrames) && activeNodes == old(activeNodes)
    {
      Recount();
      initialized := true;
    }

    /** Releases the frames from the one holding `base` up to the last whole one below the end. */
    method MarkAvailableRange(base: nat, length: nat)
      requires Valid()
      modifies this`freeFrames, this`nodes, bitmap, bitmap.bytes
      ensures Valid() && |bitmap.bits| == |old(bitmap.bits)|
      ensures forall f :: 0 <= f < |bitmap.bits| ==>
                bitmap.bits[f] == (old(bitmap.bits)[f] && !Marked(f, base, length, totalFrames))
    {
      var frame, end := base / PAGE_SIZE, (base + length) / PAGE_SIZE;
      while frame < end && frame < totalFrames
        invariant Valid() && |bitmap.bits| == |old(bitmap.bits)| && base / PAGE_SIZE <= frame
        invariant forall f :: 0 <= f < |bitmap.bits| ==>
                    bitmap.bits[f] ==
                      (old(bitmap.bits)[f] && !(base / PAGE_SIZE <= f < frame && f < end && f < totalFrames))
      {
        var ok := ReleaseFrame(frame);
        frame := frame + 1;
      }
    }

    /** Reserves every frame that a byte range touches. */
    method ReserveRange(base: nat, length: nat)
      requires Valid()
      modifies this`freeFrames, this`nodes, bitmap, bitmap.bytes
      ensures Valid() && |bitmap.bits| == |old(bitmap.bits)|
      ensures forall f :: 0 <= f < |bitmap.bits| ==>
                bitmap.bits[f] == (old(bitmap.bits)[f] || (Touched(f, base, length) && f < totalFrames))
    {
      var frame, end := base / PAGE_SIZE, (base + length + PAGE_SIZE - 1) / PAGE_SIZE;
      while frame < end && frame < totalFrames
        invariant Valid() && |bitmap.bits| == |old(bitmap.bits)| && base / PAGE_SIZE <= frame
        invariant forall f :: 0 <= f < |bitmap.bits| ==>
                    bitmap.bits[f] ==
                      (old(bitmap.bits)[f] || (base / PAGE_SIZE <= f < frame && f < end && f < totalFrames))
      {
        var ok := ReserveFrame(frame);
        frame := frame + 1;
      }
    }

    /** The highest byte address that the map speaks of, usable or not. */
    static method HighestPhysical(regions: seq<Region>) returns (highest: nat)
      ensures highest <= PHYS_CAP && forall i :: 0 <= i < |regions| ==> RegionTop(regions[i]) <= highest
      ensures highest == 0 || exists i :: 0 <= i < |regions| && RegionTop(regions[i]) == highest
    {
      highest := 0;
      for i := 0 to |regions|
        invariant highest <= PHYS_CAP && forall j :: 0 <= j < i ==> RegionTop(regions[j]) <= highest
        invariant highest == 0 || exists j :: 0 <= j < i && RegionTop(regions[j]) == highest
      {
        if RegionTop(regions[i]) > highest {
          highest := RegionTop(regions[i]);
        }
      }
    }

    /** Releases the frames of every usable region. */
    method MarkRegions(regions: seq<Region>)
      requires Valid()
      modifies this`freeFrames, this`nodes, bitmap, bitmap.bytes
      ensures Valid() && |bitmap.bits| == |old(bitmap.bits)|
      ensures forall f :: 0 <= f < totalFrames ==>
                bitmap.bits[f] == (old(bitmap.bits)[f] && !Available(regions, f, totalFrames))
    {
      for i := 0 to |regions|
        invariant Valid() && |bitmap.bits| == |old(bitmap.bits)|
        invariant forall f :: 0 <= f < totalFrames ==>
                    bitmap.bits[f] == (old(bitmap.bits)[f] && !Available(regions[..i], f, totalFrames))
      {
        if Usable(regions[i]) {
          MarkAvailableRange(regions[i].base, Offered(regions[i]).length);
        }
        assert regions[..i + 1] == regions[..i] + [regions[i]];
      }
      assert regions[..|regions|] == regions;
    }

    method ReserveRanges(ranges: seq<Bytes>)
      requires Valid()
      modifies this`freeFrames, this`nodes, bitmap, bitmap.bytes
      ensures Valid() && |bitmap.bits| == |old(bitmap.bits)|
      ensures forall f :: 0 <= f < totalFrames ==> bitmap.bits[f] == (old(bitmap.bits)[f] || Taken(ranges, f))
    {
      for i := 0 to |ranges|
        invariant Valid() && |bitmap.bits| == |old(bitmap.bits)|
        invariant forall f :: 0 <= f < totalFrames ==> bitmap.bits[f] == (old(bitmap.bits)[f] || Taken(ranges[..i], f))
      {
        ReserveRange(ranges[i].base, ranges[i].length);
        assert ranges[..i + 1] == ranges[..i] + [ranges[i]];
      }
      assert ranges[..|ranges|] == ranges;
    }

    /** Boot from a memory map: every frame is reserved, the usable regions are released, and the
        first mebibyte and the `ranges` of the kernel image, bitmap, boot records and modules are
        reserved again.  There is no manager, that is a panic, exactly if the map reaches nowhere. */
    static method Boot(regions: seq<Region>, ranges: seq<Bytes>) returns (p: Pmm?)
      ensures p == null <==> forall i :: 0 <= i < |regions| ==> RegionTop(regions[i]) == 0
      ensures p != null ==> fresh(p) && fresh(p.bitmap) && fresh(p.bitmap.bytes) && p.Valid() && p.initialized
      ensures p != null ==> p.activeNodes == 1 && p.freeFrames == |p.FreeSet()|
      ensures p != null ==> forall i :: 0 <= i < |regions| ==> RegionTop(regions[i]) <= p.totalFrames * PAGE_SIZE
      ensures p != null ==> p.FreeSet() == BootFree(regions, [Bytes(0, 0x10_0000)] + ranges, p.totalFrames)
    {
      var highest := HighestPhysical(regions);
      if highest == 0 {
        return null;
      }
      p := new Pmm((highest + PAGE_SIZE - 1) / PAGE_SIZE);
      p.MarkRegions(regions);
      ghost var marked := p.bitmap.bits;
      assert forall f :: 0 <= f < p.totalFrames ==> marked[f] == !Available(regions, f, p.totalFrames);
      var all := [Bytes(0, 0x10_0000)] + ranges;
      p.ReserveRanges(all);
      assert forall f :: 0 <= f < p.totalFrames ==> p.bitmap.bits[f] == (marked[f] || Taken(all, f));
      p.FinishInit();
      FreeOfCount(p.bitmap.bits, p.totalFrames);
    }

    /** The index of the frame's node, or `NODE_ANY`. */
    method NodeIndexForFrame(frame: nat) returns (node: nat)
      requires activeNodes <= |nodes| == MAX_NUMA_NODES
      ensures node == NODE_ANY <==> forall i :: 0 <= i < activeNodes ==> !Contains(nodes[i], frame)
      ensures node != NODE_ANY ==> node < activeNodes && Contains(nodes[node], frame)
    {
      for i := 0 to activeNodes
        invariant forall j :: 0 <= j < i ==> !Contains(nodes[j], frame)
      {
        if Contains(nodes[i], frame) {
          return i;
        }
      }
      return NODE_ANY;
    }

    /** Flips the frame's bit and moves the global and the node's count with it.  The guards
        against counts below zero never fire. */
    method Flip(frame: nat, reserve: bool)
      requires Valid() && frame < totalFrames && bitmap.bits[frame] != reserve
      modifies this`freeFrames, this`nodes, bitmap, bitmap.bytes
      ensures Valid() && OnlyCounts(old(nodes), nodes)
      ensures bitmap.bits == old(bitmap.bits)[frame := reserve]
      ensures freeFrames == old(freeFrames) + if reserve then -1 else 1
      ensures forall k :: 0 <= k < activeNodes && Contains(old(nodes)[k], frame) ==>
                AdjustedAt(old(nodes), nodes, k, if reserve then -1 else 1)
    {
      var node := NodeIndexForFrame(frame);
      forall k | 0 <= k < activeNodes && Contains(nodes[k], frame) ensures k == node {
        NodeUnique(nodes, activeNodes, totalFrames, node, k, frame);
      }
      NodeExists(nodes, activeNodes, totalFrames, frame, activeNodes - 1);
      LedgerFlip(nodes, activeNodes, totalFrames, bitmap.bits, freeFrames, frame, reserve, node);
      var was := nodes;
      if reserve {
        bitmap.Set(frame);
        if freeFrames > 0 {
          freeFrames := freeFrames - 1;
        }
        if node != NODE_ANY && was[node].freeFrames > 0 {
          nodes := Adjust(was, node, -1);
        }
      } else {
        bitmap.Clear(frame);
        freeFrames := freeFrames + 1;
        if node != NODE_ANY {
          nodes := Adjust(was, node, 1);
        }
      }
    }

    /** Marks a frame reserved.  Nothing happens to a frame that does not exist or is
        reserved already; otherwise both counts go down by exactly one. */
    method ReserveFrame(frame: nat) returns (ok: bool)
      requires Valid()
      modifies this`freeFrames, this`nodes, bitmap, bitmap.bytes
      ensures Valid() && OnlyCounts(old(nodes), nodes)
      ensures ok <==> frame < totalFrames && !old(bitmap.bits)[frame]
      ensures ok ==> bitmap.bits == old(bitmap.bits)[frame := true] && freeFrames == old(freeFrames) - 1
      ensures ok ==> forall k :: 0 <= k < activeNodes && Contains(old(nodes)[k], frame) ==>
                       AdjustedAt(old(nodes), nodes, k, -1)
      ensures !ok ==> bitmap.bits == old(bitmap.bits) && nodes == old(nodes) && freeFrames == old(freeFrames)
    {
      if frame >= totalFrames {
        return false;
      }
      var taken := bitmap.Test(frame);
      if taken {
        return false;
      }
      Flip(frame, true);
      return true;
    }

    /** Marks a frame free.  Releasing a free frame again changes nothing. */
    method ReleaseFrame(frame: nat) returns (ok: bool)
      requires Valid()
      modifies this`freeFrames, this`nodes, bitmap, bitmap.bytes
      ensures Valid() && OnlyCounts(old(nodes), nodes)
      ensures ok <==> frame < totalFrames && old(bitmap.bits)[frame]
      ensures ok ==> bitmap.bits == old(bitmap.bits)[frame := false] && freeFrames == old(freeFrames) + 1
      ensures !ok ==> bitmap.bits == old(bitmap.bits) && nodes == old(nodes) && freeFrames == old(freeFrames)
    {
      if frame >= totalFrames {
        return false;
      }
      var taken := bitmap.Test(frame);
      if !taken {
        return false;
      }
      Flip(frame, false);
      return true;
    }

    /** The first free frame in `[lo, hi)`. */
    method FirstFree(lo: nat, hi: nat) returns (found: bool, frame: nat)
      requires bitmap.Valid() && hi <= |bitmap.bits|
      ensures found ==> lo <= frame < hi && !bitmap.bits[frame] && forall g :: lo <= g < frame ==> bitmap.bits[g]
      ensures !found ==> forall g :: lo <= g < hi ==> bitmap.bits[g]
    {
      frame := lo;
      while frame < hi
        invariant lo <= frame && forall g :: lo <= g < frame && g < hi ==> bitmap.bits[g]
      {
        var taken := bitmap.Test(frame);
        if !taken {
          return true, frame;
        }
        frame := frame + 1;
      }
      return false, 0;
    }

    /** The node's next free frame from its cursor on. */
    method NextFree(n: NumaNode) returns (frame: nat)
      requires bitmap.Valid() && End(n) <= |bitmap.bits| && exists f: nat :: Contains(n, f) && !bitmap.bits[f]
      ensures FirstFrom(bitmap.bits, n, frame)
    {
      var cursor := Cursor(n);
      var found;
      found, frame := FirstFree(cursor, End(n));
      if !found {
        found, frame := FirstFree(n.firstFrame, cursor);
      }
    }

    /** Takes the node's next free frame from its cursor on; fails only on a full node. */
    method FindFreeFrameInNode(k: nat) returns (found: bool, frame: nat)
      requires Valid()
      modifies this`freeFrames, this`nodes, bitmap, bitmap.bytes
      ensures Valid() && SameLayout(old(nodes), nodes)
      ensures found <==> k < activeNodes && old(nodes)[k].freeFrames > 0
      ensures found ==> FirstFrom(old(bitmap.bits), old(nodes)[k], frame) && frame < totalFrames
      ensures found ==> bitmap.bits == old(bitmap.bits)[frame := true] && freeFrames == old(freeFrames) - 1
      ensures found ==> nodes == Drawn(old(nodes), k, frame)
      ensures !found ==> bitmap.bits == old(bitmap.bits) && nodes == old(nodes) && freeFrames == old(freeFrames)
    {
      if k >= activeNodes || nodes[k].frameCount == 0 || nodes[k].freeFrames == 0 {
        return false, 0;
      }
      var n := nodes[k];
      CountZero(bitmap.bits, n.firstFrame, End(n));
      frame := NextFree(n);
      found := ReserveFrame(frame);
      var next := if frame + 1 < End(n) then frame + 1 else n.firstFrame;
      DrawnIs(old(nodes), nodes, k, frame);
      LedgerCursor(nodes, activeNodes, totalFrames, bitmap.bits, freeFrames, k, next);
      nodes := nodes[k := nodes[k].(nextScanFrame := next)];
    }

    /** Goes round the nodes from the round-robin position, skipping the preferred one. */
    method TakeFromOthers(preferred: nat) returns (ok: bool, frame: nat, node: nat)
      requires Valid() && (preferred < activeNodes ==> nodes[preferred].freeFrames == 0)
      modifies this`freeFrames, this`nodes, bitmap, bitmap.bytes
      ensures Valid() && SameLayout(old(nodes), nodes)
      ensures ok <==> old(freeFrames) > 0
      ensures ok ==> node < activeNodes && FirstWithFree(old(nodes), Turn(roundRobin, activeNodes), activeNodes, node)
      ensures ok ==> FirstFrom(old(bitmap.bits), old(nodes)[node], frame) && frame < totalFrames
      ensures ok ==> bitmap.bits == old(bitmap.bits)[frame := true] && freeFrames == old(freeFrames) - 1
      ensures ok ==> nodes == Drawn(old(nodes), node, frame)
      ensures !ok ==> bitmap.bits == old(bitmap.bits) && nodes == old(nodes) && freeFrames == old(freeFrames)
    {
      var start := Turn(roundRobin, activeNodes);
      for i := 0 to activeNodes
        invariant Valid() && bitmap.bits == old(bitmap.bits) && nodes == old(nodes) && freeFrames == old(freeFrames)
        invariant forall j :: 0 <= j < i ==> nodes[Around(start, j, activeNodes)].freeFrames == 0
      {
        node := Around(start, i, activeNodes);
        if node != preferred {
          ok, frame := FindFreeFrameInNode(node);
          if ok {
            FoundFirst(old(nodes), start, activeNodes, i);
            return;
          }
        }
      }
      NothingFree(nodes, start, activeNodes, totalFrames, bitmap.bits, freeFrames);
      return false, 0, 0;
    }

    /** Takes a frame from the preferred node, or else from the others. */
    method TakeFrame(preferred: nat) returns (frame: nat, node: nat)
      requires Valid() && freeFrames > 0
      modifies this`freeFrames, this`nodes, bitmap, bitmap.bytes
      ensures Valid() && SameLayout(old(nodes), nodes)
      ensures node < activeNodes && Preferred(old(nodes), Turn(roundRobin, activeNodes), activeNodes, preferred, node)
      ensures FirstFrom(old(bitmap.bits), old(nodes)[node], frame) && frame < totalFrames
      ensures bitmap.bits == old(bitmap.bits)[frame := true] && freeFrames == old(freeFrames) - 1
      ensures nodes == Drawn(old(nodes), node, frame)
    {
      var ok;
      if preferred != NODE_ANY && preferred < activeNodes {
        ok, frame := FindFreeFrameInNode(preferred);
        if ok {
          return frame, preferred;
        }
      }
      ok, frame, node := TakeFromOthers(preferred);
    }

    /** What decides which frames are handed out. */
    ghost function Now(): Desk
      reads this, bitmap
    {
      Desk(bitmap.bits, nodes, roundRobin, activeNodes)
    }

    /** Allocates one frame.  It succeeds exactly when a frame is free, takes it from the
        preferred node when that node has one, and otherwise from the first node with a free
        frame going round from the round-robin position.  `Hands` says which frame that is and
        where the cursors are left. */
    method AllocFrameOnNode(preferred: nat) returns (ok: bool, physical: nat)
      requires Valid()
      modifies this, bitmap, bitmap.bytes
      ensures Valid() && SameLayout(old(nodes), nodes) && activeNodes == old(activeNodes) &&
        initialized == old(initialized)
      ensures ok <==> initialized && old(FreeSet()) != {}
      ensures ok ==> physical % PAGE_SIZE == 0 && physical / PAGE_SIZE in old(FreeSet())
      ensures FreeSet() == old(FreeSet()) - if ok then {physical / PAGE_SIZE} else {}
      ensures ok ==> Hands(old(Now()), Now(), preferred, physical / PAGE_SIZE)
      ensures initialized && !ok ==> Idle(old(Now()), preferred)
    {
      physical := 0;
      FreeOfEmpty(bitmap.bits, totalFrames);
      if !initialized || activeNodes == 0 || freeFrames == 0 {
        HandsFree(Now(), totalFrames, preferred);
        return false, 0;
      }
      var frame, node := TakeFrame(preferred);
      FreeOfFlip(old(bitmap.bits), totalFrames, frame, true);
      roundRobin := Turn(node + 1, activeNodes);
      HandsFrom(old(Now()), Now(), preferred, node, frame);
      FrameAddress(frame);
      return true, frame * PAGE_SIZE;
    }

    /** Gives a frame back; a second time does nothing. */
    method FreeFrame(physical: nat)
      requires Valid()
      modifies this, bitmap, bitmap.bytes
      ensures Valid() && SameLayout(old(nodes), nodes) && activeNodes == old(activeNodes) &&
        initialized == old(initialized)
      ensures physical / PAGE_SIZE < totalFrames ==> FreeSet() == old(FreeSet()) + {physical / PAGE_SIZE}
      ensures physical / PAGE_SIZE >= totalFrames ==> FreeSet() == old(FreeSet())
    {
      var ok := ReleaseFrame(physical / PAGE_SIZE);
      if ok { FreeOfFlip(old(bitmap.bits), totalFrames, physical / PAGE_SIZE, false); }
    }

    /** The lowest free run of `count` frames inside `[start, end)`. */
    method FindContiguousLinear(start: nat, end: nat, count: nat) returns (found: bool, run: nat)
      requires bitmap.Valid() && end <= |bitmap.bits|
      ensures found ==> count > 0 && start <= run && run + count <= end && FreeRun(bitmap.bits, run, count)
      ensures found ==> forall r :: start <= r < run ==> !FreeRun(bitmap.bits, r, count)
      ensures !found ==> count == 0 || NoRun(bitmap.bits, start, end, count)
    {
      run := 0;
      if start >= end || count == 0 || end - start < count {
        return false, 0;
      }
      var length := 0;
      for frame := start to end
        invariant length < count && length <= frame - start
        invariant length > 0 ==> run == frame - length
        invariant FreeRun(bitmap.bits, frame - length, length)
        invariant frame - length > start ==> bitmap.bits[frame - length - 1]
        invariant NoRun(bitmap.bits, start, frame, count)
      {
        var taken := bitmap.Test(frame);
        if taken {
          length := 0;
        } else {
          if length == 0 {
            run := frame;
          }
          length := length + 1;
        }
        RunGrows(bitmap.bits, start, frame, count, length);
        if length == count {
          return true, run;
        }
      }
      return false, 0;
    }

    /** The two halves of `[start, end)`, from the search position on and then before it. */
    method FindContiguousWrapped(start: nat, end: nat, count: nat, searchStart: nat) returns (found: bool, run: nat)
      requires bitmap.Valid() && end <= |bitmap.bits|
      ensures var c := if start <= searchStart < end then searchStart else start;
              if found then count > 0 && FirstClear(bitmap.bits, start, end, count, c, run)
              else count == 0 || NoClearRun(bitmap.bits, start, end, count, c)
    {
      run := 0;
      if start >= end || count == 0 || end - start < count {
        return false, 0;
      }
      var from := if searchStart < start || searchStart >= end then start else searchStart;
      found, run := FindContiguousLinear(from, end, count);
      if found || from == start {
        return;
      }
      found, run := FindContiguousLinear(start, from, count);
    }

    /** Reserves a free run, frame by frame. */
    method ReserveContiguous(start: nat, count: nat) returns (ok: bool)
      requires Valid() && FreeRun(bitmap.bits, start, count) && start + count <= totalFrames
      modifies this`freeFrames, this`nodes, bitmap, bitmap.bytes
      ensures Valid() && OnlyCounts(old(nodes), nodes)
      ensures ok && bitmap.bits == Filled(old(bitmap.bits), start, count)
    {
      for i := 0 to count
        invariant Valid() && OnlyCounts(old(nodes), nodes)
        invariant bitmap.bits == Filled(old(bitmap.bits), start, i)
      {
        FilledNext(old(bitmap.bits), start, i);
        ok := ReserveFrame(start + i);
        if !ok {
          return false;
        }
      }
      return true;
    }

    /** Looks for a run inside one node that does not straddle the node's cursor. */
    method SearchNode(k: nat, count: nat) returns (found: bool, run: nat)
      requires Valid() && k < activeNodes && count > 0
      ensures found ==> Takes(bitmap.bits, totalFrames, count, run) && RunIn(bitmap.bits, nodes[k], count, run)
      ensures !found ==> NodeBlocked(bitmap.bits, nodes[k], count)
    {
      var n := nodes[k];
      if n.frameCount < count || n.freeFrames < count {
        TooFew(bitmap.bits, n, count);
        return false, 0;
      }
      found, run := FindContiguousWrapped(n.firstFrame, End(n), count, Cursor(n));
    }

    /** Takes the node's first free run from its cursor on that does not straddle the cursor, and moves
        the cursor behind it. */
    method FindContiguousInNode(k: nat, count: nat) returns (found: bool, run: nat)
      requires Valid()
      modifies this`freeFrames, this`nodes, bitmap, bitmap.bytes
      ensures Valid() && SameLayout(old(nodes), nodes)
      ensures found ==>
          Takes(old(bitmap.bits), totalFrames, count, run) && bitmap.bits == Filled(old(bitmap.bits), run, count)
      ensures found ==> k < activeNodes && RunIn(old(bitmap.bits), old(nodes)[k], count, run)
      ensures found ==> OnlyCounts(Moved(old(nodes), k, run + count), nodes)
      ensures !found ==> bitmap.bits == old(bitmap.bits) && nodes == old(nodes) && freeFrames == old(freeFrames)
      ensures !found ==> count == 0 || k >= activeNodes || NodeBlocked(bitmap.bits, nodes[k], count)
    {
      if k >= activeNodes || count == 0 {
        return false, 0;
      }
      found, run := SearchNode(k, count);
      if found {
        var n := nodes[k];
        var ok := ReserveContiguous(run, count);
        var next := if run + count >= End(n) then n.firstFrame else run + count;
        LedgerCursor(nodes, activeNodes, totalFrames, bitmap.bits, freeFrames, k, next);
        nodes := nodes[k := nodes[k].(nextScanFrame := next)];
      }
    }

    /** Goes round the nodes for a run, skipping the preferred one, which has been tried. */
    method TakeRunFromOthers(count: nat, preferred: nat) returns (ok: bool, run: nat)
      requires Valid() && count > 0 && (preferred < activeNodes ==> NodeBlocked(bitmap.bits, nodes[preferred], count))
      modifies this`freeFrames, this`nodes, bitmap, bitmap.bytes
      ensures Valid() && SameLayout(old(nodes), nodes)
      ensures ok ==>
          Takes(old(bitmap.bits), totalFrames, count, run) && bitmap.bits == Filled(old(bitmap.bits), run, count)
      ensures ok ==> !NodesBlocked(old(bitmap.bits), old(nodes), activeNodes, count) && FromTurn(old(Now()), count, run)
      ensures !ok ==> bitmap.bits == old(bitmap.bits) && nodes == old(nodes) && freeFrames == old(freeFrames)
      ensures !ok ==> NodesBlocked(bitmap.bits, nodes, activeNodes, count)
    {
      var start := Turn(roundRobin, activeNodes);
      for i := 0 to activeNodes
        invariant Valid() && bitmap.bits == old(bitmap.bits) && nodes == old(nodes) && freeFrames == old(freeFrames)
        invariant forall j :: 0 <= j < i ==> NodeBlocked(bitmap.bits, nodes[Around(start, j, activeNodes)], count)
      {
        var node := Around(start, i, activeNodes);
        if node != preferred {
          ok, run := FindContiguousInNode(node, count);
          if ok {
            NodeNotBlocked(old(bitmap.bits), old(nodes)[node], count, run);
            FoundOpen(old(Now()), count, run, i);
            return;
          }
        }
      }
      forall k | 0 <= k < activeNodes ensures NodeBlocked(bitmap.bits, nodes[k], count) {
        AroundCovers(start, activeNodes, k);
      }
      return false, 0;
    }

    /** Takes a run when the preferred node has none: inside another node, or else anywhere clear of
        the global cursor. */
    method TakeRunElsewhere(count: nat, preferred: nat) returns (ok: bool, run: nat)
      requires Valid() && count > 0 && (preferred < activeNodes ==> NodeBlocked(bitmap.bits, nodes[preferred], count))
      modifies this`freeFrames, this`nodes, bitmap, bitmap.bytes
      ensures Valid() && SameLayout(old(nodes), nodes)
      ensures ok ==>
          Takes(old(bitmap.bits), totalFrames, count, run) && bitmap.bits == Filled(old(bitmap.bits), run, count)
      ensures ok ==> GivesRun(old(Now()), totalFrames, globalNext, preferred, count, run)
      ensures ok <==> !Blocked(old(bitmap.bits), old(nodes), activeNodes, totalFrames, globalNext, count)
      ensures !ok ==> bitmap.bits == old(bitmap.bits) && nodes == old(nodes) && freeFrames == old(freeFrames)
    {
      ok, run := TakeRunFromOthers(count, preferred);
      if !ok {
        ok, run := FindContiguousWrapped(0, totalFrames, count, globalNext);
        if ok {
          RunNotBlocked(bitmap.bits, totalFrames, count, GlobalCursor(globalNext, totalFrames), run);
          var reserved := ReserveContiguous(run, count);
        }
      }
    }

    /** Leaves the global cursor behind a run and the turn with the node after the one it starts in. */
    method Advance(run: nat, count: nat)
      requires Valid() && run < totalFrames
      modifies this`globalNext, this`roundRobin
      ensures Valid() && globalNext == (run + count) % totalFrames && TurnAfter(nodes, activeNodes, run, roundRobin)
    {
      var next := run + count;
      Wraps(next, totalFrames);
      globalNext := if next >= totalFrames then next % totalFrames else next;
      NodeExists(nodes, activeNodes, totalFrames, run, activeNodes - 1);
      var node := NodeIndexForFrame(run);
      if node != NODE_ANY && activeNodes > 0 {
        roundRobin := Turn(node + 1, activeNodes);
      }
    }

    /** The run of an allocation that the preferred node serves. */
    method TakePreferred(count: nat, preferred: nat) returns (ok: bool, run: nat)
      requires Valid() && count > 0
      modifies this`freeFrames, this`nodes, this`roundRobin, bitmap, bitmap.bytes
      ensures Valid() && SameLayout(old(nodes), nodes)
      ensures ok <==> Favours(old(Now()), preferred, count)
      ensures ok ==>
          Takes(old(bitmap.bits), totalFrames, count, run) && bitmap.bits == Filled(old(bitmap.bits), run, count)
      ensures ok ==> RunIn(old(bitmap.bits), old(nodes)[preferred], count, run)
      ensures ok ==> roundRobin == Turn(preferred + 1, activeNodes)
      ensures !ok ==> Now() == old(Now()) && freeFrames == old(freeFrames)
    {
      if preferred == NODE_ANY || preferred >= activeNodes {
        return false, 0;
      }
      ok, run := FindContiguousInNode(preferred, count);
      if ok {
        NodeNotBlocked(old(bitmap.bits), old(nodes)[preferred], count, run);
        roundRobin := Turn(preferred + 1, activeNodes);
      }
    }

    /** The run of an allocation that the preferred node cannot serve. */
    method TakeOther(count: nat, preferred: nat) returns (ok: bool, run: nat)
      requires Valid() && count > 0 && !Favours(Now(), preferred, count)
      modifies this`freeFrames, this`nodes, this`roundRobin, this`globalNext, bitmap, bitmap.bytes
      ensures Valid() && SameLayout(old(nodes), nodes)
      ensures ok <==> !Blocked(old(bitmap.bits), old(nodes), activeNodes, totalFrames, old(globalNext), count)
      ensures ok ==>
          Takes(old(bitmap.bits), totalFrames, count, run) && bitmap.bits == Filled(old(bitmap.bits), run, count)
      ensures ok ==> GivesRun(old(Now()), totalFrames, old(globalNext), preferred, count, run)
      ensures ok ==> globalNext == (run + count) % totalFrames && TurnAfter(nodes, activeNodes, run, roundRobin)
      ensures !ok ==> bitmap.bits == old(bitmap.bits) && nodes == old(nodes) && freeFrames == old(freeFrames)
    {
      ok, run := TakeRunElsewhere(count, preferred);
      if ok {
        Advance(run, count);
      }
    }

    /** The run of an allocation; the early checks have been made. */
    method TakeRun(count: nat, preferred: nat) returns (ok: bool, run: nat)
      requires Valid() && count > 0
      modifies this`freeFrames, this`nodes, this`roundRobin, this`globalNext, bitmap, bitmap.bytes
      ensures Valid() && SameLayout(old(nodes), nodes)
      ensures ok <==> !Blocked(old(bitmap.bits), old(nodes), activeNodes, totalFrames, old(globalNext), count)
      ensures ok ==>
          Takes(old(bitmap.bits), totalFrames, count, run) && bitmap.bits == Filled(old(bitmap.bits), run, count)
      ensures ok ==> GivesRun(old(Now()), totalFrames, old(globalNext), preferred, count, run)
      ensures ok ==> Positions(old(Now()), Now(), totalFrames, old(globalNext), globalNext, preferred, count, run)
      ensures !ok ==> bitmap.bits == old(bitmap.bits) && nodes == old(nodes) && freeFrames == old(freeFrames)
    {
      ok, run := TakePreferred(count, preferred);
      if ok {
        FavouredRun(old(Now()), totalFrames, globalNext, preferred, count, run);
      } else {
        ok, run := TakeOther(count, preferred);
      }
    }

    /** Allocates `count` contiguous frames.  Success takes exactly a run of frames that were
        free and no other: the first one from the preferred node's cursor on if that node has a free
        run clear of its cursor, else that of the first other node that has one, else the first one
        from the global cursor on.  Failure changes nothing and means that every free run of that
        length straddles the global cursor and, when it lies inside a node, also that node's
        cursor. */
    method AllocFramesOnNode(count: nat, preferred: nat) returns (ok: bool, physical: nat)
      requires Valid()
      modifies this, bitmap, bitmap.bytes
      ensures Valid() && SameLayout(old(nodes), nodes) && activeNodes == old(activeNodes) &&
        initialized == old(initialized)
      ensures ok <==> initialized && count > 0 &&
                      !Blocked(old(bitmap.bits), old(nodes), activeNodes, totalFrames, old(globalNext), count)
      ensures ok ==> physical % PAGE_SIZE == 0 && Takes(old(bitmap.bits), totalFrames, count, physical / PAGE_SIZE)
      ensures ok ==> GivesRun(old(Now()), totalFrames, old(globalNext), preferred, count, physical / PAGE_SIZE)
      ensures ok ==> bitmap.bits == Filled(old(bitmap.bits), physical / PAGE_SIZE, count)
      ensures ok ==> Positions(old(Now()), Now(), totalFrames, old(globalNext), globalNext, preferred, count,
                               physical / PAGE_SIZE)
      ensures !ok ==> bitmap.bits == old(bitmap.bits) && nodes == old(nodes) && freeFrames == old(freeFrames)
    {
      if count == 0 || !initialized || activeNodes == 0 {
        return false, 0;
      }
      if freeFrames < count {
        TooFewAnywhere(bitmap.bits, nodes, activeNodes, totalFrames, globalNext, count);
        return false, 0;
      }
      var run;
      ok, run := TakeRun(count, preferred);
      FrameAddress(run);
      physical := run * PAGE_SIZE;
    }

    /** Gives back `count` frames; those that are free already stay so.  The frame number is a
        32-bit word. */
    method FreeFrames(physical: nat, count: nat)
      requires Valid()
      modifies this`freeFrames, this`nodes, bitmap, bitmap.bytes
      ensures Valid() && |bitmap.bits| == |old(bitmap.bits)|
      ensures forall f :: 0 <= f < |bitmap.bits| ==>
                bitmap.bits[f] == (old(bitmap.bits)[f] && !(Listed(physical / PAGE_SIZE, count, f) && f < totalFrames))
    {
      var frame := physical / PAGE_SIZE;
      for i := 0 to count
        invariant Valid() && |bitmap.bits| == |old(bitmap.bits)|
        invariant forall f :: 0 <= f < |bitmap.bits| ==>
                    bitmap.bits[f] == (old(bitmap.bits)[f] && !(Listed(frame, i, f) && f < totalFrames))
      {
        var ok := ReleaseFrame(Frame32(frame, i));
        forall f | 0 <= f < |bitmap.bits|
          ensures Listed(frame, i + 1, f) <==> Listed(frame, i, f) || f == Frame32(frame, i)
        {
          ListedNext(frame, i, f);
        }
      }
    }
  }

  ghost predicate NodesBlocked(bits: seq<bool>, nodes: seq<NumaNode>, active: nat, count: nat)
    requires active <= |nodes|
  {
    forall k :: 0 <= k < active ==> NodeBlocked(bits, nodes[k], count)
  }

  function GlobalCursor(next: nat, total: nat): nat { if next < total then next else 0 }

  /** No run can be placed: each one straddles the global cursor and, inside a node, that
      node's cursor as well. */
  ghost predicate Blocked(bits: seq<bool>, nodes: seq<NumaNode>, active: nat, total: nat, next: nat, count: nat)
    requires active <= |nodes|
  {
    NodesBlocked(bits, nodes, active, count) && NoClearRun(bits, 0, total, count, GlobalCursor(next, total))
  }

  lemma {:induction false} NodeNotBlocked(bits: seq<bool>, n: NumaNode, count: nat, r: nat)
    requires InNode(n, r, count) && FreeRun(bits, r, count)
    ensures !NodeBlocked(bits, n, count)
  {
  }

  lemma {:induction false} RunNotBlocked(bits: seq<bool>, total: nat, count: nat, c: nat, r: nat)
    requires FreeRun(bits, r, count) && r + count <= total && ClearOf(r, count, c)
    ensures !NoClearRun(bits, 0, total, count, c)
  {
  }

  lemma {:induction false} TooFewAnywhere(bits: seq<bool>, nodes: seq<NumaNode>, active: nat, total: nat, next: nat,
                                          count: nat)
    requires Partition(nodes, active, total) && total <= |bits| && CountFree(bits, 0, total) < count
    ensures Blocked(bits, nodes, active, total, next, count)
  {
    forall r: nat | r + count <= total ensures !FreeRun(bits, r, count) {
      if FreeRun(bits, r, count) { CountRun(bits, r, count, 0, total); }
    }
    forall k | 0 <= k < active ensures NodeBlocked(bits, nodes[k], count) {
      assert End(nodes[k]) <= total;
    }
  }

  /** A straddled run is a real refusal: four frames, only the middle two free and both
      cursors between them, yield no run of two. */
  lemma {:induction false} StraddledRunRefused()
    ensures var bits, nodes := [true, false, false, true], [NumaNode(0, 4, 2, 2)];
            Ledger(nodes, 1, 4, bits, 2) && FreeRun(bits, 1, 2) && Blocked(bits, nodes, 1, 4, 2, 2)
  {
    var bits, nodes := [true, false, false, true], [NumaNode(0, 4, 2, 2)];
    assert CountFree(bits, 0, 1) == 0 && CountFree(bits, 0, 2) == 1 && CountFree(bits, 0, 3) == 2;
    forall r: nat | r + 2 <= 4 && ClearOf(r, 2, 2) ensures !FreeRun(bits, r, 2) {
      assert r == 0 || r == 2;
      assert bits[0] && bits[3];
    }
  }

  /** No free run of `count` frames lies inside `[start, end)`. */
  ghost predicate NoRun(bits: seq<bool>, start: nat, end: nat, count: nat) {
    forall r :: start <= r && r + count <= end ==> !FreeRun(bits, r, count)
  }

  /** Every free run of `count` frames inside `[start, end)` straddles `c`. */
  ghost predicate NoClearRun(bits: seq<bool>, start: nat, end: nat, count: nat, c: nat) {
    forall r :: start <= r && r + count <= end && ClearOf(r, count, c) ==> !FreeRun(bits, r, count)
  }

  /** The run lies inside the node, clear of its cursor. */
  predicate InNode(n: NumaNode, r: nat, count: nat) {
    n.firstFrame <= r && r + count <= End(n) && ClearOf(r, count, Cursor(n))
  }

  /** Going up from `c` to the end and then from the start to `c`, `r` comes before `run`. */
  predicate Sooner(r: nat, run: nat, c: nat) {
    if run >= c then c <= r < run else r >= c || r < run
  }

  /** The first free run clear of `c` inside `[start, end)`, going up from `c` and then from the start. */
  ghost predicate FirstClear(bits: seq<bool>, start: nat, end: nat, count: nat, c: nat, run: nat) {
    start <= run && run + count <= end && FreeRun(bits, run, count) && ClearOf(run, count, c) &&
    forall r: nat :: start <= r && r + count <= end && ClearOf(r, count, c) && Sooner(r, run, c) ==>
      !FreeRun(bits, r, count)
  }

  ghost predicate RunIn(bits: seq<bool>, n: NumaNode, count: nat, run: nat) {
    InNode(n, run, count) && FirstClear(bits, n.firstFrame, End(n), count, Cursor(n), run)
  }

  /** Node `k`'s cursor moved on to `next`, or back to its first frame. */
  function Moved(nodes: seq<NumaNode>, k: nat, next: nat): seq<NumaNode>
    requires k < |nodes|
  {
    nodes[k := nodes[k].(nextScanFrame := if next >= End(nodes[k]) then nodes[k].firstFrame else next)]
  }

  /** The preferred node has a free run clear of its cursor. */
  ghost predicate Favours(d: Desk, preferred: nat, count: nat)
    requires d.active <= |d.nodes|
  {
    preferred < d.active && !NodeBlocked(d.bits, d.nodes[preferred], count)
  }

  /** The run of the first node that has one, going round. */
  ghost predicate FromTurn(d: Desk, count: nat, run: nat)
    requires 0 < d.active <= |d.nodes|
  {
    exists i :: 0 <= i < d.active && OpenAt(d, count, i) &&
                RunIn(d.bits, d.nodes[Around(Turn(d.roundRobin, d.active), i, d.active)], count, run)
  }

  /** The `i`th node going round has a free run clear of its cursor, and those before it do not. */
  ghost predicate OpenAt(d: Desk, count: nat, i: nat)
    requires 0 < d.active <= |d.nodes| && i < d.active
  {
    var start := Turn(d.roundRobin, d.active);
    !NodeBlocked(d.bits, d.nodes[Around(start, i, d.active)], count) &&
    forall j :: 0 <= j < i ==> NodeBlocked(d.bits, d.nodes[Around(start, j, d.active)], count)
  }

  lemma {:induction false} FoundOpen(d: Desk, count: nat, run: nat, i: nat)
    requires 0 < d.active <= |d.nodes| && i < d.active && OpenAt(d, count, i)
    requires RunIn(d.bits, d.nodes[Around(Turn(d.roundRobin, d.active), i, d.active)], count, run)
    ensures FromTurn(d, count, run)
  {
  }

  /** The run that an allocation of `count` frames takes. */
  ghost predicate GivesRun(d: Desk, total: nat, next: nat, preferred: nat, count: nat, run: nat) {
    0 < d.active <= |d.nodes| &&
    if Favours(d, preferred, count) then RunIn(d.bits, d.nodes[preferred], count, run)
    else if !NodesBlocked(d.bits, d.nodes, d.active, count) then FromTurn(d, count, run)
    else FirstClear(d.bits, 0, total, count, GlobalCursor(next, total), run)
  }

  lemma {:induction false} FavouredRun(d: Desk, total: nat, next: nat, preferred: nat, count: nat, run: nat)
    requires 0 < d.active <= |d.nodes| && Favours(d, preferred, count) &&
      RunIn(d.bits, d.nodes[preferred], count, run)
    ensures GivesRun(d, total, next, preferred, count, run) &&
      !Blocked(d.bits, d.nodes, d.active, total, next, count)
  {
  }

  lemma {:induction false} Wraps(next: nat, total: nat)
    requires total > 0
    ensures next % total == if next >= total then next % total else next
  {
  }

  /** The turn is with the node behind the one that the run starts in. */
  ghost predicate TurnAfter(nodes: seq<NumaNode>, active: nat, run: nat, turn: nat)
    requires 0 < active <= |nodes|
  {
    exists k: nat :: k < active && Contains(nodes[k], run) && turn == Turn(k + 1, active)
  }

  /** Where a run leaves the turn and the global cursor: a run of the preferred node passes the turn
      on and leaves the cursor alone. */
  ghost predicate Positions(d: Desk, e: Desk, total: nat, next: nat, next': nat, preferred: nat, count: nat, run: nat) {
    0 < d.active == e.active <= |d.nodes| == |e.nodes| && total > 0 &&
    if Favours(d, preferred, count) then next' == next && e.roundRobin == Turn(preferred + 1, d.active)
    else next' == (run + count) % total && TurnAfter(e.nodes, d.active, run, e.roundRobin)
  }

  /** The node has no free run that is clear of its cursor. */
  ghost predicate NodeBlocked(bits: seq<bool>, n: NumaNode, count: nat) {
    NoClearRun(bits, n.firstFrame, End(n), count, Cursor(n))
  }

  /** A run of existing free frames. */
  ghost predicate Takes(bits: seq<bool>, total: nat, count: nat, r: nat) {
    count > 0 && r + count <= total && FreeRun(bits, r, count)
  }

  /** The bitmap with `[r, r + n)` reserved. */
  function Filled(bits: seq<bool>, r: nat, n: nat): seq<bool> {
    seq(|bits|, f requires 0 <= f < |bits| => bits[f] || r <= f < r + n)
  }

  lemma {:induction false} FilledNext(bits: seq<bool>, r: nat, n: nat)
    requires r + n < |bits|
    ensures Filled(bits, r, n)[r + n := true] == Filled(bits, r, n + 1)
    ensures Filled(bits, r, n)[r + n] == bits[r + n]
  {
  }

  /** Looking at one more frame: a run that ends there would be the current one. */
  lemma {:induction false} RunGrows(bits: seq<bool>, start: nat, frame: nat, count: nat, length: nat)
    requires start <= frame < |bits| && length <= frame + 1 - start && count > 0
    requires NoRun(bits, start, frame, count)
    requires frame + 1 - length > start ==> bits[frame - length]
    ensures length < count ==> NoRun(bits, start, frame + 1, count)
  {
    forall r | start <= r && r + count <= frame + 1 && length < count ensures !FreeRun(bits, r, count) {
      if r + count == frame + 1 { assert r <= frame - length < r + count; }
    }
  }

  lemma {:induction false} TooFew(bits: seq<bool>, n: NumaNode, count: nat)
    requires End(n) <= |bits| && n.freeFrames == CountFree(bits, n.firstFrame, End(n))
    requires n.frameCount < count || n.freeFrames < count
    ensures NodeBlocked(bits, n, count)
  {
    forall r | n.firstFrame <= r && r + count <= End(n) ensures !FreeRun(bits, r, count) {
      if FreeRun(bits, r, count) { CountRun(bits, r, count, n.firstFrame, End(n)); }
    }
  }

  lemma {:induction false} FrameAddress(frame: nat)
    ensures (frame * PAGE_SIZE) % PAGE_SIZE == 0 && (frame * PAGE_SIZE) / PAGE_SIZE == frame
  {
  }

  /** Node `k` is the first one with a free frame, going round from `start`. */
  ghost predicate FirstWithFree(nodes: seq<NumaNode>, start: nat, active: nat, k: nat)
    requires start < active <= |nodes|
  {
    exists i :: 0 <= i < active && k == Around(start, i, active) && nodes[k].freeFrames > 0 &&
                forall j :: 0 <= j < i ==> nodes[Around(start, j, active)].freeFrames == 0
  }

  /** The node an allocation is served from. */
  ghost predicate Preferred(nodes: seq<NumaNode>, start: nat, active: nat, preferred: nat, k: nat)
    requires start < active <= |nodes|
  {
    if preferred < active && nodes[preferred].freeFrames > 0 then k == preferred
    else FirstWithFree(nodes, start, active, k)
  }

  /** What an allocation looks at: the bits, the nodes with their cursors, the round-robin position
      and the number of nodes. */
  datatype Desk = Desk(bits: seq<bool>, nodes: seq<NumaNode>, roundRobin: nat, active: nat)

  function Turn(n: nat, active: nat): (k: nat)
    requires active > 0
    ensures k < active
  {
    n % active
  }

  /** The frame is the next free one of node `k`, from which the allocation is served. */
  ghost predicate Serves(d: Desk, preferred: nat, k: nat, frame: nat) {
    k < d.active <= |d.nodes| && Preferred(d.nodes, Turn(d.roundRobin, d.active), d.active, preferred, k) &&
    FirstFrom(d.bits, d.nodes[k], frame) && d.nodes[k].freeFrames > 0
  }

  /** Node `k` after the frame was drawn from it: one less, and the cursor behind the frame. */
  function Drawn(nodes: seq<NumaNode>, k: nat, frame: nat): seq<NumaNode>
    requires k < |nodes| && nodes[k].freeFrames > 0
  {
    var n := nodes[k];
    nodes[k := n.(freeFrames := n.freeFrames - 1,
                  nextScanFrame := if frame + 1 < End(n) then frame + 1 else n.firstFrame)]
  }

  /** What it looks at the next time. */
  function Onward(d: Desk, k: nat, frame: nat): Desk
    requires k < d.active <= |d.nodes| && d.nodes[k].freeFrames > 0 && frame < |d.bits|
  {
    Desk(d.bits[frame := true], Drawn(d.nodes, k, frame), Turn(k + 1, d.active), d.active)
  }

  /** An allocation in `d` hands out the frame and leaves `e`. */
  ghost predicate Hands(d: Desk, e: Desk, preferred: nat, frame: nat) {
    exists k :: Serves(d, preferred, k, frame) && frame < |d.bits| && e == Onward(d, k, frame)
  }

  lemma {:induction false} DrawnIs(a: seq<NumaNode>, b: seq<NumaNode>, k: nat, frame: nat)
    requires AdjustedAt(a, b, k, -1)
    ensures b[k := b[k].(nextScanFrame := if frame + 1 < End(a[k]) then frame + 1 else a[k].firstFrame)] ==
            Drawn(a, k, frame)
  {
  }

  lemma {:induction false} HandsFrom(d: Desk, e: Desk, preferred: nat, k: nat, frame: nat)
    requires k < d.active <= |d.nodes| && Preferred(d.nodes, Turn(d.roundRobin, d.active), d.active, preferred, k)
    requires FirstFrom(d.bits, d.nodes[k], frame) && d.nodes[k].freeFrames > 0 && e.bits == d.bits[frame := true]
    requires e.nodes == Drawn(d.nodes, k, frame) && e.roundRobin == Turn(k + 1, d.active) && e.active == d.active
    ensures Hands(d, e, preferred, frame)
  {
    assert Serves(d, preferred, k, frame) && e == Onward(d, k, frame);
  }

  /** There is no frame to hand out. */
  ghost predicate Idle(d: Desk, preferred: nat) {
    forall e, frame: nat :: !Hands(d, e, preferred, frame)
  }

  lemma {:induction false} FirstWithFreeUnique(nodes: seq<NumaNode>, start: nat, active: nat, k: nat, l: nat)
    requires start < active <= |nodes|
    requires FirstWithFree(nodes, start, active, k) && FirstWithFree(nodes, start, active, l)
    ensures k == l
  {
  }

  lemma {:induction false} FirstFromUnique(bits: seq<bool>, n: NumaNode, f: nat, g: nat)
    requires FirstFrom(bits, n, f) && FirstFrom(bits, n, g)
    ensures f == g
  {
  }

  lemma {:induction false} ServesUnique(d: Desk, preferred: nat, k: nat, l: nat, f: nat, g: nat)
    requires Serves(d, preferred, k, f) && Serves(d, preferred, l, g)
    ensures k == l && f == g
  {
    if !(preferred < d.active && d.nodes[preferred].freeFrames > 0) {
      FirstWithFreeUnique(d.nodes, Turn(d.roundRobin, d.active), d.active, k, l);
    }
    FirstFromUnique(d.bits, d.nodes[k], f, g);
  }

  /** The state before an allocation fixes the frame and the state after it. */
  lemma {:induction false} HandsUnique(d: Desk, e: Desk, e': Desk, preferred: nat, f: nat, g: nat)
    requires Hands(d, e, preferred, f) && Hands(d, e', preferred, g)
    ensures f == g && e == e'
  {
    var k :| Serves(d, preferred, k, f) && f < |d.bits| && e == Onward(d, k, f);
    var l :| Serves(d, preferred, l, g) && g < |d.bits| && e' == Onward(d, l, g);
    ServesUnique(d, preferred, k, l, f, g);
  }

  /** What is handed out was free. */
  lemma {:induction false} HandsFree(d: Desk, total: nat, preferred: nat)
    requires Partition(d.nodes, d.active, total) && total <= |d.bits|
    ensures forall e, f: nat :: Hands(d, e, preferred, f) ==> f in FreeOf(d.bits, total)
  {
    forall e, f: nat | Hands(d, e, preferred, f) ensures f in FreeOf(d.bits, total) {
      var k :| Serves(d, preferred, k, f) && f < |d.bits| && e == Onward(d, k, f);
    }
  }

  lemma {:induction false} FoundFirst(nodes: seq<NumaNode>, start: nat, active: nat, i: nat)
    requires start < active <= |nodes| && i < active && nodes[Around(start, i, active)].freeFrames > 0
    requires forall j :: 0 <= j < i ==> nodes[Around(start, j, active)].freeFrames == 0
    ensures FirstWithFree(nodes, start, active, Around(start, i, active))
  {
  }

  /** A full round without a free frame means that there is none. */
  lemma {:induction false} NothingFree(nodes: seq<NumaNode>, start: nat, active: nat, total: nat, bits: seq<bool>,
                                       free: nat)
    requires Ledger(nodes, active, total, bits, free) && start < active
    requires forall j :: 0 <= j < active ==> nodes[Around(start, j, active)].freeFrames == 0
    ensures free == 0
  {
    forall k | 0 <= k < active ensures nodes[k].freeFrames == 0 { AroundCovers(start, active, k); }
    if free > 0 { SomeNodeHasFree(nodes, active, total, bits, free); }
  }

  /** The frames given to the first `i` nodes. */
  function Placed(base: nat, extra: nat, i: nat): nat {
    if i == 0 then 0 else Placed(base, extra, i - 1) + base + if i - 1 < extra then 1 else 0
  }

  lemma {:induction false} PlacedClosed(base: nat, extra: nat, i: nat)
    ensures Placed(base, extra, i) == i * base + if i < extra then i else extra
  {
    if i > 0 {
      PlacedClosed(base, extra, i - 1);
      assert i * base == (i - 1) * base + base;
    }
  }

  lemma {:induction false} SplitEvenly(total: nat, count: nat)
    requires count > 0
    ensures total % count < count && Placed(total / count, total % count, count) == total
  {
    PlacedClosed(total / count, total % count, count);
  }

  lemma {:induction false} PrefixLayout(a: seq<NumaNode>, b: seq<NumaNode>, active: nat, total: nat)
    requires Partition(a, active, total) && Even(a, active) && |a| == |b| && a[..active] == b[..active]
    ensures Partition(b, active, total) && Even(b, active)
    ensures forall i :: 0 <= i < active ==> a[i] == b[i]
  {
    forall i | 0 <= i < active ensures a[i] == b[i] { assert a[..active][i] == b[..active][i]; }
    forall i | 0 < i < active ensures Adjacent(b, i) { assert Adjacent(a, i); }
  }
}
